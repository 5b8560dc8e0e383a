/** The text screen, kernel/arch/i386/display.c, against a terminal that never scrolls. */
module Display {
  const COLUMNS: nat := 80
  const ROWS: nat := 25
  const SPACE: nat := 0x20
  const UNDERSCORE: nat := 0x5f
  const NEWLINE: nat := 10
  const RETURN: nat := 13
  const BACKSPACE: nat := 8
  const TAB: nat := 9
  const TAB_CHAR_COUNT: nat := 4

  type byte = x: nat | x < 256
  type cell = x: nat | x < 0x1_0000

  /** The attribute byte and, below it, the character cut to a byte. */
  function Cell(color: byte, c: nat): cell {
    256 * color + c % 256
  }

  function Blank(color: byte): cell {
    Cell(color, SPACE)
  }

  /** color | 0x80 */
  function Blinking(color: byte): byte {
    if color < 0x80 then color + 0x80 else color
  }

  function Cursor(color: byte): cell {
    Cell(Blinking(color), UNDERSCORE)
  }

  // ----- The terminal

  /**
   lines: the rows above the cursor, each of full width, also those that have left the screen
   line: the cells before the cursor in its row;  rest: those from the cursor on
   below: the rows below it, down to the last row of the screen
   color: the current colour;  ink: the colour the cursor was drawn in
   */
  datatype Terminal = Terminal(
    lines: seq<seq<cell>>, line: seq<cell>, rest: seq<cell>, below: seq<seq<cell>>, color: byte, ink: byte)

  ghost predicate Regular(t: Terminal) {
    && |t.line| < COLUMNS && |t.line| + |t.rest| == COLUMNS && |t.below| < ROWS <= |t.lines| + |t.below| + 1
    && (forall i :: 0 <= i < |t.lines| ==> |t.lines[i]| == COLUMNS)
    && (forall i :: 0 <= i < |t.below| ==> |t.below[i]| == COLUMNS)
  }

  function Blanks(color: byte, n: nat): (s: seq<cell>)
    ensures |s| == n && forall i :: 0 <= i < n ==> s[i] == Blank(color)
  {
    if n == 0 then [] else [Blank(color)] + Blanks(color, n - 1)
  }

  /** The row of the cursor is complete, and it goes to the next one: at the end of the screen to an empty one. */
  function WithRow(t: Terminal, row: seq<cell>): Terminal {
    if t.below == [] then Terminal(t.lines + [row], [], Blanks(t.color, COLUMNS), [], t.color, t.color)
    else Terminal(t.lines + [row], [], t.below[0], t.below[1..], t.color, t.color)
  }

  /** A cell goes where the cursor is. */
  function WithCell(t: Terminal, c: cell): (r: Terminal)
    requires Regular(t)
    ensures Regular(r)
  {
    if |t.line| + 1 == COLUMNS then WithRow(t, t.line + [c])
    else t.(line := t.line + [c], rest := t.rest[1..], ink := t.color)
  }

  /** The first row of the screen, and whether the cursor stands in its first cell. */
  function Top(t: Terminal): int {
    |t.lines| + |t.below| + 1 - ROWS
  }

  predicate AtOrigin(t: Terminal) {
    t.line == [] && Top(t) == |t.lines|
  }

  /** The cell before the cursor, and the one under it, become blank: it may be the last one of the row above. */
  function WithoutCell(t: Terminal): (r: Terminal)
    requires Regular(t)
    ensures Regular(r)
  {
    var b := Blank(t.color);
    if t.line != [] then
      t.(line := t.line[..|t.line| - 1], rest := [b, b] + t.rest[1..], ink := t.color)
    else if AtOrigin(t) then
      t.(rest := [b] + t.rest[1..], ink := t.color)
    else
      var n := |t.lines| - 1;
      Terminal(t.lines[..n], t.lines[n][..COLUMNS - 1], [b], [[b] + t.rest[1..]] + t.below, t.color, t.color)
  }

  /**
   One turn of tabulate. Once the screen has moved under it, its location stays behind, below the
   screen (lost), so that the picture of the cursor is left where it was.
   */
  function Tabbed(t: Terminal, n: nat): (r: (Terminal, bool))
    requires Regular(t) && n <= TAB_CHAR_COUNT
    ensures Regular(r.0) && (r.1 ==> |r.0.line| < n)
  {
    if n == 0 then (t, false)
    else
      var (u, lost) := Tabbed(t, n - 1);
      if lost then (WithCell(u, Cursor(u.ink)), true)
      else (WithCell(u, Blank(u.color)), |u.line| + 1 == COLUMNS && u.below == [])
  }

  /** A carriage return is a newline. */
  function Written(t: Terminal, c: nat): (r: Terminal)
    requires Regular(t)
    ensures Regular(r)
  {
    if c == BACKSPACE then WithoutCell(t)
    else if c == TAB then Tabbed(t, TAB_CHAR_COUNT).0
    else if c == NEWLINE || c == RETURN then WithRow(t, t.line + [Blank(t.color)] + t.rest[1..])
    else WithCell(t, Cell(t.color, c))
  }

  function Cleared(color: byte): (t: Terminal)
    ensures Regular(t)
  {
    Terminal([], [], Blanks(color, COLUMNS), seq(ROWS - 1, _ => Blanks(color, COLUMNS)), color, color)
  }

  // ----- The window on it

  /** Cell c of row i: of a row above the cursor, of its own, or of one below. */
  function CellAt(t: Terminal, i: nat, c: nat): cell
    requires Regular(t) && c < COLUMNS && i < Top(t) + ROWS
  {
    if i < |t.lines| then t.lines[i][c]
    else if i > |t.lines| then t.below[i - |t.lines| - 1][c]
    else if c < |t.line| then t.line[c]
    else t.rest[c - |t.line|]
  }

  /** What the screen holds at row r and column c: the last 25 rows with the cursor on top. */
  function Expected(t: Terminal, r: nat, c: nat): cell
    requires Regular(t) && c < COLUMNS && r < ROWS
  {
    if Top(t) + r == |t.lines| && c == |t.line| then Cursor(t.ink) else CellAt(t, Top(t) + r, c)
  }

  ghost predicate Shows(video: seq<cell>, x: nat, y: nat, color: byte, t: Terminal) {
    && |video| == COLUMNS * ROWS && Regular(t)
    && x == |t.line| && Top(t) + y == |t.lines| && color == t.color
    && forall r, c {:trigger Expected(t, r, c)} :: 0 <= r < ROWS && 0 <= c < COLUMNS ==>
      video[COLUMNS * r + c] == Expected(t, r, c)
  }

  // ----- Laws of the terminal

  function Typed(t: Terminal, s: seq<nat>): (r: Terminal)
    requires Regular(t)
    ensures Regular(r)
  {
    if s == [] then t else Written(Typed(t, s[..|s| - 1]), s[|s| - 1])
  }

  ghost predicate Printable(s: seq<nat>) {
    forall i :: 0 <= i < |s| ==> s[i] !in {NEWLINE, RETURN, TAB, BACKSPACE}
  }

  /** Plain text on a cleared terminal wraps at the width: character k stands in row k / 80 and column k % 80. */
  lemma {:induction false} PlainTextWraps(color: byte, s: seq<nat>, k: nat)
    requires Printable(s)
    ensures var t := Typed(Cleared(color), s);
      && |t.lines| == |s| / COLUMNS && |t.line| == |s| % COLUMNS && t.color == color
      && (k < |s| ==> k / COLUMNS < Top(t) + ROWS && CellAt(t, k / COLUMNS, k % COLUMNS) == Cell(color, s[k]))
  {
    hide WithoutCell;
    if s != [] {
      var n := |s| - 1;
      PlainTextWraps(color, s[..n], k);
      assert s[n] !in {NEWLINE, RETURN, TAB, BACKSPACE};
      if k < n { assert s[..n][k] == s[k]; }
      NextPlace(n);
    }
  }

  lemma NextPlace(n: nat)
    ensures n % COLUMNS + 1 == COLUMNS ==> (n + 1) / COLUMNS == n / COLUMNS + 1 && (n + 1) % COLUMNS == 0
    ensures n % COLUMNS + 1 < COLUMNS ==> (n + 1) / COLUMNS == n / COLUMNS && (n + 1) % COLUMNS == n % COLUMNS + 1
  {
  }

  /** Without backspaces writing never changes a complete row, and the rows only grow. */
  lemma {:induction false} CompleteRowsStay(t: Terminal, s: seq<nat>)
    requires Regular(t) && BACKSPACE !in s
    ensures t.lines <= Typed(t, s).lines
  {
    if s != [] {
      var u := Typed(t, s[..|s| - 1]);
      CompleteRowsStay(t, s[..|s| - 1]);
      if s[|s| - 1] == TAB { TabKeepsRows(u, TAB_CHAR_COUNT); }
    }
  }

  lemma {:induction false} TabKeepsRows(t: Terminal, n: nat)
    requires Regular(t) && n <= TAB_CHAR_COUNT
    ensures t.lines <= Tabbed(t, n).0.lines
  {
    if n > 0 { TabKeepsRows(t, n - 1); }
  }

  lemma {:induction false} TypedOn(t: Terminal, s: seq<nat>, r: seq<nat>)
    requires Regular(t)
    ensures Typed(t, s + r) == Typed(Typed(t, s), r)
    decreases |r|
  {
    hide Written;
    if r == [] {
      assert s + r == s;
    } else {
      var n := |r| - 1;
      assert (s + r)[..|s| + n] == s + r[..n] && (s + r)[|s| + n] == r[n];
      TypedOn(t, s, r[..n]);
    }
  }

  // ----- Newlines

  /**
   A newline or a carriage return takes the cursor to column 0 of the row below. The row it leaves keeps
   its cells before the cursor, has a blank where the cursor stood, and keeps the rest. The row it comes
   to stays as it is; at the end of the screen that is a new one, empty and in the current colour.
   */
  lemma NewlineGoesDown(t: Terminal, c: nat)
    requires Regular(t) && (c == 10 || c == 13)
    ensures var u, n := Written(t, c), |t.lines|;
      && |u.lines| == n + 1 && u.lines[..n] == t.lines && u.line == []
      && (forall d :: 0 <= d < COLUMNS ==> u.lines[n][d] == if d == |t.line| then Blank(t.color) else CellAt(t, n, d))
      && (if t.below != [] then
            Top(u) == Top(t) && u.rest == t.below[0] && u.below == t.below[1..]
          else
            Top(u) == Top(t) + 1 && u.below == [] && forall d :: 0 <= d < COLUMNS ==> u.rest[d] == Blank(t.color))
  {
  }

  /** Text behind a newline begins a row of its own, and wraps at the width from there. */
  lemma LineBegins(t: Terminal, c: nat, s: seq<nat>)
    requires Regular(t) && (c == 10 || c == 13) && Printable(s)
    ensures var u := Typed(t, [c] + s); |u.lines| == |t.lines| + 1 + |s| / COLUMNS && |u.line| == |s| % COLUMNS
  {
    hide Typed;
    NewlineGoesDown(t, c);
    TypedOn(t, [c], s);
    OneTyped(t, c);
    TextMoves(Written(t, c), s);
  }

  lemma OneTyped(t: Terminal, c: nat)
    requires Regular(t)
    ensures Typed(t, [c]) == Written(t, c)
  {
    assert [c][..0] == [];
  }

  /** Where the next character goes after this text, by its newlines and the characters behind them. */
  ghost function Position(s: seq<nat>): (p: (nat, nat))
    ensures p.1 < COLUMNS
  {
    if s == [] then (0, 0)
    else
      var (row, column) := Position(s[..|s| - 1]);
      if s[|s| - 1] == 10 || s[|s| - 1] == 13 || column + 1 == COLUMNS then (row + 1, 0) else (row, column + 1)
  }

  predicate Before(p: (nat, nat), q: (nat, nat)) {
    p.0 < q.0 || (p.0 == q.0 && p.1 < q.1)
  }

  lemma {:induction false} PositionsRise(s: seq<nat>, k: nat)
    requires k < |s|
    ensures Before(Position(s[..k]), Position(s))
  {
    var n := |s| - 1;
    if k < n {
      PositionsRise(s[..n], k);
      assert s[..n][..k] == s[..k];
    }
  }

  /** A character changes no cell before the cursor. */
  lemma CellsBeforeStay(t: Terminal, c: nat, i: nat, d: nat)
    requires Regular(t) && c != TAB && c != BACKSPACE && d < COLUMNS && Before((i, d), (|t.lines|, |t.line|))
    ensures i < Top(Written(t, c)) + ROWS && CellAt(Written(t, c), i, d) == CellAt(t, i, d)
  {
  }

  /** A character goes where the cursor is, and takes it to the next position. */
  lemma OneStands(u: Terminal, c: nat)
    requires Regular(u) && c != TAB && c != BACKSPACE
    ensures var r, n := Written(u, c), |u.lines|;
      && r.color == u.color && Regular(r)
      && (|r.lines|, |r.line|) ==
         (if c == 10 || c == 13 || |u.line| + 1 == COLUMNS then (n + 1, 0) else (n, |u.line| + 1))
      && (c != 10 && c != 13 ==> n < Top(r) + ROWS && CellAt(r, n, |u.line|) == Cell(u.color, c))
  {
    hide WithoutCell, Tabbed;
  }

  /** Text with newlines on a cleared terminal: every other character stands where its position says. */
  lemma {:induction false} TextStands(color: byte, s: seq<nat>, k: nat)
    requires TAB !in s && BACKSPACE !in s
    ensures var t := Typed(Cleared(color), s);
      && Position(s) == (|t.lines|, |t.line|) && t.color == color
      && (k < |s| && s[k] != 10 && s[k] != 13 ==>
        var (row, column) := Position(s[..k]);
        row < Top(t) + ROWS && CellAt(t, row, column) == Cell(color, s[k]))
  {
    hide Written, CellAt;
    if s != [] {
      var n := |s| - 1;
      var u := Typed(Cleared(color), s[..n]);
      TextStands(color, s[..n], k);
      assert s[n] in s;
      OneStands(u, s[n]);
      if k < n {
        assert s[..n][k] == s[k] && s[..n][..k] == s[..k];
        PositionsRise(s[..n], k);
        if s[k] != 10 && s[k] != 13 { CellsBeforeStay(u, s[n], Position(s[..k]).0, Position(s[..k]).1); }
      }
    }
  }

  // ----- Cells

  lemma Place(r: nat, d: nat, y: nat, x: nat)
    requires d < COLUMNS && x < COLUMNS
    ensures COLUMNS * r + d == COLUMNS * y + x <==> r == y && d == x
  {
  }

  /** The attribute is the high byte and the character the low one; the cursor is a blinking underscore. */
  lemma CellBytes(color: byte, c: nat)
    ensures Cell(color, c) / 0x100 == color && Cell(color, c) % 0x100 == c % 0x100
    ensures Blank(color) / 0x100 == color && Blank(color) % 0x100 == 0x20
    ensures Cursor(color) % 0x100 == 0x5f
    ensures Cursor(color) / 0x100 == 0x80 + color % 0x80
  {
  }

  /** A cleared screen is blank, with the cursor in its first cell; whatever is written, the cursor has its colour. */
  lemma ClearedIsBlank(color: byte, i: nat, d: nat)
    requires i < ROWS && d < COLUMNS
    ensures var t := Cleared(color); t.lines == [] && t.line == [] && t.ink == color && CellAt(t, i, d) == Blank(color)
  {
  }

  lemma {:induction false} ColorStays(t: Terminal, c: nat)
    requires Regular(t)
    ensures Written(t, c).color == t.color && Written(t, c).ink == t.color
  {
    if c == TAB { TabColor(t, TAB_CHAR_COUNT); }
  }

  lemma {:induction false} TabColor(t: Terminal, n: nat)
    requires Regular(t) && n <= TAB_CHAR_COUNT
    ensures Tabbed(t, n).0.color == t.color && (n > 0 ==> Tabbed(t, n).0.ink == t.color)
  {
    if n > 0 { TabColor(t, n - 1); }
  }

  /** A backspace blanks the cell of the cursor and the one before it, where it goes, and no other on the screen. */
  lemma BackspaceBlanks(t: Terminal, i: nat, d: nat)
    requires Regular(t) && Top(t) <= i < Top(t) + ROWS && d < COLUMNS
    ensures var u := Written(t, 8); var at := COLUMNS * |t.lines| + |t.line|;
      && Top(u) == Top(t)
      && COLUMNS * |u.lines| + |u.line| == (if at == COLUMNS * Top(t) then at else at - 1)
      && CellAt(u, i, d) ==
        if COLUMNS * i + d == at || COLUMNS * i + d == at - 1 then Blank(t.color) else CellAt(t, i, d)
  {
    hide Tabbed;
    Place(i, d, |t.lines|, |t.line|);
    if t.line != [] {
      Place(i, d, |t.lines|, |t.line| - 1);
    } else if |t.lines| > 0 {
      Place(i, d, |t.lines| - 1, COLUMNS - 1);
    }
  }

  ghost function Backspaces(n: nat): seq<nat> {
    seq(n, _ => BACKSPACE)
  }

  /** Where text takes the cursor, and how many rows are left below it. */
  lemma {:induction false} TextMoves(t: Terminal, s: seq<nat>)
    requires Regular(t) && Printable(s)
    ensures var (u, rows) := (Typed(t, s), (|t.line| + |s|) / COLUMNS);
      && |u.lines| == |t.lines| + rows && |u.line| == (|t.line| + |s|) % COLUMNS
      && |u.below| == if rows <= |t.below| then |t.below| - rows else 0
  {
    hide WithoutCell, Tabbed;
    if s != [] {
      var n := |s| - 1;
      TextMoves(t, s[..n]);
      assert s[n] !in {NEWLINE, RETURN, TAB, BACKSPACE};
      NextPlace(|t.line| + n);
    }
  }

  /**
   As many backspaces as characters take the text back, if and only if it is short enough: from the
   column where it begins, less than a screen. They do not get beyond the first cell of the screen.
   */
  lemma BackspacesUndoTextIff(t: Terminal, s: seq<nat>)
    requires Regular(t) && Printable(s)
    ensures var r := Typed(Typed(t, s), Backspaces(|s|));
      r.lines == t.lines && r.line == t.line <==> |t.line| + |s| < COLUMNS * ROWS
  {
    hide Typed;
    TextMoves(t, s);
    BackspacesStayOnScreen(Typed(t, s), |s|);
    if Top(Typed(t, s)) <= |t.lines| {
      BackspacesGoBack(t, s, |s|);
      assert s[..0] == [];
      NothingTyped(t);
    }
  }

  lemma NothingTyped(t: Terminal)
    requires Regular(t)
    ensures Typed(t, []) == t
  {
  }

  /** On a cleared screen 2000 blanks are too many. */
  lemma ScreenfulStays(color: byte, n: nat)
    requires n == COLUMNS * ROWS
    ensures Typed(Typed(Cleared(color), Spaces(n)), Backspaces(n)).lines != []
  {
    hide Typed;
    BackspacesUndoTextIff(Cleared(color), Spaces(n));
    TextMoves(Cleared(color), Spaces(n));
    BackspacesStayOnScreen(Typed(Cleared(color), Spaces(n)), n);
  }

  lemma {:induction false} BackspacesStayOnScreen(t: Terminal, n: nat)
    requires Regular(t)
    ensures Top(Typed(t, Backspaces(n))) == Top(t) <= |Typed(t, Backspaces(n)).lines|
  {
    if n > 0 {
      assert Backspaces(n)[..n - 1] == Backspaces(n - 1);
      BackspacesStayOnScreen(t, n - 1);
    }
  }

  /** A backspace takes the last cell off the text, be it at the end of the row above. */
  lemma CellTakenBack(u: Terminal, c: cell, r: Terminal)
    requires Regular(u) && Regular(r) && r.lines == WithCell(u, c).lines && r.line == WithCell(u, c).line
    requires Top(r) <= |u.lines|
    ensures WithoutCell(r).lines == u.lines && WithoutCell(r).line == u.line
  {
  }

  /** Backspace by backspace: the text without its last n characters. */
  lemma {:induction false} BackspacesGoBack(t: Terminal, s: seq<nat>, n: nat)
    requires Regular(t) && Printable(s) && n <= |s| && Top(Typed(t, s)) <= |t.lines|
    ensures var (r, u) := (Typed(Typed(t, s), Backspaces(n)), Typed(t, s[..|s| - n]));
      r.lines == u.lines && r.line == u.line
  {
    hide Tabbed, WithCell, WithoutCell;
    if n == 0 {
      assert s[..|s|] == s;
    } else {
      var k := |s| - n;
      assert Backspaces(n)[..n - 1] == Backspaces(n - 1) && s[..k + 1][..k] == s[..k] && s[..k + 1][k] == s[k];
      BackspacesGoBack(t, s, n - 1);
      BackspacesStayOnScreen(Typed(t, s), n - 1);
      CompleteRowsStay(t, s[..k]);
      var u := Typed(t, s[..k]);
      CellTakenBack(u, Cell(u.color, s[k]), Typed(Typed(t, s), Backspaces(n - 1)));
    }
  }

  /** A tab is four blanks, if and only if the screen does not move before the last of them. */
  lemma TabIsFourBlanksIff(t: Terminal)
    requires Regular(t)
    ensures Written(t, TAB) == Typed(t, Spaces(4)) <==> !(t.below == [] && |t.line| + 4 > COLUMNS)
  {
    hide Typed, Tabbed;
    TabAgainstBlanks(t, TAB_CHAR_COUNT);
  }

  /** In the last cell of the screen, 1999 blanks after it was cleared, a tab leaves pictures of the cursor. */
  lemma TabMovesScreen(color: byte, n: nat)
    requires n == COLUMNS * ROWS - 1
    ensures var t := Typed(Cleared(color), Spaces(n)); Written(t, TAB) != Typed(t, Spaces(TAB_CHAR_COUNT))
  {
    hide Typed;
    TextMoves(Cleared(color), Spaces(n));
    TabIsFourBlanksIff(Typed(Cleared(color), Spaces(n)));
  }

  ghost function Spaces(n: nat): seq<nat> {
    seq(n, _ => SPACE)
  }

  // ----- Outside the screen

  /** What n turns of a tab write behind the screen, in cells counted from its first one. */
  function Behind(t: Terminal, n: nat): map<int, cell> {
    if n == 0 || t.below != [] || |t.line| + n <= COLUMNS then map[]
    else Behind(t, n - 1)[COLUMNS * (ROWS - 1) + |t.line| + n - 1 := Blank(t.color)]
  }

  lemma NoTurn(t: Terminal)
    requires Regular(t)
    ensures Tabbed(t, 0) == (t, false) && Behind(t, 0) == map[]
  {
  }

  /** One more turn, on the screen or behind it. */
  lemma OneTurn(t: Terminal, n: nat)
    requires Regular(t) && n < TAB_CHAR_COUNT
    ensures var ((u, lost), (r, lost')) := (Tabbed(t, n), Tabbed(t, n + 1));
      && u.color == t.color
      && if lost then
           && r == WithCell(u, Cursor(u.ink)) && lost' && |u.line| + 1 < COLUMNS
           && Behind(t, n + 1) == Behind(t, n)[COLUMNS * ROWS + |u.line| := Blank(t.color)]
         else
           && r == WithCell(u, Blank(t.color)) && lost' == (|u.line| + 1 == COLUMNS && u.below == [])
           && Behind(t, n + 1) == Behind(t, n)
  {
    hide Typed, WithoutCell;
    TabAgainstBlanks(t, n);
  }

  /** They are the cells that the text would have reached, had the screen been longer. */
  lemma {:induction false} BehindCells(t: Terminal, n: nat, i: int)
    requires |t.line| < COLUMNS
    ensures i in Behind(t, n) <==> t.below == [] && 2000 <= i < 2000 + (|t.line| + n - 80)
    ensures i in Behind(t, n) ==> Behind(t, n)[i] == Blank(t.color)
  {
    if n > 0 && t.below == [] && |t.line| + n > COLUMNS { BehindCells(t, n - 1, i); }
  }

  /** What a character writes outside the screen: a backspace in the first cell goes before it. */
  function Astray(t: Terminal, c: nat): map<int, cell> {
    if c == BACKSPACE && AtOrigin(t) then map[-1 := Blank(t.color)]
    else if c == TAB then Behind(t, TAB_CHAR_COUNT)
    else map[]
  }

  /** Turn by turn: once the screen has moved, the tab leaves a cursor where the text has a blank. */
  lemma {:induction false} TabAgainstBlanks(t: Terminal, n: nat)
    requires Regular(t) && n <= TAB_CHAR_COUNT
    ensures var ((u, lost), w) := (Tabbed(t, n), Typed(t, Spaces(n)));
      && u.color == w.color == t.color && |u.line| == |w.line|
      && if |t.line| + n < COLUMNS then
           !lost && u == w && |u.line| == |t.line| + n && u.below == t.below
         else
           && |u.line| == |t.line| + n - COLUMNS && u.ink == t.color && lost == (t.below == [])
           && (!lost || u.line == [] ==> u == w)
           && (lost && u.line != [] ==> u.line[0] == Cursor(t.color) && w.line[0] == Blank(t.color))
  {
    hide WithoutCell;
    if n > 0 {
      TabAgainstBlanks(t, n - 1);
      assert Spaces(n)[..n - 1] == Spaces(n - 1);
    }
  }

  // ----- The screen after one step

  /** The screen moved up by a row. */
  function Scrolled(video: seq<cell>, color: byte): seq<cell>
    requires |video| == COLUMNS * ROWS
  {
    video[COLUMNS..] + Blanks(color, COLUMNS)
  }

  /** The screen after the cell under the cursor has been written and a row begun below it. */
  function RowBelow(video: seq<cell>, y: nat, color: byte): (r: seq<cell>)
    requires |video| == COLUMNS * ROWS && y < ROWS
    ensures |r| == |video|
  {
    if y + 1 < ROWS then video[COLUMNS * (y + 1) := Cursor(color)]
    else Scrolled(video, color)[COLUMNS * (ROWS - 1) := Cursor(color)]
  }

  lemma NextCell(video: seq<cell>, x: nat, y: nat, t: Terminal, c: cell)
    requires Shows(video, x, y, t.color, t) && x + 1 < COLUMNS
    ensures Shows(
        video[COLUMNS * y + x := c][COLUMNS * y + x + 1 := Cursor(t.color)],
        x + 1, y, t.color, WithCell(t, c))
  {
    var u := WithCell(t, c);
    var v := video[COLUMNS * y + x := c][COLUMNS * y + x + 1 := Cursor(t.color)];
    forall r, d | 0 <= r < ROWS && 0 <= d < COLUMNS ensures v[COLUMNS * r + d] == Expected(u, r, d) {
      assert video[COLUMNS * r + d] == Expected(t, r, d);
      Place(r, d, y, x);
      Place(r, d, y, x + 1);
    }
  }

  /** Where a backspace moves the cursor: from the first column to the end of the row above. */
  lemma CellBack(video: seq<cell>, x: nat, y: nat, t: Terminal)
    requires Shows(video, x, y, t.color, t) && !(x == 0 && y == 0)
    ensures var (x', y') := if x == 0 then (COLUMNS - 1, y - 1) else (x - 1, y);
      Shows(
        video[COLUMNS * y + x := Blank(t.color)][COLUMNS * y + x - 1 := Cursor(t.color)],
        x', y', t.color, WithoutCell(t))
  {
    var u := WithoutCell(t);
    var (x', y') := if x == 0 then (COLUMNS - 1, y - 1) else (x - 1, y);
    var v := video[COLUMNS * y + x := Blank(t.color)][COLUMNS * y + x - 1 := Cursor(t.color)];
    forall r, d | 0 <= r < ROWS && 0 <= d < COLUMNS ensures v[COLUMNS * r + d] == Expected(u, r, d) {
      assert video[COLUMNS * r + d] == Expected(t, r, d);
      Place(r, d, y, x);
      Place(r, d, y', x');
    }
  }

  /** In the first cell of the screen there is nowhere to go. */
  lemma NothingBack(video: seq<cell>, t: Terminal)
    requires Shows(video, 0, 0, t.color, t)
    ensures Shows(video[0 := Cursor(t.color)], 0, 0, t.color, WithoutCell(t))
  {
    var u, v := WithoutCell(t), video[0 := Cursor(t.color)];
    forall r, d | 0 <= r < ROWS && 0 <= d < COLUMNS ensures v[COLUMNS * r + d] == Expected(u, r, d) {
      assert video[COLUMNS * r + d] == Expected(t, r, d);
      Place(r, d, 0, 0);
    }
  }

  /** A cell of the screen after a row has begun below: of the row above it if the screen has moved. */
  lemma RowBelowCells(w: seq<cell>, y: nat, color: byte, r: nat, d: nat)
    requires |w| == COLUMNS * ROWS && y < ROWS && r < ROWS && d < COLUMNS
    ensures RowBelow(w, y, color)[COLUMNS * r + d] ==
      if r == (if y + 1 < ROWS then y + 1 else y) && d == 0 then Cursor(color)
      else if y + 1 < ROWS then w[COLUMNS * r + d]
      else if r + 1 < ROWS then w[COLUMNS * (r + 1) + d]
      else Blank(color)
  {
    Place(r, d, if y + 1 < ROWS then y + 1 else ROWS - 1, 0);
  }

  /** The row under the cursor is complete. */
  lemma NextRow(video: seq<cell>, x: nat, y: nat, t: Terminal, row: seq<cell>, last: cell)
    requires Shows(video, x, y, t.color, t) && |row| == COLUMNS
    requires forall d :: 0 <= d < COLUMNS ==> row[d] == if d == x then last else CellAt(t, |t.lines|, d)
    ensures Shows(
        RowBelow(video[COLUMNS * y + x := last], y, t.color),
        0, if y + 1 < ROWS then y + 1 else y, t.color, WithRow(t, row))
  {
    hide RowBelow;
    var u := WithRow(t, row);
    var w := video[COLUMNS * y + x := last];
    forall r, d | 0 <= r < ROWS && 0 <= d < COLUMNS
      ensures RowBelow(w, y, t.color)[COLUMNS * r + d] == Expected(u, r, d)
    {
      RowBelowCells(w, y, t.color, r, d);
      var above := if y + 1 < ROWS then r else r + 1;
      if above < ROWS {
        assert video[COLUMNS * above + d] == Expected(t, above, d);
        Place(above, d, y, x);
      }
    }
  }

  // ----- The program

  class Screen {
    const video: array<cell>
    var xLoc: nat
    var yLoc: nat
    var colorAttrib: byte
    var around: map<int, cell>  // the memory before and behind the screen, as far as it has been written
    ghost var terminal: Terminal

    /** The screen shows the terminal: the cursor is inside, and all other cells are the last 25 rows. */
    ghost predicate Valid()
      reads this, video
    {
      Shows(video[..], xLoc, yLoc, colorAttrib, terminal)
    }

    constructor (video: array<cell>)
      requires video.Length == COLUMNS * ROWS
      ensures this.video == video && xLoc == 0 && yLoc == 0 && colorAttrib == 7 && around == map[]
    {
      this.video, xLoc, yLoc, colorAttrib, around, terminal := video, 0, 0, 7, map[], Cleared(7);
    }

    method Clear()
      requires video.Length == COLUMNS * ROWS
      modifies this`xLoc, this`yLoc, this`terminal, video
      ensures Valid() && terminal == Cleared(old(colorAttrib))
    {
      var i := 0;
      while i < COLUMNS * ROWS
        invariant 0 <= i <= COLUMNS * ROWS && colorAttrib == old(colorAttrib)
        invariant forall k :: 0 <= k < i ==> video[k] == Blank(colorAttrib)
      {
        video[i] := Blank(colorAttrib);
        i := i + 1;
      }
      xLoc, yLoc := 0, 0;
      UpdateBlinkyCursor();
      terminal := Cleared(colorAttrib);
    }

    /** Only what is written from now on has the new colour. */
    method ChangeColor(newColor: byte) returns (oldColor: byte)
      requires Valid()
      modifies this`colorAttrib, this`terminal
      ensures Valid() && terminal == old(terminal).(color := newColor) && oldColor == old(colorAttrib)
    {
      oldColor := colorAttrib;
      colorAttrib := newColor;
      ghost var t := terminal;
      terminal := terminal.(color := newColor);
      forall r, c | 0 <= r < ROWS && 0 <= c < COLUMNS ensures Expected(terminal, r, c) == Expected(t, r, c) {}
    }

    method Write(c: nat)
      requires Valid()
      modifies this`xLoc, this`yLoc, this`around, this`terminal, video
      ensures Valid() && terminal == Written(old(terminal), c)
      ensures c == 10 || c == 13 ==> xLoc == 0 && yLoc == if old(yLoc) < 24 then old(yLoc) + 1 else 24
      ensures around == old(around) + Astray(old(terminal), c)
    {
      var location := COLUMNS * yLoc + xLoc;
      if c == BACKSPACE {
        Backspace(location);
      } else if c == TAB {
        Tabulate(location);
      } else if c == NEWLINE || c == RETURN {
        BeginLine();
      } else {
        PutCell(Cell(colorAttrib, c));
      }
    }

    method Backspace(location: nat)
      requires Valid() && location == COLUMNS * yLoc + xLoc
      modifies this`xLoc, this`yLoc, this`around, this`terminal, video
      ensures Valid() && terminal == WithoutCell(old(terminal))
      ensures around == old(around) + Astray(old(terminal), BACKSPACE)
    {
      ghost var t, v: seq<cell>, x, y := terminal, video[..], xLoc, yLoc;
      video[location] := Blank(colorAttrib);
      if location > 0 {
        video[location - 1] := Blank(colorAttrib);
      } else {
        around := around[-1 := Blank(colorAttrib)];
      }
      if xLoc == 0 {
        if yLoc > 0 {
          yLoc := yLoc - 1;
          xLoc := COLUMNS - 1;
        }
      } else {
        xLoc := xLoc - 1;
      }
      UpdateBlinkyCursor();
      terminal := WithoutCell(terminal);
      if location > 0 {
        CellBack(v, x, y, t);
        assert video[..] == v[location := Blank(t.color)][location - 1 := Cursor(t.color)];
      } else {
        NothingBack(v, t);
        assert video[..] == v[0 := Cursor(t.color)];
      }
    }

    /** The location runs on by itself, also when the screen moves. */
    method Tabulate(start: nat)
      requires Valid() && start == COLUMNS * yLoc + xLoc
      modifies this`xLoc, this`yLoc, this`around, this`terminal, video
      ensures Valid() && terminal == Tabbed(old(terminal), TAB_CHAR_COUNT).0
      ensures around == old(around) + Behind(old(terminal), TAB_CHAR_COUNT)
    {
      hide Tabbed, Behind;
      NoTurn(terminal);
      var location, i := start, 0;
      while i < TAB_CHAR_COUNT
        invariant 0 <= i <= TAB_CHAR_COUNT && Valid() && terminal == Tabbed(old(terminal), i).0
        invariant colorAttrib == old(colorAttrib) && around == old(around) + Behind(old(terminal), i)
        invariant location == if Tabbed(old(terminal), i).1 then COLUMNS * ROWS + xLoc else COLUMNS * yLoc + xLoc
      {
        OneTurn(old(terminal), i);
        if location < COLUMNS * ROWS {
          PutCell(Blank(colorAttrib));
        } else {
          around := around[location := Blank(colorAttrib)];
          PassCursor();
        }
        location, i := location + 1, i + 1;
      }
    }

    method BeginLine()
      requires Valid()
      modifies this`xLoc, this`yLoc, this`terminal, video
      ensures Valid() && terminal == Written(old(terminal), NEWLINE)
      ensures xLoc == 0 && yLoc == if old(yLoc) < 24 then old(yLoc) + 1 else 24
    {
      ghost var t, v, x, y := terminal, video[..], xLoc, yLoc;
      video[COLUMNS * yLoc + xLoc] := Blank(colorAttrib);
      xLoc, yLoc := 0, yLoc + 1;
      if yLoc >= ROWS {
        ScrollDisplay();
      }
      UpdateBlinkyCursor();
      NextRow(v, x, y, t, t.line + [Blank(t.color)] + t.rest[1..], Blank(t.color));
      assert video[..] == RowBelow(v[COLUMNS * y + x := Blank(t.color)], y, t.color);
      terminal := Written(terminal, NEWLINE);
    }

    method PutCell(c: cell)
      requires Valid()
      modifies this`xLoc, this`yLoc, this`terminal, video
      ensures Valid() && terminal == WithCell(old(terminal), c)
      ensures xLoc == |terminal.line|
    {
      ghost var t, v, x, y := terminal, video[..], xLoc, yLoc;
      video[COLUMNS * yLoc + xLoc] := c;
      IncrementDrawLocation();
      if x + 1 < COLUMNS {
        NextCell(v, x, y, t, c);
      } else {
        NextRow(v, x, y, t, t.line + [c], c);
      }
      terminal := WithCell(terminal, c);
    }

    /** Nothing is written under the cursor, so its picture stays. */
    method PassCursor()
      requires Valid() && xLoc + 1 < COLUMNS
      modifies this`xLoc, this`yLoc, this`terminal, video
      ensures Valid() && terminal == WithCell(old(terminal), Cursor(old(terminal).ink))
    {
      ghost var t, v: seq<cell>, x, y := terminal, video[..], xLoc, yLoc;
      IncrementDrawLocation();
      assert v[COLUMNS * y + x] == Expected(t, y, x) == Cursor(t.ink);
      assert v[COLUMNS * y + x := Cursor(t.ink)] == v;
      NextCell(v, x, y, t, Cursor(t.ink));
      terminal := WithCell(terminal, Cursor(t.ink));
    }

    method IncrementDrawLocation()
      requires video.Length == COLUMNS * ROWS && xLoc < COLUMNS && yLoc < ROWS
      modifies this`xLoc, this`yLoc, video
      ensures old(xLoc) + 1 < COLUMNS ==>
        && xLoc == old(xLoc) + 1 && yLoc == old(yLoc)
        && video[..] == old(video[..])[COLUMNS * old(yLoc) + old(xLoc) + 1 := Cursor(colorAttrib)]
      ensures old(xLoc) + 1 == COLUMNS ==>
        && xLoc == 0 && yLoc == (if old(yLoc) + 1 < ROWS then old(yLoc) + 1 else old(yLoc))
        && video[..] == RowBelow(old(video[..]), old(yLoc), colorAttrib)
    {
      xLoc := xLoc + 1;
      if xLoc >= COLUMNS {
        xLoc, yLoc := 0, yLoc + 1;
      }
      if yLoc >= ROWS {
        ScrollDisplay();
      }
      UpdateBlinkyCursor();
    }

    method UpdateBlinkyCursor()
      requires video.Length == COLUMNS * ROWS && xLoc < COLUMNS && yLoc < ROWS
      modifies video
      ensures video[..] == old(video[..])[COLUMNS * yLoc + xLoc := Cursor(colorAttrib)]
    {
      video[COLUMNS * yLoc + xLoc] := Cursor(colorAttrib);
    }

    method ScrollDisplay()
      requires video.Length == COLUMNS * ROWS
      modifies this`xLoc, this`yLoc, video
      ensures video[..] == Scrolled(old(video[..]), colorAttrib) && xLoc == 0 && yLoc == ROWS - 1
    {
      var copySize, i := COLUMNS * (ROWS - 1), 0;
      while i < copySize
        invariant 0 <= i <= copySize
        invariant forall k :: 0 <= k < i ==> video[k] == old(video[k + COLUMNS])
        invariant forall k :: i <= k < COLUMNS * ROWS ==> video[k] == old(video[k])
      {
        video[i] := video[i + COLUMNS];
        i := i + 1;
      }
      while i < copySize + COLUMNS
        invariant copySize <= i <= copySize + COLUMNS
        invariant forall k :: 0 <= k < copySize ==> video[k] == old(video[k + COLUMNS])
        invariant forall k :: copySize <= k < i ==> video[k] == Blank(colorAttrib)
      {
        video[i] := Blank(colorAttrib);
        i := i + 1;
      }
      yLoc, xLoc := ROWS - 1, 0;
    }
  }
}
