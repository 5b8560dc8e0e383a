/** The format interpreter of libc/stdio/vprintf.c, as it is built for the kernel. */
module Printf {
  import opened Words
  import opened Numerals
  import opened Display

  const INT_MAX: nat := 0x7fff_ffff
  const EOVERFLOW: nat := 4

  /** An argument as va_arg delivers it; a signed number is passed on as its 32-bit pattern. */
  datatype Arg = CharArg(c: char) | StringArg(s: string) | NumberArg(n: u32)

  // ----- What a format means

  /** The base of a number specifier, or 0. */
  function Base(c: char): nat {
    if c == 'x' || c == 'X' then 16 else if c == 'o' then 8
    else if c == 'u' || c == 'd' || c == 'i' then 10 else if c == 'b' then 2 else 0
  }

  predicate Converts(c: char) {
    c == 'c' || c == 's' || Base(c) > 0
  }

  /** A string argument is what stands before its terminator. */
  predicate Suits(c: char, arg: Arg) {
    if c == 'c' then arg.CharArg? else if c == 's' then arg.StringArg? && NUL !in arg.s else arg.NumberArg?
  }

  function Converted(c: char, arg: Arg): string
    requires Converts(c) && Suits(c, arg)
  {
    if c == 'c' then [arg.c] else if c == 's' then arg.s else Numeral(arg.n, Base(c), UPPER)
  }

  /** There is an argument of the right kind for every conversion that is reached. */
  predicate Matches(f: string, args: seq<Arg>)
    decreases |f|
  {
    if f == "" then true
    else if f[0] != '%' then Matches(f[1..], args)
    else if |f| == 1 then true
    else if f[1] == '%' then Matches(f[2..], args)
    else if Converts(f[1]) then args != [] && Suits(f[1], args[0]) && Matches(f[2..], args[1..])
    else true
  }

  /**
   The text that a format stands for, character by character: %% is a percent sign, a conversion is
   its argument, and from an unknown specifier (or a percent sign at the end) on everything is copied.
   */
  function Render(f: string, args: seq<Arg>): string
    requires Matches(f, args)
    decreases |f|
  {
    if f == "" then ""
    else if f[0] != '%' then [f[0]] + Render(f[1..], args)
    else if |f| == 1 then f
    else if f[1] == '%' then "%" + Render(f[2..], args)
    else if Converts(f[1]) then Converted(f[1], args[0]) + Render(f[2..], args[1..])
    else f
  }

  /** putchar hands the character back, and as a signed char 0xff is EOF. */
  predicate IsEof(c: char) {
    c as int == 0xff
  }

  ghost predicate NoEof(s: string) {
    forall i :: 0 <= i < |s| ==> !IsEof(s[i])
  }

  // ----- Laws of formats

  /** Every percent sign doubled. */
  function Escaped(s: string): string {
    if s == "" then "" else (if s[0] == '%' then "%%" else [s[0]]) + Escaped(s[1..])
  }

  /** Text with its percent signs doubled prints as itself, whatever the arguments. */
  lemma {:induction false} EscapedPrintsItself(s: string, args: seq<Arg>)
    ensures Matches(Escaped(s), args) && Render(Escaped(s), args) == s
    decreases s
  {
    if s != "" {
      EscapedPrintsItself(s[1..], args);
      if s[0] == '%' {
        assert Escaped(s)[2..] == Escaped(s[1..]);
      } else {
        assert Escaped(s)[1..] == Escaped(s[1..]);
      }
      assert [s[0]] + s[1..] == s;
    }
  }

  /** s is the numeral of n in this base: it reads back, in digits of the base alone, and begins with 0 only for 0. */
  ghost predicate IsNumeral(s: string, base: nat, n: nat)
    requires 2 <= base <= 36
  {
    var digits := "0123456789ABCDEFGHIJKLMNOPQRSTUVWXYZ";
    && s != "" && Parse(s, base, digits) == n && (s[0] == '0' <==> n == 0)
    && forall i :: 0 <= i < |s| ==> s[i] in digits[..base]
  }

  /**
   A number comes out as the numeral of its 32-bit pattern: in base 16 for %x and %X, 10 for %u, %d and
   %i, 8 for %o, and 2 for %b.
   */
  lemma NumbersReadBack(c: char, n: u32, rest: string, args: seq<Arg>) returns (piece: string)
    requires c in "xXudiob" && Matches(rest, args)
    ensures var f := "%" + [c] + rest; var all := [NumberArg(n)] + args;
      Matches(f, all) && Render(f, all) == piece + Render(rest, args)
    ensures c in "xX" ==> IsNumeral(piece, 16, n)
    ensures c in "udi" ==> IsNumeral(piece, 10, n)
    ensures c == 'o' ==> IsNumeral(piece, 8, n)
    ensures c == 'b' ==> IsNumeral(piece, 2, n)
  {
    hide Numeral, Parse;
    ConversionComesOut(c, NumberArg(n), rest, args);
    piece := Numeral(n, Base(c), UPPER);
    NumeralIsNumeral(n, Base(c));
  }

  lemma NumeralIsNumeral(n: u32, base: nat)
    requires 2 <= base <= 36
    ensures IsNumeral(Numeral(n, base, UPPER), base, n)
  {
    hide Parse;
    LettersDiffer();
    NumeralRoundTrips(n, base, UPPER);
    if n > 0 {
      forall i | 0 <= i < |Numeral(n, base, UPPER)| ensures Numeral(n, base, UPPER)[i] in UPPER[..base] {
        DigitsAreInBase(n, base, UPPER, i);
      }
    } else {
      assert UPPER[..base][0] == UPPER[0];
    }
  }

  lemma ConversionComesOut(c: char, arg: Arg, rest: string, args: seq<Arg>)
    requires Converts(c) && c != '%' && Suits(c, arg) && Matches(rest, args)
    ensures var f := "%" + [c] + rest; var all := [arg] + args;
      Matches(f, all) && Render(f, all) == Converted(c, arg) + Render(rest, args)
  {
    hide Converted;
    var f, all := "%" + [c] + rest, [arg] + args;
    assert f[0] == '%' && f[1] == c && all[0] == arg;
    assert f[2..] == rest && all[1..] == args;
  }

  /** %s and %c print the argument itself. */
  lemma TextComesOut(s: string, c: char, rest: string, args: seq<Arg>)
    requires NUL !in s && Matches(rest, args)
    ensures var f := "%s" + rest; var all := [StringArg(s)] + args;
      Matches(f, all) && Render(f, all) == s + Render(rest, args)
    ensures var f := "%c" + rest; var all := [CharArg(c)] + args;
      Matches(f, all) && Render(f, all) == [c] + Render(rest, args)
  {
    ConversionComesOut('s', StringArg(s), rest, args);
    ConversionComesOut('c', CharArg(c), rest, args);
    assert "%" + ['s'] + rest == "%s" + rest && "%" + ['c'] + rest == "%c" + rest;
  }

  /** From an unknown specifier on, and from a percent sign at the end, the format comes out as it is. */
  lemma UnknownComesOut(c: char, rest: string, args: seq<Arg>)
    requires c !in "csxXudiob%"
    ensures Matches("%" + [c] + rest, args) && Render("%" + [c] + rest, args) == "%" + [c] + rest
    ensures Matches("%", args) && Render("%", args) == "%"
  {
    var f := "%" + [c] + rest;
    assert f[0] == '%' && f[1] == c;
  }

  lemma HexDigits()
    ensures Numeral(0xc020_0000, 16, UPPER) == "C0200000"
  {
    assert Digits(0xc, 16, UPPER) == "C";
    assert Digits(0xc0, 16, UPPER) == "C0";
    assert Digits(0xc02, 16, UPPER) == "C02";
    assert Digits(0xc020, 16, UPPER) == "C020";
    assert Digits(0xc_0200, 16, UPPER) == "C0200";
    assert Digits(0xc0_2000, 16, UPPER) == "C02000";
    assert Digits(0xc02_0000, 16, UPPER) == "C020000";
  }

  lemma Hex(n: u32)
    ensures Matches("%x", [NumberArg(n)]) && Render("%x", [NumberArg(n)]) == Numeral(n, 16, UPPER)
  {
    hide Numeral, Render, Matches;
    NothingLeft();
    ConversionComesOut('x', NumberArg(n), "", []);
    assert "%" + ['x'] + "" == "%x" && [NumberArg(n)] + [] == [NumberArg(n)];
  }

  lemma NothingLeft()
    ensures Matches("", []) && Render("", []) == ""
  {
  }

  /** An address: what `printf` makes of 0x%x. */
  lemma AddressInHex(args: seq<Arg>)
    requires args == [NumberArg(0xc020_0000)]
    ensures Matches("0x%x", args) && Render("0x%x", args) == "0xC0200000"
  {
    hide Numeral, Render, Matches;
    Hex(0xc020_0000);
    HexDigits();
    BeforeText("x%x", '0', args);
    BeforeText("%x", 'x', args);
    assert "0x%x" == ['0'] + "x%x" && "x%x" == ['x'] + "%x";
  }

  lemma BeforeText(f: string, c: char, args: seq<Arg>)
    requires c != '%'
    ensures Matches([c] + f, args) <==> Matches(f, args)
    ensures Matches(f, args) ==> Render([c] + f, args) == [c] + Render(f, args)
  {
    assert ([c] + f)[1..] == f;
  }

  // ----- One turn of the interpreter

  /** Text up to the next percent sign comes out as it is. */
  lemma {:induction false} PlainText(f: string, args: seq<Arg>, k: nat)
    requires k <= |f| && (forall i :: 0 <= i < k ==> f[i] != '%') && Matches(f, args)
    ensures Matches(f[k..], args) && Render(f, args) == f[..k] + Render(f[k..], args)
    decreases k
  {
    if k == 0 {
      assert f[0..] == f;
    } else {
      var g := f[1..];
      PlainText(g, args, k - 1);
      OneMore(f, args, k);
    }
  }

  lemma OneMore(f: string, args: seq<Arg>, k: nat)
    requires 0 < k <= |f| && f[0] != '%' && Matches(f, args)
    requires var g := f[1..]; Matches(g[k - 1..], args) && Render(g, args) == g[..k - 1] + Render(g[k - 1..], args)
    ensures Matches(f[k..], args) && Render(f, args) == f[..k] + Render(f[k..], args)
  {
    hide Converted, Suits;
    var g := f[1..];
    assert g[k - 1..] == f[k..];
    var s, r := g[..k - 1], Render(f[k..], args);
    assert f[..k] == [f[0]] + s;
    assert Render(f, args) == [f[0]] + (s + r);
  }

  /** The terminator is the only one. */
  ghost predicate Terminated(fmt: seq<char>) {
    |fmt| > 0 && fmt[|fmt| - 1] == NUL && NUL !in fmt[..|fmt| - 1]
  }

  /** The format from p on, without the terminator. */
  function From(fmt: seq<char>, p: nat): string
    requires p < |fmt|
  {
    fmt[p..|fmt| - 1]
  }

  /** What one turn prints and where it stops. */
  ghost predicate Turn(fmt: seq<char>, p: nat, args: seq<Arg>, piece: string, q: nat, rest: seq<Arg>)
    requires p < |fmt| && Matches(From(fmt, p), args)
  {
    p < q < |fmt| && Matches(From(fmt, q), rest) && Render(From(fmt, p), args) == piece + Render(From(fmt, q), rest)
  }

  /** Ordinary text, after an escaped percent sign or not. */
  method Literal(fmt: seq<char>, p: nat, ghost args: seq<Arg>) returns (piece: string, q: nat)
    requires Terminated(fmt) && p < |fmt| - 1 && Matches(From(fmt, p), args)
    requires fmt[p] != '%' || fmt[p + 1] == '%'
    ensures Turn(fmt, p, args, piece, q, args)
  {
    var start := p;
    if fmt[p] == '%' {
      start := start + 1;
    }
    assert start < |fmt| - 1;
    var amount := 1;
    while fmt[start + amount] != NUL && fmt[start + amount] != '%'
      invariant 0 < amount && start + amount < |fmt|
      invariant forall k :: start < k < start + amount ==> fmt[k] != '%'
      decreases |fmt| - amount
    {
      amount := amount + 1;
    }
    piece, q := fmt[start..start + amount], start + amount;
    LiteralTurn(fmt, p, start, args, q);
  }

  lemma LiteralTurn(fmt: seq<char>, p: nat, start: nat, args: seq<Arg>, q: nat)
    requires Terminated(fmt) && p <= start < |fmt| - 1 && start < q < |fmt| && Matches(From(fmt, p), args)
    requires if fmt[p] == '%' then start == p + 1 && fmt[start] == '%' else start == p
    requires forall k :: start < k < q ==> fmt[k] != '%'
    ensures Turn(fmt, p, args, fmt[start..q], q, args)
  {
    hide Render, Matches;
    var g := From(fmt, start + 1);
    var k := q - start - 1;
    LiteralStart(fmt, p, start, args);
    assert g[k..] == From(fmt, q) && g[..k] == fmt[start + 1..q];
    PlainText(g, args, k);
    assert fmt[start..q] == [fmt[start]] + fmt[start + 1..q];
  }

  lemma LiteralStart(fmt: seq<char>, p: nat, start: nat, args: seq<Arg>)
    requires Terminated(fmt) && p <= start < |fmt| - 1 && Matches(From(fmt, p), args)
    requires if fmt[p] == '%' then start == p + 1 && fmt[start] == '%' else start == p
    ensures Matches(From(fmt, start + 1), args)
    ensures Render(From(fmt, p), args) == [fmt[start]] + Render(From(fmt, start + 1), args)
  {
    var f, g := From(fmt, p), From(fmt, start + 1);
    assert f[start + 1 - p..] == g && f[0] == fmt[p];
    if fmt[p] == '%' { assert f[1] == fmt[start]; }
  }

  /** A conversion, or an unknown specifier and with it everything to the end. */
  method Conversion(fmt: seq<char>, p: nat, args: seq<Arg>) returns (piece: string, q: nat, rest: seq<Arg>)
    requires Terminated(fmt) && p < |fmt| - 1 && Matches(From(fmt, p), args)
    requires fmt[p] == '%' && fmt[p + 1] != '%'
    ensures Turn(fmt, p, args, piece, q, rest)
  {
    ConversionTurn(fmt, p, args);
    var c := fmt[p + 1];
    if c == 'c' {
      return [args[0].c], p + 2, args[1..];
    } else if c == 's' {
      return args[0].s, p + 2, args[1..];
    } else if Base(c) > 0 {
      var buffer := new char[ITOA_BUFFER_SIZE](_ => NUL);
      var length, error := Itoa(buffer, args[0].n, Base(c));
      return buffer[..length], p + 2, args[1..];
    } else {
      return fmt[p..|fmt| - 1], |fmt| - 1, args;
    }
  }

  lemma ConversionTurn(fmt: seq<char>, p: nat, args: seq<Arg>)
    requires Terminated(fmt) && p < |fmt| - 1 && Matches(From(fmt, p), args)
    requires fmt[p] == '%' && fmt[p + 1] != '%'
    ensures Converts(fmt[p + 1]) ==>
      args != [] && Suits(fmt[p + 1], args[0]) && Turn(fmt, p, args, Converted(fmt[p + 1], args[0]), p + 2, args[1..])
    ensures !Converts(fmt[p + 1]) ==> Turn(fmt, p, args, From(fmt, p), |fmt| - 1, args)
  {
    var f := From(fmt, p);
    assert f[0] == fmt[p];
    if |f| > 1 {
      assert f[1] == fmt[p + 1] && f[2..] == From(fmt, p + 2);
    } else {
      assert fmt[p + 1] == NUL;
    }
  }

  // ----- On the screen

  /** putchar takes its character as an int, and a char is signed. */
  function Signed(c: char): int {
    if 0x80 <= c as int < 0x100 then c as int - 0x100 else c as int
  }

  ghost function Codes(s: string): seq<nat> {
    seq(|s|, i requires 0 <= i < |s| => s[i] as nat)
  }

  /** The text has been handed to putchar, and has been typed on the terminal. */
  ghost predicate Printed(before: string, t: Terminal, text: string, after: string, u: Terminal)
    requires Regular(t)
  {
    after == before + text && u == Typed(t, Codes(text))
  }

  lemma PrintedOn(o: string, t: Terminal, s: string, o1: string, t1: Terminal, r: string, o2: string, t2: Terminal)
    requires Regular(t) && Printed(o, t, s, o1, t1) && Printed(o1, t1, r, o2, t2)
    ensures Printed(o, t, s + r, o2, t2)
  {
    hide Typed;
    assert Codes(s + r) == Codes(s) + Codes(r);
    TypedOn(t, Codes(s), Codes(r));
  }

  /** What stands for a character on the screen: the unsigned number that display_write gets is cut to a byte. */
  lemma SignedIsWritten(t: Terminal, c: char)
    requires Regular(t)
    ensures Written(t, Signed(c) % MODULUS) == Written(t, c as nat)
  {
    hide Tabbed, WithoutCell, WithCell;
    if 0x80 <= c as int < 0x100 {
      assert Signed(c) % MODULUS == MODULUS - 0x100 + c as int;
      assert Cell(t.color, Signed(c) % MODULUS) == Cell(t.color, c as nat);
    }
  }

  lemma NothingPrinted(o: string, t: Terminal)
    requires Regular(t)
    ensures Printed(o, t, "", o, t)
  {
  }

  lemma OnePrinted(o: string, t: Terminal, c: char)
    requires Regular(t)
    ensures Printed(o, t, [c], o + [c], Written(t, c as nat))
  {
    var codes := Codes([c]);
    assert codes == [c as nat];
    assert Typed(t, codes[..0]) == t;
  }

  /** Text printed on a cleared screen stands there from the first cell on, 80 characters in a row. */
  lemma EscapedTextStands(color: byte, s: string, args: seq<Arg>, k: nat)
    requires Printable(Codes(s)) && k < |s|
    ensures Matches(Escaped(s), args)
    ensures var t := Typed(Cleared(color), Codes(Render(Escaped(s), args)));
      k / COLUMNS < Top(t) + ROWS && CellAt(t, k / COLUMNS, k % COLUMNS) == Cell(color, s[k] as nat)
  {
    hide Typed, Render, Matches, Escaped;
    EscapedPrintsItself(s, args);
    PlainTextWraps(color, Codes(s), k);
  }

  // ----- The program

  class Printer {
    const screen: Screen
    var errno: nat
    ghost var out: string  // what has been handed to putchar

    constructor (screen: Screen)
      ensures this.screen == screen && out == "" && errno == 0
    {
      this.screen, out, errno := screen, "", 0;
    }

    method Putchar(c: char) returns (result: int)
      requires screen.Valid()
      modifies this`out, screen`xLoc, screen`yLoc, screen`around, screen`terminal, screen.video
      ensures screen.Valid() && (result == -1 <==> IsEof(c))
      ensures Printed(old(out), old(screen.terminal), [c], out, screen.terminal)
    {
      SignedIsWritten(screen.terminal, c);
      OnePrinted(out, screen.terminal, c);
      screen.Write(Signed(c) % MODULUS);
      out := out + [c];
      result := Signed(c);
    }

    method Print(str: string) returns (ok: bool)
      requires screen.Valid()
      modifies this`out, screen`xLoc, screen`yLoc, screen`around, screen`terminal, screen.video
      ensures screen.Valid() && (ok <==> NoEof(str))
      ensures ok ==> Printed(old(out), old(screen.terminal), str, out, screen.terminal)
      ensures !ok ==>
        exists k :: 0 <= k <= |str| && Printed(old(out), old(screen.terminal), str[..k], out, screen.terminal)
    {
      hide Typed;
      ghost var o, t := out, screen.terminal;
      NothingPrinted(o, t);
      var i := 0;
      while i < |str|
        invariant 0 <= i <= |str| && screen.Valid() && Printed(o, t, str[..i], out, screen.terminal)
        invariant NoEof(str[..i])
      {
        ghost var o1, t1 := out, screen.terminal;
        var result := Putchar(str[i]);
        PrintedOn(o, t, str[..i], o1, t1, [str[i]], out, screen.terminal);
        assert str[..i] + [str[i]] == str[..i + 1];
        if result == -1 {
          return false;
        }
        i := i + 1;
      }
      assert str[..i] == str;
      ok := true;
    }

    /**
     On success the whole text is on the screen and its length comes back; otherwise a part of it is.
     It succeeds exactly when the length fits into an int and there is no 0xff in the text.
     */
    method Vprintf(fmt: seq<char>, args: seq<Arg>) returns (result: int)
      requires Terminated(fmt) && Matches(From(fmt, 0), args) && screen.Valid()
      modifies this, screen`xLoc, screen`yLoc, screen`around, screen`terminal, screen.video
      ensures screen.Valid()
      ensures var text := Render(From(fmt, 0), args);
        && result == (if |text| <= INT_MAX && NoEof(text) then |text| else -1)
        && (result >= 0 ==> Printed(old(out), old(screen.terminal), text, out, screen.terminal) && errno == old(errno))
        && (result < 0 ==>
          exists k :: 0 <= k <= |text| && Printed(old(out), old(screen.terminal), text[..k], out, screen.terminal))
        && (result < 0 && NoEof(text) ==> errno == EOVERFLOW)
        && (result < 0 && |text| <= INT_MAX ==> errno == old(errno))
    {
      hide Render, Matches, From, Typed;
      ghost var o, t, text := out, screen.terminal, Render(From(fmt, 0), args);
      NothingPrinted(o, t);
      var written: nat, p: nat, rest := 0, 0, args;
      while fmt[p] != NUL
        invariant p < |fmt| && Matches(From(fmt, p), rest)
        invariant written <= |text| && written <= INT_MAX && Render(From(fmt, p), rest) == text[written..]
        invariant screen.Valid() && Printed(o, t, text[..written], out, screen.terminal)
        invariant NoEof(text[..written]) && errno == old(errno)
        decreases |fmt| - p
      {
        var maxrem := INT_MAX - written;
        var piece: string, q: nat, after := "", p, rest;
        if fmt[p] != '%' || fmt[p + 1] == '%' {
          piece, q := Literal(fmt, p, rest);
        } else {
          piece, q, after := Conversion(fmt, p, rest);
        }
        PieceOf(text, written, piece, Render(From(fmt, q), after));
        if maxrem < |piece| {
          errno := EOVERFLOW;
          return -1;
        }
        ghost var o1, t1 := out, screen.terminal;
        var ok := Print(piece);
        if !ok {
          PartOf(o, t, text, written, piece, o1, t1, out, screen.terminal);
          return -1;
        }
        PrintedOn(o, t, text[..written], o1, t1, piece, out, screen.terminal);
        written, p, rest := written + |piece|, q, after;
      }
      AtTheEnd(fmt, p, rest);
      assert text[..written] == text;
      result := written;
    }
  }

  lemma PieceOf(text: string, written: nat, piece: string, rest: string)
    requires written <= |text| && text[written..] == piece + rest
    ensures written + |piece| <= |text| && text[written + |piece|..] == rest
    ensures text[..written + |piece|] == text[..written] + piece
    ensures NoEof(text) ==> NoEof(piece)
    ensures NoEof(text[..written]) && NoEof(piece) ==> NoEof(text[..written + |piece|])
  {
    assert text == text[..written] + text[written..];
    forall i | 0 <= i < |piece| ensures piece[i] == text[written + i] { assert text[written..][i] == piece[i]; }
  }

  lemma PartOf(o: string, t: Terminal, text: string, written: nat, piece: string, o1: string, t1: Terminal,
      o2: string, t2: Terminal)
    requires Regular(t) && written + |piece| <= |text| && text[..written + |piece|] == text[..written] + piece
    requires Printed(o, t, text[..written], o1, t1)
    requires exists k :: 0 <= k <= |piece| && Printed(o1, t1, piece[..k], o2, t2)
    ensures exists k :: 0 <= k <= |text| && Printed(o, t, text[..k], o2, t2)
  {
    hide Typed;
    var k :| 0 <= k <= |piece| && Printed(o1, t1, piece[..k], o2, t2);
    PrintedOn(o, t, text[..written], o1, t1, piece[..k], o2, t2);
    assert text[..written + k] == text[..written + |piece|][..written + k] == text[..written] + piece[..k];
  }

  lemma AtTheEnd(fmt: seq<char>, p: nat, rest: seq<Arg>)
    requires Terminated(fmt) && p < |fmt| && fmt[p] == NUL && Matches(From(fmt, p), rest)
    ensures p == |fmt| - 1 && Render(From(fmt, p), rest) == ""
  {
    if p < |fmt| - 1 { NotTheEnd(fmt, p); }
  }

  lemma NotTheEnd(fmt: seq<char>, p: nat)
    requires Terminated(fmt) && p < |fmt| - 1
    ensures fmt[p] != NUL
  {
    assert fmt[p] == fmt[..|fmt| - 1][p];
  }
}
