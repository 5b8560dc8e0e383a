/** The two number printers: itoa of kernel/kernel/itoa.c and ki_make_ulong_string of kernel/init/init/kutils.c. */
module Numerals {
  import opened Words

  const ITOA_BUFFER_SIZE: nat := 33
  const MAXCHARS: nat := 65
  const NUL: char := '\0'
  const UPPER: string := "0123456789ABCDEFGHIJKLMNOPQRSTUVWXYZ"
  const LOWER: string := "0123456789abcdef"

  // ----- Numerals

  /** The digits of n from the most significant one on; none for 0. */
  function Digits(n: nat, base: nat, letters: string): (s: string)
    requires 2 <= base <= |letters|
    decreases n, base
  {
    if n == 0 then "" else Smaller(n, base); Digits(n / base, base, letters) + [letters[n % base]]
  }

  lemma Smaller(n: nat, base: nat)
    requires 2 <= base
    ensures n > 0 ==> n / base <= n / 2 < n
    ensures n == n / base * base + n % base && 0 <= n % base < base && n / base >= 0
  {
    var q, r := n / base, n % base;
    assert n == q * base + r;
    if n > 0 && q > n / 2 {
      Times(q - (n / 2 + 1), base);
      assert (n / 2 + 1) * base >= (n / 2 + 1) * 2 by { Times(base - 2, n / 2 + 1); }
    }
  }

  lemma Times(k: int, base: int)
    requires k >= 0 && base >= 0
    ensures k * base >= 0
  {
  }

  /** What the printers are for: a 0 for 0, and no leading zero otherwise. */
  function Numeral(n: nat, base: nat, letters: string): string
    requires 2 <= base <= |letters|
  {
    if n == 0 then [letters[0]] else Digits(n, base, letters)
  }

  /** The value of a digit: its place in the letters. */
  function DigitValue(c: char, letters: string): nat {
    if letters == "" || letters[0] == c then 0 else 1 + DigitValue(c, letters[1..])
  }

  /** Reading a numeral back. */
  function Parse(s: string, base: nat, letters: string): nat {
    if s == "" then 0 else Parse(s[..|s| - 1], base, letters) * base + DigitValue(s[|s| - 1], letters)
  }

  ghost predicate AllDifferent(letters: string) {
    forall i, j :: 0 <= i < j < |letters| ==> letters[i] != letters[j]
  }

  lemma {:induction false} DigitValueIsIndex(letters: string, i: nat)
    requires i < |letters| && AllDifferent(letters)
    ensures DigitValue(letters[i], letters) == i
  {
    if i > 0 {
      assert letters[1..][i - 1] == letters[i];
      forall a, b | 0 <= a < b < |letters[1..]| ensures letters[1..][a] != letters[1..][b] {
        assert letters[1..][a] == letters[a + 1] && letters[1..][b] == letters[b + 1];
      }
      DigitValueIsIndex(letters[1..], i - 1);
    }
  }

  lemma {:induction false} DigitsParse(n: nat, base: nat, letters: string)
    requires 2 <= base <= |letters| && AllDifferent(letters)
    ensures Parse(Digits(n, base, letters), base, letters) == n
    ensures n > 0 ==> |Digits(n, base, letters)| > 0 && Digits(n, base, letters)[0] != letters[0]
    decreases n
  {
    hide AllDifferent;
    if n > 0 {
      Smaller(n, base);
      DigitsParse(n / base, base, letters);
      OneMoreDigit(n, n / base, n % base, base, letters);
      if n / base == 0 { LeadingDigit(n, base, letters); }
    }
  }

  lemma OneMoreDigit(n: nat, q: nat, r: nat, base: nat, letters: string)
    requires 2 <= base <= |letters| && AllDifferent(letters) && r < base && n == q * base + r
    requires Parse(Digits(q, base, letters), base, letters) == q
    ensures Parse(Digits(q, base, letters) + [letters[r]], base, letters) == n
  {
    DigitValueIsIndex(letters, r);
    ParseAppend(Digits(q, base, letters), letters[r], base, letters);
  }

  lemma ParseAppend(s: string, c: char, base: nat, letters: string)
    ensures Parse(s + [c], base, letters) == Parse(s, base, letters) * base + DigitValue(c, letters)
  {
    assert (s + [c])[..|s + [c]| - 1] == s;
  }

  lemma LeadingDigit(n: nat, base: nat, letters: string)
    requires 2 <= base <= |letters| && AllDifferent(letters) && n > 0 && n / base == 0
    ensures letters[n % base] != letters[0]
  {
    Smaller(n, base);
  }

  /** A numeral reads back as the number, and its first digit is 0 for 0 only. */
  lemma NumeralRoundTrips(n: nat, base: nat, letters: string)
    requires 2 <= base <= |letters| && AllDifferent(letters)
    ensures Parse(Numeral(n, base, letters), base, letters) == n
    ensures Numeral(n, base, letters) != "" && (Numeral(n, base, letters)[0] == letters[0] <==> n == 0)
  {
    DigitsParse(n, base, letters);
    DigitValueIsIndex(letters, 0);
    if n == 0 { assert [letters[0]][..0] == ""; }
  }

  /** Only the first `base` letters are used. */
  lemma {:induction false} DigitsAreInBase(n: nat, base: nat, letters: string, i: nat)
    requires 2 <= base <= |letters| && i < |Digits(n, base, letters)|
    ensures Digits(n, base, letters)[i] in letters[..base]
    decreases n
  {
    Smaller(n, base);
    if i < |Digits(n / base, base, letters)| {
      DigitsAreInBase(n / base, base, letters, i);
    } else {
      assert letters[..base][n % base] == letters[n % base];
    }
  }

  lemma {:induction false} DigitsFit(n: nat, base: nat, letters: string, k: nat)
    requires 2 <= base <= |letters| && n < Pow2(k)
    ensures |Digits(n, base, letters)| <= k
    decreases n
  {
    if n > 0 {
      Smaller(n, base);
      DigitsFit(n / base, base, letters, k - 1);
    }
  }

  /** A 32-bit number has at most 32 digits in any base: the buffers are long enough. */
  lemma NumeralFits(n: u32, base: nat, letters: string)
    requires 2 <= base <= |letters|
    ensures 0 < |Numeral(n, base, letters)| <= 32
  {
    WordSize();
    DigitsFit(n, base, letters, 32);
    if n > 0 { Smaller(n, base); }
  }

  function ToUpper(c: char): char {
    if 'a' <= c <= 'z' then c - 'a' + 'A' else c
  }

  function Raised(s: string): (r: string)
    ensures |r| == |s|
  {
    if s == "" then "" else Raised(s[..|s| - 1]) + [ToUpper(s[|s| - 1])]
  }

  /** The two printers agree up to letter case. */
  lemma {:induction false} SameDigits(n: nat, base: nat)
    requires 2 <= base <= 16
    ensures Raised(Digits(n, base, LOWER)) == Digits(n, base, UPPER)
    decreases n
  {
    if n > 0 {
      Smaller(n, base);
      SameDigits(n / base, base);
      SameLetter(n % base);
      var s := Digits(n, base, LOWER);
      assert s[..|s| - 1] == Digits(n / base, base, LOWER);
    }
  }

  lemma SameLetter(i: nat)
    requires i < 16
    ensures ToUpper(LOWER[i]) == UPPER[i]
  {
  }

  lemma UpperAt(i: nat)
    requires i < 36
    ensures UPPER[i] as int == if i < 10 then 48 + i else 55 + i
  {
  }

  lemma LowerAt(i: nat)
    requires i < 16
    ensures LOWER[i] as int == if i < 10 then 48 + i else 87 + i
  {
  }

  lemma LettersDiffer()
    ensures AllDifferent(UPPER) && AllDifferent(LOWER)
  {
    forall i, j | 0 <= i < j < 36 ensures UPPER[i] != UPPER[j] {
      UpperAt(i);
      UpperAt(j);
    }
    forall i, j | 0 <= i < j < 16 ensures LOWER[i] != LOWER[j] {
      LowerAt(i);
      LowerAt(j);
    }
  }

  lemma {:induction false} DigitsAreLetters(n: nat, base: nat, letters: string)
    requires 2 <= base <= |letters| && NUL !in letters
    ensures NUL !in Digits(n, base, letters)
    decreases n
  {
    if n > 0 {
      Smaller(n, base);
      DigitsAreLetters(n / base, base, letters);
    }
  }

  /** The boot code's numerals: the digits 0-9 and a-f of the base alone, and they read back. */
  lemma LowerNumeral(n: u32, base: nat, i: nat)
    requires 2 <= base <= 16 && i < |Numeral(n, base, LOWER)|
    ensures Numeral(n, base, LOWER)[i] in "0123456789abcdef"[..base]
    ensures Parse(Numeral(n, base, LOWER), base, "0123456789abcdef") == n
  {
    hide Parse;
    LettersDiffer();
    NumeralRoundTrips(n, base, LOWER);
    if n > 0 { DigitsAreInBase(n, base, LOWER, i); } else { assert LOWER[..base][0] == LOWER[0]; }
  }

  // ----- The program

  const ERANGE: nat := 3
  const EINVAL: nat := 1

  /** The buffer begins with s and a terminator. */
  ghost predicate IsString(buffer: seq<char>, s: string) {
    |s| < |buffer| && buffer[..|s|] == s && buffer[|s|] == NUL
  }

  /** The digits go into the buffer from `end` downwards, before the terminator there. */
  method WriteDigits(buffer: array<char>, number: u32, base: nat, letters: string, end: nat) returns (at: nat)
    requires 2 <= base <= |letters| && number > 0 && 32 <= end < buffer.Length
    modifies buffer
    ensures at + |Digits(number, base, letters)| == end && buffer[at..end] == Digits(number, base, letters)
    ensures buffer[end..] == old(buffer[end..])
  {
    at := end;
    var num: nat, written := number, 0;
    NumeralFits(number, base, letters);
    while num > 0
      invariant at + written == end && at + |Digits(number, base, letters)| == end + |Digits(num, base, letters)|
      invariant Digits(num, base, letters) + buffer[at..end] == Digits(number, base, letters)
      invariant buffer[end..] == old(buffer[end..])
      decreases num
    {
      Smaller(num, base);
      ghost var tail := buffer[at..end];
      at := at - 1;
      buffer[at] := letters[num % base];
      assert buffer[at..end] == [letters[num % base]] + tail;
      num := num / base;
      written := written + 1;
      assert written <= 32;  // so the overflow exit of itoa is never taken
    }
  }

  /** The copy to the front of the buffer: ascending, in place, up to and including the terminator. */
  method CopyDown(buffer: array<char>, from: nat, ghost s: string)
    requires from + |s| < buffer.Length && buffer[from..from + |s|] == s && buffer[from + |s|] == NUL && NUL !in s
    modifies buffer
    ensures IsString(buffer[..], s) && buffer[from + |s| + 1..] == old(buffer[from + |s| + 1..])
  {
    ghost var before := buffer[..];
    assert forall k :: 0 <= k < |s| ==> s[k] != NUL && before[from + k] == s[k];
    var i := 0;
    while buffer[from + i] != NUL
      invariant i <= |s| && buffer[..i] == s[..i]
      invariant forall k :: from + i <= k < buffer.Length ==> buffer[k] == before[k]
      decreases |s| - i
    {
      buffer[i] := buffer[from + i];
      i := i + 1;
    }
    buffer[i] := buffer[from + i];
  }

  method Zero(buffer: array<char>, count: nat)
    requires count <= buffer.Length
    modifies buffer
    ensures forall k :: 0 <= k < buffer.Length ==> buffer[k] == if k < count then NUL else old(buffer[k])
  {
    var i := 0;
    while i < count
      invariant 0 <= i <= count
      invariant forall k :: 0 <= k < buffer.Length ==> buffer[k] == if k < i then NUL else old(buffer[k])
    {
      buffer[i] := NUL;
      i := i + 1;
    }
  }

  /** itoa: errno is 0 here when the call leaves it alone. */
  method Itoa(buffer: array<char>, num: u32, base: int) returns (written: int, errno: nat)
    requires buffer.Length >= ITOA_BUFFER_SIZE
    modifies buffer
    ensures 2 <= base <= 36 ==>
      errno == 0 && IsString(buffer[..], Numeral(num, base, UPPER)) && written == |Numeral(num, base, UPPER)|
    ensures !(2 <= base <= 36) ==> errno == ERANGE && written == 0 && IsString(buffer[..], "")
    ensures buffer[ITOA_BUFFER_SIZE..] == old(buffer[ITOA_BUFFER_SIZE..])
  {
    if base > 36 || base < 2 {
      buffer[0] := NUL;
      return 0, ERANGE;
    }
    if num == 0 {
      buffer[0], buffer[1] := '0', NUL;
      return 1, 0;
    }
    ghost var behind := buffer[ITOA_BUFFER_SIZE..];
    Zero(buffer, ITOA_BUFFER_SIZE);
    assert buffer[ITOA_BUFFER_SIZE - 1..] == [NUL] + behind;
    var at := WriteDigits(buffer, num, base, UPPER, ITOA_BUFFER_SIZE - 1);
    assert buffer[ITOA_BUFFER_SIZE..] == buffer[ITOA_BUFFER_SIZE - 1..][1..] == behind;
    DigitsAreLetters(num, base, UPPER);
    CopyDown(buffer, at, Digits(num, base, UPPER));
    written, errno := ITOA_BUFFER_SIZE - 1 - at, 0;
  }

  /** ki_make_ulong_string: a 0 is printed whatever the base, and a bad base leaves an empty string. */
  method MakeUlongString(buffer: array<char>, number: u32, base: int) returns (errno: nat)
    requires buffer.Length >= MAXCHARS
    modifies buffer
    ensures number == 0 ==> errno == 0 && IsString(buffer[..], "0")
    ensures number > 0 && 2 <= base <= 16 ==> errno == 0 && IsString(buffer[..], Numeral(number, base, LOWER))
    ensures number > 0 && !(2 <= base <= 16) ==> errno == EINVAL && IsString(buffer[..], "")
  {
    Zero(buffer, MAXCHARS);
    if number == 0 {
      buffer[0], buffer[1] := '0', NUL;
      return 0;
    }
    if base > 16 || base < 2 {
      return EINVAL;
    }
    var at := WriteDigits(buffer, number, base, LOWER, MAXCHARS - 1);
    DigitsAreLetters(number, base, LOWER);
    CopyDown(buffer, at, Digits(number, base, LOWER));
    errno := 0;
  }
}
