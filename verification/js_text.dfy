/** Text and number primitives of the JavaScript runtime that the scanner relies on:
    bytes, the whitespace class `\s`, `String.prototype.trim`, `String.prototype.split`
    on one character, `parseInt` and the byte conversion done by `Buffer.from(array)`. */
module JsText {

  /** One byte of a Node `Buffer`. */
  type Byte = b: int | 0 <= b < 256

  datatype Option<T> = None | Some(value: T)

  /** A half-open range `[start, end)` of positions in a string. */
  datatype Span = Span(start: nat, end: nat)

  /** The code points JavaScript calls WhiteSpace or LineTerminator: the class a regular
      expression's `\s` matches and the characters `trim` strips. */
  predicate IsJsSpace(c: char)
  {
    c == '\t' || c == '\n' || c == '\U{B}' || c == '\U{C}' || c == '\r' || c == ' '
    || c == '\U{A0}' || c == '\U{1680}' || ('\U{2000}' <= c <= '\U{200A}')
    || c == '\U{2028}' || c == '\U{2029}' || c == '\U{202F}' || c == '\U{205F}'
    || c == '\U{3000}' || c == '\U{FEFF}'
  }

  predicate IsDigit(c: char)
  {
    '0' <= c <= '9'
  }

  /** Length of the longest run of characters of class `cls` that starts at `p`. */
  function ClassRun(s: string, p: nat, cls: char -> bool): (n: nat)
    requires p <= |s|
    ensures p + n <= |s|
    ensures forall k :: p <= k < p + n ==> cls(s[k])
    ensures p + n == |s| || !cls(s[p + n])
    decreases |s| - p
  {
    if p < |s| && cls(s[p]) then 1 + ClassRun(s, p + 1, cls) else 0
  }

  /** A run measured from inside another run is what is left of it. */
  lemma {:induction false} ClassRunSuffix(s: string, p: nat, k: nat, cls: char -> bool)
    requires p <= |s| && k <= ClassRun(s, p, cls)
    ensures ClassRun(s, p + k, cls) == ClassRun(s, p, cls) - k
    decreases k
  {
    if k > 0 {
      ClassRunSuffix(s, p + 1, k - 1, cls);
    }
  }

  /** The run starting at `p` is determined by any bound on it: a prefix of class
      characters followed by a non-class character or the end. */
  lemma ClassRunExact(s: string, p: nat, n: nat, cls: char -> bool)
    requires p + n <= |s|
    requires forall k :: p <= k < p + n ==> cls(s[k])
    requires p + n == |s| || !cls(s[p + n])
    ensures ClassRun(s, p, cls) == n
  {
  }

  /** A run is at least as long as any prefix of class characters. */
  lemma {:induction false} ClassRunAtLeast(s: string, p: nat, m: nat, cls: char -> bool)
    requires p + m <= |s|
    requires forall k :: p <= k < p + m ==> cls(s[k])
    ensures ClassRun(s, p, cls) >= m
    decreases m
  {
    if m > 0 {
      ClassRunAtLeast(s, p + 1, m - 1, cls);
    }
  }

  /** A run stops at the first character outside the class. */
  lemma {:induction false} ClassRunAtMost(s: string, p: nat, j: nat, cls: char -> bool)
    requires p <= j < |s| && !cls(s[j])
    ensures p + ClassRun(s, p, cls) <= j
    decreases j - p
  {
    if p < j && cls(s[p]) {
      ClassRunAtMost(s, p + 1, j, cls);
    }
  }

  // ---------------------------------------------------------------- trim

  /** `s` without its leading whitespace. */
  function TrimStart(s: string): (r: string)
    ensures |r| <= |s| && r == s[|s| - |r|..]
    ensures forall k :: 0 <= k < |s| - |r| ==> IsJsSpace(s[k])
    ensures r == [] || !IsJsSpace(r[0])
    decreases |s|
  {
    if |s| > 0 && IsJsSpace(s[0]) then TrimStart(s[1..]) else s
  }

  /** `s` without its trailing whitespace. */
  function TrimEnd(s: string): (r: string)
    ensures |r| <= |s| && r == s[..|r|]
    ensures forall k :: |r| <= k < |s| ==> IsJsSpace(s[k])
    ensures r == [] || !IsJsSpace(r[|r| - 1])
    decreases |s|
  {
    if |s| > 0 && IsJsSpace(s[|s| - 1]) then TrimEnd(s[..|s| - 1]) else s
  }

  /** `String.prototype.trim`: the substring left once whitespace is stripped from both ends. */
  function Trim(s: string): (r: string)
    ensures |r| <= |s|
    ensures r == [] || (!IsJsSpace(r[0]) && !IsJsSpace(r[|r| - 1]))
  {
    TrimEnd(TrimStart(s))
  }

  /** What `trim` keeps is a substring of `s`, and everything it drops before and after that
      substring is whitespace. */
  lemma TrimSubstring(s: string)
    ensures var i, r := |s| - |TrimStart(s)|, Trim(s);
      i + |r| <= |s| && r == s[i..i + |r|]
      && (forall k :: 0 <= k < i ==> IsJsSpace(s[k]))
      && (forall k :: i + |r| <= k < |s| ==> IsJsSpace(s[k]))
  {
    var t := TrimStart(s);
    var i := |s| - |t|;
    var r := TrimEnd(t);
    assert r == s[i..][..|r|];
    forall k | i + |r| <= k < |s|
      ensures IsJsSpace(s[k])
    {
      assert s[k] == t[k - i];
    }
  }

  // ---------------------------------------------------------------- split

  /** Rejoins pieces with `sep` between them (`Array.prototype.join`). */
  function Join(pieces: seq<string>, sep: char): string
    requires |pieces| >= 1
  {
    if |pieces| == 1 then pieces[0] else pieces[0] + [sep] + Join(pieces[1..], sep)
  }

  /** Number of occurrences of `c` in `s`. */
  function Occurrences(s: string, c: char): nat
  {
    if |s| == 0 then 0 else (if s[0] == c then 1 else 0) + Occurrences(s[1..], c)
  }

  /** `s.split(sep)` for a one-character separator: one piece more than there are separators,
      no piece holds the separator, and joining the pieces gives `s` back. */
  function Split(s: string, sep: char): (pieces: seq<string>)
    ensures |pieces| == Occurrences(s, sep) + 1
    ensures forall i :: 0 <= i < |pieces| ==> sep !in pieces[i]
    ensures Join(pieces, sep) == s
    decreases |s|
  {
    if |s| == 0 then [""]
    else if s[0] == sep then
      var rest := Split(s[1..], sep);
      assert s == [sep] + s[1..];
      [""] + rest
    else
      var rest := Split(s[1..], sep);
      var r := [[s[0]] + rest[0]] + rest[1..];
      assert r[1..] == rest[1..];
      assert s == [s[0]] + s[1..];
      r
  }

  /** Splitting a text that starts with a separator: an empty first piece. */
  lemma SplitSepCons(rest: string, sep: char)
    ensures Split([sep] + rest, sep) == [""] + Split(rest, sep)
  {
    assert ([sep] + rest)[1..] == rest;
  }

  /** Splitting a text that starts with another character: it joins the first piece. */
  lemma SplitCharCons(c: char, rest: string, sep: char)
    requires c != sep
    ensures Split([c] + rest, sep) == [[c] + Split(rest, sep)[0]] + Split(rest, sep)[1..]
  {
    assert ([c] + rest)[1..] == rest;
  }

  /** Joining pieces whose first piece is not empty: its first character, then the rest. */
  lemma JoinCharCons(pieces: seq<string>, sep: char)
    requires |pieces| >= 1 && |pieces[0]| > 0
    ensures var tail := [pieces[0][1..]] + pieces[1..];
      Join(pieces, sep) == [pieces[0][0]] + Join(tail, sep)
  {
    var tail := [pieces[0][1..]] + pieces[1..];
    assert tail[1..] == pieces[1..];
  }

  /** Splitting undoes joining when no piece holds the separator. */
  lemma {:induction false} SplitJoin(pieces: seq<string>, sep: char)
    requires |pieces| >= 1 && forall i :: 0 <= i < |pieces| ==> sep !in pieces[i]
    ensures Split(Join(pieces, sep), sep) == pieces
    decreases |pieces|, |pieces[0]|
  {
    if |pieces[0]| > 0 {
      var p0 := pieces[0];
      var tail := [p0[1..]] + pieces[1..];
      assert tail[1..] == pieces[1..];
      SplitJoin(tail, sep);
      JoinCharCons(pieces, sep);
      SplitCharCons(p0[0], Join(tail, sep), sep);
      assert [p0[0]] + tail[0] == p0;
      assert pieces == [p0] + pieces[1..];
    } else if |pieces| > 1 {
      SplitJoin(pieces[1..], sep);
      SplitSepCons(Join(pieces[1..], sep), sep);
      assert pieces == [""] + pieces[1..];
    }
  }

  // ---------------------------------------------------------------- parseInt

  /** The values `parseInt` can return here: an integer, or NaN. */
  datatype JsNumber = NaN | Int(value: int)

  predicate IsHexDigit(c: char)
  {
    IsDigit(c) || 'a' <= c <= 'f' || 'A' <= c <= 'F'
  }

  function DigitValue(c: char): (v: nat)
    requires IsHexDigit(c)
    ensures v < 16 && (IsDigit(c) ==> v < 10)
  {
    if IsDigit(c) then c as int - '0' as int
    else if 'a' <= c <= 'f' then c as int - 'a' as int + 10
    else c as int - 'A' as int + 10
  }

  /** The value of a numeral, most significant digit first. */
  function NumeralValue(d: string, radix: nat): nat
    requires radix == 10 || radix == 16
    requires forall k :: 0 <= k < |d| ==> IsHexDigit(d[k]) && DigitValue(d[k]) < radix
  {
    if |d| == 0 then 0 else NumeralValue(d[..|d| - 1], radix) * radix + DigitValue(d[|d| - 1])
  }

  /** The longest prefix of `s` made of digits of the given radix. */
  function DigitPrefix(s: string, radix: nat): (d: string)
    requires radix == 10 || radix == 16
    ensures |d| <= |s| && d == s[..|d|]
    ensures forall k :: 0 <= k < |d| ==> IsHexDigit(d[k]) && DigitValue(d[k]) < radix
    ensures |d| == |s| || !IsHexDigit(s[|d|]) || DigitValue(s[|d|]) >= radix
    decreases |s|
  {
    if |s| > 0 && IsHexDigit(s[0]) && DigitValue(s[0]) < radix then
      var rest := DigitPrefix(s[1..], radix);
      assert [s[0]] + rest == s[..1 + |rest|];
      [s[0]] + rest
    else ""
  }

  /** The magnitude `parseInt` reads once the sign is consumed: a `0x`/`0X` prefix selects
      radix 16, otherwise radix 10, and the longest digit prefix is read; no digit is NaN. */
  function ParseMagnitude(u: string): Option<nat>
  {
    var hex := |u| >= 2 && u[0] == '0' && (u[1] == 'x' || u[1] == 'X');
    var radix := if hex then 16 else 10;
    var d := DigitPrefix(if hex then u[2..] else u, radix);
    if |d| == 0 then None else Some(NumeralValue(d, radix))
  }

  /** `parseInt(s)` with no radix argument: leading whitespace is skipped, one sign is read,
      then the magnitude. Reading stops at the first character that is not a digit. */
  function ParseInt(s: string): JsNumber
  {
    var t := TrimStart(s);
    var signed := |t| > 0 && (t[0] == '-' || t[0] == '+');
    match ParseMagnitude(if signed then t[1..] else t)
    case None => NaN
    case Some(v) =>
      var m: int := v;
      Int(if signed && t[0] == '-' then -m else m)
  }

  /** The decimal numeral of `n` (`String(n)` for a non-negative integer). */
  function Decimal(n: nat): (d: string)
    ensures |d| >= 1 && forall k :: 0 <= k < |d| ==> IsDigit(d[k])
    ensures d[0] == '0' ==> n == 0
  {
    var last := ('0' as int + n % 10) as char;
    if n < 10 then [last] else Decimal(n / 10) + [last]
  }

  lemma {:induction false} DecimalValue(n: nat)
    ensures NumeralValue(Decimal(n), 10) == n
  {
    var d := Decimal(n);
    if n >= 10 {
      DecimalValue(n / 10);
      assert d[..|d| - 1] == Decimal(n / 10);
    }
  }

  /** A prefix made only of digits is its own digit prefix. */
  lemma {:induction false} DigitPrefixOfDigits(d: string)
    requires forall k :: 0 <= k < |d| ==> IsDigit(d[k])
    ensures DigitPrefix(d, 10) == d
    decreases |d|
  {
    if |d| > 0 {
      DigitPrefixOfDigits(d[1..]);
      assert d == [d[0]] + d[1..];
    }
  }

  /** A decimal numeral is read as a decimal magnitude (it cannot carry a hex prefix). */
  lemma MagnitudeOfDecimal(n: nat)
    ensures ParseMagnitude(Decimal(n)) == Some(n)
  {
    var d := Decimal(n);
    assert |d| >= 2 ==> IsDigit(d[1]);
    DigitPrefixOfDigits(d);
    DecimalValue(n);
  }

  /** `parseInt` reads back what the number-to-string conversion writes, for every integer. */
  lemma ParseIntDecimal(n: int)
    ensures ParseInt(if n < 0 then "-" + Decimal(-n) else Decimal(n)) == Int(n)
  {
    var m: nat := if n < 0 then -n else n;
    var s := if n < 0 then "-" + Decimal(m) else Decimal(m);
    assert !IsJsSpace(s[0]);
    assert TrimStart(s) == s;
    MagnitudeOfDecimal(m);
    if n < 0 {
      assert s[1..] == Decimal(m);
    } else {
      assert !(s[0] == '-' || s[0] == '+');
    }
  }

  /** The conversion `Buffer.from(array)` applies to each element (ECMAScript ToUint8):
      NaN becomes 0 and every integer is reduced modulo 256. */
  function ToUint8(x: JsNumber): (b: Byte)
    ensures x.NaN? ==> b == 0
    ensures x.Int? ==> (x.value - b) % 256 == 0
  {
    match x
    case NaN => 0
    case Int(v) => v % 256
  }
}
