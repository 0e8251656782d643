/** The byte-array recogniser: the pattern `new\s+byte\s*\[\s*\]\s*\{([0-9\s,-]+)\}` searched
    left to right without overlap, the conversion of the captured body to bytes (split on
    commas, `parseInt` of each trimmed piece, ToUint8), UTF-8 decoding of the bytes and the
    test that accepts a literal. */
module ByteArray {
  import opened JsText
  import opened Annotation
  import Utf8

  /** The body class `[0-9\s,-]`. */
  predicate IsBodyChar(c: char)
  {
    IsDigit(c) || IsJsSpace(c) || c == ',' || c == '-'
  }

  /** The `n` characters from `p` on are all whitespace. */
  predicate Spaces(s: string, p: nat, n: nat)
  {
    p + n <= |s| && forall k :: p <= k < p + n ==> IsJsSpace(s[k])
  }

  /** The `n` characters from `p` on all belong to the body class. */
  predicate BodyChars(s: string, p: nat, n: nat)
  {
    p + n <= |s| && forall k :: p <= k < p + n ==> IsBodyChar(s[k])
  }

  /** Length of the whitespace run at `p`: what a greedy `\s*` takes. */
  function SpaceRun(s: string, p: nat): (n: nat)
    requires p <= |s|
    ensures Spaces(s, p, n) && (p + n == |s| || !IsJsSpace(s[p + n]))
  {
    ClassRun(s, p, IsJsSpace)
  }

  /** Length of the body-class run at `p`: what a greedy `[0-9\s,-]+` takes. */
  function BodyRun(s: string, p: nat): (n: nat)
    requires p <= |s|
    ensures BodyChars(s, p, n) && (p + n == |s| || !IsBodyChar(s[p + n]))
  {
    ClassRun(s, p, IsBodyChar)
  }

  /** A whitespace run is determined by where it stops. */
  lemma SpaceRunExact(s: string, p: nat, n: nat)
    requires Spaces(s, p, n) && (p + n == |s| || !IsJsSpace(s[p + n]))
    ensures SpaceRun(s, p) == n
  {
    ClassRunExact(s, p, n, IsJsSpace);
  }

  /** A body-class run is determined by where it stops. */
  lemma BodyRunExact(s: string, p: nat, n: nat)
    requires BodyChars(s, p, n) && (p + n == |s| || !IsBodyChar(s[p + n]))
    ensures BodyRun(s, p) == n
  {
    ClassRunExact(s, p, n, IsBodyChar);
  }

  /** One element of the part of the pattern before the body: a literal character, or a
      whitespace gap `\s+` (`plus`) or `\s*`. */
  datatype Token = Char(c: char) | Gap(plus: bool)

  /** `new\s+byte\s*\[\s*\]\s*\{`, the part of the pattern before the capture group. */
  const Head: seq<Token> := [
    Char('n'), Char('e'), Char('w'), Gap(true), Char('b'), Char('y'), Char('t'), Char('e'),
    Gap(false), Char('['), Gap(false), Char(']'), Gap(false), Char('{')
  ]

  /** Token `t` can match exactly the text `s[p..m]`. */
  predicate TokenAt(s: string, p: nat, t: Token, m: nat)
  {
    match t
    case Char(c) => p < |s| && s[p] == c && m == p + 1
    case Gap(plus) => p <= m && Spaces(s, p, m - p) && (plus ==> m > p)
  }

  /** The tokens match the text from `p` on, each token ending where the next starts and the
      last at the last of `ends`: one of the ways the regular expression can match, with no
      preference among them. */
  predicate Follows(s: string, p: nat, toks: seq<Token>, ends: seq<nat>)
    decreases |toks| + |ends|
  {
    |ends| == |toks|
    && (toks == [] || (TokenAt(s, p, toks[0], ends[0]) && Follows(s, ends[0], toks[1..], ends[1..])))
  }

  /** Every gap is followed by a character that is not whitespace, so a gap can only be
      matched by the whole whitespace run. */
  predicate Determinate(toks: seq<Token>)
  {
    forall i :: 0 <= i < |toks| && toks[i].Gap? ==> i + 1 < |toks| && toks[i + 1].Char? && !IsJsSpace(toks[i + 1].c)
  }

  /** Matches one token greedily at `p`: where it ends, if it matches. */
  function Step(s: string, p: nat, t: Token): (m: Option<nat>)
    requires p <= |s|
    ensures m.Some? ==> m.value <= |s| && TokenAt(s, p, t, m.value)
  {
    match t
    case Char(c) => if p < |s| && s[p] == c then Some(p + 1) else None
    case Gap(plus) =>
      var n := SpaceRun(s, p);
      if plus && n == 0 then None else Some(p + n)
  }

  /** Matches the tokens one after another, each greedily and with no backtracking: where
      each one ends, if they all match. */
  function Run(s: string, p: nat, toks: seq<Token>): (ends: Option<seq<nat>>)
    requires p <= |s|
    ensures ends.Some? ==> |ends.value| == |toks| && forall i :: 0 <= i < |toks| ==> p <= ends.value[i] <= |s|
    ensures ends.Some? && toks != [] && toks[0].Char? ==> forall i :: 0 <= i < |toks| ==> p < ends.value[i]
    decreases |toks|, |s| - p  // the second component only stops unrolling over a constant token list
  {
    if toks == [] then Some([])
    else
      match Step(s, p, toks[0])
      case None => None
      case Some(m) =>
        match Run(s, m, toks[1..])
        case None => None
        case Some(rest) => Some([m] + rest)
  }

  /** What the greedy run finds is a way the tokens match. */
  lemma {:induction false} RunSound(s: string, p: nat, toks: seq<Token>)
    requires p <= |s| && Run(s, p, toks).Some?
    ensures Follows(s, p, toks, Run(s, p, toks).value)
    decreases |toks|
  {
    if toks != [] {
      var m := Step(s, p, toks[0]).value;
      var rest := Run(s, m, toks[1..]).value;
      RunSound(s, m, toks[1..]);
      assert ([m] + rest)[1..] == rest;
    }
  }

  /** The tokens after the first of a determinate sequence are determinate too. */
  lemma DeterminateTail(toks: seq<Token>)
    requires toks != [] && Determinate(toks)
    ensures Determinate(toks[1..])
  {
    forall i | 0 <= i < |toks| - 1 && toks[1..][i].Gap?
      ensures i + 1 < |toks| - 1 && toks[1..][i + 1].Char? && !IsJsSpace(toks[1..][i + 1].c)
    {
      assert toks[1..][i] == toks[i + 1];
    }
  }

  /** A token the greedy step can take in some way it takes in that way, provided a gap is
      followed by a non-space character. */
  lemma StepComplete(s: string, p: nat, t: Token, m: nat)
    requires TokenAt(s, p, t, m)
    requires t.Gap? ==> m < |s| && !IsJsSpace(s[m])
    ensures p <= |s| && Step(s, p, t) == Some(m)
  {
    if t.Gap? {
      SpaceRunExact(s, p, m - p);
    }
  }

  /** When every gap is followed by a character that cannot be whitespace, any way the tokens
      match is the one the greedy run finds. */
  lemma {:induction false} RunComplete(s: string, p: nat, toks: seq<Token>, ends: seq<nat>)
    requires p <= |s| && Determinate(toks) && Follows(s, p, toks, ends)
    ensures Run(s, p, toks) == Some(ends)
    decreases |toks|
  {
    if toks != [] {
      var m, rest := ends[0], ends[1..];
      assert ends == [m] + rest;
      StepComplete(s, p, toks[0], m);
      DeterminateTail(toks);
      RunComplete(s, m, toks[1..], rest);
    }
  }

  /** `([0-9\s,-]+)\}` is at `e`, with a body of `n` characters. */
  predicate BodyAt(s: string, e: nat, n: nat)
  {
    n >= 1 && BodyChars(s, e, n) && e + n < |s| && s[e + n] == '}'
  }

  /** A match: it starts at `start`, its capture group is `[bodyStart, bodyEnd)` and it ends
      just after the closing brace at `bodyEnd`. */
  datatype Literal = Literal(start: nat, bodyStart: nat, bodyEnd: nat)
  {
    function End(): nat { bodyEnd + 1 }
  }

  /** Reads `([0-9\s,-]+)\}` at `e`: the length of the body, if it is there. */
  function ReadBody(s: string, e: nat): (n: Option<nat>)
    requires e <= |s|
    ensures n.Some? ==> BodyAt(s, e, n.value)
  {
    var m := BodyRun(s, e);
    if m >= 1 && e + m < |s| && s[e + m] == '}' then Some(m) else None
  }

  /** A body followed by `}` is read whole. */
  lemma ReadBodyComplete(s: string, e: nat, n: nat)
    requires BodyAt(s, e, n)
    ensures ReadBody(s, e) == Some(n)
  {
    BodyRunExact(s, e, n);
  }

  /** The pattern matches the text from `p`, with its capture group `[e, e + n)`. */
  ghost predicate PatternAt(s: string, p: nat, e: nat, n: nat)
  {
    exists ends :: Follows(s, p, Head, ends) && ends[|Head| - 1] == e && BodyAt(s, e, n)
  }

  /** In `Head` every gap is followed by a letter or a bracket. */
  lemma HeadDeterminate()
    ensures Determinate(Head)
  {
    forall i | 0 <= i < |Head| && Head[i].Gap?
      ensures i + 1 < |Head| && Head[i + 1].Char? && !IsJsSpace(Head[i + 1].c)
    {
      assert i == 3 || i == 8 || i == 10 || i == 12;
    }
  }

  /** The attempt of the pattern at `p`. Each greedy quantifier is followed by a character
      outside its class, so the first attempt the regular expression makes is the only one
      that can succeed: every gap and the body are taken whole. */
  function MatchAt(s: string, p: nat): (r: Option<Literal>)
    requires p <= |s|
    ensures r.Some? ==> r.value.start == p < r.value.bodyStart < r.value.bodyEnd < |s|
  {
    match Run(s, p, Head)
    case None => None
    case Some(ends) =>
      var e := ends[|Head| - 1];
      match ReadBody(s, e)
      case None => None
      case Some(n) => Some(Literal(p, e, e + n))
  }

  /** What the attempt at `p` finds is a match of the pattern. */
  lemma MatchAtSound(s: string, p: nat)
    requires p <= |s| && MatchAt(s, p).Some?
    ensures PatternAt(s, p, MatchAt(s, p).value.bodyStart, MatchAt(s, p).value.bodyEnd - MatchAt(s, p).value.bodyStart)
  {
    var ends := Run(s, p, Head).value;
    var e := ends[|Head| - 1];
    var n := ReadBody(s, e).value;
    MatchAtOfReads(s, p, e, n);
    RunSound(s, p, Head);
    assert Follows(s, p, Head, ends) && ends[|Head| - 1] == e && BodyAt(s, e, n);
  }

  /** The attempt at `p` is assembled from the head and the body. */
  lemma MatchAtOfReads(s: string, p: nat, e: nat, n: nat)
    requires p <= |s| && Run(s, p, Head).Some? && Run(s, p, Head).value[|Head| - 1] == e
    requires e <= |s| && ReadBody(s, e) == Some(n)
    ensures MatchAt(s, p) == Some(Literal(p, e, e + n))
  {
  }

  /** Whenever the pattern matches at `p`, in any way, the attempt at `p` finds exactly that
      match: the gaps and the body are determined by the text. */
  lemma MatchAtComplete(s: string, p: nat, e: nat, n: nat)
    requires p <= |s| && PatternAt(s, p, e, n)
    ensures MatchAt(s, p) == Some(Literal(p, e, e + n))
  {
    var ends :| Follows(s, p, Head, ends) && ends[|Head| - 1] == e && BodyAt(s, e, n);
    HeadDeterminate();
    RunComplete(s, p, Head, ends);
    ReadBodyComplete(s, e, n);
    MatchAtOfReads(s, p, e, n);
  }

  // ---------------------------------------------------------------- search

  /** `byteArrayRegex.exec(s)` with the cursor at `lastIndex`: the leftmost match that starts
      at or after the cursor. */
  function NextMatch(s: string, lastIndex: nat): (m: Option<Literal>)
    ensures m.Some? ==> lastIndex <= m.value.start <= |s| && MatchAt(s, m.value.start) == m
    decreases |s| + 1 - lastIndex
  {
    if lastIndex > |s| then None
    else
      match MatchAt(s, lastIndex)
      case Some(lit) => Some(lit)
      case None => NextMatch(s, lastIndex + 1)
  }

  /** No match starts between `lastIndex` and the match `exec` returns (or the end of the
      text when it returns none). */
  lemma {:induction false} NextMatchIsLeftmost(s: string, lastIndex: nat, p: nat)
    requires lastIndex <= p <= |s|
    requires NextMatch(s, lastIndex).None? || p < NextMatch(s, lastIndex).value.start
    ensures MatchAt(s, p).None?
    decreases p - lastIndex
  {
    if p > lastIndex {
      NextMatchIsLeftmost(s, lastIndex + 1, p);
    }
  }

  /** A literal the pattern matched. */
  ghost predicate IsCandidate(s: string, lit: Literal)
  {
    lit.start <= |s| && MatchAt(s, lit.start) == Some(lit)
  }

  /** The successive matches of the search loop started at `from`, in order and without
      overlap. */
  function Candidates(s: string, from: nat): (cs: seq<Literal>)
    ensures forall i :: 0 <= i < |cs| ==> from <= cs[i].start
    ensures forall i :: 0 <= i < |cs| ==> cs[i].start < cs[i].bodyStart < cs[i].bodyEnd < cs[i].End() <= |s|
    ensures forall i :: 0 <= i < |cs| - 1 ==> cs[i].End() <= cs[i + 1].start
    decreases |s| + 1 - from
  {
    match NextMatch(s, from)
    case None => []
    case Some(lit) =>
      var rest := Candidates(s, lit.End());
      assert forall i :: 0 < i < |rest| + 1 ==> ([lit] + rest)[i] == rest[i - 1];
      [lit] + rest
  }

  /** Each of them is a match of the pattern. */
  lemma {:induction false} CandidatesMatch(s: string, from: nat)
    ensures forall i :: 0 <= i < |Candidates(s, from)| ==> IsCandidate(s, Candidates(s, from)[i])
    decreases |s| + 1 - from
  {
    if NextMatch(s, from).Some? {
      var lit := NextMatch(s, from).value;
      CandidatesMatch(s, lit.End());
      var cs, rest := Candidates(s, from), Candidates(s, lit.End());
      assert cs == [lit] + rest;
      assert forall i :: 0 < i < |cs| ==> cs[i] == rest[i - 1];
    }
  }

  // ---------------------------------------------------------------- values

  /** `body.split(',').map(b => parseInt(b.trim()))` passed to `Buffer.from`: one byte per
      comma-separated piece, in order. */
  function ByteValues(body: string): (bytes: seq<Byte>)
    ensures |bytes| == |Split(body, ',')| == Occurrences(body, ',') + 1
  {
    var pieces := Split(body, ',');
    seq(|pieces|, i requires 0 <= i < |pieces| => ToUint8(ParseInt(Trim(pieces[i]))))
  }

  /** How a Java source writes one element of an array literal: an optionally negative
      decimal numeral. */
  function Entry(x: int): (e: string)
    ensures |e| >= 1 && !IsJsSpace(e[0]) && !IsJsSpace(e[|e| - 1]) && ',' !in e
    ensures BodyChars(e, 0, |e|)
  {
    var d := Decimal(if x < 0 then -x else x);
    if x < 0 then "-" + d else d
  }

  /** An array body as a Java source writes it: the elements separated by `", "`. */
  function Format(xs: seq<int>): (body: string)
    requires |xs| >= 1
  {
    Join(FormatPieces(xs), ',')
  }

  /** Trimming an element with one leading space gives the element back. */
  lemma TrimEntry(x: int, pad: string)
    requires pad == "" || pad == " "
    ensures Trim(pad + Entry(x)) == Entry(x)
  {
    var e := Entry(x);
    var s := pad + e;
    if pad == " " {
      assert s[1..] == e;
    }
    assert TrimStart(s) == e;
    assert TrimEnd(e) == e;
  }

  /** The pieces of a formatted body between its commas. */
  function FormatPieces(xs: seq<int>): (ps: seq<string>)
    ensures |ps| == |xs|
    ensures forall i :: 0 <= i < |xs| ==> ps[i] == (if i == 0 then "" else " ") + Entry(xs[i]) && ',' !in ps[i]
  {
    seq(|xs|, i requires 0 <= i < |xs| => (if i == 0 then "" else " ") + Entry(xs[i]))
  }

  /** One formatted element is read back as that element modulo 256. */
  lemma EntryByte(x: int, pad: string)
    requires pad == "" || pad == " "
    ensures ToUint8(ParseInt(Trim(pad + Entry(x)))) == x % 256
  {
    TrimEntry(x, pad);
    ParseIntDecimal(x);
  }

  /** Reading a formatted body back gives each element reduced modulo 256: what a Java
      `byte` holds for each element, read as an unsigned byte. */
  lemma ByteValuesOfFormat(xs: seq<int>)
    requires |xs| >= 1
    ensures |ByteValues(Format(xs))| == |xs|
    ensures forall i :: 0 <= i < |xs| ==> ByteValues(Format(xs))[i] == xs[i] % 256
  {
    var ps := FormatPieces(xs);
    assert Format(xs) == Join(ps, ',');
    SplitJoin(ps, ',');
    forall i | 0 <= i < |xs|
      ensures ByteValues(Format(xs))[i] == xs[i] % 256
    {
      EntryByte(xs[i], if i == 0 then "" else " ");
    }
  }

  // ---------------------------------------------------------------- acceptance

  /** The class `[a-zA-Z0-9:/\.]` of the acceptance test. */
  predicate IsRunChar(c: char)
  {
    'a' <= c <= 'z' || 'A' <= c <= 'Z' || '0' <= c <= '9' || c == ':' || c == '/' || c == '.'
  }

  /** Five characters of the class start at `i`. */
  predicate RunAt(d: string, i: nat)
  {
    i + 5 <= |d| && forall k :: i <= k < i + 5 ==> IsRunChar(d[k])
  }

  /** `/[a-zA-Z0-9:/\.]{5,}/.test(d)`: a run of five or more characters of the class
      occurs somewhere, which is the same as five of them in a row. */
  predicate Accepts(d: string)
  {
    exists i: nat :: i + 5 <= |d| && RunAt(d, i)
  }

  /** The text a literal decodes to: its bytes read as UTF-8. */
  function DecodedBody(body: string): string
  {
    Utf8.Decode(ByteValues(body))
  }

  /** A literal with fewer than five comma-separated entries is never accepted: it has fewer
      than five bytes and UTF-8 decoding never produces more characters than bytes. */
  lemma FewEntriesNeverAccepted(body: string)
    requires Occurrences(body, ',') + 1 < 5
    ensures !Accepts(DecodedBody(body))
  {
  }

  /** A literal none of whose bytes is ASCII is never accepted: every character of the
      class is ASCII, and only ASCII bytes decode to ASCII characters. */
  lemma NonAsciiNeverAccepted(bytes: seq<Byte>)
    requires forall k :: 0 <= k < |bytes| ==> bytes[k] >= 0x80
    ensures !Accepts(Utf8.Decode(bytes))
  {
    var d := Utf8.Decode(bytes);
    if Accepts(d) {
      var i: nat :| i + 5 <= |d| && RunAt(d, i);
      assert IsRunChar(d[i]);
      Utf8.AsciiCharsFromAsciiBytes(bytes, i);
    }
  }

  /** Five bytes from `i` on are codes of characters of the class. */
  predicate ByteRunAt(bytes: seq<Byte>, i: nat)
  {
    i + 5 <= |bytes| && forall k :: i <= k < i + 5 ==> IsRunChar(bytes[k] as char)
  }

  /** When every byte is ASCII the text is the bytes themselves, so a literal is accepted
      exactly when five consecutive entries are codes of characters of the class. */
  lemma AsciiAcceptance(bytes: seq<Byte>)
    requires forall k :: 0 <= k < |bytes| ==> bytes[k] < 0x80
    ensures Accepts(Utf8.Decode(bytes)) <==> exists i: nat :: ByteRunAt(bytes, i)
  {
    var d := Utf8.Decode(bytes);
    Utf8.DecodeAscii(bytes);
    assert |d| == |bytes| && forall k :: 0 <= k < |bytes| ==> d[k] == bytes[k] as char;
    forall i: nat
      ensures RunAt(d, i) <==> ByteRunAt(bytes, i)
    {
    }
  }

  // ---------------------------------------------------------------- findings

  /** The text a match decodes to. */
  function Decoded(s: string, lit: Literal): string
    requires lit.bodyStart <= lit.bodyEnd <= |s|
  {
    DecodedBody(s[lit.bodyStart..lit.bodyEnd])
  }

  /** The texts of a list of matches, in match order. */
  function Texts(s: string, cs: seq<Literal>): (ds: seq<string>)
    requires forall i :: 0 <= i < |cs| ==> cs[i].bodyStart <= cs[i].bodyEnd <= |s|
    ensures |ds| == |cs|
  {
    if |cs| == 0 then []
    else
      var rest := Texts(s, cs[1..]);
      [Decoded(s, cs[0])] + rest
  }

  /** The accepted texts, each as a finding, in order. */
  function Recover(ds: seq<string>): (fs: seq<Finding>)
    ensures |fs| <= |ds|
    ensures forall i :: 0 <= i < |fs| ==> fs[i].ByteArrayString? && Accepts(fs[i].text)
  {
    if |ds| == 0 then []
    else (if Accepts(ds[0]) then [ByteArrayString(ds[0])] else []) + Recover(ds[1..])
  }

  /** Recovering from two lists of texts one after the other gives the findings of each,
      in that order. */
  lemma {:induction false} RecoverAppend(a: seq<string>, b: seq<string>)
    ensures Recover(a + b) == Recover(a) + Recover(b)
    decreases |a|
  {
    if |a| == 0 {
      assert a + b == b;
    } else {
      assert (a + b)[1..] == a[1..] + b;
      RecoverAppend(a[1..], b);
    }
  }

  /** A single decoded text yields its finding when it is accepted and nothing otherwise. */
  lemma RecoverSingle(d: string)
    ensures Recover([d]) == if Accepts(d) then [ByteArrayString(d)] else []
  {
    assert [d][1..] == [];
  }

  /** The findings of the search loop started at `from`, in match order. */
  function FindingsFrom(s: string, from: nat): (fs: seq<Finding>)
    ensures forall i :: 0 <= i < |fs| ==> fs[i].ByteArrayString? && Accepts(fs[i].text)
  {
    Recover(Texts(s, Candidates(s, from)))
  }

  /** The findings of a text, in match order. */
  function Findings(s: string): (fs: seq<Finding>)
    ensures forall i :: 0 <= i < |fs| ==> fs[i].ByteArrayString? && Accepts(fs[i].text)
  {
    FindingsFrom(s, 0)
  }

  /** The decoded texts of a match followed by others. */
  lemma TextsCons(s: string, c: Literal, cs: seq<Literal>)
    requires c.bodyStart <= c.bodyEnd <= |s| && forall i :: 0 <= i < |cs| ==> cs[i].bodyStart <= cs[i].bodyEnd <= |s|
    ensures Texts(s, [c] + cs) == [Decoded(s, c)] + Texts(s, cs)
  {
    assert ([c] + cs)[1..] == cs;
  }

  /** One turn of the search loop: the findings from `from` are none when `exec` finds no
      match there, and otherwise what the match it returns contributes followed by the
      findings from the end of that match. */
  lemma FindingsStep(s: string, from: nat)
    ensures NextMatch(s, from).None? ==> FindingsFrom(s, from) == []
    ensures NextMatch(s, from).Some? ==>
      NextMatch(s, from).value.bodyStart <= NextMatch(s, from).value.bodyEnd <= |s|
      && FindingsFrom(s, from) == Recover([Decoded(s, NextMatch(s, from).value)]) + FindingsFrom(s, NextMatch(s, from).value.End())
  {
    match NextMatch(s, from)
    case None =>
    case Some(lit) =>
      var rest := Candidates(s, lit.End());
      assert Candidates(s, from) == [lit] + rest;
      TextsCons(s, lit, rest);
      RecoverAppend([Decoded(s, lit)], Texts(s, rest));
  }

  /** The state of the global `g`-flagged pattern object: its `lastIndex` cursor. */
  class ByteArrayRegex {
    var lastIndex: nat

    constructor ()
      ensures lastIndex == 0
    {
      lastIndex := 0;
    }

    /** `exec`: search from `lastIndex`; on a match move the cursor past it, otherwise
        reset it to 0. */
    method Exec(s: string) returns (m: Option<Literal>)
      modifies this
      ensures m == NextMatch(s, old(lastIndex))
      ensures lastIndex == if m.Some? then m.value.End() else 0
    {
      m := NextMatch(s, lastIndex);
      lastIndex := if m.Some? then m.value.End() else 0;
    }
  }
}
