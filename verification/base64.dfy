/** The Base64 recogniser: the pattern `(?:[A-Za-z0-9+/]{4}){10,}(?:[A-Za-z0-9+/]{2}==|[A-Za-z0-9+/]{3}=)?`
    searched left to right without overlap, Node's Base64 decoding of each match, the
    7-bit `ascii` decoding of the bytes and the printable allowlist that accepts a match. */
module Base64 {
  import opened JsText
  import opened Annotation

  /** The fewest four-character groups a match holds (the `{10,}` quantifier). */
  const MinGroups: nat := 10

  /** The shortest match: `MinGroups` groups of four characters. */
  const MinLength: nat := 4 * MinGroups

  /** The class `[A-Za-z0-9+/]`. */
  predicate IsAlphabet(c: char)
  {
    'A' <= c <= 'Z' || 'a' <= c <= 'z' || '0' <= c <= '9' || c == '+' || c == '/'
  }

  /** Length of the run of alphabet characters that starts at `p`. */
  function RunLength(s: string, p: nat): (n: nat)
    requires p <= |s|
    ensures p + n <= |s|
    ensures forall k :: p <= k < p + n ==> IsAlphabet(s[k])
    ensures p + n == |s| || !IsAlphabet(s[p + n])
  {
    ClassRun(s, p, IsAlphabet)
  }

  /** The texts the pattern matches in full: at least ten groups of four alphabet characters,
      optionally followed by one padded group `xx==` or `xxx=`. */
  ghost predicate InPattern(t: string)
  {
    && |t| % 4 == 0
    && (|| (|t| >= MinLength && forall k :: 0 <= k < |t| ==> IsAlphabet(t[k]))
        || (|t| >= MinLength + 4 && (forall k :: 0 <= k < |t| - 2 ==> IsAlphabet(t[k]))
            && t[|t| - 2] == '=' && t[|t| - 1] == '=')
        || (|t| >= MinLength + 4 && (forall k :: 0 <= k < |t| - 1 ==> IsAlphabet(t[k]))
            && t[|t| - 1] == '='))
  }

  /** Number of `=` characters padding the last group. */
  function Padding(t: string): (n: nat)
    ensures n <= 2 && n <= |t|
  {
    if |t| >= 1 && t[|t| - 1] == '=' then (if |t| >= 2 && t[|t| - 2] == '=' then 2 else 1) else 0
  }

  /** Base64 text as the decoder reads it: whole groups of four, alphabet characters up to
      the padding. */
  predicate WellFormed(t: string)
  {
    |t| % 4 == 0 && forall k :: 0 <= k < |t| - Padding(t) ==> IsAlphabet(t[k])
  }

  /** Alphabet characters from `p` and then `pad` padding characters up to `e`, in whole
      groups, form a text of the pattern that the decoder reads. */
  lemma GroupsInPattern(s: string, p: nat, e: nat, pad: nat)
    requires p + MinLength <= e <= |s| && (e - p) % 4 == 0 && pad <= 2
    requires pad > 0 ==> p + MinLength + 4 <= e
    requires forall k :: p <= k < e - pad ==> IsAlphabet(s[k])
    requires forall k :: e - pad <= k < e ==> s[k] == '='
    ensures InPattern(s[p..e]) && WellFormed(s[p..e])
  {
    var t := s[p..e];
    assert forall k :: 0 <= k < |t| ==> t[k] == s[p + k];
    assert Padding(t) == pad;
  }

  /** The whole groups of a run of `n` characters. */
  lemma WholeGroups(n: nat)
    ensures n / 4 * 4 + n % 4 == n && n / 4 * 4 % 4 == 0
    ensures n >= MinLength ==> n / 4 * 4 >= MinLength
  {
  }

  /** Where an attempt of the pattern at position `p` ends, if it succeeds: the greedy `{10,}`
      takes every whole group of the alphabet run, then the optional padded group is tried. */
  function MatchAt(s: string, p: nat): (r: Option<nat>)
    requires p <= |s|
    ensures r.Some? ==> p + MinLength <= r.value <= |s|
  {
    var n := RunLength(s, p);
    if n < MinLength then None
    else
      WholeGroups(n);
      var q := p + n / 4 * 4;
      if n % 4 == 2 && q + 4 <= |s| && s[q + 2] == '=' && s[q + 3] == '=' then Some(q + 4)
      else if n % 4 == 3 && q + 4 <= |s| && s[q + 3] == '=' then Some(q + 4)
      else Some(q)
  }

  /** What the attempt at `p` matches is a text of the pattern, and one the decoder reads. */
  lemma MatchAtSound(s: string, p: nat)
    requires p <= |s| && MatchAt(s, p).Some?
    ensures InPattern(s[p..MatchAt(s, p).value]) && WellFormed(s[p..MatchAt(s, p).value])
  {
    var n := RunLength(s, p);
    WholeGroups(n);
    var q := p + n / 4 * 4;
    assert q <= p + n;
    if n % 4 == 2 && q + 4 <= |s| && s[q + 2] == '=' && s[q + 3] == '=' {
      assert MatchAt(s, p) == Some(q + 4) && q + 2 == p + n;
      GroupsInPattern(s, p, q + 4, 2);
    } else if n % 4 == 3 && q + 4 <= |s| && s[q + 3] == '=' {
      assert MatchAt(s, p) == Some(q + 4) && q + 3 == p + n;
      GroupsInPattern(s, p, q + 4, 1);
    } else {
      assert MatchAt(s, p) == Some(q);
      GroupsInPattern(s, p, q, 0);
    }
  }

  /** What a match covers beyond the alphabet run it starts: padding characters only. */
  lemma MatchEndsInPadding(s: string, p: nat)
    requires p <= |s| && MatchAt(s, p).Some?
    ensures MatchAt(s, p).value <= p + RunLength(s, p) + 2
    ensures forall k :: p + RunLength(s, p) <= k < MatchAt(s, p).value ==> s[k] == '='
  {
  }

  /** An alphabet run of `4 * m` characters, `m >= 10`, is matched at least in full. */
  lemma MatchCoversGroups(s: string, p: nat, m: nat)
    requires m >= MinGroups && p + 4 * m <= |s|
    requires forall k :: p <= k < p + 4 * m ==> IsAlphabet(s[k])
    ensures MatchAt(s, p).Some? && p + 4 * m <= MatchAt(s, p).value
  {
    ClassRunAtLeast(s, p, 4 * m, IsAlphabet);
    var n := RunLength(s, p);
    assert n / 4 >= m;
  }

  /** Alphabet characters followed by `pad` padding characters that complete a group are
      matched exactly, padding included. */
  lemma MatchTakesPadding(s: string, p: nat, n: nat, pad: nat)
    requires pad == 1 || pad == 2
    requires (n + pad) % 4 == 0 && n + pad >= MinLength + 4 && p + n + pad <= |s|
    requires forall k :: p <= k < p + n ==> IsAlphabet(s[k])
    requires forall k :: p + n <= k < p + n + pad ==> s[k] == '='
    ensures MatchAt(s, p) == Some(p + n + pad)
  {
    ClassRunExact(s, p, n, IsAlphabet);
  }

  /** The match found at `p` is the longest prefix of `s[p..]` the pattern matches, and when
      there is none the pattern matches no prefix at all: the order in which the regular
      expression tries its alternatives always picks the longest one here. */
  lemma MatchAtIsLongest(s: string, p: nat, e: nat)
    requires p <= e <= |s| && InPattern(s[p..e])
    ensures MatchAt(s, p).Some? && e <= MatchAt(s, p).value
  {
    var t := s[p..e];
    assert forall k :: 0 <= k < |t| ==> t[k] == s[p + k];
    if forall k :: 0 <= k < |t| ==> IsAlphabet(t[k]) {
      MatchCoversGroups(s, p, |t| / 4);
    } else if |t| >= MinLength + 4 && (forall k :: 0 <= k < |t| - 2 ==> IsAlphabet(t[k]))
              && t[|t| - 2] == '=' && t[|t| - 1] == '=' {
      assert forall k :: p + |t| - 2 <= k < p + |t| ==> s[k] == '=';
      MatchTakesPadding(s, p, |t| - 2, 2);
    } else {
      assert |t| >= MinLength + 4 && (forall k :: 0 <= k < |t| - 1 ==> IsAlphabet(t[k])) && t[|t| - 1] == '=';
      assert forall k :: p <= k < p + |t| - 1 ==> IsAlphabet(s[k]);
      MatchTakesPadding(s, p, |t| - 1, 1);
    }
  }

  /** `exec` from `lastIndex`: the leftmost position at or after it where the pattern matches. */
  function NextMatch(s: string, lastIndex: nat): (m: Option<Span>)
    ensures m.Some? ==> lastIndex <= m.value.start <= |s| && MatchAt(s, m.value.start) == Some(m.value.end)
    decreases |s| + 1 - lastIndex
  {
    if lastIndex > |s| then None
    else
      match MatchAt(s, lastIndex)
      case Some(e) => Some(Span(lastIndex, e))
      case None => NextMatch(s, lastIndex + 1)
  }

  /** No match starts between `lastIndex` and the match `exec` returns (or the end of the
      text when it returns none). */
  lemma {:induction false} NextMatchIsLeftmost(s: string, lastIndex: nat, p: nat)
    requires lastIndex <= p <= |s|
    requires NextMatch(s, lastIndex).None? || p < NextMatch(s, lastIndex).value.start
    ensures MatchAt(s, p).None?
    decreases p - lastIndex
  {
    if p > lastIndex {
      NextMatchIsLeftmost(s, lastIndex + 1, p);
    }
  }

  /** A span the pattern matched. */
  ghost predicate IsCandidate(s: string, sp: Span)
  {
    sp.start <= |s| && MatchAt(s, sp.start) == Some(sp.end)
  }

  /** The successive matches of the search loop started at `from`, in order. */
  function Candidates(s: string, from: nat): (cs: seq<Span>)
    ensures forall i :: 0 <= i < |cs| ==> from <= cs[i].start
    ensures forall i :: 0 <= i < |cs| ==> cs[i].start + MinLength <= cs[i].end <= |s|
    ensures forall i :: 0 <= i < |cs| - 1 ==> cs[i].end <= cs[i + 1].start
    decreases |s| + 1 - from
  {
    match NextMatch(s, from)
    case None => []
    case Some(sp) =>
      var rest := Candidates(s, sp.end);
      assert forall i :: 0 < i < |rest| + 1 ==> ([sp] + rest)[i] == rest[i - 1];
      [sp] + rest
  }

  /** Each of them is a match of the pattern. */
  lemma {:induction false} CandidatesMatch(s: string, from: nat)
    ensures forall i :: 0 <= i < |Candidates(s, from)| ==> IsCandidate(s, Candidates(s, from)[i])
    decreases |s| + 1 - from
  {
    if NextMatch(s, from).Some? {
      var sp := NextMatch(s, from).value;
      CandidatesMatch(s, sp.end);
      var cs, rest := Candidates(s, from), Candidates(s, sp.end);
      assert cs == [sp] + rest;
      assert forall i :: 0 < i < |cs| ==> cs[i] == rest[i - 1];
    }
  }

  /** Where the search may resume: no match can start at `from` inside an alphabet run. */
  ghost predicate ResumesAtRunStart(s: string, from: nat)
  {
    from <= |s| && (from == 0 || !IsAlphabet(s[from - 1]) || RunLength(s, from) < MinLength)
  }

  /** After a match the search resumes where no match can continue the same run. */
  lemma MatchEndResumes(s: string, p: nat)
    requires p <= |s| && MatchAt(s, p).Some?
    ensures ResumesAtRunStart(s, MatchAt(s, p).value)
  {
    var n := RunLength(s, p);
    var e := MatchAt(s, p).value;
    if e == p + n / 4 * 4 {
      ClassRunSuffix(s, p, n / 4 * 4, IsAlphabet);
    }
  }

  /** The run through position `p - 1` is one longer than the run from `p` when `s[p - 1]`
      is an alphabet character. */
  lemma RunExtendsLeft(s: string, p: nat)
    requires 0 < p <= |s|
    ensures IsAlphabet(s[p - 1]) ==> RunLength(s, p - 1) == 1 + RunLength(s, p)
  {
  }

  /** Position `st` is where an alphabet run starts (not inside one). */
  predicate StartsRun(s: string, st: nat)
    requires st <= |s|
  {
    st == 0 || !IsAlphabet(s[st - 1])
  }

  /** The first match after a resumable position starts an alphabet run: a match one
      position earlier inside the same run would have been found first. */
  lemma FirstCandidateStartsRun(s: string, from: nat, sp: Span)
    requires ResumesAtRunStart(s, from) && NextMatch(s, from) == Some(sp)
    ensures StartsRun(s, sp.start)
  {
    if sp.start > from {
      NextMatchIsLeftmost(s, from, sp.start - 1);
      RunExtendsLeft(s, sp.start);
    }
  }

  /** Every match starts where an alphabet run starts, so it is the run's whole-group prefix
      (plus padding) and not the tail of a longer run. */
  lemma {:induction false} CandidatesStartRuns(s: string, from: nat)
    requires ResumesAtRunStart(s, from)
    ensures forall i :: 0 <= i < |Candidates(s, from)| ==> StartsRun(s, Candidates(s, from)[i].start)
    decreases |s| + 1 - from
  {
    var cs := Candidates(s, from);
    if NextMatch(s, from).Some? {
      var sp := NextMatch(s, from).value;
      var rest := Candidates(s, sp.end);
      assert cs == [sp] + rest;
      FirstCandidateStartsRun(s, from, sp);
      MatchEndResumes(s, sp.start);
      CandidatesStartRuns(s, sp.end);
      forall i | 0 < i < |cs|
        ensures StartsRun(s, cs[i].start)
      {
        assert cs[i] == rest[i - 1];
      }
    }
  }

  /** A search that starts before a long enough alphabet run finds a match no later than
      the run's start. */
  lemma NextMatchFindsRun(s: string, from: nat, p: nat)
    requires from <= p <= |s| && StartsRun(s, p) && RunLength(s, p) >= MinLength
    ensures NextMatch(s, from).Some? && NextMatch(s, from).value.start <= p
  {
    assert MatchAt(s, p).Some?;
    if NextMatch(s, from).None? || p < NextMatch(s, from).value.start {
      NextMatchIsLeftmost(s, from, p);
    }
  }

  /** From a resumable position the search finds a match no later than the start of a long
      run; one found earlier ends before that run and leaves the search resumable. */
  lemma NextMatchReachesRun(s: string, from: nat, p: nat)
    requires ResumesAtRunStart(s, from) && from <= p <= |s|
    requires StartsRun(s, p) && RunLength(s, p) >= MinLength
    ensures NextMatch(s, from).Some? && NextMatch(s, from).value.start <= p
    ensures var sp := NextMatch(s, from).value;
      sp.start < p ==> sp.end <= p && ResumesAtRunStart(s, sp.end)
  {
    NextMatchFindsRun(s, from, p);
    var sp := NextMatch(s, from).value;
    if sp.start < p {
      assert IsAlphabet(s[p]);
      ClassRunAtMost(s, sp.start, p - 1, IsAlphabet);
      MatchEndsInPadding(s, sp.start);
      MatchEndResumes(s, sp.start);
    }
  }

  /** Conversely, every alphabet run of at least `MinLength` characters yields a match at
      its start: the search skips none. */
  lemma {:induction false} CandidatesComplete(s: string, from: nat, p: nat)
    requires ResumesAtRunStart(s, from) && from <= p <= |s|
    requires StartsRun(s, p) && RunLength(s, p) >= MinLength
    ensures exists i :: 0 <= i < |Candidates(s, from)| && Candidates(s, from)[i].start == p
    decreases |s| + 1 - from
  {
    NextMatchReachesRun(s, from, p);
    var sp := NextMatch(s, from).value;
    var cs := Candidates(s, from);
    assert cs[0] == sp;
    if sp.start != p {
      CandidatesComplete(s, sp.end, p);
      var i :| 0 <= i < |Candidates(s, sp.end)| && Candidates(s, sp.end)[i].start == p;
      assert cs[i + 1] == Candidates(s, sp.end)[i];
    }
  }

  // ---------------------------------------------------------------- decoding

  /** The six-bit value of an alphabet character. */
  function SextetValue(c: char): (v: nat)
    requires IsAlphabet(c)
    ensures v < 64
  {
    if 'A' <= c <= 'Z' then c as int - 'A' as int
    else if 'a' <= c <= 'z' then c as int - 'a' as int + 26
    else if '0' <= c <= '9' then c as int - '0' as int + 52
    else if c == '+' then 62
    else 63
  }

  /** The alphabet character of a six-bit value; the inverse of `SextetValue`. */
  function SextetChar(v: nat): (c: char)
    requires v < 64
    ensures IsAlphabet(c) && SextetValue(c) == v
  {
    if v < 26 then ('A' as int + v) as char
    else if v < 52 then ('a' as int + v - 26) as char
    else if v < 62 then ('0' as int + v - 52) as char
    else if v == 62 then '+'
    else '/'
  }

  /** Every alphabet character is the character of its own value. */
  lemma SextetCharOfValue(c: char)
    requires IsAlphabet(c)
    ensures SextetChar(SextetValue(c)) == c
  {
  }

  // The three bytes of a group of four six-bit values `v0 v1 v2 v3`, most significant bit first.
  function Byte0(v0: nat, v1: nat): Byte requires v0 < 64 && v1 < 64 { v0 * 4 + v1 / 16 }
  function Byte1(v1: nat, v2: nat): Byte requires v1 < 64 && v2 < 64 { v1 % 16 * 16 + v2 / 4 }
  function Byte2(v2: nat, v3: nat): Byte requires v2 < 64 && v3 < 64 { v2 % 4 * 64 + v3 }

  // The four six-bit values of a group of three bytes `b0 b1 b2`.
  function Sextet0(b0: Byte): nat { b0 / 4 }
  function Sextet1(b0: Byte, b1: Byte): nat { b0 % 4 * 16 + b1 / 16 }
  function Sextet2(b1: Byte, b2: Byte): nat { b1 % 16 * 4 + b2 / 64 }
  function Sextet3(b2: Byte): nat { b2 % 64 }

  /** Splitting three bytes into four sextets and joining them again gives the bytes back. */
  lemma BytesOfSextets(b0: Byte, b1: Byte, b2: Byte)
    ensures Sextet0(b0) < 64 && Sextet1(b0, b1) < 64 && Sextet2(b1, b2) < 64 && Sextet3(b2) < 64
    ensures Byte0(Sextet0(b0), Sextet1(b0, b1)) == b0
    ensures Byte1(Sextet1(b0, b1), Sextet2(b1, b2)) == b1
    ensures Byte2(Sextet2(b1, b2), Sextet3(b2)) == b2
  {
  }

  /** Joining four sextets into three bytes and splitting them again gives the sextets back. */
  lemma SextetsOfBytes(v0: nat, v1: nat, v2: nat, v3: nat)
    requires v0 < 64 && v1 < 64 && v2 < 64 && v3 < 64
    ensures Sextet0(Byte0(v0, v1)) == v0
    ensures Sextet1(Byte0(v0, v1), Byte1(v1, v2)) == v1
    ensures Sextet2(Byte1(v1, v2), Byte2(v2, v3)) == v2
    ensures Sextet3(Byte2(v2, v3)) == v3
  {
  }

  /** A complete unpadded group in front of well-formed text keeps it well formed, with the
      same padding. */
  lemma WellFormedAfterGroup(g: string, r: string)
    requires |g| == 4 && IsAlphabet(g[0]) && IsAlphabet(g[1]) && IsAlphabet(g[2]) && IsAlphabet(g[3])
    ensures WellFormed(g + r) <==> WellFormed(r)
    ensures Padding(g + r) == Padding(r)
  {
    var t := g + r;
    assert forall k :: 4 <= k < |t| ==> t[k] == r[k - 4];
    if |r| > 0 {
      assert t[|t| - 1] == r[|r| - 1];
    }
    if |r| > 1 {
      assert t[|t| - 2] == r[|r| - 2];
    }
    if WellFormed(r) {
      forall k | 0 <= k < |t| - Padding(t)
        ensures IsAlphabet(t[k])
      {
        if k >= 4 {
          assert t[k] == r[k - 4];
        }
      }
    }
    if WellFormed(t) {
      forall k | 0 <= k < |r| - Padding(r)
        ensures IsAlphabet(r[k])
      {
        assert r[k] == t[k + 4];
      }
    }
  }

  /** `Buffer.from(t, 'base64')` on well-formed text: each group of four characters gives
      three bytes, a group padded with `=` gives two and one padded with `==` gives one. */
  function Decode(t: string): (b: seq<Byte>)
    requires WellFormed(t)
    ensures |b| == |t| / 4 * 3 - Padding(t)
    decreases |t|
  {
    if |t| == 0 then []
    else
      var v0, v1 := SextetValue(t[0]), SextetValue(t[1]);
      if t[2] == '=' then [Byte0(v0, v1)]
      else
        var v2 := SextetValue(t[2]);
        if t[3] == '=' then [Byte0(v0, v1), Byte1(v1, v2)]
        else
          var v3 := SextetValue(t[3]);
          WellFormedAfterGroup(t[..4], t[4..]);
          assert t == t[..4] + t[4..];
          [Byte0(v0, v1), Byte1(v1, v2), Byte2(v2, v3)] + Decode(t[4..])
  }

  /** The four characters of three bytes. */
  function EncodeGroup(b0: Byte, b1: Byte, b2: Byte): (g: string)
    ensures |g| == 4 && IsAlphabet(g[0]) && IsAlphabet(g[1]) && IsAlphabet(g[2]) && IsAlphabet(g[3])
    ensures SextetValue(g[0]) == Sextet0(b0) && SextetValue(g[1]) == Sextet1(b0, b1)
    ensures SextetValue(g[2]) == Sextet2(b1, b2) && SextetValue(g[3]) == Sextet3(b2)
  {
    BytesOfSextets(b0, b1, b2);
    [SextetChar(Sextet0(b0)), SextetChar(Sextet1(b0, b1)), SextetChar(Sextet2(b1, b2)), SextetChar(Sextet3(b2))]
  }

  /** The last, padded group of an encoding: one byte gives `xx==`, two give `xxx=`. */
  function EncodePadded(b: seq<Byte>): (t: string)
    requires 1 <= |b| <= 2
    ensures WellFormed(t) && |t| == 4 && Padding(t) == 3 - |b|
  {
    var g := EncodeGroup(b[0], if |b| == 2 then b[1] else 0, 0);
    var t := if |b| == 1 then [g[0], g[1], '=', '='] else [g[0], g[1], g[2], '='];
    assert forall k :: 0 <= k < 4 - Padding(t) ==> t[k] == g[k];
    t
  }

  /** Three bytes fewer: the same remainder and one group fewer. */
  lemma FewerGroups(n: nat, m: nat)
    requires m + 3 == n
    ensures (3 - m % 3) % 3 == (3 - n % 3) % 3
    ensures (m + 2) / 3 * 4 + 4 == (n + 2) / 3 * 4
  {
  }

  /** One or two bytes: one group, padded with two or one `=`. */
  lemma OneGroup(n: nat)
    requires 1 <= n <= 2
    ensures (3 - n % 3) % 3 == 3 - n && (n + 2) / 3 * 4 == 4
  {
  }

  /** Standard Base64 encoding with `=` padding. */
  function Encode(b: seq<Byte>): (t: string)
    ensures WellFormed(t) && |t| == (|b| + 2) / 3 * 4
    ensures Padding(t) == (3 - |b| % 3) % 3
    decreases |b|
  {
    if |b| == 0 then ""
    else if |b| < 3 then
      OneGroup(|b|);
      EncodePadded(b)
    else
      var g := EncodeGroup(b[0], b[1], b[2]);
      var rest := Encode(b[3..]);
      WellFormedAfterGroup(g, rest);
      FewerGroups(|b|, |b[3..]|);
      var t := g + rest;
      assert WellFormed(t) && Padding(t) == Padding(rest) && |t| == |rest| + 4;
      t
  }

  /** A whole group in front of well-formed text decodes to its three bytes. */
  lemma DecodeGroup(b0: Byte, b1: Byte, b2: Byte, r: string)
    requires WellFormed(r)
    ensures WellFormed(EncodeGroup(b0, b1, b2) + r)
    ensures Decode(EncodeGroup(b0, b1, b2) + r) == [b0, b1, b2] + Decode(r)
  {
    var g := EncodeGroup(b0, b1, b2);
    var t := g + r;
    WellFormedAfterGroup(g, r);
    BytesOfSextets(b0, b1, b2);
    assert t[0] == g[0] && t[1] == g[1] && t[2] == g[2] && t[3] == g[3];
    assert t[2] != '=' && t[3] != '=';
    assert t[..4] == g && t[4..] == r;
    var v0, v1, v2, v3 := SextetValue(t[0]), SextetValue(t[1]), SextetValue(t[2]), SextetValue(t[3]);
    assert Decode(t) == [Byte0(v0, v1), Byte1(v1, v2), Byte2(v2, v3)] + Decode(r);
  }

  /** A group padded with `==` decodes to its one byte. */
  lemma DecodeOnePadded(b0: Byte)
    ensures Decode(EncodePadded([b0])) == [b0]
  {
    var g := EncodeGroup(b0, 0, 0);
    var t := EncodePadded([b0]);
    assert t == [g[0], g[1], '=', '='];
    BytesOfSextets(b0, 0, 0);
    assert SextetValue(t[0]) == Sextet0(b0) && SextetValue(t[1]) == Sextet1(b0, 0);
  }

  /** A group padded with `=` decodes to its two bytes. */
  lemma DecodeTwoPadded(b0: Byte, b1: Byte)
    ensures Decode(EncodePadded([b0, b1])) == [b0, b1]
  {
    var g := EncodeGroup(b0, b1, 0);
    var t := EncodePadded([b0, b1]);
    assert t == [g[0], g[1], g[2], '='];
    BytesOfSextets(b0, b1, 0);
    assert SextetValue(t[0]) == Sextet0(b0) && SextetValue(t[1]) == Sextet1(b0, b1);
    assert SextetValue(t[2]) == Sextet2(b1, 0);
  }

  /** Decoding undoes encoding, for every byte sequence. */
  lemma {:induction false} DecodeEncode(b: seq<Byte>)
    ensures Decode(Encode(b)) == b
    decreases |b|
  {
    if |b| >= 3 {
      DecodeEncode(b[3..]);
      DecodeGroup(b[0], b[1], b[2], Encode(b[3..]));
      assert b == [b[0], b[1], b[2]] + b[3..];
    } else if |b| == 1 {
      DecodeOnePadded(b[0]);
      assert b == [b[0]];
    } else if |b| == 2 {
      DecodeTwoPadded(b[0], b[1]);
      assert b == [b[0], b[1]];
    }
  }

  /** Three bytes joined from four sextets encode to the characters of those sextets. */
  lemma EncodeGroupOfSextets(v0: nat, v1: nat, v2: nat, v3: nat)
    requires v0 < 64 && v1 < 64 && v2 < 64 && v3 < 64
    ensures EncodeGroup(Byte0(v0, v1), Byte1(v1, v2), Byte2(v2, v3))
         == [SextetChar(v0), SextetChar(v1), SextetChar(v2), SextetChar(v3)]
  {
    SextetsOfBytes(v0, v1, v2, v3);
  }

  /** Four alphabet characters are the encoding of the three bytes they decode to. */
  lemma EncodeGroupOfText(t: string)
    requires |t| == 4 && IsAlphabet(t[0]) && IsAlphabet(t[1]) && IsAlphabet(t[2]) && IsAlphabet(t[3])
    ensures EncodeGroup(Byte0(SextetValue(t[0]), SextetValue(t[1])), Byte1(SextetValue(t[1]), SextetValue(t[2])),
                        Byte2(SextetValue(t[2]), SextetValue(t[3]))) == t
  {
    assert t == [t[0], t[1], t[2], t[3]];
    EncodeGroupOfSextets(SextetValue(t[0]), SextetValue(t[1]), SextetValue(t[2]), SextetValue(t[3]));
    SextetCharOfValue(t[0]);
    SextetCharOfValue(t[1]);
    SextetCharOfValue(t[2]);
    SextetCharOfValue(t[3]);
  }

  /** `r` agrees with `t` everywhere except possibly at position `skip`. */
  predicate AgreesExceptAt(r: string, t: string, skip: int)
  {
    |r| == |t| && forall k :: 0 <= k < |t| && k != skip ==> r[k] == t[k]
  }

  /** Re-encoding the bytes `t` decodes to gives `t` back, except for the character just
      before the padding, whose low bits the padding drops. */
  predicate ReencodesToItself(t: string)
    requires WellFormed(t)
  {
    AgreesExceptAt(Encode(Decode(t)), t, if Padding(t) == 0 then -1 else |t| - Padding(t) - 1)
  }

  /** A padded last group re-encodes to itself. */
  lemma EncodeDecodePadded(t: string)
    requires WellFormed(t) && |t| == 4 && Padding(t) > 0
    ensures ReencodesToItself(t)
  {
    var v0, v1 := SextetValue(t[0]), SextetValue(t[1]);
    SextetCharOfValue(t[0]);
    if t[2] == '=' {
      SextetsOfBytes(v0, v1, 0, 0);
      assert Decode(t) == [Byte0(v0, v1)];
    } else {
      var v2 := SextetValue(t[2]);
      SextetsOfBytes(v0, v1, v2, 0);
      SextetCharOfValue(t[1]);
      assert Decode(t) == [Byte0(v0, v1), Byte1(v1, v2)];
    }
  }

  /** The count arithmetic behind re-encoding: `len / 4` groups less `p` padded bytes
      re-encode to `len` characters. */
  lemma GroupArithmetic(len: nat, p: nat)
    requires len % 4 == 0 && p <= 2 && (p > 0 ==> len >= 4)
    ensures (len / 4 * 3 - p + 2) / 3 * 4 == len
  {
    var n := len / 4;
    assert len == 4 * n;
    assert n * 3 - p + 2 == 3 * n + (2 - p);
  }

  /** Re-encoding the decoded bytes gives a text of the original length. */
  lemma ReencodedLength(t: string)
    requires WellFormed(t)
    ensures |Encode(Decode(t))| == |t|
  {
    GroupArithmetic(|t|, Padding(t));
  }

  /** The bytes of a text whose first group is whole: that group's three bytes, then the
      bytes of the rest. */
  lemma DecodeFirstGroup(t: string)
    requires WellFormed(t) && |t| >= 4 && IsAlphabet(t[2]) && IsAlphabet(t[3])
    ensures WellFormed(t[4..])
    ensures Decode(t) == [Byte0(SextetValue(t[0]), SextetValue(t[1])), Byte1(SextetValue(t[1]), SextetValue(t[2])),
                          Byte2(SextetValue(t[2]), SextetValue(t[3]))] + Decode(t[4..])
  {
    assert t[2] != '=' && t[3] != '=';
    assert IsAlphabet(t[0]) && IsAlphabet(t[1]);
    WellFormedAfterGroup(t[..4], t[4..]);
    assert t == t[..4] + t[4..];
  }

  /** The encoding of three or more bytes: the group of the first three, then the rest. */
  lemma EncodeFirstGroup(bs: seq<Byte>, rest: seq<Byte>)
    requires |bs| == 3
    ensures Encode(bs + rest) == EncodeGroup(bs[0], bs[1], bs[2]) + Encode(rest)
  {
    assert (bs + rest)[3..] == rest;
  }

  /** Re-encoding the bytes of a text whose first group is whole restores that group and
      leaves the rest to the re-encoding of the rest. */
  lemma EncodeDecodeFirstGroup(t: string)
    requires WellFormed(t) && |t| >= 4 && !(|t| == 4 && Padding(t) > 0)
    ensures WellFormed(t[4..]) && Padding(t[4..]) == Padding(t)
    ensures Encode(Decode(t)) == t[..4] + Encode(Decode(t[4..]))
  {
    var head, rest := t[..4], t[4..];
    assert t == head + rest;
    assert IsAlphabet(head[0]) && IsAlphabet(head[1]) && IsAlphabet(head[2]) && IsAlphabet(head[3]);
    WellFormedAfterGroup(head, rest);
    DecodeFirstGroup(t);
    var bs := [Byte0(SextetValue(t[0]), SextetValue(t[1])), Byte1(SextetValue(t[1]), SextetValue(t[2])),
               Byte2(SextetValue(t[2]), SextetValue(t[3]))];
    EncodeFirstGroup(bs, Decode(rest));
    EncodeGroupOfText(head);
  }

  /** Agreement survives putting the same text in front of both sides. */
  lemma AgreesAfterPrefix(head: string, r: string, t: string, skip: int)
    requires AgreesExceptAt(r, t, skip)
    ensures AgreesExceptAt(head + r, head + t, skip + |head|)
  {
    var r', t' := head + r, head + t;
    forall k | 0 <= k < |t'| && k != skip + |head|
      ensures r'[k] == t'[k]
    {
      if k >= |head| {
        assert r'[k] == r[k - |head|] && t'[k] == t[k - |head|];
      }
    }
  }

  /** A whole first group keeps re-encoding faithful if the rest re-encodes faithfully. */
  lemma EncodeDecodeStep(t: string)
    requires WellFormed(t) && |t| >= 4 && !(|t| == 4 && Padding(t) > 0)
    requires WellFormed(t[4..]) && ReencodesToItself(t[4..])
    ensures ReencodesToItself(t)
  {
    var head, rest := t[..4], t[4..];
    EncodeDecodeFirstGroup(t);
    var skip := if Padding(t) == 0 then -1 else |rest| - Padding(t) - 1;
    assert AgreesExceptAt(Encode(Decode(rest)), rest, skip);
    AgreesAfterPrefix(head, Encode(Decode(rest)), rest, skip);
    assert head + rest == t;
  }

  /** Encoding undoes decoding up to the bits the padding drops: the texts have the same
      length and agree everywhere except, when the text is padded, in the last character
      before the padding. */
  lemma {:induction false} EncodeDecode(t: string)
    requires WellFormed(t)
    ensures ReencodesToItself(t)
    decreases |t|
  {
    if |t| == 4 && Padding(t) > 0 {
      EncodeDecodePadded(t);
    } else if |t| > 0 {
      EncodeDecodeFirstGroup(t);
      EncodeDecode(t[4..]);
      EncodeDecodeStep(t);
    }
  }

  /** `buf.toString('ascii')`: every byte with its top bit cleared, as one character. */
  function AsciiText(b: seq<Byte>): (s: string)
    ensures |s| == |b| && forall k :: 0 <= k < |b| ==> s[k] as int == b[k] % 128
  {
    seq(|b|, k requires 0 <= k < |b| => (b[k] % 128) as char)
  }

  /** The text is pure ASCII, and an ASCII byte comes out as its own character. */
  lemma AsciiTextIsAscii(b: seq<Byte>, k: nat)
    requires k < |b|
    ensures AsciiText(b)[k] as int < 128
    ensures b[k] < 128 ==> AsciiText(b)[k] as int == b[k]
  {
  }

  /** Bytes that differ only in their top bit give the same text, so the acceptance test
      cannot tell them apart. */
  lemma AsciiTextIgnoresTopBit(a: seq<Byte>, b: seq<Byte>)
    requires |a| == |b| && forall k :: 0 <= k < |a| ==> a[k] % 128 == b[k] % 128
    ensures AsciiText(a) == AsciiText(b)
  {
  }

  // ---------------------------------------------------------------- acceptance

  /** The allowlist `[a-zA-Z0-9$_.+!*'(),;:/?@=&<>\[\]\{\}|\\^~%#-]`. */
  predicate IsAllowed(c: char)
  {
    'a' <= c <= 'z' || 'A' <= c <= 'Z' || '0' <= c <= '9' || c in "$_.+!*'(),;:/?@=&<>[]{}|\\^~%#-"
  }

  /** The test a decoded string must pass: one or more allowlisted characters and nothing
      else, and more than five characters. */
  predicate Accepts(d: string)
  {
    (|d| > 0 && forall k :: 0 <= k < |d| ==> IsAllowed(d[k])) && |d| > 5
  }

  /** The decoded text of a match. */
  function Decoded(s: string, sp: Span): (d: string)
    requires IsCandidate(s, sp)
    ensures |d| >= 3 * MinGroups
  {
    var t := s[sp.start..sp.end];
    MatchAtSound(s, sp.start);
    assert Padding(t) > 0 ==> |t| >= MinLength + 4;
    AsciiText(Decode(t))
  }

  /** A match is kept exactly when every decoded character is on the allowlist: a match has
      at least 40 characters, so it decodes to at least 30 and the length test never fails. */
  lemma AcceptedIffAllowed(s: string, sp: Span)
    requires IsCandidate(s, sp)
    ensures Accepts(Decoded(s, sp)) <==> forall k :: 0 <= k < |Decoded(s, sp)| ==> IsAllowed(Decoded(s, sp)[k])
  {
  }

  /** The decoded texts of a list of matches, in match order. */
  function Texts(s: string, cs: seq<Span>): (ds: seq<string>)
    requires forall i :: 0 <= i < |cs| ==> IsCandidate(s, cs[i])
    ensures |ds| == |cs|
  {
    if |cs| == 0 then []
    else
      var rest := Texts(s, cs[1..]);
      [Decoded(s, cs[0])] + rest
  }

  /** The accepted texts, each as a finding, in order. */
  function Recover(ds: seq<string>): (fs: seq<Finding>)
    ensures |fs| <= |ds|
    ensures forall i :: 0 <= i < |fs| ==> fs[i].Base64String? && Accepts(fs[i].text)
  {
    if |ds| == 0 then []
    else (if Accepts(ds[0]) then [Base64String(ds[0])] else []) + Recover(ds[1..])
  }

  /** Recovering from two lists of texts one after the other gives the findings of each,
      in that order. */
  lemma {:induction false} RecoverAppend(a: seq<string>, b: seq<string>)
    ensures Recover(a + b) == Recover(a) + Recover(b)
    decreases |a|
  {
    if |a| == 0 {
      assert a + b == b;
    } else {
      assert (a + b)[1..] == a[1..] + b;
      RecoverAppend(a[1..], b);
    }
  }

  /** A single decoded text yields its finding when it is accepted and nothing otherwise. */
  lemma RecoverSingle(d: string)
    ensures Recover([d]) == if Accepts(d) then [Base64String(d)] else []
  {
    assert [d][1..] == [];
  }

  /** The findings of the search loop started at `from`, in match order. */
  function FindingsFrom(s: string, from: nat): (fs: seq<Finding>)
    ensures forall i :: 0 <= i < |fs| ==> fs[i].Base64String? && Accepts(fs[i].text)
  {
    CandidatesMatch(s, from);
    Recover(Texts(s, Candidates(s, from)))
  }

  /** The findings of a text, in match order. */
  function Findings(s: string): (fs: seq<Finding>)
    ensures forall i :: 0 <= i < |fs| ==> fs[i].Base64String? && Accepts(fs[i].text)
  {
    FindingsFrom(s, 0)
  }

  /** The decoded texts of a match followed by others. */
  lemma TextsCons(s: string, c: Span, cs: seq<Span>)
    requires IsCandidate(s, c) && forall i :: 0 <= i < |cs| ==> IsCandidate(s, cs[i])
    ensures Texts(s, [c] + cs) == [Decoded(s, c)] + Texts(s, cs)
  {
    assert ([c] + cs)[1..] == cs;
  }

  /** One turn of the search loop: the findings from `from` are none when `exec` finds no
      match there, and otherwise what the match it returns contributes followed by the
      findings from the end of that match. */
  lemma FindingsStep(s: string, from: nat)
    ensures NextMatch(s, from).None? ==> FindingsFrom(s, from) == []
    ensures NextMatch(s, from).Some? ==>
      IsCandidate(s, NextMatch(s, from).value)
      && FindingsFrom(s, from) == Recover([Decoded(s, NextMatch(s, from).value)]) + FindingsFrom(s, NextMatch(s, from).value.end)
  {
    match NextMatch(s, from)
    case None =>
    case Some(sp) =>
      CandidatesMatch(s, from);
      CandidatesMatch(s, sp.end);
      var rest := Candidates(s, sp.end);
      assert Candidates(s, from) == [sp] + rest;
      TextsCons(s, sp, rest);
      RecoverAppend([Decoded(s, sp)], Texts(s, rest));
  }

  /** A match contributes one finding, holding its decoded text, exactly when that text is
      all allowlisted, and none otherwise. */
  lemma RecoverOne(s: string, sp: Span)
    requires IsCandidate(s, sp)
    ensures Recover(Texts(s, [sp])) == if forall k :: 0 <= k < |Decoded(s, sp)| ==> IsAllowed(Decoded(s, sp)[k])
                                       then [Base64String(Decoded(s, sp))] else []
  {
    AcceptedIffAllowed(s, sp);
    assert Texts(s, [sp]) == [Decoded(s, sp)];
  }

  /** The state of the global `g`-flagged pattern object: its `lastIndex` cursor. */
  class Base64Regex {
    var lastIndex: nat

    constructor ()
      ensures lastIndex == 0
    {
      lastIndex := 0;
    }

    /** `exec`: search from `lastIndex`; on a match move the cursor past it, otherwise
        reset it to 0. */
    method Exec(s: string) returns (m: Option<Span>)
      modifies this
      ensures m == NextMatch(s, old(lastIndex))
      ensures lastIndex == if m.Some? then m.value.end else 0
    {
      m := NextMatch(s, lastIndex);
      lastIndex := if m.Some? then m.value.end else 0;
    }
  }
}
