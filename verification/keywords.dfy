/** The keyword test: a case-insensitive search for any of a fixed list of API names
    associated with networking, process execution, reflection, native loading, Base64
    decoding, ciphers and file writes (the alternation of the suspect pattern). */
module Keywords {

  /** The alternatives of the suspect pattern, in the pattern's order. */
  const SuspectKeywords: seq<string> := [
    "java.net", "URL", "URLConnection", "HttpURLConnection", "Socket", "ProcessBuilder",
    "Runtime.getRuntime().exec", "System.loadLibrary", "ClassLoader", "Base64.getDecoder",
    "Cipher.getInstance", "Files.write", "FileOutputStream", "crypto"
  ]

  /** The canonical form the `i` flag compares: ASCII letters are upper-cased; no other
      character is changed (without the `u` flag a non-ASCII character never folds onto
      an ASCII one). */
  function FoldCase(c: char): (f: char)
    ensures !('a' <= f <= 'z')
    ensures f == c || ('a' <= c <= 'z' && f as int == c as int - 32)
  {
    if 'a' <= c <= 'z' then (c as int - 32) as char else c
  }

  /** Keyword `w` occurs in `text` at position `p`, ignoring case. */
  predicate MatchesAt(text: string, p: nat, w: string)
  {
    p + |w| <= |text| && SameUpToCase(text[p..p + |w|], w)
  }

  /** `suspectRegex.test(text)`: some keyword occurs somewhere, ignoring case. */
  predicate IsSuspicious(text: string)
  {
    exists i, p :: 0 <= i < |SuspectKeywords| && 0 <= p <= |text| && MatchesAt(text, p, SuspectKeywords[i])
  }

  /** Two texts that differ at most in the case of their letters. */
  predicate SameUpToCase(a: string, b: string)
  {
    |a| == |b| && forall k :: 0 <= k < |a| ==> FoldCase(a[k]) == FoldCase(b[k])
  }

  /** The text with every ASCII letter upper-cased. */
  function ToUpperAscii(s: string): (u: string)
    ensures SameUpToCase(u, s)
    ensures forall k :: 0 <= k < |u| ==> !('a' <= u[k] <= 'z')
  {
    seq(|s|, k requires 0 <= k < |s| => FoldCase(s[k]))
  }

  /** The text with every ASCII letter lower-cased. */
  function ToLowerAscii(s: string): (l: string)
    ensures SameUpToCase(l, s)
    ensures forall k :: 0 <= k < |l| ==> !('A' <= l[k] <= 'Z')
  {
    seq(|s|, k requires 0 <= k < |s| => if 'A' <= s[k] <= 'Z' then (s[k] as int + 32) as char else s[k])
  }

  /** Changing the case of letters never changes the verdict. */
  lemma CaseInsensitive(a: string, b: string)
    requires SameUpToCase(a, b)
    ensures IsSuspicious(a) <==> IsSuspicious(b)
  {
    forall i, p | 0 <= i < |SuspectKeywords| && 0 <= p <= |a|
      ensures MatchesAt(a, p, SuspectKeywords[i]) <==> MatchesAt(b, p, SuspectKeywords[i])
    {
      var w := SuspectKeywords[i];
      if p + |w| <= |a| {
        var x, y := a[p..p + |w|], b[p..p + |w|];
        assert forall k :: 0 <= k < |w| ==> x[k] == a[p + k] && y[k] == b[p + k];
      }
    }
  }

  /** Upper- or lower-casing the whole text gives the same verdict. */
  lemma CaseConversionInvariant(s: string)
    ensures IsSuspicious(ToUpperAscii(s)) <==> IsSuspicious(s)
    ensures IsSuspicious(ToLowerAscii(s)) <==> IsSuspicious(s)
  {
    CaseInsensitive(ToUpperAscii(s), s);
    CaseInsensitive(ToLowerAscii(s), s);
  }

  /** Text added before or after a matching text never removes the match. */
  lemma ExtensionPreservesMatch(a: string, b: string)
    requires IsSuspicious(a)
    ensures IsSuspicious(a + b) && IsSuspicious(b + a)
  {
    var i, p :| 0 <= i < |SuspectKeywords| && 0 <= p <= |a| && MatchesAt(a, p, SuspectKeywords[i]);
    var w := SuspectKeywords[i];
    assert (a + b)[p..p + |w|] == a[p..p + |w|];
    assert MatchesAt(a + b, p, w);
    assert (b + a)[|b| + p..|b| + p + |w|] == a[p..p + |w|];
    assert MatchesAt(b + a, |b| + p, w);
  }

  /** Any text that contains one of the keywords, in any case, is suspicious; for example
      a text containing `ProcessBuilder`. */
  lemma ContainingKeywordIsSuspicious(x: string, i: nat, y: string)
    requires i < |SuspectKeywords|
    ensures IsSuspicious(x + SuspectKeywords[i] + y)
    ensures IsSuspicious(x + ToLowerAscii(SuspectKeywords[i]) + y)
  {
    var w := SuspectKeywords[i];
    forall v | SameUpToCase(v, w)
      ensures MatchesAt(x + v + y, |x|, w)
    {
      assert (x + v + y)[|x|..|x| + |w|] == v;
    }
    assert SameUpToCase(w, w);
  }
}
