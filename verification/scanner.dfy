/** The per-file scan of the decompile endpoint: truncation of an oversized file, the two
    recognisers run one after the other with their `g`-flagged pattern objects, the warning
    block appended when something was recovered, and the suspect flag. */
module Scanner {
  import opened JsText
  import opened Annotation
  import opened Keywords
  import Base64
  import ByteArray

  /** The most characters of a file that are kept before the truncation marker. */
  const MaxLength: nat := 500000

  /** What replaces the part of an oversized file past `MaxLength`. */
  const TruncationMarker: string := "\n// ... [File too large, truncated] ..."

  /** The content a file is scanned as: an oversized file is cut to `MaxLength` characters
      and marked. */
  function Truncate(raw: string): (content: string)
  {
    if |raw| > MaxLength then raw[..MaxLength] + TruncationMarker else raw
  }

  /** A file of at most `MaxLength` characters is scanned as it is; a longer one as exactly
      its first `MaxLength` characters followed by the marker. Either way the scanned text
      is never longer than `MaxLength` plus the marker. */
  lemma TruncateShape(raw: string)
    ensures |raw| <= MaxLength ==> Truncate(raw) == raw
    ensures |raw| > MaxLength ==>
      |Truncate(raw)| == MaxLength + |TruncationMarker|
      && Truncate(raw)[..MaxLength] == raw[..MaxLength]
      && Truncate(raw)[MaxLength..] == TruncationMarker
    ensures |Truncate(raw)| <= MaxLength + |TruncationMarker|
  {
  }

  /** Nothing past the cut is ever scanned: two oversized files that agree on their first
      `MaxLength` characters are scanned as the same text. */
  lemma TruncateIgnoresTail(raw1: string, raw2: string)
    requires |raw1| > MaxLength && |raw2| > MaxLength && raw1[..MaxLength] == raw2[..MaxLength]
    ensures Truncate(raw1) == Truncate(raw2)
  {
  }

  /** Truncating what was already truncated changes nothing: the marked text is cut back
      to the same prefix and marked again. */
  lemma TruncateIdempotent(raw: string)
    ensures Truncate(Truncate(raw)) == Truncate(raw)
  {
    if |raw| > MaxLength {
      var t := Truncate(raw);
      assert t[..MaxLength] == raw[..MaxLength];
    }
  }

  /** The findings of a scanned text: the Base64 findings in match order, then the
      byte-array findings in match order. */
  function Findings(content: string): (fs: seq<Finding>)
    ensures |fs| == |Base64.Findings(content)| + |ByteArray.Findings(content)|
  {
    Base64.Findings(content) + ByteArray.Findings(content)
  }

  /** In a list of Base64 findings followed by byte-array findings, every Base64 finding
      comes before every byte-array finding. */
  lemma KindsInOrder(a: seq<Finding>, b: seq<Finding>)
    requires forall i :: 0 <= i < |a| ==> a[i].Base64String?
    requires forall i :: 0 <= i < |b| ==> b[i].ByteArrayString?
    ensures forall i, j :: 0 <= i < |a + b| && 0 <= j < |a + b| && (a + b)[i].ByteArrayString? && (a + b)[j].Base64String? ==> j < i
  {
  }

  /** Every Base64 finding comes before every byte-array finding. */
  lemma FindingsOrder(content: string)
    ensures var fs := Findings(content);
      forall i, j :: 0 <= i < |fs| && 0 <= j < |fs| && fs[i].ByteArrayString? && fs[j].Base64String? ==> j < i
  {
    KindsInOrder(Base64.Findings(content), ByteArray.Findings(content));
  }

  /** The text with the warning block appended when `info` is not empty. */
  function Annotate(content: string, info: string): (annotated: string)
  {
    if |info| > 0 then content + WarningBlock(info) else content
  }

  /** The result of scanning one file: its final content and whether it is suspect. */
  datatype Scan = Scan(content: string, suspect: bool)

  /** What the scan of one file produces. */
  function Classify(raw: string): Scan
  {
    var content := Truncate(raw);
    var info := Render(Findings(content));
    var annotated := Annotate(content, info);
    Scan(annotated, IsSuspicious(annotated) || |info| > 0)
  }

  /** The scanned text is always a prefix of the final content, and a warning block holding
      the annotation lines of the findings is appended exactly when there is a finding. */
  lemma ClassifyContent(raw: string)
    ensures var content := Truncate(raw); var fs := Findings(content);
      && |content| <= |Classify(raw).content|
      && Classify(raw).content[..|content|] == content
      && (|fs| == 0 ==> Classify(raw).content == content)
      && (|fs| > 0 ==> Classify(raw).content == content + WarningBlock(Render(fs)))
  {
    var content := Truncate(raw);
    AnnotateExtends(content, Render(Findings(content)));
  }

  /** Annotating only appends. */
  lemma AnnotateExtends(content: string, info: string)
    ensures |content| <= |Annotate(content, info)| && Annotate(content, info)[..|content|] == content
  {
    if |info| > 0 {
      assert (content + WarningBlock(info))[..|content|] == content;
    }
  }

  /** A file is suspect exactly when its scanned text matches a keyword or something was
      recovered from it: testing the annotated text instead of the scanned text makes no
      difference, because the block is only appended when there is a finding. */
  lemma ClassifySuspect(raw: string)
    ensures Classify(raw).suspect <==> IsSuspicious(Truncate(raw)) || |Findings(Truncate(raw))| > 0
  {
    var content := Truncate(raw);
    var info := Render(Findings(content));
    if |info| == 0 {
      assert Classify(raw).content == content;
    }
  }

  /** One turn of the Base64 loop: the findings of the match `exec` returns move from the
      pending part of the search to the collected part, and its line (if any) to the text. */
  lemma Base64Turn(content: string, from: nat, found: seq<Finding>)
    requires Base64.NextMatch(content, from).Some?
    requires found + Base64.FindingsFrom(content, from) == Base64.Findings(content)
    ensures var sp := Base64.NextMatch(content, from).value;
      Base64.IsCandidate(content, sp)
      && from < sp.end <= |content|
      && (found + Base64.Recover([Base64.Decoded(content, sp)])) + Base64.FindingsFrom(content, sp.end) == Base64.Findings(content)
      && Render(found + Base64.Recover([Base64.Decoded(content, sp)]))
         == Render(found) + if Base64.Accepts(Base64.Decoded(content, sp)) then Line(Base64String(Base64.Decoded(content, sp))) else []
  {
    var sp := Base64.NextMatch(content, from).value;
    Base64.FindingsStep(content, from);
    var decoded := Base64.Decoded(content, sp);
    Base64.RecoverSingle(decoded);
    var recovered := Base64.Recover([decoded]);
    var later := Base64.FindingsFrom(content, sp.end);
    Regroup(found, recovered, later);
    RenderAppend(found, recovered);
    if Base64.Accepts(decoded) {
      RenderOne(Base64String(decoded));
    }
  }

  /** The Base64 search loop over a scanned text with the shared pattern object: `exec` is
      called until it returns no match, which leaves the cursor back at 0, and one line is
      appended per accepted decoded string. */
  method Base64Lines(content: string, b64: Base64.Base64Regex) returns (info: string)
    requires b64.lastIndex == 0
    modifies b64
    ensures info == Render(Base64.Findings(content))
    ensures b64.lastIndex == 0
  {
    info := "";
    ghost var found: seq<Finding> := [];
    ghost var from: nat := 0;
    var m := b64.Exec(content);
    while m.Some?
      invariant from <= |content| + 1
      invariant m == Base64.NextMatch(content, from)
      invariant b64.lastIndex == if m.Some? then m.value.end else 0
      invariant found + Base64.FindingsFrom(content, from) == Base64.Findings(content)
      invariant info == Render(found)
      decreases |content| + 1 - from
    {
      var sp := m.value;
      Base64Turn(content, from, found);
      var decoded := Base64.Decoded(content, sp);
      if Base64.Accepts(decoded) {
        info := info + Line(Base64String(decoded));
      }
      found := found + Base64.Recover([decoded]);
      from := sp.end;
      m := b64.Exec(content);
    }
    Base64.FindingsStep(content, from);
    assert found == Base64.Findings(content);
  }

  /** One turn of the byte-array loop: the findings of the match `exec` returns move from the
      pending part of the search to the collected part, and its line (if any) to the text. */
  lemma ByteArrayTurn(content: string, from: nat, found: seq<Finding>)
    requires ByteArray.NextMatch(content, from).Some?
    requires found + ByteArray.FindingsFrom(content, from) == ByteArray.Findings(content)
    ensures var lit := ByteArray.NextMatch(content, from).value;
      lit.bodyStart <= lit.bodyEnd <= |content|
      && from < lit.End() <= |content|
      && (found + ByteArray.Recover([ByteArray.Decoded(content, lit)])) + ByteArray.FindingsFrom(content, lit.End()) == ByteArray.Findings(content)
      && Render(found + ByteArray.Recover([ByteArray.Decoded(content, lit)]))
         == Render(found) + if ByteArray.Accepts(ByteArray.Decoded(content, lit)) then Line(ByteArrayString(ByteArray.Decoded(content, lit))) else []
  {
    var lit := ByteArray.NextMatch(content, from).value;
    ByteArray.FindingsStep(content, from);
    var decoded := ByteArray.Decoded(content, lit);
    ByteArray.RecoverSingle(decoded);
    var recovered := ByteArray.Recover([decoded]);
    var later := ByteArray.FindingsFrom(content, lit.End());
    Regroup(found, recovered, later);
    RenderAppend(found, recovered);
    if ByteArray.Accepts(decoded) {
      RenderOne(ByteArrayString(decoded));
    }
  }

  /** The byte-array search loop over a scanned text with the shared pattern object: `exec` is
      called until it returns no match, which leaves the cursor back at 0, and one line is
      appended per accepted decoded string. */
  method ByteArrayLines(content: string, ba: ByteArray.ByteArrayRegex) returns (info: string)
    requires ba.lastIndex == 0
    modifies ba
    ensures info == Render(ByteArray.Findings(content))
    ensures ba.lastIndex == 0
  {
    info := "";
    ghost var found: seq<Finding> := [];
    ghost var from: nat := 0;
    var m := ba.Exec(content);
    while m.Some?
      invariant from <= |content| + 1
      invariant m == ByteArray.NextMatch(content, from)
      invariant ba.lastIndex == if m.Some? then m.value.End() else 0
      invariant found + ByteArray.FindingsFrom(content, from) == ByteArray.Findings(content)
      invariant info == Render(found)
      decreases |content| + 1 - from
    {
      var lit := m.value;
      ByteArrayTurn(content, from, found);
      var decoded := ByteArray.Decoded(content, lit);
      if ByteArray.Accepts(decoded) {
        info := info + Line(ByteArrayString(decoded));
      }
      found := found + ByteArray.Recover([decoded]);
      from := lit.End();
      m := ba.Exec(content);
    }
    ByteArray.FindingsStep(content, from);
    assert found == ByteArray.Findings(content);
  }

  /** Scans one file: truncation, the two search loops, the warning block and the suspect
      test. */
  method ScanFile(raw: string, b64: Base64.Base64Regex, ba: ByteArray.ByteArrayRegex)
    returns (content: string, suspect: bool)
    requires b64.lastIndex == 0 && ba.lastIndex == 0
    modifies b64, ba
    ensures Scan(content, suspect) == Classify(raw)
    ensures b64.lastIndex == 0 && ba.lastIndex == 0
  {
    content := raw;
    if |content| > MaxLength {
      content := content[..MaxLength] + TruncationMarker;
    }
    var info := Base64Lines(content, b64);
    var more := ByteArrayLines(content, ba);
    RenderAppend(Base64.Findings(content), ByteArray.Findings(content));
    info := info + more;
    if |info| > 0 {
      content := content + WarningBlock(info);
    }
    suspect := IsSuspicious(content) || |info| > 0;
  }
}
