/** The response of the decompile endpoint: one entry per readable Java file, ordered with
    the suspect files first and then by path, and capped at `MaxFiles` entries. */
module Report {
  import opened JsText
  import Base64
  import ByteArray
  import Scanner

  /** One element of the `files` array of the response. */
  datatype FileEntry = FileEntry(path: string, content: string, suspect: bool)

  /** A Java file of the decompiler's output: its path relative to the output directory and
      its text, or `None` when it cannot be read. */
  datatype JavaFile = JavaFile(path: string, contents: Option<string>)

  /** The most entries a response holds. */
  const MaxFiles: nat := 2000

  // ---------------------------------------------------------------------------------------
  // The order of the entries

  /** Paths compare character by character; a proper prefix comes first. */
  predicate PathLe(a: string, b: string)
    decreases |a|
  {
    |a| == 0 || (|b| > 0 && (a[0] < b[0] || (a[0] == b[0] && PathLe(a[1..], b[1..]))))
  }

  lemma {:induction false} PathLeReflexive(a: string)
    ensures PathLe(a, a)
    decreases |a|
  {
    if |a| > 0 {
      PathLeReflexive(a[1..]);
    }
  }

  lemma {:induction false} PathLeTotal(a: string, b: string)
    ensures PathLe(a, b) || PathLe(b, a)
    decreases |a|
  {
    if |a| > 0 && |b| > 0 && a[0] == b[0] {
      PathLeTotal(a[1..], b[1..]);
    }
  }

  lemma {:induction false} PathLeAntisymmetric(a: string, b: string)
    requires PathLe(a, b) && PathLe(b, a)
    ensures a == b
    decreases |a|
  {
    if |a| > 0 {
      PathLeAntisymmetric(a[1..], b[1..]);
      assert a == [a[0]] + a[1..] && b == [b[0]] + b[1..];
    }
  }

  lemma {:induction false} PathLeTransitive(a: string, b: string, c: string)
    requires PathLe(a, b) && PathLe(b, c)
    ensures PathLe(a, c)
    decreases |a|
  {
    if |a| > 0 && a[0] == b[0] && b[0] == c[0] {
      PathLeTransitive(a[1..], b[1..], c[1..]);
    }
  }

  /** `x` may stay before `y`: the comparator `b.suspect - a.suspect || a.path.localeCompare(b.path)`
      is at most zero. Suspect entries come before the others, then paths in order. */
  predicate Le(x: FileEntry, y: FileEntry)
  {
    (x.suspect && !y.suspect) || (x.suspect == y.suspect && PathLe(x.path, y.path))
  }

  lemma LeTotal(x: FileEntry, y: FileEntry)
    ensures Le(x, y) || Le(y, x)
  {
    PathLeTotal(x.path, y.path);
  }

  lemma LeTransitive(x: FileEntry, y: FileEntry, z: FileEntry)
    requires Le(x, y) && Le(y, z)
    ensures Le(x, z)
  {
    if x.suspect == y.suspect == z.suspect {
      PathLeTransitive(x.path, y.path, z.path);
    }
  }

  /** Two entries that may each stay before the other agree on suspicion and path. */
  lemma LeAntisymmetric(x: FileEntry, y: FileEntry)
    requires Le(x, y) && Le(y, x)
    ensures x.suspect == y.suspect && x.path == y.path
  {
    PathLeAntisymmetric(x.path, y.path);
  }

  predicate Sorted(xs: seq<FileEntry>)
  {
    forall i, j :: 0 <= i < j < |xs| ==> Le(xs[i], xs[j])
  }

  /** No two entries share a path, as is the case for the files of one directory tree. */
  predicate DistinctPaths(xs: seq<FileEntry>)
  {
    forall i, j :: 0 <= i < j < |xs| ==> xs[i].path != xs[j].path
  }

  // ---------------------------------------------------------------------------------------
  // The sort

  /** Places `x` after the entries of `s` that may stay before it, so that of two entries
      that compare equal the earlier one stays first. */
  function Insert(s: seq<FileEntry>, x: FileEntry): (r: seq<FileEntry>)
    ensures |r| == |s| + 1 && multiset(r) == multiset(s) + multiset{x}
    decreases |s|
  {
    if |s| == 0 || Le(s[|s| - 1], x) then s + [x]
    else
      var init, last := s[..|s| - 1], s[|s| - 1];
      assert s == init + [last];
      Insert(init, x) + [last]
  }

  /** The stable sort of the entries, inserting them one by one in their original order. */
  function Sort(xs: seq<FileEntry>): (r: seq<FileEntry>)
    ensures |r| == |xs| && multiset(r) == multiset(xs)
    decreases |xs|
  {
    if |xs| == 0 then []
    else
      var init, last := xs[..|xs| - 1], xs[|xs| - 1];
      assert xs == init + [last];
      Insert(Sort(init), last)
  }

  /** Every entry of the result of `Insert` is `x` or an entry of `s`. */
  lemma InsertMembers(s: seq<FileEntry>, x: FileEntry)
    ensures forall y :: y in Insert(s, x) ==> y == x || y in s
  {
    forall y | y in Insert(s, x)
      ensures y == x || y in s
    {
      assert y in multiset(Insert(s, x));
    }
  }

  /** Inserting into a sorted list keeps it sorted. */
  lemma {:induction false} InsertSorted(s: seq<FileEntry>, x: FileEntry)
    requires Sorted(s)
    ensures Sorted(Insert(s, x))
    decreases |s|
  {
    if |s| == 0 || Le(s[|s| - 1], x) {
      forall i | 0 <= i < |s|
        ensures Le(s[i], x)
      {
        if i < |s| - 1 {
          LeTransitive(s[i], s[|s| - 1], x);
        }
      }
    } else {
      var init, last := s[..|s| - 1], s[|s| - 1];
      InsertSorted(init, x);
      LeTotal(last, x);
      var r := Insert(init, x);
      InsertMembers(init, x);
      forall i | 0 <= i < |r|
        ensures Le(r[i], last)
      {
        assert r[i] in r;
      }
    }
  }

  /** The sort orders the entries. */
  lemma {:induction false} SortSorted(xs: seq<FileEntry>)
    ensures Sorted(Sort(xs))
    decreases |xs|
  {
    if |xs| > 0 {
      SortSorted(xs[..|xs| - 1]);
      InsertSorted(Sort(xs[..|xs| - 1]), xs[|xs| - 1]);
    }
  }

  /** The sort leaves an ordered list as it is, so sorting twice is sorting once. */
  lemma {:induction false} SortOfSorted(xs: seq<FileEntry>)
    requires Sorted(xs)
    ensures Sort(xs) == xs
    decreases |xs|
  {
    if |xs| > 0 {
      var init, last := xs[..|xs| - 1], xs[|xs| - 1];
      SortedPrefix(xs, |xs| - 1);
      SortOfSorted(init);
      assert xs == init + [last];
      assert |init| == 0 || Le(init[|init| - 1], last);
    }
  }

  lemma SortIdempotent(xs: seq<FileEntry>)
    ensures Sort(Sort(xs)) == Sort(xs)
  {
    SortSorted(xs);
    SortOfSorted(Sort(xs));
  }

  lemma SortedPrefix(xs: seq<FileEntry>, n: nat)
    requires Sorted(xs) && n <= |xs|
    ensures Sorted(xs[..n])
  {
    forall i, j | 0 <= i < j < n
      ensures Le(xs[..n][i], xs[..n][j])
    {
      assert xs[..n][i] == xs[i] && xs[..n][j] == xs[j];
    }
  }

  /** Two lists of the same entries that end with the same entry hold the same entries
      before it. */
  lemma RemoveLast(a: seq<FileEntry>, b: seq<FileEntry>)
    requires |a| == |b| > 0 && multiset(a) == multiset(b) && a[|a| - 1] == b[|b| - 1]
    ensures multiset(a[..|a| - 1]) == multiset(b[..|b| - 1])
  {
    var n := |a| - 1;
    var ma, mb, x := multiset(a[..n]), multiset(b[..n]), a[n];
    assert a == a[..n] + [x] && b == b[..n] + [x];
    assert ma + multiset{x} == mb + multiset{x};
    forall y
      ensures ma[y] == mb[y]
    {
      assert (ma + multiset{x})[y] == (mb + multiset{x})[y];
    }
  }

  /** Two ordered lists of the same entries, with distinct paths, end with the same entry:
      each ends with a greatest entry, and only one entry is greatest. */
  lemma SameLast(a: seq<FileEntry>, b: seq<FileEntry>)
    requires Sorted(a) && Sorted(b) && multiset(a) == multiset(b) && DistinctPaths(a) && |a| > 0
    ensures |b| == |a| && a[|a| - 1] == b[|b| - 1]
  {
    assert |b| == |multiset(b)| == |multiset(a)| == |a|;
    var n := |a| - 1;
    assert a[n] in multiset(b) && b[n] in multiset(a);
    var j :| 0 <= j < |b| && b[j] == a[n];
    var i :| 0 <= i < |a| && a[i] == b[n];
    PathLeReflexive(a[n].path);
    assert Le(a[n], b[n]) by {
      if j < n { assert Le(b[j], b[n]); }
    }
    assert Le(b[n], a[n]) by {
      if i < n { assert Le(a[i], a[n]); }
    }
    LeAntisymmetric(a[n], b[n]);
    assert i == n;
  }

  /** Two ordered lists of the same entries are equal when no two entries share a path. */
  lemma {:induction false} SortedUnique(a: seq<FileEntry>, b: seq<FileEntry>)
    requires Sorted(a) && Sorted(b) && multiset(a) == multiset(b) && DistinctPaths(a)
    ensures a == b
    decreases |a|
  {
    if |a| == 0 {
      assert |multiset(b)| == 0;
    } else {
      SameLast(a, b);
      var n := |a| - 1;
      RemoveLast(a, b);
      SortedPrefix(a, n);
      SortedPrefix(b, n);
      assert DistinctPaths(a[..n]);
      SortedUnique(a[..n], b[..n]);
      assert a == a[..n] + [a[n]] && b == b[..n] + [b[n]];
    }
  }

  /** When no two entries share a path, any ordered rearrangement of them is the sort's
      result: the order does not depend on how the engine's sort proceeds. */
  lemma SortIsDetermined(xs: seq<FileEntry>, ys: seq<FileEntry>)
    requires DistinctPaths(xs) && Sorted(ys) && multiset(ys) == multiset(xs)
    ensures ys == Sort(xs)
  {
    SortSorted(xs);
    DistinctPathsPermutation(xs, Sort(xs));
    SortedUnique(Sort(xs), ys);
  }

  /** In a list whose paths are distinct, each entry occurs once. */
  lemma {:induction false} OccursOnce(xs: seq<FileEntry>, k: nat)
    requires DistinctPaths(xs) && k < |xs|
    ensures multiset(xs)[xs[k]] == 1
    decreases |xs|
  {
    var n := |xs| - 1;
    var init := xs[..n];
    assert xs == init + [xs[n]];
    assert DistinctPaths(init);
    if k == n {
      forall m | 0 <= m < n
        ensures init[m] != xs[n]
      {
        assert xs[m].path != xs[n].path;
      }
      assert xs[n] !in init;
    } else {
      OccursOnce(init, k);
      assert xs[k].path != xs[n].path;
    }
  }

  /** An entry found at two positions occurs at least twice. */
  lemma OccursTwice(ys: seq<FileEntry>, i: nat, j: nat)
    requires i < j < |ys| && ys[i] == ys[j]
    ensures multiset(ys)[ys[i]] >= 2
  {
    assert ys == ys[..j] + ys[j..];
    assert ys[i] in ys[..j];
    assert ys[j..][0] == ys[j];
  }

  /** Rearranging entries keeps their paths distinct. */
  lemma DistinctPathsPermutation(xs: seq<FileEntry>, ys: seq<FileEntry>)
    requires DistinctPaths(xs) && multiset(ys) == multiset(xs)
    ensures DistinctPaths(ys)
  {
    forall i, j | 0 <= i < j < |ys|
      ensures ys[i].path != ys[j].path
    {
      assert ys[i] in multiset(xs) && ys[j] in multiset(xs);
      var p :| 0 <= p < |xs| && xs[p] == ys[i];
      var q :| 0 <= q < |xs| && xs[q] == ys[j];
      if ys[i].path == ys[j].path {
        assert p == q;
        OccursTwice(ys, i, j);
        OccursOnce(xs, p);
      }
    }
  }

  // ---------------------------------------------------------------------------------------
  // The response

  /** The sorted entries, cut to the first `MaxFiles`. */
  function Report(entries: seq<FileEntry>): (r: seq<FileEntry>)
  {
    var sorted := Sort(entries);
    if |sorted| > MaxFiles then sorted[..MaxFiles] else sorted
  }

  /** The response holds the first `MaxFiles` of the sorted entries (all of them when there
      are no more), in order, and nothing that was not an entry. */
  lemma ReportShape(entries: seq<FileEntry>)
    ensures var r := Report(entries);
      && |r| == (if |entries| > MaxFiles then MaxFiles else |entries|)
      && r == Sort(entries)[..|r|]
      && Sorted(r)
      && multiset(r) <= multiset(entries)
  {
    var sorted := Sort(entries);
    SortSorted(entries);
    assert sorted == sorted[..|Report(entries)|] + sorted[|Report(entries)|..];
  }

  /** The cap drops non-suspect files first: if a suspect entry is left out, every entry of
      the response is suspect. */
  lemma ReportPrefersSuspects(entries: seq<FileEntry>, x: FileEntry)
    requires x in entries && x.suspect && x !in Report(entries)
    ensures forall y :: y in Report(entries) ==> y.suspect
  {
    var sorted := Sort(entries);
    SortSorted(entries);
    assert x in multiset(sorted);
    var i :| 0 <= i < |sorted| && sorted[i] == x;
    assert i >= MaxFiles;
    forall y | y in Report(entries)
      ensures y.suspect
    {
      var j :| 0 <= j < |Report(entries)| && Report(entries)[j] == y;
      assert Le(sorted[j], sorted[i]);
    }
  }

  /** Building the response from a response gives it back. */
  lemma ReportIdempotent(entries: seq<FileEntry>)
    ensures Report(Report(entries)) == Report(entries)
  {
    ReportShape(entries);
    SortOfSorted(Report(entries));
  }

  // ---------------------------------------------------------------------------------------
  // The entries

  /** The entry of a file that could be read. */
  function Entry(path: string, raw: string): (e: FileEntry)
    ensures e.path == path && Scanner.Scan(e.content, e.suspect) == Scanner.Classify(raw)
  {
    var scan := Scanner.Classify(raw);
    FileEntry(path, scan.content, scan.suspect)
  }

  /** The entries of the files, in order, skipping those that cannot be read. */
  function Entries(files: seq<JavaFile>): (es: seq<FileEntry>)
    ensures |es| <= |files|
    decreases |files|
  {
    if |files| == 0 then []
    else
      var f := files[|files| - 1];
      Entries(files[..|files| - 1]) + match f.contents
        case None => []
        case Some(raw) => [Entry(f.path, raw)]
  }

  /** The file at position `i` is readable and `e` is its entry. */
  predicate EntryOf(files: seq<JavaFile>, i: int, e: FileEntry)
  {
    0 <= i < |files| && files[i].contents.Some? && e == Entry(files[i].path, files[i].contents.value)
  }

  /** Every entry stems from a readable file. */
  lemma {:induction false} EntriesSound(files: seq<JavaFile>)
    ensures forall e :: e in Entries(files) ==> exists i :: EntryOf(files, i, e)
    decreases |files|
  {
    if |files| > 0 {
      var init := files[..|files| - 1];
      EntriesSound(init);
      forall e | e in Entries(files)
        ensures exists i :: EntryOf(files, i, e)
      {
        if e in Entries(init) {
          var i :| EntryOf(init, i, e);
          assert files[i] == init[i];
          assert EntryOf(files, i, e);
        } else {
          assert EntryOf(files, |files| - 1, e);
        }
      }
    }
  }

  /** Every readable file has its entry. */
  lemma {:induction false} EntriesComplete(files: seq<JavaFile>)
    ensures forall i :: 0 <= i < |files| && files[i].contents.Some? ==>
      Entry(files[i].path, files[i].contents.value) in Entries(files)
    decreases |files|
  {
    if |files| > 0 {
      var init := files[..|files| - 1];
      EntriesComplete(init);
      forall i | 0 <= i < |files| - 1 && files[i].contents.Some?
        ensures Entry(files[i].path, files[i].contents.value) in Entries(files)
      {
        assert files[i] == init[i];
      }
    }
  }

  /** The endpoint's work after decompilation: scan each file with the two pattern objects
      created once for the whole request, skipping the files that cannot be read, then sort
      the entries and cap their number. */
  method Decompile(files: seq<JavaFile>) returns (report: seq<FileEntry>)
    ensures report == Report(Entries(files))
  {
    var b64 := new Base64.Base64Regex();
    var ba := new ByteArray.ByteArrayRegex();
    var filesArray: seq<FileEntry> := [];
    for i := 0 to |files|
      invariant filesArray == Entries(files[..i])
      invariant b64.lastIndex == 0 && ba.lastIndex == 0
    {
      assert files[..i + 1][..i] == files[..i];
      var file := files[i];
      if file.contents.None? {
        continue;
      }
      var content, suspect := Scanner.ScanFile(file.contents.value, b64, ba);
      filesArray := filesArray + [FileEntry(file.path, content, suspect)];
    }
    assert files[..|files|] == files;
    filesArray := Sort(filesArray);
    if |filesArray| > MaxFiles {
      filesArray := filesArray[..MaxFiles];
    }
    report := filesArray;
  }
}
