/** The annotation text the scanner appends to a file: one `[AUTO-ANALYSIS]` line per
    recovered string, wrapped in a single delimited comment block. */
module Annotation {

  /** A recovered string, tagged with the recogniser that recovered it. */
  datatype Finding = Base64String(text: string) | ByteArrayString(text: string)

  /** The annotation line for one finding. */
  function Line(f: Finding): (l: string)
    ensures |l| > |f.text| + 1 && l[|l| - |f.text| - 1..|l| - 1] == f.text
  {
    match f
    case Base64String(t) => "\n// [AUTO-ANALYSIS] Possible hidden Base64 string decoded: \"" + t + "\""
    case ByteArrayString(t) => "\n// [AUTO-ANALYSIS] Possible hidden byte[] string decoded: \"" + t + "\""
  }

  /** The lines of the findings, in order, concatenated. */
  function Render(fs: seq<Finding>): (info: string)
    ensures |info| == 0 <==> |fs| == 0
    ensures |info| >= |fs|
  {
    if |fs| == 0 then "" else Render(fs[..|fs| - 1]) + Line(fs[|fs| - 1])
  }

  /** Rendering distributes over concatenation: lines appear in the order of their findings. */
  lemma {:induction false} RenderAppend(a: seq<Finding>, b: seq<Finding>)
    ensures Render(a + b) == Render(a) + Render(b)
    decreases |b|
  {
    if |b| == 0 {
      assert a + b == a;
    } else {
      var b', last := b[..|b| - 1], b[|b| - 1];
      assert (a + b)[|a + b| - 1] == last;
      assert (a + b)[..|a + b| - 1] == a + b';
      RenderAppend(a, b');
      Regroup(Render(a), Render(b'), Line(last));
    }
  }

  /** Concatenation regroups. */
  lemma Regroup<T>(x: seq<T>, y: seq<T>, z: seq<T>)
    ensures (x + y) + z == x + (y + z)
  {
  }

  /** A single finding renders as its own line. */
  lemma RenderOne(f: Finding)
    ensures Render([f]) == Line(f)
  {
    assert [f][..0] == [];
  }

  /** The text before the annotation lines in the warning block. */
  const Header: string := "\n/* \n======= AI ASSISTANT WARNING =======\nAutomated analysis detected obfuscation.\n"

  /** The text after the annotation lines in the warning block. */
  const Footer: string := "\n======================================\n*/\n"

  /** The comment block appended to a file when at least one string was recovered. */
  function WarningBlock(info: string): (block: string)
    ensures |block| == |Header| + |info| + |Footer|
    ensures block[..|Header|] == Header && block[|Header| + |info|..] == Footer
    ensures block[|Header|..|Header| + |info|] == info
  {
    Header + info + Footer
  }

  /** The block determines the annotation lines it holds: two blocks are equal only when
      their lines are. */
  lemma WarningBlockInjective(a: string, b: string)
    requires WarningBlock(a) == WarningBlock(b)
    ensures a == b
  {
    assert a == WarningBlock(a)[|Header|..|Header| + |a|];
  }
}
