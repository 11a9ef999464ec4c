/** The two path operations the pipeline uses: `os.path.basename` (etl.py:76)
    and the string order `sorted` puts the file list in (etl.py:101). */
module Paths {

  /** POSIX `os.path.basename`: everything after the last '/'. */
  function Basename(p: string): (r: string)
    ensures |r| <= |p|
  {
    if |p| == 0 || p[|p| - 1] == '/' then []
    else Basename(p[..|p| - 1]) + [p[|p| - 1]]
  }

  /** The basename is the longest slash-free suffix of the path. */
  lemma {:induction false} BasenameIsLastPart(p: string)
    ensures '/' !in Basename(p)
    ensures Basename(p) == p[|p| - |Basename(p)|..]
    ensures |Basename(p)| == |p| || p[|p| - |Basename(p)| - 1] == '/'
    decreases |p|
  {
    if |p| > 0 && p[|p| - 1] != '/' {
      var q := p[..|p| - 1];
      BasenameIsLastPart(q);
      var r := Basename(q);
      assert Basename(p) == r + [p[|p| - 1]];
      assert q[|q| - |r|..] + [p[|p| - 1]] == p[|p| - |r| - 1..];
    }
  }

  /** Any split of a path into a directory part ending in '/' (or empty) and
      a slash-free last part has that last part as its basename. */
  lemma {:induction false} BasenameOfSplit(dir: string, name: string)
    requires '/' !in name
    requires dir == [] || dir[|dir| - 1] == '/'
    ensures Basename(dir + name) == name
    decreases |name|
  {
    var p := dir + name;
    if |name| == 0 {
      assert p == dir;
    } else {
      var init := name[..|name| - 1];
      assert p[..|p| - 1] == dir + init;
      assert p[|p| - 1] == name[|name| - 1];
      assert '/' !in init by {
        forall i | 0 <= i < |init| ensures init[i] != '/' { assert init[i] == name[i]; }
      }
      BasenameOfSplit(dir, init);
      assert init + [name[|name| - 1]] == name;
    }
  }

  lemma BasenameExample(p: string)
    requires p == "data/raw/jan.csv"
    ensures Basename(p) == "jan.csv"
  {
    assert p == "data/raw/" + "jan.csv";
    BasenameOfSplit("data/raw/", "jan.csv");
  }

  // ---------------------------------------------------------------------------
  // Python's string order
  // ---------------------------------------------------------------------------

  /** `a <= b` on Python strings: code points compared left to right, a proper
      prefix coming first. */
  predicate NotAbove(a: string, b: string)
    decreases |a|
  {
    || |a| == 0
    || (|b| > 0 && (a[0] < b[0] || (a[0] == b[0] && NotAbove(a[1..], b[1..]))))
  }

  lemma {:induction false} NotAboveTotal(a: string, b: string)
    ensures NotAbove(a, b) || NotAbove(b, a)
    decreases |a|
  {
    if |a| > 0 && |b| > 0 && a[0] == b[0] {
      NotAboveTotal(a[1..], b[1..]);
    }
  }

  lemma {:induction false} NotAboveAntisymmetric(a: string, b: string)
    requires NotAbove(a, b) && NotAbove(b, a)
    ensures a == b
    decreases |a|
  {
    if |a| > 0 {
      NotAboveAntisymmetric(a[1..], b[1..]);
      assert a == [a[0]] + a[1..] && b == [b[0]] + b[1..];
    }
  }

  lemma {:induction false} NotAboveTransitive(a: string, b: string, c: string)
    requires NotAbove(a, b) && NotAbove(b, c)
    ensures NotAbove(a, c)
    decreases |a|
  {
    if |a| > 0 && a[0] == b[0] && b[0] == c[0] {
      NotAboveTransitive(a[1..], b[1..], c[1..]);
    }
  }
}
