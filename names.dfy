/** Name handling used by the model: the case-insensitive ordering of entry
    names, the last segment of a path, and the path of a child entry. */
module Names {

  /** Case folding.  Only ASCII letters are folded; see README. */
  function Fold(c: char): (r: char)
    ensures !('A' <= r <= 'Z')
    ensures r == c || ('A' <= c <= 'Z' && r as int == c as int + 32)
  {
    if 'A' <= c <= 'Z' then (c as int + 32) as char else c
  }

  /** Case-insensitive three-way comparison of two entry names: negative,
      zero or positive as `a` sorts before, equal to or after `b`, comparing
      folded characters in turn; a proper prefix sorts first. */
  function CompareCI(a: string, b: string): (r: int)
    ensures -1 <= r <= 1
  {
    if a == [] then (if b == [] then 0 else -1)
    else if b == [] then 1
    else if Fold(a[0]) < Fold(b[0]) then -1
    else if Fold(a[0]) > Fold(b[0]) then 1
    else CompareCI(a[1..], b[1..])
  }

  /** Swapping the arguments flips the sign of the comparison. */
  lemma {:induction false} CompareCIAntisymmetric(a: string, b: string)
    ensures CompareCI(a, b) == -CompareCI(b, a)
  {
    if a != [] && b != [] && Fold(a[0]) == Fold(b[0]) {
      CompareCIAntisymmetric(a[1..], b[1..]);
    }
  }

  /** A proper prefix sorts before the longer name. */
  lemma {:induction false} CompareCIPrefix(a: string, b: string)
    requires |a| < |b| && a == b[..|a|]
    ensures CompareCI(a, b) == -1
  {
    if a != [] {
      assert a[1..] == b[1..][..|a| - 1];
      CompareCIPrefix(a[1..], b[1..]);
    }
  }

  /** "Sorts no later than" is transitive. */
  lemma {:induction false} CompareCITransitive(a: string, b: string, c: string)
    requires CompareCI(a, b) <= 0 && CompareCI(b, c) <= 0
    ensures CompareCI(a, c) <= 0
  {
    if a != [] && b != [] && c != [] && Fold(a[0]) == Fold(b[0]) == Fold(c[0]) {
      CompareCITransitive(a[1..], b[1..], c[1..]);
    }
  }

  /** Two names compare equal exactly when they agree up to case. */
  lemma {:induction false} CompareCIZero(a: string, b: string)
    ensures CompareCI(a, b) == 0 <==> |a| == |b| && forall i :: 0 <= i < |a| ==> Fold(a[i]) == Fold(b[i])
  {
    if a != [] && b != [] {
      CompareCIZero(a[1..], b[1..]);
      if |a| == |b| && Fold(a[0]) == Fold(b[0]) && CompareCI(a[1..], b[1..]) == 0 {
        forall i | 0 <= i < |a| ensures Fold(a[i]) == Fold(b[i]) {
          if i > 0 { assert a[i] == a[1..][i - 1] && b[i] == b[1..][i - 1]; }
        }
      }
      if |a| == |b| && forall i :: 0 <= i < |a| ==> Fold(a[i]) == Fold(b[i]) {
        assert Fold(a[0]) == Fold(b[0]);
        assert forall i :: 0 <= i < |a| - 1 ==> a[1..][i] == a[i + 1] && b[1..][i] == b[i + 1];
      }
    }
  }

  /** The text after the last '/' of a path, the whole path when it has none. */
  function FileName(path: string): (r: string)
    ensures '/' !in r
    ensures |r| <= |path| && path[|path| - |r|..] == r
    ensures |r| < |path| ==> path[|path| - |r| - 1] == '/'
  {
    if path == [] then []
    else if path[|path| - 1] == '/' then []
    else FileName(path[..|path| - 1]) + [path[|path| - 1]]
  }

  /** The path of an entry called `name` inside the directory at `dirPath`:
      a separator is added only when `dirPath` does not already end in one. */
  function ChildPath(dirPath: string, name: string): (r: string)
    ensures |r| == |dirPath| + |name| + (if |dirPath| > 0 && dirPath[|dirPath| - 1] == '/' then 0 else 1)
    ensures r[..|dirPath|] == dirPath && r[|r| - |name|..] == name
    ensures r[|r| - |name| - 1] == '/'
  {
    if |dirPath| > 0 && dirPath[|dirPath| - 1] == '/' then dirPath + name else dirPath + "/" + name
  }

  /** The last segment of a child's path is the child's own name. */
  lemma ChildPathFileName(dirPath: string, name: string)
    ensures '/' !in name ==> FileName(ChildPath(dirPath, name)) == name
  {
  }

  /** The pseudo-entries a directory listing reports for itself and its parent. */
  predicate IsDotEntry(name: string)
  {
    name == "." || name == ".."
  }
}
