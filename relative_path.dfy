/** A model of `get_relative_path(base, target)`: expressing one location in
    terms of another, as needed to write import paths between generated files.

    A path here is an already-split value: an optional anchor (the POSIX root
    `/` or a drive such as `c:`) and the sequence of segments below it.
    The result is a sequence of components; the empty sequence is the path
    that pathlib prints as ".". */
module RelativePath {

  const Parent: string := ".."
  const Current: string := "."

  /** The root or drive marker of a path. */
  datatype Anchor = Unanchored | PosixRoot | Drive(letter: char)

  datatype Path = Path(anchor: Anchor, segments: seq<string>)

  predicate IsAbsolute(p: Path) {
    p.anchor != Unanchored
  }

  /** A segment as pathlib keeps it: non-empty, no separator, never ".". */
  predicate IsSegment(s: string) {
    s != "" && s != Current && '/' !in s
  }

  /** Segments that can be followed lexically: no "." and no "..". */
  predicate Plain(segs: seq<string>) {
    forall i :: 0 <= i < |segs| ==> IsSegment(segs[i]) && segs[i] != Parent
  }

  /** The pairs of paths for which a result is defined: the same anchor on both
      sides, or an absolute base with a relative target (the escape hatch).
      Two different anchors, and a relative base against an absolute target,
      are outside the model. */
  predicate Compatible(base: Path, target: Path) {
    base.anchor == target.anchor || (IsAbsolute(base) && !IsAbsolute(target))
  }

  /** True when `n` is the length of the longest common prefix of `a` and `b`. */
  predicate IsCommonPrefixLength(a: seq<string>, b: seq<string>, n: nat) {
    && n <= |a| && n <= |b|
    && a[..n] == b[..n]
    && (n < |a| && n < |b| ==> a[n] != b[n])
  }

  function CommonPrefixLength(a: seq<string>, b: seq<string>): (n: nat)
    ensures IsCommonPrefixLength(a, b, n)
  {
    if a == [] || b == [] || a[0] != b[0] then 0
    else
      var m := CommonPrefixLength(a[1..], b[1..]);
      assert a[..m + 1] == [a[0]] + a[1..][..m];
      assert b[..m + 1] == [b[0]] + b[1..][..m];
      m + 1
  }

  /** `k` parent steps. */
  function Parents(k: nat): (r: seq<string>)
    ensures |r| == k
    ensures forall i :: 0 <= i < k ==> r[i] == Parent
  {
    if k == 0 then [] else [Parent] + Parents(k - 1)
  }

  /** One ".." per base segment past the common prefix, then the target's
      segments past the common prefix. */
  function RelativeSegments(base: seq<string>, target: seq<string>): seq<string> {
    var n := CommonPrefixLength(base, target);
    Parents(|base| - n) + target[n..]
  }

  /** `target` expressed relative to `base`. An absolute base with a relative
      target returns the target unchanged; otherwise the anchors agree and
      only the segments are compared. */
  function GetRelativePath(base: Path, target: Path): (r: seq<string>)
    requires Compatible(base, target)
    ensures IsAbsolute(base) && !IsAbsolute(target) ==> r == target.segments
    ensures base.anchor == target.anchor && Plain(target.segments) ==>
              Resolve(base.segments, r) == target.segments
  {
    if IsAbsolute(base) && !IsAbsolute(target) then target.segments
    else
      ResolveRelativeSegments(base.segments, target.segments);
      RelativeSegments(base.segments, target.segments)
  }

  // ---------------------------------------------------------------------
  // Lexical resolution: the partner that says what a relative result means.

  /** Follow one component from the location `at`. */
  function Step(at: seq<string>, component: string): seq<string> {
    if component == Parent then (if at == [] then [] else at[..|at| - 1])
    else if component == Current then at
    else at + [component]
  }

  /** Follow a sequence of components from `at`, left to right. */
  function Resolve(at: seq<string>, rel: seq<string>): seq<string>
    decreases |rel|
  {
    if rel == [] then at else Resolve(Step(at, rel[0]), rel[1..])
  }

  lemma {:induction false} ResolveAppend(at: seq<string>, xs: seq<string>, ys: seq<string>)
    ensures Resolve(at, xs + ys) == Resolve(Resolve(at, xs), ys)
    decreases |xs|
  {
    if xs == [] {
      assert xs + ys == ys;
    } else {
      assert (xs + ys)[1..] == xs[1..] + ys;
      ResolveAppend(Step(at, xs[0]), xs[1..], ys);
    }
  }

  /** `k` parent steps drop the last `k` segments. */
  lemma {:induction false} ResolveParents(at: seq<string>, k: nat)
    requires k <= |at|
    ensures Resolve(at, Parents(k)) == at[..|at| - k]
  {
    if k > 0 {
      var ps := Parents(k);
      assert ps[1..] == Parents(k - 1);
      assert Step(at, ps[0]) == at[..|at| - 1];
      ResolveParents(at[..|at| - 1], k - 1);
      assert at[..|at| - 1][..|at| - 1 - (k - 1)] == at[..|at| - k];
    }
  }

  /** Plain segments are appended as they are. */
  lemma {:induction false} ResolvePlain(at: seq<string>, segs: seq<string>)
    requires Plain(segs)
    ensures Resolve(at, segs) == at + segs
    decreases |segs|
  {
    if segs != [] {
      PlainSuffix(segs, 1);
      ResolvePlain(at + [segs[0]], segs[1..]);
      assert at + [segs[0]] + segs[1..] == at + segs;
    }
  }

  /** Resolving the relative segments against the base reaches the target. */
  lemma ResolveRelativeSegments(base: seq<string>, target: seq<string>)
    ensures Plain(target) ==> Resolve(base, RelativeSegments(base, target)) == target
  {
    if Plain(target) {
      ResolveAcrossPrefix(base, target, CommonPrefixLength(base, target));
    }
  }

  /** Climbing out of the base to a shared prefix and then descending the
      target's remaining plain segments reaches the target. */
  lemma ResolveAcrossPrefix(base: seq<string>, target: seq<string>, n: nat)
    requires Plain(target) && n <= |base| && n <= |target| && base[..n] == target[..n]
    ensures Resolve(base, Parents(|base| - n) + target[n..]) == target
  {
    var tail := target[n..];
    PlainSuffix(target, n);
    ResolveAppend(base, Parents(|base| - n), tail);
    ResolveParents(base, |base| - n);
    assert base[..|base| - (|base| - n)] == target[..n];
    ResolvePlain(target[..n], tail);
    assert target[..n] + tail == target;
  }

  lemma PlainSuffix(segs: seq<string>, n: nat)
    requires Plain(segs) && n <= |segs|
    ensures Plain(segs[n..])
  {
    forall i | 0 <= i < |segs| - n ensures IsSegment(segs[n..][i]) && segs[n..][i] != Parent {
      assert segs[n..][i] == segs[n + i];
    }
  }

  // ---------------------------------------------------------------------
  // Laws.

  /** The result is fixed by any maximal common prefix: ".." once per base
      segment past it, then the target's segments past it, in order. */
  lemma DivergingPaths(base: Path, target: Path, n: nat)
    requires base.anchor == target.anchor
    requires IsCommonPrefixLength(base.segments, target.segments, n)
    ensures GetRelativePath(base, target) ==
              Parents(|base.segments| - n) + target.segments[n..]
  {
    var m := CommonPrefixLength(base.segments, target.segments);
    CommonPrefixLengthUnique(base.segments, target.segments, m, n);
  }

  lemma CommonPrefixLengthUnique(a: seq<string>, b: seq<string>, m: nat, n: nat)
    requires IsCommonPrefixLength(a, b, m) && IsCommonPrefixLength(a, b, n)
    ensures m == n
  {
  }

  /** The number of ".." components is the number of base segments past the
      common prefix, and the rest is exactly the target's remaining segments. */
  lemma ParentCount(base: Path, target: Path)
    requires base.anchor == target.anchor
    ensures var n := CommonPrefixLength(base.segments, target.segments);
            var r := GetRelativePath(base, target);
            && |r| == |base.segments| + |target.segments| - 2 * n
            && (forall i :: 0 <= i < |base.segments| - n ==> r[i] == Parent)
            && r[|base.segments| - n..] == target.segments[n..]
  {
    var n := CommonPrefixLength(base.segments, target.segments);
    DivergingPaths(base, target, n);
  }

  /** A path relative to itself is ".". */
  lemma RelativeToItself(p: Path)
    ensures GetRelativePath(p, p) == []
  {
    DivergingPaths(p, p, |p.segments|);
  }

  /** A descendant is reached by its extra segments alone, with no "..". */
  lemma Descendant(base: Path, extra: seq<string>)
    ensures GetRelativePath(base, Path(base.anchor, base.segments + extra)) == extra
  {
    var target := Path(base.anchor, base.segments + extra);
    assert target.segments[..|base.segments|] == base.segments;
    assert target.segments[|base.segments|..] == extra;
    DivergingPaths(base, target, |base.segments|);
  }

  /** An ancestor is reached by ".." components only, one per extra base
      segment. */
  lemma Ancestor(target: Path, extra: seq<string>)
    ensures var r := GetRelativePath(Path(target.anchor, target.segments + extra), target);
            |r| == |extra| && forall i :: 0 <= i < |r| ==> r[i] == Parent
  {
    var base := Path(target.anchor, target.segments + extra);
    assert base.segments[..|target.segments|] == target.segments;
    DivergingPaths(base, target, |target.segments|);
    assert target.segments[|target.segments|..] == [];
  }

  /** The anchor takes no part in the computation: the same segments under two
      different anchors give the same result. */
  lemma AnchorIndependent(a1: Anchor, a2: Anchor, base: seq<string>, target: seq<string>)
    ensures GetRelativePath(Path(a1, base), Path(a1, target)) ==
            GetRelativePath(Path(a2, base), Path(a2, target))
  {
    var n := CommonPrefixLength(base, target);
    DivergingPaths(Path(a1, base), Path(a1, target), n);
    DivergingPaths(Path(a2, base), Path(a2, target), n);
  }

  // ---------------------------------------------------------------------
  // The parametrised vectors, for any anchor (the POSIX root and the drive
  // `c:` alike). The empty result is the path written ".". Each proof names
  // the common prefix length and reads off the result.

  lemma VectorSame(root: Anchor)
    requires root != Unanchored
    ensures GetRelativePath(Path(root, ["a", "b"]), Path(root, ["a", "b"]))
              == []
  {
    Vector(root, ["a", "b"], ["a", "b"], 2);
    assert Parents(0) == [];
  }

  lemma VectorChild(root: Anchor)
    requires root != Unanchored
    ensures GetRelativePath(Path(root, ["a", "b"]), Path(root, ["a", "b", "c"]))
              == ["c"]
  {
    Vector(root, ["a", "b"], ["a", "b", "c"], 2);
    assert Parents(0) == [];
  }

  lemma VectorGrandchild(root: Anchor)
    requires root != Unanchored
    ensures GetRelativePath(Path(root, ["a", "b"]), Path(root, ["a", "b", "c", "d"]))
              == ["c", "d"]
  {
    Vector(root, ["a", "b"], ["a", "b", "c", "d"], 2);
    assert Parents(0) == [];
  }

  lemma VectorParent(root: Anchor)
    requires root != Unanchored
    ensures GetRelativePath(Path(root, ["a", "b", "c"]), Path(root, ["a", "b"]))
              == [".."]
  {
    Vector(root, ["a", "b", "c"], ["a", "b"], 2);
    assert Parents(1) == [".."];
  }

  lemma VectorGrandparent(root: Anchor)
    requires root != Unanchored
    ensures GetRelativePath(Path(root, ["a", "b", "c", "d"]), Path(root, ["a", "b"]))
              == ["..", ".."]
  {
    Vector(root, ["a", "b", "c", "d"], ["a", "b"], 2);
    assert Parents(2) == ["..", ".."];
  }

  lemma VectorGreatGrandparent(root: Anchor)
    requires root != Unanchored
    ensures GetRelativePath(Path(root, ["a", "b", "c", "d"]), Path(root, ["a"]))
              == ["..", "..", ".."]
  {
    Vector(root, ["a", "b", "c", "d"], ["a"], 1);
    assert Parents(3) == ["..", "..", ".."];
  }

  lemma VectorDiverging(root: Anchor)
    requires root != Unanchored
    ensures GetRelativePath(Path(root, ["a", "b", "c", "d"]), Path(root, ["a", "x", "y", "z"]))
              == ["..", "..", "..", "x", "y", "z"]
  {
    Vector(root, ["a", "b", "c", "d"], ["a", "x", "y", "z"], 1);
    assert Parents(3) == ["..", "..", ".."];
  }

  lemma VectorRelativeTarget(root: Anchor)
    requires root != Unanchored
    ensures GetRelativePath(Path(root, ["a", "b", "c", "d"]), Path(Unanchored, ["a", "x", "y", "z"]))
              == ["a", "x", "y", "z"]
  {
  }

  lemma VectorSibling(root: Anchor)
    requires root != Unanchored
    ensures GetRelativePath(Path(root, ["a", "b", "c", "d"]), Path(root, ["a", "b", "e", "d"]))
              == ["..", "..", "e", "d"]
  {
    Vector(root, ["a", "b", "c", "d"], ["a", "b", "e", "d"], 2);
    assert Parents(2) == ["..", ".."];
  }

  lemma Vector(root: Anchor, base: seq<string>, target: seq<string>, n: nat)
    requires IsCommonPrefixLength(base, target, n)
    ensures GetRelativePath(Path(root, base), Path(root, target)) == Parents(|base| - n) + target[n..]
  {
    DivergingPaths(Path(root, base), Path(root, target), n);
  }
}
