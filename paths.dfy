/** Paths as Rust's std::path::Path sees them once split into components.

    A path is the sequence of its normal components. An absolute path carries an
    implicit leading root component, so `[]` stands both for "/" and for the empty
    relative path; in both cases Rust's `Path::parent` yields `None`, which is the
    only place where the distinction would matter to this model. */
module Paths {

  datatype Option<T> = None | Some(value: T)

  type Path = seq<string>

  /** `Path::parent`: the path without its last component, `None` for the empty path. */
  function Parent(p: Path): (r: Option<Path>)
    ensures r.None? <==> p == []
    ensures r.Some? ==> r.value + [p[|p| - 1]] == p
  {
    if p == [] then None else Some(p[..|p| - 1])
  }

  /** `base` is a whole-component prefix of `p` (`Path::starts_with`). */
  predicate IsPrefix(base: Path, p: Path)
  {
    |base| <= |p| && p[..|base|] == base
  }

  /** `q` is an immediate entry of directory `d`. */
  predicate IsChildOf(q: Path, d: Path)
  {
    Parent(q) == Some(d)
  }

  /** `Path::strip_prefix`: what remains of `p` after the components of `base`,
      `None` when `base` is not a component-wise prefix of `p`. */
  function StripPrefix(p: Path, base: Path): (r: Option<Path>)
    ensures r.Some? ==> base + r.value == p
    ensures r.None? ==> forall rel: Path :: base + rel != p
  {
    if IsPrefix(base, p) then Some(p[|base|..])
    else
      assert forall rel: Path :: (base + rel)[..|base|] == base;
      None
  }

  /** Stripping a prefix that was just prepended gives back the suffix. */
  lemma StripPrefixJoin(base: Path, rel: Path)
    ensures StripPrefix(base + rel, base) == Some(rel)
  {
    assert (base + rel)[..|base|] == base;
    assert (base + rel)[|base|..] == rel;
  }

  /** Matching is by whole components: "/r/ab" is not under "/r/a". */
  lemma StripPrefixWholeComponents()
    ensures StripPrefix(["r", "ab"], ["r", "a"]) == None
    ensures StripPrefix(["r", "a", "b"], ["r", "a"]) == Some(["b"])
  {
    assert ["r", "ab"][..2] != ["r", "a"] by { assert ["r", "ab"][..2][1] == "ab"; }
    StripPrefixJoin(["r", "a"], ["b"]);
    assert ["r", "a"] + ["b"] == ["r", "a", "b"];
  }

  /** A path stripped to nothing is the base itself. */
  lemma StripPrefixEmpty(p: Path, base: Path)
    ensures StripPrefix(p, base) == Some([]) <==> p == base
  {
    if p == base { StripPrefixJoin(base, []); assert base + [] == base; }
  }

  /** The parent of a relative path, resolved under the base it was stripped
      from, is the parent of the original path. */
  lemma ParentOfStripped(p: Path, base: Path, rel: Path, relParent: Path)
    requires StripPrefix(p, base) == Some(rel)
    requires Parent(rel) == Some(relParent)
    ensures Parent(p) == Some(base + relParent)
  {
    assert base + rel == p;
    assert rel == relParent + [rel[|rel| - 1]];
    assert p == (base + relParent) + [rel[|rel| - 1]];
  }

  /** Two paths of the same length are never parent and child. */
  lemma SameLengthNotChild(q: Path, d: Path)
    requires |q| == |d|
    ensures !IsChildOf(q, d)
  {
  }
}
