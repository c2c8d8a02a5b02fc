/** Paths below the root directory, and the order the program sorts them in.

    A path is the sequence of its components relative to the root; the root
    itself is the empty sequence and every walked entry has at least one
    component. Joining a relative path to the root is the identity in this
    representation, since all entries share the same root. */
module Paths {

  type Component = string
  type Path = seq<Component>

  /** A path strictly below the root: what the walk yields (it starts at depth 1). */
  type RelPath = p: Path | |p| > 0 witness [""]

  /** The directory containing `p`; `[]` when that directory is the root. */
  function Parent(p: RelPath): (r: Path)
    ensures |r| == |p| - 1 && r < p
  {
    p[..|p| - 1]
  }

  /** The final component of `p`: the name printed for the entry. */
  function FileName(p: RelPath): (r: Component)
    ensures p == Parent(p) + [r]
  {
    p[|p| - 1]
  }

  /** The ancestor of `p` made of its first `d + 1` components (`p` itself when `d` is the depth). */
  function Ancestor(p: RelPath, d: nat): (a: RelPath)
    requires d < |p|
    ensures |a| == d + 1 && a <= p
  {
    p[..d + 1]
  }

  // ---------------------------------------------------------------------
  // Lexicographic order. Rust compares paths component by component and
  // components as byte strings; for UTF-8 text, byte order is code-point
  // order, so components are compared here character by character.
  // ---------------------------------------------------------------------

  /** `a` comes strictly before `b` in the lexicographic order induced by `lt`;
      a proper prefix comes first. */
  function LexLess<T(==)>(lt: (T, T) -> bool, a: seq<T>, b: seq<T>): bool
    decreases |a|
  {
    if |a| == 0 then |b| > 0
    else if |b| == 0 then false
    else lt(a[0], b[0]) || (a[0] == b[0] && LexLess(lt, a[1..], b[1..]))
  }

  ghost predicate StrictOrder<T(!new)>(lt: (T, T) -> bool) {
    && (forall x :: !lt(x, x))
    && (forall x, y, z :: lt(x, y) && lt(y, z) ==> lt(x, z))
  }

  lemma {:induction false} LexIrreflexive<T(!new)>(lt: (T, T) -> bool, a: seq<T>)
    requires StrictOrder(lt)
    ensures !LexLess(lt, a, a)
  {
    if |a| > 0 {
      LexIrreflexive(lt, a[1..]);
    }
  }

  lemma {:induction false} LexTransitive<T(!new)>(lt: (T, T) -> bool, a: seq<T>, b: seq<T>, c: seq<T>)
    requires StrictOrder(lt)
    requires LexLess(lt, a, b) && LexLess(lt, b, c)
    ensures LexLess(lt, a, c)
  {
    if |a| > 0 && a[0] == b[0] && b[0] == c[0] {
      LexTransitive(lt, a[1..], b[1..], c[1..]);
    }
  }

  /** A proper prefix sorts before every extension of it. */
  lemma {:induction false} LexPrefixFirst<T(!new)>(lt: (T, T) -> bool, a: seq<T>, b: seq<T>)
    requires a < b
    ensures LexLess(lt, a, b)
  {
    if |a| > 0 {
      assert a[1..] < b[1..];
      LexPrefixFirst(lt, a[1..], b[1..]);
    }
  }

  /** Whatever sorts between two extensions of `a` extends `a` too: a subtree
      occupies one contiguous run of a sorted list. */
  lemma {:induction false} LexBetweenExtends<T(!new)>(lt: (T, T) -> bool, a: seq<T>, x: seq<T>, y: seq<T>, z: seq<T>)
    requires StrictOrder(lt)
    requires a <= x && a <= z
    requires LexLess(lt, x, y) && LexLess(lt, y, z)
    ensures a <= y
  {
    if |a| > 0 {
      assert x[0] == a[0] == z[0];
      assert |y| > 0;
      if lt(x[0], y[0]) || lt(y[0], z[0]) {
        assert false;
      }
      assert a[1..] <= x[1..] && a[1..] <= z[1..];
      LexBetweenExtends(lt, a[1..], x[1..], y[1..], z[1..]);
      assert a == [a[0]] + a[1..] && y == [y[0]] + y[1..];
    }
  }

  predicate CharLess(x: char, y: char) {
    x < y
  }

  /** Component order: character by character. */
  predicate ComponentLess(a: Component, b: Component) {
    LexLess(CharLess, a, b)
  }

  /** Path order: component by component, as Rust's `Path::cmp`. */
  predicate PathLess(p: Path, q: Path) {
    LexLess(ComponentLess, p, q)
  }

  lemma ComponentLessIsStrictOrder()
    ensures StrictOrder(ComponentLess)
  {
    forall a: Component ensures !ComponentLess(a, a) {
      LexIrreflexive(CharLess, a);
    }
    forall a: Component, b: Component, c: Component | ComponentLess(a, b) && ComponentLess(b, c)
      ensures ComponentLess(a, c)
    {
      LexTransitive(CharLess, a, b, c);
    }
  }

  lemma PathLessIsStrictOrder()
    ensures StrictOrder(PathLess)
  {
    ComponentLessIsStrictOrder();
    forall p: Path ensures !PathLess(p, p) {
      LexIrreflexive(ComponentLess, p);
    }
    forall p: Path, q: Path, r: Path | PathLess(p, q) && PathLess(q, r)
      ensures PathLess(p, r)
    {
      LexTransitive(ComponentLess, p, q, r);
    }
  }

  /** An ancestor sorts strictly before its descendants. */
  lemma AncestorFirst(a: Path, p: Path)
    requires a < p
    ensures PathLess(a, p)
  {
    LexPrefixFirst(ComponentLess, a, p);
  }

  /** A path that sorts between two paths of the subtree at `a` is in that subtree. */
  lemma BetweenInSubtree(a: Path, x: Path, y: Path, z: Path)
    requires a <= x && a <= z
    requires PathLess(x, y) && PathLess(y, z)
    ensures a <= y
  {
    ComponentLessIsStrictOrder();
    LexBetweenExtends(ComponentLess, a, x, y, z);
  }
}
