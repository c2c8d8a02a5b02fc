/** The sibling query the renderer asks of the flat, sorted listing. */
module Siblings {
  import opened Paths
  import opened Entries

  /** `e` is listed at a position after which no entry lies directly inside `parent`. */
  predicate ListedAfterAllChildren(es: seq<Entry>, parent: Path, e: Entry) {
    exists k :: 0 <= k < |es| && es[k] == e && forall j :: k < j < |es| ==> Parent(es[j].path) != parent
  }

  /** The entries directly inside `parent`, in listing order: exactly the
      listed children of `parent`, the last of them listed after every other. */
  function SiblingsOf(es: seq<Entry>, parent: Path): (r: seq<Entry>)
    ensures forall e :: e in r <==> e in es && Parent(e.path) == parent
    ensures |r| > 0 ==> ListedAfterAllChildren(es, parent, r[|r| - 1])
  {
    if |es| == 0 then []
    else
      var x := es[|es| - 1];
      var prev := SiblingsOf(es[..|es| - 1], parent);
      SiblingsSnoc(es, parent, prev);
      prev + (if Parent(x.path) == parent then [x] else [])
  }

  /** One step of `SiblingsOf`: extending the siblings of all but the last
      entry by that entry, when it is a child, gives the siblings of all. */
  lemma SiblingsSnoc(es: seq<Entry>, parent: Path, prev: seq<Entry>)
    requires |es| > 0
    requires forall e :: e in prev <==> e in es[..|es| - 1] && Parent(e.path) == parent
    requires |prev| > 0 ==> ListedAfterAllChildren(es[..|es| - 1], parent, prev[|prev| - 1])
    ensures var x := es[|es| - 1];
            var r := prev + (if Parent(x.path) == parent then [x] else []);
            && (forall e :: e in r <==> e in es && Parent(e.path) == parent)
            && (|r| > 0 ==> ListedAfterAllChildren(es, parent, r[|r| - 1]))
  {
    var init, x := es[..|es| - 1], es[|es| - 1];
    assert es == init + [x];
    if Parent(x.path) == parent {
      assert ListedAfterAllChildren(es, parent, x) by {
        assert es[|es| - 1] == x;
      }
    } else if |prev| > 0 {
      ListedAfterNonChild(init, x, parent, prev[|prev| - 1]);
    }
  }

  /** Appending an entry outside `parent` keeps an entry listed after all children of `parent`. */
  lemma ListedAfterNonChild(init: seq<Entry>, x: Entry, parent: Path, e: Entry)
    requires Parent(x.path) != parent
    requires ListedAfterAllChildren(init, parent, e)
    ensures ListedAfterAllChildren(init + [x], parent, e)
  {
    var es := init + [x];
    var k :| 0 <= k < |init| && init[k] == e && forall j :: k < j < |init| ==> Parent(init[j].path) != parent;
    assert es[k] == e;
    forall j | k < j < |es| ensures Parent(es[j].path) != parent {
      if j < |init| {
        assert es[j] == init[j];
      }
    }
  }

  /** `p` is the final entry, in listing order, of those sharing its parent.
      False when no listed entry shares that parent. */
  function IsLastSibling(p: RelPath, es: seq<Entry>): bool {
    var siblings := SiblingsOf(es, Parent(p));
    |siblings| > 0 && siblings[|siblings| - 1].path == p
  }

  /** Some entry after position `i` lies directly inside `parent`. */
  predicate HasLaterSibling(es: seq<Entry>, i: nat, parent: Path) {
    exists j :: i < j < |es| && Parent(es[j].path) == parent
  }

  /** Index-based reading of the query: `p` is last exactly when it is listed
      at some position after which no entry shares its parent. */
  ghost predicate LastByIndex(p: RelPath, es: seq<Entry>) {
    exists i: nat :: i < |es| && es[i].path == p && !HasLaterSibling(es, i, Parent(p))
  }

  lemma {:induction false} IsLastSiblingIff(p: RelPath, es: seq<Entry>)
    ensures IsLastSibling(p, es) <==> LastByIndex(p, es)
  {
    if |es| > 0 {
      var x := es[|es| - 1];
      if Parent(x.path) == Parent(p) {
        LastIsSiblingAfterSnoc(p, es);
        LastEntryIsSibling(p, es);
      } else {
        IsLastSiblingIff(p, es[..|es| - 1]);
        LastIsUnchangedBySnoc(p, es);
        LastEntryIsNotSibling(p, es);
      }
    }
  }

  lemma LastIsSiblingAfterSnoc(p: RelPath, es: seq<Entry>)
    requires |es| > 0 && Parent(es[|es| - 1].path) == Parent(p)
    ensures IsLastSibling(p, es) <==> es[|es| - 1].path == p
  {
    assert SiblingsOf(es, Parent(p)) == SiblingsOf(es[..|es| - 1], Parent(p)) + [es[|es| - 1]];
  }

  lemma LastIsUnchangedBySnoc(p: RelPath, es: seq<Entry>)
    requires |es| > 0 && Parent(es[|es| - 1].path) != Parent(p)
    ensures IsLastSibling(p, es) == IsLastSibling(p, es[..|es| - 1])
  {
    assert SiblingsOf(es, Parent(p)) == SiblingsOf(es[..|es| - 1], Parent(p));
  }

  lemma LastEntryIsSibling(p: RelPath, es: seq<Entry>)
    requires |es| > 0 && Parent(es[|es| - 1].path) == Parent(p)
    ensures LastByIndex(p, es) <==> es[|es| - 1].path == p
  {
    var last := |es| - 1;
    forall i: nat | i < last ensures HasLaterSibling(es, i, Parent(p)) {
      assert Parent(es[last].path) == Parent(p);
    }
    if es[last].path == p {
      assert !HasLaterSibling(es, last, Parent(p));
    }
  }

  lemma LastEntryIsNotSibling(p: RelPath, es: seq<Entry>)
    requires |es| > 0 && Parent(es[|es| - 1].path) != Parent(p)
    ensures LastByIndex(p, es) <==> LastByIndex(p, es[..|es| - 1])
  {
    var init := es[..|es| - 1];
    var P := Parent(p);
    forall i: nat | i < |init|
      ensures HasLaterSibling(es, i, P) <==> HasLaterSibling(init, i, P)
    {
      if HasLaterSibling(es, i, P) {
        var j :| i < j < |es| && Parent(es[j].path) == P;
        assert j < |init| && init[j] == es[j];
      }
      if HasLaterSibling(init, i, P) {
        var j :| i < j < |init| && Parent(init[j].path) == P;
        assert init[j] == es[j];
      }
    }
    if i: nat :| i < |es| && es[i].path == p && !HasLaterSibling(es, i, P) {
      assert i < |init| && init[i] == es[i];
    }
    if i: nat :| i < |init| && init[i].path == p && !HasLaterSibling(init, i, P) {
      assert es[i] == init[i];
    }
  }

  /** Among entries sharing a parent at most one is last. */
  lemma AtMostOneLastSibling(p: RelPath, q: RelPath, es: seq<Entry>)
    requires Parent(p) == Parent(q)
    requires IsLastSibling(p, es) && IsLastSibling(q, es)
    ensures p == q
  {
  }

  /** Any directory that has a listed child has exactly one last child. */
  lemma LastSiblingExists(es: seq<Entry>, e: Entry)
    requires e in es
    ensures exists q: RelPath :: Parent(q) == Parent(e.path) && IsLastSibling(q, es)
  {
    var siblings := SiblingsOf(es, Parent(e.path));
    assert |siblings| > 0 by {
      assert e in siblings;
    }
    var last := siblings[|siblings| - 1];
    assert Parent(last.path) == Parent(e.path) by {
      assert last in siblings;
    }
    assert IsLastSibling(last.path, es);
  }
}
