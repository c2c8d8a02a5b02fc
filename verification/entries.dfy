/** Walked entries, display options, and the shape of the listing the
    renderer reads: sorted by path, and closed under taking ancestors. */
module Entries {
  import opened Wrappers
  import opened Seqs
  import opened Paths

  /** One walked filesystem entry: where it is, and whether it is a directory
      (anything else, a symbolic link included, counts as a file). */
  datatype Entry = Entry(path: RelPath, isDir: bool)

  /** The run's configuration, passed explicitly to the filter and the renderer. */
  datatype DisplayOptions = DisplayOptions(
    foldersOnly: bool,
    extensions: Option<seq<string>>,
    dashCount: nat)

  /** Strictly increasing by path: sorted as the program sorts, and free of duplicates. */
  predicate Sorted(es: seq<Entry>) {
    forall i, j :: 0 <= i < j < |es| ==> PathLess(es[i].path, es[j].path)
  }

  /** Every proper ancestor of a listed entry is listed, as a directory. */
  predicate Closed(es: seq<Entry>) {
    forall e, d: nat :: e in es && d < |e.path| - 1 ==> Entry(Ancestor(e.path, d), true) in es
  }

  /** In a sorted listing a path names at most one position. */
  lemma SortedPathsDistinct(es: seq<Entry>, i: int, j: int)
    requires Sorted(es)
    requires 0 <= i < |es| && 0 <= j < |es|
    requires es[i].path == es[j].path
    ensures i == j
  {
    PathLessIsStrictOrder();
  }

  /** Filtering keeps a listing sorted. */
  lemma {:induction false} FilterSorted(es: seq<Entry>, keep: Entry -> bool)
    requires Sorted(es)
    ensures Sorted(Filter(es, keep))
  {
    if |es| > 0 {
      var tail := Filter(es[1..], keep);
      FilterSorted(es[1..], keep);
      if keep(es[0]) {
        var r := Filter(es, keep);
        assert r == [es[0]] + tail;
        forall i, j | 0 <= i < j < |r| ensures PathLess(r[i].path, r[j].path) {
          if i > 0 {
            assert r[i] == tail[i - 1] && r[j] == tail[j - 1];
          } else {
            assert r[j] in es[1..];
            var k :| 0 <= k < |es[1..]| && es[1..][k] == r[j];
            assert es[k + 1] == r[j];
          }
        }
      }
    }
  }

  /** Filtering keeps a listing closed when every ancestor of a kept entry is kept. */
  lemma FilterClosed(es: seq<Entry>, keep: Entry -> bool)
    requires Closed(es)
    requires forall e, d: nat :: e in es && keep(e) && d < |e.path| - 1 ==> keep(Entry(Ancestor(e.path, d), true))
    ensures Closed(Filter(es, keep))
  {
  }

  /** Two sorted listings with the same entries start with the same entry. */
  lemma SortedHeadsAgree(a: seq<Entry>, b: seq<Entry>)
    requires Sorted(a) && Sorted(b) && |a| > 0 && |b| > 0
    requires forall e :: e in a <==> e in b
    ensures a[0] == b[0]
  {
    PathLessIsStrictOrder();
    assert a[0] in b && b[0] in a;
    var k :| 0 <= k < |b| && b[k] == a[0];
    var m :| 0 <= m < |a| && a[m] == b[0];
    if k != 0 && m != 0 {
      assert false;
    }
  }

  /** A sorted listing is determined by its entries: sorting is a function of
      the set being sorted, so filtering and then sorting gives the same list
      as sorting and then filtering. */
  lemma {:induction false} SortedIsUnique(a: seq<Entry>, b: seq<Entry>)
    requires Sorted(a) && Sorted(b)
    requires forall e :: e in a <==> e in b
    ensures a == b
  {
    assert |a| > 0 ==> a[0] in b;
    assert |b| > 0 ==> b[0] in a;
    if |a| > 0 && |b| > 0 {
      SortedHeadsAgree(a, b);
      assert a == [a[0]] + a[1..] && b == [b[0]] + b[1..];
      forall e ensures e in a[1..] <==> e in b[1..] {
        if e in a[1..] {
          var k :| 0 <= k < |a[1..]| && a[1..][k] == e;
          assert a[k + 1] == e && PathLess(a[0].path, e.path);
          PathLessIsStrictOrder();
          assert e != b[0] && e in b;
        }
        if e in b[1..] {
          var k :| 0 <= k < |b[1..]| && b[1..][k] == e;
          assert b[k + 1] == e && PathLess(b[0].path, e.path);
          PathLessIsStrictOrder();
          assert e != a[0] && e in a;
        }
      }
      SortedIsUnique(a[1..], b[1..]);
    }
  }
}
