/** The whole run: prune and filter the sorted listing, then print a header
    line and one line per remaining entry. Also the facts that make the
    per-line sibling lookups draw a correct tree. */
module Tree {
  import opened Wrappers
  import opened Seqs
  import opened Paths
  import opened Entries
  import opened EntryFilter
  import opened Siblings
  import opened Render

  /** The entries that get a line: the listing after pruning and filtering. */
  function Shown(listing: seq<Entry>, opts: DisplayOptions): (r: seq<Entry>)
    ensures forall e :: e in r <==>
              e in listing && !IsIgnored(e) && !InsideIgnored(e.path) && ShouldInclude(e, opts)
  {
    Select(Prune(listing), opts)
  }

  /** Every printed line of a run on `listing`, the walk's output in the
      order the program sorts it into. */
  function DisplayTree(rootName: string, listing: seq<Entry>, opts: DisplayOptions): (lines: seq<string>)
    requires Sorted(listing)
    ensures |lines| == |Shown(listing, opts)| + 1
    ensures lines[0] == rootName + "/"
    ensures forall i :: 0 <= i < |Shown(listing, opts)| ==>
              lines[i + 1] == Line(Shown(listing, opts)[i], Shown(listing, opts), opts.dashCount)
  {
    var shown := Shown(listing, opts);
    var body := EntryLines(shown, shown, opts.dashCount);
    var lines := [rootName + "/"] + body;
    assert forall i :: 0 <= i < |body| ==> lines[i + 1] == body[i];
    lines
  }

  /** The formatted lines of the entries `todo`, each drawn against the
      whole shown list `shown`, in order. */
  function EntryLines(todo: seq<Entry>, shown: seq<Entry>, dashCount: nat): (r: seq<string>)
    ensures |r| == |todo|
    ensures forall i :: 0 <= i < |todo| ==> r[i] == Line(todo[i], shown, dashCount)
  {
    if |todo| == 0 then [] else [Line(todo[0], shown, dashCount)] + EntryLines(todo[1..], shown, dashCount)
  }

  // ---------------------------------------------------------------------
  // The shown list keeps the shape of the listing
  // ---------------------------------------------------------------------

  lemma PruneKeepsAncestors(listing: seq<Entry>)
    ensures forall e, d: nat :: e in listing && !IsIgnored(e) && !InsideIgnored(e.path) && d < |e.path| - 1 ==>
              !IsIgnored(Entry(Ancestor(e.path, d), true)) && !InsideIgnored(Ancestor(e.path, d))
  {
    forall e, d: nat | e in listing && !IsIgnored(e) && !InsideIgnored(e.path) && d < |e.path| - 1
      ensures !IsIgnored(Entry(Ancestor(e.path, d), true)) && !InsideIgnored(Ancestor(e.path, d))
    {
      var a := Ancestor(e.path, d);
      forall d' | 0 <= d' < |a| - 1 ensures !IsIgnored(Entry(Ancestor(a, d'), true)) {
        assert Ancestor(a, d') == Ancestor(e.path, d');
      }
    }
  }

  /** Pruning and filtering keep a sorted, ancestor-closed listing sorted and
      ancestor-closed: a shown entry's directories are all shown. */
  lemma ShownKeepsShape(listing: seq<Entry>, opts: DisplayOptions)
    requires Sorted(listing) && Closed(listing)
    ensures Sorted(Shown(listing, opts)) && Closed(Shown(listing, opts))
  {
    var pruned := Prune(listing);
    FilterSorted(listing, e => !IsIgnored(e) && !InsideIgnored(e.path));
    PruneKeepsAncestors(listing);
    FilterClosed(listing, e => !IsIgnored(e) && !InsideIgnored(e.path));
    FilterSorted(pruned, e => ShouldInclude(e, opts));
    FilterClosed(pruned, e => ShouldInclude(e, opts));
  }

  /** The program filters the walk and then sorts; the model filters a sorted
      listing. Both give the same list: any sorted list holding exactly the
      entries that survive pruning and filtering is the shown list. */
  lemma SortAfterFilterIsShown(listing: seq<Entry>, opts: DisplayOptions, sorted: seq<Entry>)
    requires Sorted(listing) && Sorted(sorted)
    requires forall e :: e in sorted <==>
               e in listing && !IsIgnored(e) && !InsideIgnored(e.path) && ShouldInclude(e, opts)
    ensures sorted == Shown(listing, opts)
  {
    FilterSorted(listing, e => !IsIgnored(e) && !InsideIgnored(e.path));
    FilterSorted(Prune(listing), e => ShouldInclude(e, opts));
    SortedIsUnique(sorted, Shown(listing, opts));
  }

  /** No ignored directory, and nothing beneath one, is ever shown, whatever the options. */
  lemma IgnoredNeverShown(listing: seq<Entry>, opts: DisplayOptions, e: Entry)
    requires e in Shown(listing, opts)
    ensures forall d :: 0 <= d < |e.path| - 1 ==> e.path[d] !in IgnoredDirs
    ensures e.isDir ==> FileName(e.path) !in IgnoredDirs
  {
    forall d | 0 <= d < |e.path| - 1 ensures e.path[d] !in IgnoredDirs {
      assert FileName(Ancestor(e.path, d)) == e.path[d];
      assert !IsIgnored(Entry(Ancestor(e.path, d), true));
    }
  }

  /** A directory survives filtering whatever it contains: an unpruned
      directory is shown even when none of its files pass. */
  lemma DirectoriesAlwaysShown(listing: seq<Entry>, opts: DisplayOptions, p: RelPath)
    requires Entry(p, true) in listing && !IsIgnored(Entry(p, true)) && !InsideIgnored(p)
    ensures Entry(p, true) in Shown(listing, opts)
  {
  }

  /** In folders-only mode every printed line, header included, ends with a slash. */
  lemma FoldersOnlyPrintsOnlyDirectories(rootName: string, listing: seq<Entry>, opts: DisplayOptions)
    requires Sorted(listing) && opts.foldersOnly
    ensures forall line :: line in DisplayTree(rootName, listing, opts) ==>
              |line| > 0 && line[|line| - 1] == '/'
  {
    var shown := Shown(listing, opts);
    DirectoryLinesEndInSlash(shown, shown, opts.dashCount);
    var lines := DisplayTree(rootName, listing, opts);
    assert lines == [rootName + "/"] + EntryLines(shown, shown, opts.dashCount);
  }

  /** The entry lines of directories all end with a slash. */
  lemma DirectoryLinesEndInSlash(todo: seq<Entry>, shown: seq<Entry>, dashCount: nat)
    requires forall e :: e in todo ==> e.isDir
    ensures forall line :: line in EntryLines(todo, shown, dashCount) ==>
              |line| > 0 && line[|line| - 1] == '/'
  {
    var lines := EntryLines(todo, shown, dashCount);
    forall k | 0 <= k < |lines| ensures |lines[k]| > 0 && lines[k][|lines[k]| - 1] == '/' {
      assert todo[k] in todo;
      DirectoryLineEndsInSlash(todo[k], shown, dashCount);
    }
  }

  // ---------------------------------------------------------------------
  // Sibling lookups on a sorted, closed list draw the tree
  // ---------------------------------------------------------------------

  /** The entries of a subtree sit in one contiguous run of a sorted list. */
  lemma SubtreeContiguous(es: seq<Entry>, a: Path, i: nat, j: nat, k: nat)
    requires Sorted(es)
    requires i < j < k < |es|
    requires a <= es[i].path && a <= es[k].path
    ensures a <= es[j].path
  {
    BetweenInSubtree(a, es[i].path, es[j].path, es[k].path);
  }

  /** On a sorted list, the entry at position `i` gets the corner glyph
      exactly when no later entry shares its parent. */
  lemma CornerIffNoLaterSibling(es: seq<Entry>, i: nat)
    requires Sorted(es) && i < |es|
    ensures IsLastSibling(es[i].path, es) <==> !HasLaterSibling(es, i, Parent(es[i].path))
  {
    IsLastSiblingIff(es[i].path, es);
    if LastByIndex(es[i].path, es) {
      var k: nat :| k < |es| && es[k].path == es[i].path && !HasLaterSibling(es, k, Parent(es[i].path));
      SortedPathsDistinct(es, k, i);
    }
  }

  /** On a sorted, closed list, the line for the entry at position `i` has a
      vertical bar in the column of its ancestor at level `d` exactly when
      some later line belongs to a sibling of that ancestor, i.e. when the
      connector must run past this line. */
  lemma BarIffLaterSiblingOfAncestor(es: seq<Entry>, i: nat, d: nat)
    requires Sorted(es) && Closed(es)
    requires i < |es| && d < |es[i].path| - 1
    ensures !IsLastSibling(Ancestor(es[i].path, d), es) <==>
            HasLaterSibling(es, i, Parent(Ancestor(es[i].path, d)))
  {
    var a := Ancestor(es[i].path, d);
    assert Entry(a, true) in es;
    var ia :| 0 <= ia < |es| && es[ia] == Entry(a, true);
    assert es[ia].path == a && a < es[i].path;
    AncestorBeforeDescendant(es, ia, i);
    IsLastSiblingIff(a, es);
    if HasLaterSibling(es, i, Parent(a)) {
      LaterSiblingOfAncestor(es, i, ia);
    }
    if !LastByIndex(a, es) {
      AncestorSiblingIsLater(es, i, ia);
    }
  }

  /** A sibling of ancestor `es[ia]` listed after `es[i]` is also listed
      after the ancestor, so the ancestor is not last by index. */
  lemma LaterSiblingOfAncestor(es: seq<Entry>, i: nat, ia: nat)
    requires Sorted(es) && ia < i < |es|
    requires HasLaterSibling(es, i, Parent(es[ia].path))
    ensures !LastByIndex(es[ia].path, es)
  {
    var a, P := es[ia].path, Parent(es[ia].path);
    var j :| i < j < |es| && Parent(es[j].path) == P;
    forall k: nat | k < |es| && es[k].path == a ensures HasLaterSibling(es, k, P) {
      SortedPathsDistinct(es, k, ia);
    }
  }

  /** When ancestor `es[ia]` of `es[i]` is not last by index, its next
      sibling lies outside its subtree and so after `es[i]`. */
  lemma AncestorSiblingIsLater(es: seq<Entry>, i: nat, ia: nat)
    requires Sorted(es) && ia < i < |es|
    requires es[ia].path < es[i].path
    requires !LastByIndex(es[ia].path, es)
    ensures HasLaterSibling(es, i, Parent(es[ia].path))
  {
    var a, P := es[ia].path, Parent(es[ia].path);
    assert HasLaterSibling(es, ia, P);
    var j :| ia < j < |es| && Parent(es[j].path) == P;
    if j <= i {
      assert |Parent(es[i].path)| != |P|;
      assert j != i;
      SubtreeContiguous(es, a, ia, j, i);
      assert es[j].path == a;
      SortedPathsDistinct(es, j, ia);
      assert false;
    }
  }

  /** An ancestor sits before its descendant in a sorted list. */
  lemma AncestorBeforeDescendant(es: seq<Entry>, ia: nat, i: nat)
    requires Sorted(es)
    requires ia < |es| && i < |es|
    requires es[ia].path < es[i].path
    ensures ia < i
  {
    AncestorFirst(es[ia].path, es[i].path);
    PathLessIsStrictOrder();
  }

  /** What a run prints, read back line by line: the line for the `i`-th
      shown entry has one connector column per ancestor level, a bar exactly
      where a later line belongs to a sibling of that ancestor, the corner
      exactly when no later line is a sibling of the entry, `dashCount`
      dashes, the entry's name, and a slash exactly for a directory. */
  lemma DisplayTreeDrawsTree(rootName: string, listing: seq<Entry>, opts: DisplayOptions, i: nat)
    requires Sorted(listing) && Closed(listing)
    requires forall e :: e in listing ==> '/' !in FileName(e.path)
    requires i < |Shown(listing, opts)|
    ensures var shown := Shown(listing, opts);
            var e := shown[i];
            var v := ParseLine(DisplayTree(rootName, listing, opts)[i + 1]);
            && v.Some?
            && |v.value.bars| == |e.path| - 1
            && (forall d :: 0 <= d < |e.path| - 1 ==>
                  (v.value.bars[d] <==> HasLaterSibling(shown, i, Parent(Ancestor(e.path, d)))))
            && (v.value.corner <==> !HasLaterSibling(shown, i, Parent(e.path)))
            && v.value.dashes == opts.dashCount
            && v.value.name == FileName(e.path)
            && v.value.isDir == e.isDir
  {
    var shown := Shown(listing, opts);
    ShownKeepsShape(listing, opts);
    ParsedLineOfShown(rootName, listing, opts, i);
    ViewDrawsTree(shown, i, opts.dashCount);
  }

  /** The view of the `i`-th entry of a sorted, closed list: its connector
      columns and its glyph follow the later siblings of its ancestors and of itself. */
  lemma ViewDrawsTree(es: seq<Entry>, i: nat, dashCount: nat)
    requires Sorted(es) && Closed(es) && i < |es|
    ensures var p := es[i].path;
            var v := ViewOf(es[i], es, dashCount);
            && |v.bars| == |p| - 1
            && (forall d :: 0 <= d < |p| - 1 ==>
                  (v.bars[d] <==> HasLaterSibling(es, i, Parent(Ancestor(p, d)))))
            && (v.corner <==> !HasLaterSibling(es, i, Parent(p)))
  {
    var p := es[i].path;
    CornerIffNoLaterSibling(es, i);
    forall d | 0 <= d < |p| - 1
      ensures NeedsBars(p, es)[d] <==> HasLaterSibling(es, i, Parent(Ancestor(p, d)))
    {
      BarIffLaterSiblingOfAncestor(es, i, d);
    }
  }

  /** Each entry line of the output reads back as the entry's view. */
  lemma ParsedLineOfShown(rootName: string, listing: seq<Entry>, opts: DisplayOptions, i: nat)
    requires Sorted(listing)
    requires forall e :: e in listing ==> '/' !in FileName(e.path)
    requires i < |Shown(listing, opts)|
    ensures ParseLine(DisplayTree(rootName, listing, opts)[i + 1])
         == Some(ViewOf(Shown(listing, opts)[i], Shown(listing, opts), opts.dashCount))
  {
    var shown := Shown(listing, opts);
    assert shown[i] in shown;
    ParseLineOfEntry(shown[i], shown, opts.dashCount);
  }
}
