# file-struct-stringer, modelled in Dafny

`file-struct-stringer` prints a directory tree as text. First it prints a header
line `root/`. Then it walks the tree below the root, skipping the subtrees of
a few well-known tool directories. It drops files that the options exclude,
sorts what is left by path, and prints one line per entry. A line is an
indentation prefix, a branch glyph (`└` for the last child of its directory,
`├` otherwise) followed by a configurable number of `─`, a space, and the
entry's name. A directory's name ends with `/`. Each indentation column holds
a bar `│   ` when the ancestor at that level is not the last of its
siblings, and blanks otherwise.

The model covers that core:

- `paths.dfy` (module `Paths`): root-relative paths as sequences of
  components. It defines parent, file name and ancestors, and the path order
  used by the sort (component-wise lexicographic, as Rust's `Path::cmp`).
- `entries.dfy` (module `Entries`): the walked `Entry` and the
  `DisplayOptions` record. It defines the two shape properties of a listing:
  sorted, and closed under ancestors.
- `filter.dfy` (module `EntryFilter`): `is_ignored`, the pruning it causes,
  the extension rule, and `should_include`.
- `siblings.dfy` (module `Siblings`): `is_last_sibling`, and its
  characterisation by position.
- `render.dfy` (module `Render`): `format_entry`. It is written once as the
  program's imperative loop (`BuildPrefix`, `FormatEntry`) and once as a pure
  rendering of a `LineView`. A line parser `ParseLine` is the inverse of the
  renderer, proved in both directions.
- `tree.dfy` (module `Tree`): `display_tree` as a function from a listing to
  its printed lines. The headline theorem `DisplayTreeDrawsTree` says that on
  a sorted, ancestor-closed listing:
  - every bar stands exactly where a later line belongs to a sibling of that
    ancestor;
  - every corner stands exactly where no later line is a sibling of the entry.
- `examples.dfy` (module `Examples`): small worked listings.
- `seqs.dfy` and `wrappers.dfy`: a generic filter and `Option`.

Walking the filesystem and printing are not modelled as effects:
- the walk's result is an input listing;
- the printed output is the returned sequence of lines.

`Siblings.IsLastSibling` has no contract of its own. It is characterised by
`Siblings.IsLastSiblingIff`.

## Model

| member | source | states |
|---|---|---|
| EntryFilter.IsIgnored | src/main.rs:80-91 | An entry is ignored exactly when it is a directory named `.git`, `node_modules`, `target`, `.idea` or `.vscode`; a file with one of those names is kept. |
| EntryFilter.Prune | src/main.rs:63-67 | The walk keeps exactly the entries that are not ignored and have no ignored directory among their ancestors (`filter_entry` drops the whole subtree). |
| Tree.IgnoredNeverShown | src/main.rs:63-69 | No shown entry has an ignored name among its ancestor directories, and no shown directory has an ignored name, whatever the options. |
| EntryFilter.Extension | src/main.rs:108 | A name has an extension exactly when it is not `..` and contains a dot after its first character; the extension is the dot-free text after a dot (the last one). |
| EntryFilter.ExtensionOfJoin | src/main.rs:108 | A name written `stem.ext`, other than `..`, with a non-empty stem and a dot-free `ext`, has extension `ext`. |
| EntryFilter.ExtensionOfLower | src/main.rs:108-109 | Lower-casing a name lower-cases its extension and does not change whether it has one. |
| EntryFilter.AnyMatches | src/main.rs:110 | True exactly when some item of the allow-list, lower-cased, equals the extension. |
| EntryFilter.ShouldInclude | src/main.rs:93-118 | Directories are always included. Files are never included in folders-only mode, and always included when there is no allow-list. Otherwise a file is included exactly when it has an extension that equals some allow-list item, ignoring case. |
| EntryFilter.ShouldIncludeIgnoresCase | src/main.rs:106-114 | Changing the case of the file name, or lower-casing every allow-list item, never changes the verdict. |
| EntryFilter.Select | src/main.rs:68 | The filter keeps exactly the entries `should_include` accepts. |
| Tree.DirectoriesAlwaysShown | src/main.rs:94-99 | Every directory that the walk does not prune is shown, even when none of its files pass the filter. |
| Tree.FoldersOnlyPrintsOnlyDirectories | src/main.rs:101-104 | In folders-only mode every printed line, header included, ends in `/`. |
| Tree.Shown | src/main.rs:63-69 | The listed entries are exactly the walked entries that survive pruning and `should_include`. |
| Tree.SortAfterFilterIsShown | src/main.rs:63-71 | Sorting the filtered entries gives the same list as filtering the sorted walk: any sorted list of exactly the surviving entries is the shown list. |
| Entries.SortedIsUnique | src/main.rs:71 | Two lists sorted by path that hold the same entries are equal, so the result of the sort depends only on the set being sorted. |
| Entries.FilterSorted | src/main.rs:63-71 | Dropping entries from a sorted listing leaves it sorted. |
| Tree.ShownKeepsShape | src/main.rs:63-71 | If the walk is sorted and every ancestor of an entry is listed, the shown list has both properties: a shown entry's directories are all shown. |
| Paths.PathLessIsStrictOrder | src/main.rs:71 | The path order of the sort is irreflexive and transitive, so sorted lists have no duplicates. |
| Paths.AncestorFirst | src/main.rs:71 | A directory sorts before everything inside it. |
| Tree.AncestorBeforeDescendant | src/main.rs:71 | In a sorted listing, a directory's position comes before the positions of its descendants. |
| Tree.SubtreeContiguous | src/main.rs:71 | In a sorted listing, the entries of one subtree occupy a contiguous run. |
| Paths.Parent | src/main.rs:173 | The parent of a path is one component shorter and is a proper prefix of it. |
| Siblings.SiblingsOf | src/main.rs:176-188 | The siblings are exactly the listed entries whose parent is the given directory, kept in listing order: the last of them, which `last()` picks, is listed after every other entry directly inside that directory. |
| Siblings.IsLastSiblingIff | src/main.rs:172-193 | A path is the last sibling exactly when it is listed at a position after which no entry shares its parent. When nothing shares that parent, the answer is false. |
| Siblings.AtMostOneLastSibling | src/main.rs:187-192 | Two paths with the same parent that are both last siblings are equal. |
| Siblings.LastSiblingExists | src/main.rs:187-192 | Every directory with a listed child has a child that is its last sibling. |
| Render.NeedsBars | src/main.rs:139-152 | There is one flag per ancestor level, and a flag is set exactly when the ancestor at that level is not the last of its siblings. |
| Render.BuildPrefix | src/main.rs:130-153 | The loop builds one four-column segment per ancestor level: a bar where the ancestor is not the last of its siblings, blanks where it is. For a sorted, ancestor-closed listing, `Tree.BarIffLaterSiblingOfAncestor` shows this means a later entry is a sibling of that ancestor. |
| Render.IndentColumns | src/main.rs:139-152 | Columns `4d` to `4d+3` of the prefix hold the segment for ancestor level `d`. |
| Render.Branch | src/main.rs:155-161 | The branch is the corner or tee glyph followed by exactly `dash_count` horizontal rules. |
| Render.FormatEntry | src/main.rs:120-170 | The imperative formatter produces the rendered line. The line's length is the prefix, branch, space, name and slash. Each indentation column shows the segment for its ancestor, and the glyph after the prefix is the corner exactly for a last sibling. |
| Render.LineLayout | src/main.rs:131-169 | These column facts hold for every printed line. |
| Render.DirectoryLineEndsInSlash | src/main.rs:164-169 | A directory's line ends in `/`. |
| Render.ParseRender | src/main.rs:163-169 | Reading back a rendered line recovers every field: the bars, the glyph, the dash count, the name, and whether it is a directory, provided a file name does not end in `/`. |
| Render.RenderParse | src/main.rs:163-169 | Every line the reader accepts is the rendering of what it read. |
| Render.ParseLineOfEntry | src/main.rs:155-169 | The line printed for an entry reads back as that entry's bars, glyph, dashes, name and kind. |
| Tree.DisplayTree | src/main.rs:52-78 | The output is the header `root/` followed by one line per shown entry, in sorted order. |
| Tree.CornerIffNoLaterSibling | src/main.rs:155-161 | In a sorted listing an entry gets the corner exactly when no later entry shares its parent. |
| Tree.BarIffLaterSiblingOfAncestor | src/main.rs:139-152 | In a sorted, ancestor-closed listing, the column of ancestor level `d` has a bar exactly when some later entry is a sibling of that ancestor, i.e. the connector must continue below this line. |
| Tree.ViewDrawsTree | src/main.rs:130-161 | For an entry of a sorted, ancestor-closed listing, each bar and the corner are decided by the later siblings of its ancestors and of itself. |
| Tree.DisplayTreeDrawsTree | src/main.rs:73-77 | Each printed entry line reads back with one column per ancestor level. A column has a bar exactly when a later line is a sibling of that ancestor. The line has the corner exactly when no later line is its own sibling. It also has the configured dashes, the entry's name, and a slash exactly for a directory. |
| Examples.TwoFiles | src/main.rs:155-168 | Two files at the top level print as `├── a.txt` and `└── b.txt`. |
| Examples.ThreeDashes | src/main.rs:156-158 | In the listing `a.txt`, `b.txt` with a dash count of three, the line for `b.txt` is `└─── b.txt`. |
| Examples.NestedLines | src/main.rs:139-168 | In `sub1/`, `sub1/sub2/`, `sub1/sub2/file.txt`, `z.txt`: `sub2/` prints under a bar (`z.txt` still follows `sub1`), and `file.txt` under a bar and a blank. |
| Examples.UpperCaseExtensionShown | src/main.rs:107-110 | With the allow-list `rs`, `main.RS` is shown. |
| Examples.NoExtensionHidden | src/main.rs:112-113 | With an allow-list, `README` has no extension and is hidden. |
| Examples.DotfileHidden | src/main.rs:108-113 | With an allow-list, `.rs` has no extension (a leading dot does not start one) and is hidden. |
| Examples.OtherExtensionHidden | src/main.rs:110 | With the allow-list `rs`, `notes.txt` is hidden. |

## Left out

- Command-line parsing with `clap` (src/main.rs:5-25, 33-46): the options are a `DisplayOptions` value given directly.
- The existence check and exit with status 1 (src/main.rs:36-40): process control and I/O.
- The header name (src/main.rs:54-60): `file_name().unwrap_or(..)` and its lossy conversion are replaced by a `rootName` parameter.
- The directory walk (src/main.rs:63-67): the walked entries are an input listing.
  - Entries the walk fails to read, which `filter_map(|e| e.ok())` drops, are taken as absent from it.
  - The tree theorems assume the listing holds every ancestor of an entry as a directory, as a walk from the root does.
- Printing (src/main.rs:54, 166, 168): `DisplayTree` returns the lines instead of writing them.
- Lossy OS-string conversion (`to_string_lossy`): names are Dafny strings.
- EntryFilter.ShouldInclude: compares extensions after ASCII lower-casing, not Rust's full Unicode `to_lowercase`, because Unicode case tables are not available here.
- Tree.DisplayTree: requires an already sorted listing instead of sorting. `Tree.SortAfterFilterIsShown` shows that this equals sorting after filtering. The sort algorithm itself is not modelled.
- Paths.PathLess: compares components by character code, not by OS-string bytes. For UTF-8 names the two orders agree. Other OS encodings are not modelled.
- The `_is_last` flag (src/main.rs:75, 123): it is computed but never read, so it is not modelled.
- `strip_prefix(root).unwrap()` and `parent().unwrap()` (src/main.rs:128, 173): model paths are already relative to the root and non-empty, so these never fail.
- The sibling filter's `None` branch (src/main.rs:179-183), which counts an entry without a parent as no sibling: the walk starts at depth 1 (src/main.rs:64), so every entry lies below the root and has a parent; the branch never arises.
- `usize` limits of the dash count and of `repeat`: the dash count is an unbounded `nat`.
- Render.ParseRender: holds only for file names that do not end in `/`. Such names cannot occur on Unix, where `/` separates components.
