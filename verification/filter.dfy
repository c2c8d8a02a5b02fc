/** The entry filter: which walked entries are pruned (`is_ignored`) and
    which are shown (`should_include`). */
module EntryFilter {
  import opened Wrappers
  import opened Seqs
  import opened Paths
  import opened Entries

  /** Directory names whose subtrees the walk never enters. */
  const IgnoredDirs: seq<string> := [".git", "node_modules", "target", ".idea", ".vscode"]

  /** Only a directory is ignored; a file with one of these names is kept. */
  function IsIgnored(e: Entry): (r: bool)
    ensures r <==> e.isDir && (FileName(e.path) == ".git" || FileName(e.path) == "node_modules"
                               || FileName(e.path) == "target" || FileName(e.path) == ".idea"
                               || FileName(e.path) == ".vscode")
  {
    e.isDir && FileName(e.path) in IgnoredDirs
  }

  /** Some proper ancestor of `p` is an ignored directory (every proper
      ancestor of a walked entry is a directory). */
  predicate InsideIgnored(p: RelPath) {
    exists d :: 0 <= d < |p| - 1 && IsIgnored(Entry(Ancestor(p, d), true))
  }

  /** The walk's pruning: an ignored directory is dropped together with its
      whole subtree, wherever it sits. */
  function Prune(listing: seq<Entry>): (r: seq<Entry>)
    ensures forall e :: e in r <==> e in listing && !IsIgnored(e) && !InsideIgnored(e.path)
  {
    Filter(listing, e => !IsIgnored(e) && !InsideIgnored(e.path))
  }

  // ---------------------------------------------------------------------
  // Extensions and case folding
  // ---------------------------------------------------------------------

  /** ASCII lower-casing of one character. */
  function LowerChar(c: char): char {
    if 'A' <= c <= 'Z' then (c as int + 32) as char else c
  }

  /** ASCII lower-casing of a string, character by character. */
  function Lower(s: string): string {
    seq(|s|, i requires 0 <= i < |s| => LowerChar(s[i]))
  }

  /** Index of the last `c` in `s`, or -1 when there is none. */
  function LastIndexOf(s: string, c: char): (r: int)
    ensures -1 <= r < |s|
    ensures r >= 0 ==> s[r] == c && forall i :: r < i < |s| ==> s[i] != c
    ensures r == -1 ==> forall i :: 0 <= i < |s| ==> s[i] != c
  {
    if |s| == 0 then -1
    else if s[|s| - 1] == c then |s| - 1
    else LastIndexOf(s[..|s| - 1], c)
  }

  /** The extension of a file name, by the rule of Rust's `Path::extension`:
      none for "..", none when the only dot is the leading one or there is
      no dot, otherwise the (possibly empty) text after the last dot. */
  function Extension(name: string): (r: Option<string>)
    ensures r.Some? <==> name != ".." && exists i :: 0 < i < |name| && name[i] == '.'
    ensures r.Some? ==> '.' !in r.value &&
                        exists i :: 0 < i < |name| && name[i] == '.' && r.value == name[i + 1..]
  {
    var dot := LastIndexOf(name, '.');
    if name == ".." || dot <= 0 then None else Some(name[dot + 1..])
  }

  /** Some item of the allow-list, lower-cased, equals `ext`. */
  function AnyMatches(exts: seq<string>, ext: string): (r: bool)
    ensures r <==> exists i :: 0 <= i < |exts| && Lower(exts[i]) == ext
  {
    if |exts| == 0 then false
    else Lower(exts[0]) == ext || AnyMatches(exts[1..], ext)
  }

  /** Whether an entry is shown. */
  function ShouldInclude(e: Entry, opts: DisplayOptions): (r: bool)
    ensures e.isDir ==> r
    ensures !e.isDir && opts.foldersOnly ==> !r
    ensures !e.isDir && !opts.foldersOnly && opts.extensions.None? ==> r
    ensures !e.isDir && !opts.foldersOnly && opts.extensions.Some? ==>
              (r <==> Extension(FileName(e.path)).Some? &&
                      exists x :: x in opts.extensions.value &&
                                  Lower(x) == Lower(Extension(FileName(e.path)).value))
  {
    if e.isDir then true
    else if opts.foldersOnly then false
    else match opts.extensions
      case Some(exts) =>
        (match Extension(FileName(e.path))
         case Some(ext) => AnyMatches(exts, Lower(ext))
         case None => false)
      case None => true
  }

  /** The entries of a listing that are shown, in listing order. */
  function Select(es: seq<Entry>, opts: DisplayOptions): (r: seq<Entry>)
    ensures forall e :: e in r <==> e in es && ShouldInclude(e, opts)
  {
    Filter(es, e => ShouldInclude(e, opts))
  }

  /** A name built as `stem.ext` has extension `ext`, unless it is "..". */
  lemma ExtensionOfJoin(stem: string, ext: string)
    requires stem != "" && '.' !in ext
    requires stem + "." + ext != ".."
    ensures Extension(stem + "." + ext) == Some(ext)
  {
    var name := stem + "." + ext;
    assert name[|stem|] == '.';
    var dot := LastIndexOf(name, '.');
    assert name[|stem| + 1..] == ext;
  }

  lemma {:induction false} LastDotOfLower(s: string)
    ensures LastIndexOf(Lower(s), '.') == LastIndexOf(s, '.')
  {
    if |s| > 0 {
      assert Lower(s)[..|s| - 1] == Lower(s[..|s| - 1]);
      assert Lower(s)[|s| - 1] == LowerChar(s[|s| - 1]);
      LastDotOfLower(s[..|s| - 1]);
    }
  }

  /** Lower-casing a name lower-cases its extension and nothing else about it. */
  lemma ExtensionOfLower(name: string)
    ensures Extension(Lower(name)) == match Extension(name)
                                      case Some(ext) => Some(Lower(ext))
                                      case None => None
  {
    LastDotOfLower(name);
    if Lower(name) == ".." {
      assert |name| == 2;
      assert Lower(name)[0] == LowerChar(name[0]) && Lower(name)[1] == LowerChar(name[1]);
      assert name == "..";
    }
    var dot := LastIndexOf(name, '.');
    if name != ".." && dot > 0 {
      assert Lower(name)[dot + 1..] == Lower(name[dot + 1..]);
    }
  }

  /** Lower-casing twice is lower-casing once. */
  lemma LowerIdempotent(s: string)
    ensures Lower(Lower(s)) == Lower(s)
  {
  }

  /** Every item of an allow-list, lower-cased. */
  function LowerAll(items: seq<string>): (r: seq<string>)
    ensures |r| == |items|
  {
    seq(|items|, i requires 0 <= i < |items| => Lower(items[i]))
  }

  /** The extension test is case-insensitive on both sides: lower-casing the
      file name, or every item of the allow-list, never changes the verdict. */
  lemma ShouldIncludeIgnoresCase(e: Entry, opts: DisplayOptions)
    ensures ShouldInclude(Entry(Parent(e.path) + [Lower(FileName(e.path))], e.isDir), opts)
            == ShouldInclude(e, opts)
    ensures opts.extensions.Some? ==>
              ShouldInclude(e, opts.(extensions := Some(LowerAll(opts.extensions.value))))
              == ShouldInclude(e, opts)
  {
    var lowered: RelPath := Parent(e.path) + [Lower(FileName(e.path))];
    assert FileName(lowered) == Lower(FileName(e.path));
    ExtensionOfLower(FileName(e.path));
    if ext :| Extension(FileName(e.path)) == Some(ext) {
      LowerIdempotent(ext);
      if opts.extensions.Some? {
        var exts := opts.extensions.value;
        var target := Lower(ext);
        if x :| x in exts && Lower(x) == target {
          LowerIdempotent(x);
          var k :| 0 <= k < |exts| && exts[k] == x;
          assert LowerAll(exts)[k] in LowerAll(exts);
        }
        if y :| y in LowerAll(exts) && Lower(y) == target {
          var k :| 0 <= k < |exts| && LowerAll(exts)[k] == y;
          LowerIdempotent(exts[k]);
          assert exts[k] in exts;
        }
      }
    }
  }
}
