/** Worked instances of the renderer and the filter on small listings. */
module Examples {
  import opened Wrappers
  import opened Paths
  import opened Entries
  import opened EntryFilter
  import opened Siblings
  import opened Render

  function TwoFileListing(): seq<Entry> {
    [Entry(["a.txt"], false), Entry(["b.txt"], false)]
  }

  lemma TwoFileViews(dashCount: nat)
    ensures ViewOf(TwoFileListing()[0], TwoFileListing(), dashCount) == LineView([], false, dashCount, "a.txt", false)
    ensures ViewOf(TwoFileListing()[1], TwoFileListing(), dashCount) == LineView([], true, dashCount, "b.txt", false)
  {
    var es := TwoFileListing();
    assert es[..1][..0] == [];
    assert SiblingsOf(es[..1], []) == [es[0]];
    assert SiblingsOf(es, []) == es;
    assert !IsLastSibling(["a.txt"], es);
    assert IsLastSibling(["b.txt"], es);
  }

  lemma RenderFirstFile()
    ensures RenderLine(LineView([], false, 2, "a.txt", false)) == "├── a.txt"
  {
    RenderLineParts(LineView([], false, 2, "a.txt", false));
    assert Indent([]) == "";
    assert Branch(false, 2) == "├──";
  }

  lemma RenderSecondFile()
    ensures RenderLine(LineView([], true, 2, "b.txt", false)) == "└── b.txt"
  {
    RenderLineParts(LineView([], true, 2, "b.txt", false));
    assert Indent([]) == "";
    assert Branch(true, 2) == "└──";
  }

  /** Two files in one directory: the first gets the tee, the second the corner. */
  lemma TwoFiles()
    ensures Line(TwoFileListing()[0], TwoFileListing(), 2) == "├── a.txt"
    ensures Line(TwoFileListing()[1], TwoFileListing(), 2) == "└── b.txt"
  {
    TwoFileViews(2);
    RenderFirstFile();
    RenderSecondFile();
  }

  lemma RenderThreeDashes()
    ensures RenderLine(LineView([], true, 3, "b.txt", false)) == "└─── b.txt"
  {
    RenderLineParts(LineView([], true, 3, "b.txt", false));
    assert Indent([]) == "";
    assert Branch(true, 3) == "└───";
  }

  /** Three dashes give three horizontal rules between the glyph and the name. */
  lemma ThreeDashes()
    ensures Line(TwoFileListing()[1], TwoFileListing(), 3) == "└─── b.txt"
  {
    TwoFileViews(3);
    RenderThreeDashes();
  }

  /** root/a/, root/a/b/, root/a/b/f and root/z: a directory holding a
      directory holding a file, followed by a top-level file. */
  function Nested(a: string, b: string, f: string, z: string): seq<Entry> {
    [Entry([a], true), Entry([a, b], true), Entry([a, b, f], false), Entry([z], false)]
  }

  lemma NestedTopLevel(a: string, b: string, f: string, z: string)
    ensures var es := Nested(a, b, f, z); SiblingsOf(es, []) == [es[0], es[3]]
  {
    var es := Nested(a, b, f, z);
    assert es[..1][..0] == [];
    assert es[..2][..1] == es[..1];
    assert es[..3][..2] == es[..2];
    assert SiblingsOf(es[..1], []) == [es[0]];
    assert SiblingsOf(es[..2], []) == [es[0]];
    assert SiblingsOf(es[..3], []) == [es[0]];
  }

  lemma NestedInA(a: string, b: string, f: string, z: string)
    ensures var es := Nested(a, b, f, z); SiblingsOf(es, [a]) == [es[1]]
  {
    var es := Nested(a, b, f, z);
    assert es[..1][..0] == [];
    assert es[..2][..1] == es[..1];
    assert es[..3][..2] == es[..2];
    assert SiblingsOf(es[..1], [a]) == [];
    assert SiblingsOf(es[..2], [a]) == [es[1]];
    assert SiblingsOf(es[..3], [a]) == [es[1]];
  }

  lemma NestedInB(a: string, b: string, f: string, z: string)
    ensures var es := Nested(a, b, f, z); SiblingsOf(es, [a, b]) == [es[2]]
  {
    var es := Nested(a, b, f, z);
    assert es[..1][..0] == [];
    assert es[..2][..1] == es[..1];
    assert es[..3][..2] == es[..2];
    assert SiblingsOf(es[..1], [a, b]) == [];
    assert SiblingsOf(es[..2], [a, b]) == [];
    assert SiblingsOf(es[..3], [a, b]) == [es[2]];
  }

  /** `a` is not the last top-level entry: `z` follows it. */
  lemma NestedANotLast(a: string, b: string, f: string, z: string)
    requires a != z
    ensures !IsLastSibling([a], Nested(a, b, f, z))
  {
    NestedTopLevel(a, b, f, z);
    assert Parent([a]) == [];
    assert [z] != [a];
  }

  /** `a/b` is the last entry inside `a`. */
  lemma NestedBLast(a: string, b: string, f: string, z: string)
    ensures IsLastSibling([a, b], Nested(a, b, f, z))
  {
    NestedInA(a, b, f, z);
    assert Parent([a, b]) == [a];
  }

  /** `a/b/f` is the last entry inside `a/b`. */
  lemma NestedFLast(a: string, b: string, f: string, z: string)
    ensures IsLastSibling([a, b, f], Nested(a, b, f, z))
  {
    NestedInB(a, b, f, z);
    assert Parent([a, b, f]) == [a, b];
  }

  /** Indentation flags of `a/b`: a bar under `a`. */
  lemma NestedDirBars(a: string, b: string, f: string, z: string)
    requires a != z
    ensures NeedsBars([a, b], Nested(a, b, f, z)) == [true]
  {
    NestedANotLast(a, b, f, z);
    assert Ancestor([a, b], 0) == [a];
  }

  /** Indentation flags of `a/b/f`: a bar under `a`, a blank under `b`. */
  lemma NestedFileBars(a: string, b: string, f: string, z: string)
    requires a != z
    ensures NeedsBars([a, b, f], Nested(a, b, f, z)) == [true, false]
  {
    NestedANotLast(a, b, f, z);
    NestedBLast(a, b, f, z);
    assert Ancestor([a, b, f], 0) == [a] && Ancestor([a, b, f], 1) == [a, b];
  }

  /** The inner directory's line: a bar under `a`, which `z` still follows, and the corner. */
  lemma NestedDirView(a: string, b: string, f: string, z: string)
    requires a != z
    ensures var es := Nested(a, b, f, z); ViewOf(es[1], es, 2) == LineView([true], true, 2, b, true)
  {
    NestedDirBars(a, b, f, z);
    NestedBLast(a, b, f, z);
  }

  /** The file's line: a bar under `a`, a blank under `b` (whose last child it is), and the corner. */
  lemma NestedFileView(a: string, b: string, f: string, z: string)
    requires a != z
    ensures var es := Nested(a, b, f, z);
            ViewOf(es[2], es, 2) == LineView([true, false], true, 2, f, false)
  {
    NestedFileBars(a, b, f, z);
    NestedFLast(a, b, f, z);
  }

  lemma RenderNestedDir(name: string)
    ensures RenderLine(LineView([true], true, 2, name, true)) == "│   └── " + name + "/"
  {
    RenderLineParts(LineView([true], true, 2, name, true));
    assert Indent([true]) == Bar;
    assert Branch(true, 2) == "└──";
  }

  lemma RenderNestedFile(name: string)
    ensures RenderLine(LineView([true, false], true, 2, name, false)) == "│       └── " + name
  {
    RenderLineParts(LineView([true, false], true, 2, name, false));
    assert [true, false][1..] == [false];
    assert Indent([false]) == Blank + Indent([]);
    assert Indent([true, false]) == Bar + Blank;
    assert Branch(true, 2) == "└──";
  }

  /** The file two directories down gets two indentation segments: a bar
      under sub1 (z.txt still follows it) and a blank under sub2 (its last child). */
  lemma NestedLines()
    ensures var es := Nested("sub1", "sub2", "file.txt", "z.txt");
            && Line(es[1], es, 2) == "│   └── " + "sub2" + "/"
            && Line(es[2], es, 2) == "│       └── " + "file.txt"
  {
    var es := Nested("sub1", "sub2", "file.txt", "z.txt");
    assert "sub1" != "z.txt";
    NestedDirView("sub1", "sub2", "file.txt", "z.txt");
    RenderNestedDir("sub2");
    NestedFileView("sub1", "sub2", "file.txt", "z.txt");
    RenderNestedFile("file.txt");
  }

  function RustOnly(): DisplayOptions {
    DisplayOptions(false, Some(["rs"]), 2)
  }

  /** With the allow-list ["rs"], case does not matter. */
  lemma UpperCaseExtensionShown()
    ensures ShouldInclude(Entry(["src", "main.RS"], false), RustOnly())
  {
    ExtensionOfJoin("main", "RS");
    assert "main" + "." + "RS" == "main.RS";
    assert Lower("RS") == "rs";
  }

  /** A name without a dot has no extension and is dropped. */
  lemma NoExtensionHidden()
    ensures !ShouldInclude(Entry(["README"], false), RustOnly())
  {
    assert forall i :: 0 < i < |"README"| ==> "README"[i] != '.';
  }

  /** A leading dot does not start an extension. */
  lemma DotfileHidden()
    ensures !ShouldInclude(Entry([".rs"], false), RustOnly())
  {
    assert forall i :: 0 < i < |".rs"| ==> ".rs"[i] != '.';
  }

  /** Another extension is dropped. */
  lemma OtherExtensionHidden()
    ensures !ShouldInclude(Entry(["notes.txt"], false), RustOnly())
  {
    ExtensionOfJoin("notes", "txt");
    assert "notes" + "." + "txt" == "notes.txt";
    assert Lower("txt") == "txt";
    assert Lower("rs") == "rs";
  }
}
