/** A worked case of the Publish click: a directory whose name looks like
    a note passes every check, but reading it raises, so no run starts. */
module PublishScenario {
  import opened Base
  import opened Yaml
  import opened Paths
  import opened PublishApp

  /** Publishing a directory named like a note: every check passes, the
      reload raises, and no run starts. */
  method DirectoryAborts(c: Codec) returns (outcome: Click)
    ensures outcome == Aborted(["v", "n.md"])
  {
    var app := new App();
    var fs: FileSystem := map[["v", "n.md", "a.png"] := []];
    DirectoryPasses(fs);
    outcome := app.OnPublishClick(c, fs, ["v"], "n.md", "T", Text("x"));
  }

  /** The directory `v/n.md` passes every check of the click but is not a file. */
  lemma DirectoryPasses(fs: FileSystem)
    requires fs == map[["v", "n.md", "a.png"] := []]
    ensures Resolved(["v"], Strip("n.md")) == ["v", "n.md"]
    ensures Validate(fs, ["v"], "n.md", "T") == None
    ensures !IsFile(fs, ["v", "n.md"])
  {
    NoteNameParts();
    var src: Path := ["v", "n.md"];
    var f: Path := ["v", "n.md", "a.png"];
    NormalFixed(src);
    assert fs.Keys == {f};
    assert src != f by {
      assert |src| != |f|;
    }
    assert Exists(fs, src) by {
      assert f in fs && src <= f;
    }
    OnlyFile(fs, f, src);
    NoteIsMarkdown();
    TitleKept();
  }

  lemma NameKept()
    ensures Strip("n.md") == "n.md"
  {
    StripIdentity("n.md");
  }

  lemma TitleKept()
    ensures Strip("T") == "T"
  {
    StripIdentity("T");
  }

  /** In a file system holding one file, any other path is not a file. */
  lemma OnlyFile(fs: FileSystem, f: Path, p: Path)
    requires fs.Keys == {f} && Normalize(p) == p && p != f
    ensures !IsFile(fs, p)
  {
  }

  /** The entry `n.md`, resolved from `v`, names `v/n.md`. */
  lemma NoteNameParts()
    ensures Strip("n.md") == "n.md"
    ensures Resolved(["v"], Strip("n.md")) == ["v", "n.md"]
  {
    NameKept();
    NoteName();
    RootChild();
    ChildResolved(["v"], "n.md");
  }

  lemma RootChild()
    ensures Normalize(["v"]) == ["v"]
  {
    var v := "v";
    assert |v| == 1;
    NormalFixed([v]);
  }

  lemma NoteName()
    ensures '/' !in "n.md" && |"n.md"| == 4
  {
    var name := "n.md";
    assert name[0] != '/' && name[1] != '/' && name[2] != '/' && name[3] != '/';
  }

  /** A plain name resolved from a resolved directory is that directory's child. */
  lemma ChildResolved(cwd: Path, name: string)
    requires Normalize(cwd) == cwd
    requires name != "" && name != "." && name != ".." && '/' !in name
    ensures Resolved(cwd, name) == cwd + [name]
  {
    SplitSingle(name, '/');
    assert KeepParts([name]) == [name] by {
      assert name != "" && name != "." && [name][1..] == [];
    }
    assert !IsAbsolute(name) by {
      assert name[0] in name;
    }
    var q := cwd + [name];
    assert forall k :: 0 <= k < |q| ==> q[k] != ".." by {
      assert forall k :: 0 <= k < |cwd| ==> cwd[k] != "..";
    }
    NormalFixed(q);
  }

  lemma NoteIsMarkdown()
    ensures IsMarkdown(["v", "n.md"])
  {
    var name := "n.md";
    assert LastDot(name) == Some(1) by {
      assert name[..3] == "n.m" && name[..3][..2] == "n.";
    }
    assert Suffix(name) == ".md";
    assert Lower(".md") == ".md";
  }
}
