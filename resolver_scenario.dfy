/** A worked case of the image search: a reference that climbs out of a
    folder the vault does not have. */
module ResolverScenario {
  import opened Base
  import opened Paths
  import opened AssetResolver

  const Vault: FileSystem := map[["v", "b", "a.png"] := []]

  /** The note `v/n.md` writes `![](zz/../b/a.png)` and the vault holds only
      `v/b/a.png`. There is no folder `v/zz` to look `..` up in, so the
      reference as written is no file, although its lexical form is the
      vault's file; no other candidate is a file either, so the search
      finds nothing and the reference is kept. */
  lemma MissingFolderKept()
    ensures Normalize(Candidates("zz/../b/a.png", ["v", "n.md"])[0]) in Vault
    ensures FindImageFile(Vault, "zz/../b/a.png", ["v", "n.md"]) == None
  {
    RefParts();
    RefRelative();
    NoteFolder(["v", "n.md"]);
    ClimbKept("zz/../b/a.png", ["v", "n.md"]);
  }

  /** The same, for any note in `v` and any relative reference with the
      parts `zz`, `..`, `b`, `a.png`. */
  lemma ClimbKept(ref: string, md: Path)
    requires Parent(md) == ["v"] && ref != "" && ref[0] != '/'
    requires Parts(ref) == ["zz", "..", "b", "a.png"]
    ensures Normalize(Candidates(ref, md)[0]) in Vault
    ensures FindImageFile(Vault, ref, md) == None
  {
    FirstCandidate(ref, md, ["v"]);
    ImageName();
    assert RefName(ref) == "a.png";
    assert Candidates(ref, md)[0] == ["v", "zz", "..", "b", "a.png"];
    ClimbsOutOfMissing();
    NoneFound(ref, md, "a.png");
  }

  /** The first candidate of a relative reference is the reference joined
      to the note's folder. */
  lemma FirstCandidate(ref: string, md: Path, dir: Path)
    requires Parent(md) == dir && ref != "" && ref[0] != '/'
    ensures Candidates(ref, md)[0] == dir + Parts(ref)
  {
    CandidateOrder(ref, md, 0);
    RelativeJoin(dir, ref);
  }

  lemma NoteFolder(md: Path)
    requires md == ["v", "n.md"]
    ensures Parent(md) == ["v"]
  {
  }

  /** When the reference as written is no file, nothing is found. */
  lemma NoneFound(ref: string, md: Path, name: string)
    requires Parent(md) == ["v"] && RefName(ref) == name && name != "" && name != ".."
    requires !IsFile(Vault, Candidates(ref, md)[0])
    ensures FindImageFile(Vault, ref, md) == None
  {
    forall i | 1 <= i < 27
      ensures !IsFile(Vault, Candidates(ref, md)[i])
    {
      OthersMiss(ref, md, name, i);
    }
  }

  /** Every candidate after the first, for a note in `v` and a reference
      ending in a plain name, lies outside `v/b`. */
  lemma OthersMiss(ref: string, md: Path, name: string, i: nat)
    requires Parent(md) == ["v"] && RefName(ref) == name && name != "" && name != ".."
    requires 1 <= i < 27
    ensures !IsFile(Vault, Candidates(ref, md)[i])
  {
    if i == 1 {
      BesideMiss(ref, md, name);
    } else if i < 7 {
      BlockMiss(ref, md, name, i - 2);
    } else if i < 12 {
      BlockMiss(ref, md, name, i - 7);
    } else if i < 17 {
      BlockMiss(ref, md, name, i - 12);
    } else if i < 22 {
      BlockMiss(ref, md, name, i - 17);
    } else {
      BlockMiss(ref, md, name, i - 22);
    }
  }

  lemma BesideMiss(ref: string, md: Path, name: string)
    requires Parent(md) == ["v"] && RefName(ref) == name && name != "" && name != ".."
    ensures !IsFile(Vault, Candidates(ref, md)[1])
  {
    CandidateOrder(ref, md, 0);
    VNotUp();
    assert Candidates(ref, md)[1] == ["v", name];
    ResolvedIsFile(Vault, ["v", name]);
  }

  /** The `f`-th attachment folder of each of the five folder searches. */
  lemma BlockMiss(ref: string, md: Path, name: string, f: nat)
    requires Parent(md) == ["v"] && RefName(ref) == name && name != "" && name != ".."
    requires f < 5
    ensures var cs := Candidates(ref, md);
            && !IsFile(Vault, cs[2 + f]) && !IsFile(Vault, cs[7 + f]) && !IsFile(Vault, cs[12 + f])
            && !IsFile(Vault, cs[17 + f]) && !IsFile(Vault, cs[22 + f])
  {
    CandidateOrder(ref, md, f);
    VNotUp();
    FolderCandidate(f, ["v"], name);
    FolderCandidate(f, [], name);
  }

  lemma VNotUp()
    ensures "v" != ".." && "v" != "b" && Parent(["v"]) == []
  {
    assert "v"[0] != '.' && "v"[0] != "b"[0];
  }

  /** `d/folder/name`, for the note's folder or the root, is not the
      vault's file. */
  lemma FolderCandidate(f: nat, d: Path, name: string)
    requires f < 5 && (d == ["v"] || d == []) && name != "" && name != ".."
    requires "v" != ".."
    ensures !IsFile(Vault, Child(d + [AttachmentFolders[f]], name))
  {
    var folder := AttachmentFolders[f];
    assert folder != ".." && folder != "b" by {
      assert |folder| >= 2 && folder[0] != '.';
    }
    var p := d + [folder] + [name];
    assert Child(d + [folder], name) == p;
    ResolvedIsFile(Vault, p);
  }

  /** Four separator-free pieces, none empty or `.`, joined by `/`, parse
      back as those four parts. */
  lemma FourParts(a: string, b: string, c: string, d: string)
    requires '/' !in a && '/' !in b && '/' !in c && '/' !in d
    requires a != "" && a != "." && b != "" && b != "." && c != "" && c != "." && d != "" && d != "."
    ensures Parts(a + ['/'] + (b + ['/'] + (c + ['/'] + d))) == [a, b, c, d]
  {
    SplitSingle(d, '/');
    SplitAfter(c, d, '/');
    SplitAfter(b, c + ['/'] + d, '/');
    SplitAfter(a, b + ['/'] + (c + ['/'] + d), '/');
    assert Split(a + ['/'] + (b + ['/'] + (c + ['/'] + d)), '/') == [a, b, c, d];
    assert KeepParts([d]) == [d] by {
      assert [d][1..] == [];
    }
    assert KeepParts([c, d]) == [c, d] by {
      assert [c, d][1..] == [d];
    }
    assert KeepParts([b, c, d]) == [b, c, d] by {
      assert [b, c, d][1..] == [c, d];
    }
    assert KeepParts([a, b, c, d]) == [a, b, c, d] by {
      assert [a, b, c, d][1..] == [b, c, d];
    }
  }

  /** `Path("zz/../b/a.png")` has the parts `zz`, `..`, `b`, `a.png`. */
  lemma RefParts()
    ensures Parts("zz/../b/a.png") == ["zz", "..", "b", "a.png"]
    ensures RefName("zz/../b/a.png") == "a.png"
  {
    var zz, up, b, name := "zz", "..", "b", "a.png";
    RefText();
    PiecesPlain();
    FourParts(zz, up, b, name);
  }

  lemma RefText()
    ensures "zz" + ['/'] + (".." + ['/'] + ("b" + ['/'] + "a.png")) == "zz/../b/a.png"
  {
  }

  lemma PiecesPlain()
    ensures '/' !in "zz" && '/' !in ".." && '/' !in "b" && '/' !in "a.png"
    ensures "zz" != "" && "zz" != "." && ".." != "" && ".." != "." && "b" != "" && "b" != "."
    ensures "a.png" != "" && "a.png" != "."
  {
    var zz, up, b, name := "zz", "..", "b", "a.png";
    assert zz[0] != '/' && zz[1] != '/' && up[0] != '/' && up[1] != '/' && b[0] != '/';
    assert name[0] != '/' && name[1] != '/' && name[2] != '/' && name[3] != '/' && name[4] != '/';
    assert |zz| == 2 && |up| == 2 && |b| == 1 && |name| == 5;
  }

  lemma ImageName()
    ensures "a.png" != "" && "a.png" != ".."
  {
    assert "a.png"[0] != '.';
  }

  /** A relative reference is joined to the folder. */
  lemma RelativeJoin(dir: Path, ref: string)
    requires ref != "" && ref[0] != '/'
    ensures JoinPath(dir, ref) == dir + Parts(ref)
  {
  }

  lemma RefRelative()
    ensures "zz/../b/a.png" != "" && "zz/../b/a.png"[0] != '/'
  {
  }

  /** A plain component after `p` stays after its normal form. */
  lemma NormalizeSnoc(p: Path, x: string)
    requires x != ".."
    ensures Normalize(p + [x]) == Normalize(p) + [x]
  {
    assert (p + [x])[..|p|] == p;
  }

  /** A `..` after `p` drops the last component of its normal form. */
  lemma NormalizeUp(p: Path)
    ensures Normalize(p + [".."]) == Parent(Normalize(p))
  {
    assert (p + [".."])[..|p|] == p;
  }

  /** The reference as written climbs out of `v/zz`, which is no directory,
      although its lexical form `v/b/a.png` is the vault's file. */
  lemma ClimbsOutOfMissing()
    ensures Normalize(["v", "zz", "..", "b", "a.png"]) == ["v", "b", "a.png"]
    ensures !IsFile(Vault, ["v", "zz", "..", "b", "a.png"])
  {
    PlainNames();
    NoFolderZz();
    ClimbOut(Vault, "v", "zz", "b", "a.png");
  }

  /** `v/zz` is not a directory of the vault. */
  lemma NoFolderZz()
    ensures !IsDir(Vault, ["v", "zz"])
  {
    PlainNames();
    forall f | f in Vault
      ensures !(["v", "zz"] <= f)
    {
      assert f[1] == "b";
    }
  }

  /** `v/zz/../b/name` is lexically `v/b/name`, and no file when `v/zz` is
      not a directory. */
  lemma ClimbOut(fs: FileSystem, v: string, zz: string, b: string, name: string)
    requires v != ".." && zz != ".." && b != ".." && name != ".."
    requires !IsDir(fs, [v, zz])
    ensures Normalize([v, zz, "..", b, name]) == [v, b, name]
    ensures !IsFile(fs, [v, zz, "..", b, name])
  {
    var d := [v, zz];
    NormalFixed(d);
    NormalizeUp(d);
    NormalizeSnoc(d + [".."], b);
    NormalizeSnoc(d + [".."] + [b], name);
    var p := d + [".."] + [b] + [name];
    assert p == [v, zz, "..", b, name];
    assert p[..2] == d;
    DotDotBlocks(fs, p, 2);
  }

  lemma PlainNames()
    ensures "v" != ".." && "zz" != ".." && "b" != ".." && "a.png" != ".." && "zz" != "b"
  {
    assert "v"[0] != '.' && "zz"[0] != '.' && "b"[0] != '.' && "a.png"[0] != '.' && |"zz"| != |"b"|;
  }
}
