/** `find_image_file` (identical in publish.py and publish_gui.py): where an
    image reference written in a note is looked for, and which file wins. */
module AssetResolver {
  import opened Base
  import opened Paths

  /** The attachment folder names Obsidian vaults commonly use, in search order. */
  const AttachmentFolders: seq<string> := ["attachments", "assets", "images", "附件", "Attachments"]

  /** `dir / folder / name` for every attachment folder, in order. */
  function InFolders(dir: Path, name: string): (cs: seq<Path>)
    ensures |cs| == |AttachmentFolders|
    ensures forall f :: 0 <= f < |cs| ==> cs[f] == Child(dir + [AttachmentFolders[f]], name)
  {
    seq(|AttachmentFolders|, f requires 0 <= f < |AttachmentFolders| => Child(dir + [AttachmentFolders[f]], name))
  }

  /** Every path `find_image_file(ref, md_file)` tries, in the order it tries
      them: the reference relative to the note's folder, the bare file name
      there, the attachment folders there, in the parent, and in each of the
      next three ancestors (the first of which is the parent again). */
  function Candidates(ref: string, mdFile: Path): (cs: seq<Path>)
    ensures |cs| == 27
  {
    var dir := Parent(mdFile);
    var name := RefName(ref);
    [JoinPath(dir, ref), Child(dir, name)]
      + InFolders(dir, name)
      + InFolders(Parent(dir), name)
      + InFolders(Ancestor(dir, 1), name)
      + InFolders(Ancestor(dir, 2), name)
      + InFolders(Ancestor(dir, 3), name)
  }

  /** The first of `cs` that is a file. */
  function FirstFile(fs: FileSystem, cs: seq<Path>): (r: Option<Path>)
    ensures r.Some? ==> IsFile(fs, r.value)
    ensures r.Some? ==> exists i :: 0 <= i < |cs| && cs[i] == r.value
                                    && forall j :: 0 <= j < i ==> !IsFile(fs, cs[j])
    ensures r.None? <==> forall i :: 0 <= i < |cs| ==> !IsFile(fs, cs[i])
  {
    if cs == [] then None
    else if IsFile(fs, cs[0]) then Some(cs[0])
    else
      var r := FirstFile(fs, cs[1..]);
      assert forall i :: 1 <= i < |cs| ==> cs[i] == cs[1..][i - 1];
      assert r.Some? ==> exists i :: 0 <= i < |cs| && cs[i] == r.value
                                     && forall j :: 0 <= j < i ==> !IsFile(fs, cs[j]) by {
        if r.Some? {
          var i :| 0 <= i < |cs[1..]| && cs[1..][i] == r.value
                   && forall j :: 0 <= j < i ==> !IsFile(fs, cs[1..][j]);
          assert forall j :: 0 <= j < i + 1 ==> !IsFile(fs, cs[j]) by {
            forall j | 0 <= j < i + 1 ensures !IsFile(fs, cs[j]) {
              if j > 0 { assert cs[j] == cs[1..][j - 1]; }
            }
          }
        }
      }
      r
  }

  /** `find_image_file(image_ref, md_file_path)` */
  function FindImageFile(fs: FileSystem, ref: string, mdFile: Path): (r: Option<Path>)
    ensures r.Some? ==> IsFile(fs, r.value)
    ensures r.Some? ==> exists i :: 0 <= i < 27 && Candidates(ref, mdFile)[i] == r.value
                                    && forall j :: 0 <= j < i ==> !IsFile(fs, Candidates(ref, mdFile)[j])
    ensures r.None? <==> forall i :: 0 <= i < 27 ==> !IsFile(fs, Candidates(ref, mdFile)[i])
  {
    FirstFile(fs, Candidates(ref, mdFile))
  }

  /** The search order, spelled out: which candidate sits at which rank. */
  lemma CandidateOrder(ref: string, mdFile: Path, f: nat)
    requires f < 5
    ensures var dir := Parent(mdFile);
            var name := RefName(ref);
            var cs := Candidates(ref, mdFile);
            && cs[0] == JoinPath(dir, ref)
            && cs[1] == Child(dir, name)
            && cs[2 + f] == Child(dir + [AttachmentFolders[f]], name)
            && cs[7 + f] == Child(Parent(dir) + [AttachmentFolders[f]], name)
            && cs[12 + f] == Child(Parent(dir) + [AttachmentFolders[f]], name)
            && cs[17 + f] == Child(Parent(Parent(dir)) + [AttachmentFolders[f]], name)
            && cs[22 + f] == Child(Parent(Parent(Parent(dir))) + [AttachmentFolders[f]], name)
  {
    var dir := Parent(mdFile);
    var name := RefName(ref);
    CandidateBlocks(ref, mdFile, f);
    AncestorsUp(dir);
    assert InFolders(Ancestor(dir, 3), name)[f] == Child(Parent(Parent(Parent(dir))) + [AttachmentFolders[f]], name);
    assert InFolders(Ancestor(dir, 2), name)[f] == Child(Parent(Parent(dir)) + [AttachmentFolders[f]], name);
    assert InFolders(Ancestor(dir, 1), name)[f] == Child(Parent(dir) + [AttachmentFolders[f]], name);
  }

  /** Each block of five candidates is one attachment-folder search. */
  lemma CandidateBlocks(ref: string, mdFile: Path, f: nat)
    requires f < 5
    ensures var dir := Parent(mdFile);
            var name := RefName(ref);
            var cs := Candidates(ref, mdFile);
            && cs[0] == JoinPath(dir, ref)
            && cs[1] == Child(dir, name)
            && cs[2 + f] == InFolders(dir, name)[f]
            && cs[7 + f] == InFolders(Parent(dir), name)[f]
            && cs[12 + f] == InFolders(Ancestor(dir, 1), name)[f]
            && cs[17 + f] == InFolders(Ancestor(dir, 2), name)[f]
            && cs[22 + f] == InFolders(Ancestor(dir, 3), name)[f]
  {
    var dir := Parent(mdFile);
    var name := RefName(ref);
    FiveBlocks([JoinPath(dir, ref), Child(dir, name)], InFolders(dir, name), InFolders(Parent(dir), name),
               InFolders(Ancestor(dir, 1), name), InFolders(Ancestor(dir, 2), name),
               InFolders(Ancestor(dir, 3), name), f);
  }

  /** Where the elements of five blocks of five, after a head of two, sit
      in their concatenation. */
  lemma FiveBlocks(h: seq<Path>, a: seq<Path>, b: seq<Path>, c: seq<Path>, d: seq<Path>, e: seq<Path>, f: nat)
    requires |h| == 2 && |a| == 5 && |b| == 5 && |c| == 5 && |d| == 5 && |e| == 5 && f < 5
    ensures var cs := h + a + b + c + d + e;
            && cs[0] == h[0] && cs[1] == h[1]
            && cs[2 + f] == a[f] && cs[7 + f] == b[f] && cs[12 + f] == c[f]
            && cs[17 + f] == d[f] && cs[22 + f] == e[f]
  {
    var x1 := h + a;
    var x2 := x1 + b;
    var x3 := x2 + c;
    var x4 := x3 + d;
    assert x4[17 + f] == d[f];
    assert x4[12 + f] == x3[12 + f] == c[f];
    assert x4[7 + f] == x3[7 + f] == x2[7 + f] == b[f];
    assert x4[2 + f] == x3[2 + f] == x2[2 + f] == x1[2 + f] == a[f];
    assert x4[0] == x1[0] && x4[1] == x1[1];
  }

  /** The first three ancestors of a folder are its parent, grandparent and
      great-grandparent. */
  lemma AncestorsUp(dir: Path)
    ensures Ancestor(dir, 1) == Parent(dir)
    ensures Ancestor(dir, 2) == Parent(Parent(dir))
    ensures Ancestor(dir, 3) == Parent(Parent(Parent(dir)))
  {
    var p3 := Parent(Parent(Parent(dir)));
    assert Ancestor(p3, 0) == p3;
    assert Ancestor(Parent(Parent(dir)), 1) == Ancestor(p3, 0);
    assert Ancestor(Parent(dir), 2) == Ancestor(Parent(Parent(dir)), 1);
    assert Ancestor(Parent(Parent(dir)), 0) == Parent(Parent(dir));
    assert Ancestor(Parent(dir), 1) == Ancestor(Parent(Parent(dir)), 0);
    assert Ancestor(Parent(dir), 0) == Parent(dir);
  }

  /** A file sitting directly next to the note, under the name the reference
      ends in, is found unless the reference itself names an existing file. */
  lemma FoundBesideNote(fs: FileSystem, ref: string, mdFile: Path)
    requires IsFile(fs, Child(Parent(mdFile), RefName(ref)))
    ensures FindImageFile(fs, ref, mdFile) ==
              if IsFile(fs, JoinPath(Parent(mdFile), ref)) then Some(JoinPath(Parent(mdFile), ref))
              else Some(Child(Parent(mdFile), RefName(ref)))
  {
    CandidateOrder(ref, mdFile, 0);
    var cs := Candidates(ref, mdFile);
    assert cs[1..][0] == cs[1];
  }
}
