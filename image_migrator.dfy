/** `migrate_images` (publish.py) and `PublishApp._migrate_images`
    (publish_gui.py): two `re.sub` passes over the note, first over
    standard image references `![alt](path)`, then over wiki embeds
    `![[name]]` / `![[name|alt]]`. Every reference whose file is found is
    copied into the asset store and rewritten to `![alt](/assets/<name>)`.

    `re.sub` scans left to right: where the pattern matches, the replacement
    is emitted and the scan resumes after the match; elsewhere one character
    is copied. The two patterns are the matchers of `RefSyntax`. */
module ImageMigrator {
  import opened Base
  import opened Paths
  import opened AssetResolver
  import opened AssetStore
  import opened RefSyntax

  /** `IMAGE_EXTENSIONS` */
  const ImageExtensions: set<string> := {".png", ".jpg", ".jpeg", ".gif", ".webp", ".svg", ".bmp", ".ico"}

  // ---------------------------------------------------------------------
  // What each replacer does with a match
  // ---------------------------------------------------------------------

  /** The replacer's decision: return the match unchanged, return it
      unchanged and warn that the file was not found, or copy `src` into the
      store and rewrite the reference with alt text `alt`. */
  datatype Action = Keep | Missing(ref: string) | Copy(src: Path, alt: string)

  /** Look the reference up; a miss keeps the text and warns. */
  function Resolve(fs: FileSystem, mdFile: Path, ref: string, alt: string): (a: Action)
    ensures a.Copy? ==> IsFile(fs, a.src) && a.alt == alt
    ensures a.Missing? ==> a.ref == ref
    ensures a.Missing? <==> FindImageFile(fs, ref, mdFile).None?
    ensures a.Copy? ==> FindImageFile(fs, ref, mdFile) == Some(a.src)
  {
    match FindImageFile(fs, ref, mdFile)
    case None => Missing(ref)
    case Some(p) => Copy(p, alt)
  }

  /** Stripped paths the standard replacer leaves alone: already migrated
      (`/assets/`), the blog's own images (`/images/`), and, in the GUI
      only, web addresses that got past the pattern's look-ahead because of
      leading whitespace. */
  predicate SkippedPath(raw: string, gui: bool)
  {
    "/assets/" <= raw || "/images/" <= raw || (gui && HttpPrefix(raw))
  }

  /** `replace_md_image` (CLI, `gui` false) / `_replace_md` (GUI). */
  function StdAction(fs: FileSystem, mdFile: Path, gui: bool, m: StdRef): (a: Action)
    ensures a.Keep? <==> SkippedPath(Strip(m.path), gui)
    ensures !a.Keep? ==> a == Resolve(fs, mdFile, Strip(m.path), m.alt)
  {
    var raw := Strip(m.path);
    if SkippedPath(raw, gui) then Keep else Resolve(fs, mdFile, raw, m.alt)
  }

  /** `Path(ref).suffix.lower() in IMAGE_EXTENSIONS` */
  predicate IsImageRef(ref: string)
  {
    Lower(Suffix(RefName(ref))) in ImageExtensions
  }

  /** The wiki alt text: what follows `|`, stripped, else the file's stem. */
  function WikiAlt(w: WikiRef): string
  {
    match w.alias
    case Some(a) => Strip(a)
    case None => Stem(RefName(Strip(w.target)))
  }

  /** `replace_wiki_image` / `_replace_wiki` (the same in both scripts). */
  function WikiAction(fs: FileSystem, mdFile: Path, w: WikiRef): (a: Action)
    ensures a.Keep? <==> !IsImageRef(Strip(w.target))
    ensures !a.Keep? ==> a == Resolve(fs, mdFile, Strip(w.target), WikiAlt(w))
  {
    var ref := Strip(w.target);
    if !IsImageRef(ref) then Keep else Resolve(fs, mdFile, ref, WikiAlt(w))
  }

  // ---------------------------------------------------------------------
  // The two substitution passes
  // ---------------------------------------------------------------------

  /** Which of the two passes; the standard one differs between the scripts. */
  datatype Syntax = Standard(gui: bool) | Wiki

  /** The reference of the given syntax starting at `i`, as the length of
      the matched text and what the replacer does with it. */
  function RefAt(syn: Syntax, fs: FileSystem, mdFile: Path, s: string, i: nat): (r: Option<(nat, Action)>)
    ensures r.Some? ==> 0 < r.value.0 && i + r.value.0 <= |s|
    ensures r.Some? && r.value.1.Copy? ==> IsFile(fs, r.value.1.src)
  {
    match syn
    case Standard(gui) => StdHit(fs, mdFile, gui, s, i)
    case Wiki => WikiHit(fs, mdFile, s, i)
  }

  function StdHit(fs: FileSystem, mdFile: Path, gui: bool, s: string, i: nat): (r: Option<(nat, Action)>)
    ensures r.Some? ==> 0 < r.value.0 && i + r.value.0 <= |s|
    ensures r.Some? && r.value.1.Copy? ==> IsFile(fs, r.value.1.src)
  {
    match MatchStd(s, i)
    case None => None
    case Some(m) => Some((|StdText(m)|, StdAction(fs, mdFile, gui, m)))
  }

  function WikiHit(fs: FileSystem, mdFile: Path, s: string, i: nat): (r: Option<(nat, Action)>)
    ensures r.Some? ==> 0 < r.value.0 && i + r.value.0 <= |s|
    ensures r.Some? && r.value.1.Copy? ==> IsFile(fs, r.value.1.src)
  {
    match MatchWiki(s, i)
    case None => None
    case Some(w) => Some((|WikiText(w)|, WikiAction(fs, mdFile, w)))
  }

  /** `![alt](/assets/<dest>)` */
  function Rewritten(alt: string, dest: string): string
  {
    "![" + alt + "](/assets/" + dest + ")"
  }

  /** What the scan finds at one position: nothing, or the length of the
      matched reference and the replacer's decision about it. */
  type Hit = Option<(nat, Action)>

  /** A table of hits for `s`, one per position, that `re.sub` can follow:
      every reference lies inside `s`, and every file to copy exists. */
  predicate Fits(fs: FileSystem, s: string, hs: seq<Hit>)
  {
    && |hs| == |s|
    && forall k :: 0 <= k < |hs| && hs[k].Some? ==>
         && 0 < hs[k].value.0 && k + hs[k].value.0 <= |s|
         && (hs[k].value.1.Copy? ==> IsFile(fs, hs[k].value.1.src))
  }

  /** The pattern tried at every position of `s`, with the replacer's
      decision where it matches. The decisions depend on the vault and the
      note only, never on the asset store, so they can be taken up front. */
  function Scan(syn: Syntax, fs: FileSystem, mdFile: Path, s: string): (hs: seq<Hit>)
    ensures Fits(fs, s, hs)
    ensures forall k :: 0 <= k < |s| ==> hs[k] == RefAt(syn, fs, mdFile, s, k)
  {
    seq(|s|, k requires 0 <= k < |s| => RefAt(syn, fs, mdFile, s, k))
  }

  /** What one step of the scan at `i` produces: the text emitted, where the
      scan resumes, the store afterwards, the images copied (0 or 1) and the
      references reported as not found. */
  datatype Emit = Emit(text: string, next: nat, assets: Assets, copied: nat, missing: seq<string>)

  /** One step of `re.sub` at `i`: a reference starting there is handed to
      the replacer and skipped over; otherwise one character is copied. */
  function Step(fs: FileSystem, stamp: string, s: string, hs: seq<Hit>, i: nat, assets: Assets): (e: Emit)
    requires Fits(fs, s, hs) && i < |s|
    ensures i < e.next <= |s|
  {
    match hs[i]
    case None => Emit([s[i]], i + 1, assets, 0, [])
    case Some((n, act)) =>
      match act
      case Keep => Emit(s[i..i + n], i + n, assets, 0, [])
      case Missing(ref) => Emit(s[i..i + n], i + n, assets, 0, [ref])
      case Copy(src, alt) =>
        var data := fs[Normalize(src)];
        var dest := CopyTarget(assets, NameOf(src), data, stamp);
        Emit(Rewritten(alt, dest), i + n, assets[dest := data], 1, [])
  }

  /** The outcome of a pass over `s[i..]`: the new text, the asset store
      afterwards, how many images were copied, and the references reported
      as not found, in order. */
  datatype Run = Run(text: string, assets: Assets, copied: nat, missing: seq<string>)

  /** `re.sub(pattern, replacer, s)` from position `i`, following the hits
      `hs`, with the asset store `assets` as it is when the scan reaches `i`. */
  function Pass(fs: FileSystem, stamp: string, s: string, hs: seq<Hit>, i: nat, assets: Assets): Run
    requires Fits(fs, s, hs) && i <= |s|
    decreases |s| - i
  {
    if i == |s| then Run("", assets, 0, [])
    else
      var e := Step(fs, stamp, s, hs, i, assets);
      var r := Pass(fs, stamp, s, hs, e.next, e.assets);
      Run(e.text + r.text, r.assets, e.copied + r.copied, e.missing + r.missing)
  }

  /** The whole migration: the standard pass, then the wiki pass over its output. */
  function Migrate(fs: FileSystem, mdFile: Path, gui: bool, stamp: string,
                   content: string, assets: Assets): Run
  {
    var r1 := Pass(fs, stamp, content, Scan(Standard(gui), fs, mdFile, content), 0, assets);
    var r2 := Pass(fs, stamp, r1.text, Scan(Wiki, fs, mdFile, r1.text), 0, r1.assets);
    Run(r2.text, r2.assets, r1.copied + r2.copied, r1.missing + r2.missing)
  }

  /** `s[i..j] + t`, with its first character taken apart. */
  lemma SliceCons(s: string, i: nat, j: nat, t: string)
    requires i < j <= |s|
    ensures [s[i]] + (s[i + 1..j] + t) == s[i..j] + t
  {
    assert [s[i]] + s[i + 1..j] == s[i..j];
  }

  /** `s[i..]` cut at `m`. */
  lemma SliceSplit(s: string, i: nat, m: nat)
    requires i <= m <= |s|
    ensures s[i..] == s[i..m] + s[m..]
  {
  }

  /** One step of the pass, unfolded. */
  lemma PassStep(fs: FileSystem, stamp: string, s: string, hs: seq<Hit>, i: nat, assets: Assets)
    requires Fits(fs, s, hs) && i < |s|
    ensures var e := Step(fs, stamp, s, hs, i, assets);
            var r := Pass(fs, stamp, s, hs, e.next, e.assets);
            Pass(fs, stamp, s, hs, i, assets) == Run(e.text + r.text, r.assets, e.copied + r.copied, e.missing + r.missing)
  {
  }

  /** Where no reference starts, a step copies one character. */
  lemma StepPlain(fs: FileSystem, stamp: string, s: string, hs: seq<Hit>, i: nat, assets: Assets)
    requires Fits(fs, s, hs) && i < |s| && hs[i].None?
    ensures Step(fs, stamp, s, hs, i, assets) == Emit([s[i]], i + 1, assets, 0, [])
  {
  }

  /** Text where no reference starts is copied through unchanged. */
  lemma {:induction false} PassCopiesPlainText(fs: FileSystem, stamp: string, s: string, hs: seq<Hit>,
                                               i: nat, j: nat, assets: Assets)
    requires Fits(fs, s, hs) && i <= j <= |s|
    requires forall k :: i <= k < j ==> hs[k].None?
    ensures var r := Pass(fs, stamp, s, hs, i, assets);
            var r' := Pass(fs, stamp, s, hs, j, assets);
            r == Run(s[i..j] + r'.text, r'.assets, r'.copied, r'.missing)
    decreases j - i
  {
    var r' := Pass(fs, stamp, s, hs, j, assets);
    if i < j {
      var r := Pass(fs, stamp, s, hs, i + 1, assets);
      PassStep(fs, stamp, s, hs, i, assets);
      StepPlain(fs, stamp, s, hs, i, assets);
      assert [] + r.missing == r.missing;
      PassCopiesPlainText(fs, stamp, s, hs, i + 1, j, assets);
      SliceCons(s, i, j, r'.text);
    } else {
      assert s[i..j] == [];
    }
  }

  /** No reference is copied at `k`: none starts there, or it is kept. */
  predicate NoCopyAt(hs: seq<Hit>, k: nat)
    requires k < |hs|
  {
    hs[k].None? || !hs[k].value.1.Copy?
  }

  /** A step that copies nothing emits exactly the text it passes over. */
  lemma StepNoCopy(fs: FileSystem, stamp: string, s: string, hs: seq<Hit>, i: nat, assets: Assets)
    requires Fits(fs, s, hs) && i < |s| && NoCopyAt(hs, i)
    ensures var e := Step(fs, stamp, s, hs, i, assets);
            e.text == s[i..e.next] && e.assets == assets && e.copied == 0
  {
    if hs[i].None? {
      assert s[i..i + 1] == [s[i]];
    }
  }

  /** When no reference in the text leads to a copy (all are skipped or not
      found), the text comes out byte for byte, the store is untouched, and
      nothing is counted. */
  lemma {:induction false} PassUntouched(fs: FileSystem, stamp: string, s: string, hs: seq<Hit>,
                                         i: nat, assets: Assets)
    requires Fits(fs, s, hs) && i <= |s|
    requires forall k :: i <= k < |s| ==> NoCopyAt(hs, k)
    ensures var r := Pass(fs, stamp, s, hs, i, assets);
            r.text == s[i..] && r.assets == assets && r.copied == 0
    decreases |s| - i
  {
    if i < |s| {
      var e := Step(fs, stamp, s, hs, i, assets);
      PassStep(fs, stamp, s, hs, i, assets);
      StepNoCopy(fs, stamp, s, hs, i, assets);
      PassUntouched(fs, stamp, s, hs, e.next, assets);
      SliceSplit(s, i, e.next);
    }
  }

  /** What a step writes into the store is a copy of a vault file. */
  lemma StepOnlyAddsCopies(fs: FileSystem, stamp: string, s: string, hs: seq<Hit>, i: nat, assets: Assets)
    requires Fits(fs, s, hs) && i < |s|
    ensures var e := Step(fs, stamp, s, hs, i, assets);
            && assets.Keys <= e.assets.Keys
            && forall name :: name in e.assets && (name !in assets || e.assets[name] != assets[name])
                              ==> e.assets[name] in fs.Values
  {
    var e := Step(fs, stamp, s, hs, i, assets);
    if hs[i].Some? && hs[i].value.1.Copy? {
      var src := hs[i].value.1.src;
      var data := fs[Normalize(src)];
      var dest := CopyTarget(assets, NameOf(src), data, stamp);
      assert e.assets == assets[dest := data];
      assert data in fs.Values;
    } else {
      assert e.assets == assets;
    }
  }

  /** The store only grows, and every entry the pass writes holds the bytes
      of a file of the vault. */
  lemma {:induction false} PassOnlyAddsCopies(fs: FileSystem, stamp: string, s: string, hs: seq<Hit>,
                                              i: nat, assets: Assets)
    requires Fits(fs, s, hs) && i <= |s|
    ensures var r := Pass(fs, stamp, s, hs, i, assets);
            && assets.Keys <= r.assets.Keys
            && forall name :: name in r.assets && (name !in assets || r.assets[name] != assets[name])
                              ==> r.assets[name] in fs.Values
    decreases |s| - i
  {
    if i < |s| {
      var e := Step(fs, stamp, s, hs, i, assets);
      PassStep(fs, stamp, s, hs, i, assets);
      StepOnlyAddsCopies(fs, stamp, s, hs, i, assets);
      PassOnlyAddsCopies(fs, stamp, s, hs, e.next, e.assets);
    }
  }

  /** The replacer applied at `i`, where the scan found `hit`, copying into
      the store in place. */
  method ApplyStep(store: Store, fs: FileSystem, stamp: string, s: string, ghost hs: seq<Hit>, i: nat, hit: Hit)
    returns (piece: string, next: nat, copied: nat, missing: seq<string>)
    requires Fits(fs, s, hs) && i < |s| && hit == hs[i]
    modifies store
    ensures var e := Step(fs, stamp, s, hs, i, old(store.files));
            && piece == e.text && next == e.next && store.files == e.assets
            && copied == e.copied && missing == e.missing
  {
    ghost var before := store.files;
    ghost var e := Step(fs, stamp, s, hs, i, before);
    match hit
    case None =>
      piece, next, copied, missing := [s[i]], i + 1, 0, [];
      assert e == Emit(piece, next, before, 0, []);
    case Some((n, act)) =>
      match act {
        case Keep =>
          piece, copied, missing := s[i..i + n], 0, [];
          assert e == Emit(piece, i + n, before, 0, []);
        case Missing(ref) =>
          piece, copied, missing := s[i..i + n], 0, [ref];
          assert e == Emit(piece, i + n, before, 0, [ref]);
        case Copy(src, alt) =>
          var data := fs[Normalize(src)];
          var dest := store.CopyImage(NameOf(src), data, stamp);
          piece, copied, missing := Rewritten(alt, dest), 1, [];
          assert e == Emit(piece, i + n, before[dest := data], 1, []);
      }
      next := i + n;
  }

  /** One pass of `re.sub` over `s`, with the store updated in place. */
  method RunPass(store: Store, syn: Syntax, fs: FileSystem, mdFile: Path, stamp: string, s: string)
    returns (text: string, copied: nat, missing: seq<string>)
    modifies store
    ensures var r := Pass(fs, stamp, s, Scan(syn, fs, mdFile, s), 0, old(store.files));
            text == r.text && store.files == r.assets && copied == r.copied && missing == r.missing
  {
    ghost var hs := Scan(syn, fs, mdFile, s);
    ghost var total := Pass(fs, stamp, s, hs, 0, store.files);
    var i := 0;
    text, copied, missing := "", 0, [];
    while i < |s|
      invariant i <= |s|
      invariant var r := Pass(fs, stamp, s, hs, i, store.files);
                && text + r.text == total.text && r.assets == total.assets
                && copied + r.copied == total.copied && missing + r.missing == total.missing
      decreases |s| - i
    {
      ghost var e := Step(fs, stamp, s, hs, i, store.files);
      ghost var rest := Pass(fs, stamp, s, hs, e.next, e.assets);
      PassStep(fs, stamp, s, hs, i, store.files);
      var piece, next, c, m := ApplyStep(store, fs, stamp, s, hs, i, RefAt(syn, fs, mdFile, s, i));
      AppendAssoc(text, piece, rest.text);
      AppendAssoc(missing, m, rest.missing);
      text, copied, missing, i := text + piece, copied + c, missing + m, next;
    }
  }

  /** `migrate_images(content, md_file_path)` (`gui` false) and
      `_migrate_images(content, md_path)` (`gui` true): the new text, the
      number of images copied, and the references reported as not found. */
  method MigrateImages(store: Store, fs: FileSystem, mdFile: Path, gui: bool, stamp: string, content: string)
    returns (text: string, copied: nat, missing: seq<string>)
    modifies store
    ensures var r := Migrate(fs, mdFile, gui, stamp, content, old(store.files));
            text == r.text && store.files == r.assets && copied == r.copied && missing == r.missing
  {
    var t1, c1, m1 := RunPass(store, Standard(gui), fs, mdFile, stamp, content);
    var t2, c2, m2 := RunPass(store, Wiki, fs, mdFile, stamp, t1);
    text, copied, missing := t2, c1 + c2, m1 + m2;
  }
}
