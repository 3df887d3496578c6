/** The publishing window (`PublishApp` in `publish_gui.py`): the state it
    keeps between events, the checks made when Publish is clicked, and the
    run that follows (migrate the images, rebuild the header, name the
    post). The widgets are not modelled: the texts of the entries are
    parameters, and so are the file's text as read, the clock and the
    filesystem. */
module PublishApp {
  import opened Base
  import opened Dict
  import opened Yaml
  import opened Paths
  import opened FrontMatter
  import opened StrOrder
  import opened GuiHeader
  import opened AssetStore
  import opened ImageMigrator
  import TagSelection

  /** `stem.replace(" ", "-") + ".md"`: the file name of the published
      post, in both scripts. */
  function SafeFilename(stem: string): (r: string)
    ensures |r| == |stem| + 3
    ensures r[|stem|..] == ".md"
  {
    ReplaceChar(stem, ' ', '-') + ".md"
  }

  /** Every space of the stem becomes `-`, every other character (other
      whitespace included) stays where it is, and no space is left. */
  lemma SafeFilenameChars(stem: string)
    ensures forall k :: 0 <= k < |stem| ==> SafeFilename(stem)[k] == if stem[k] == ' ' then '-' else stem[k]
    ensures ' ' !in SafeFilename(stem)
  {
    ReplaceCharAt(stem, ' ', '-');
    var r := SafeFilename(stem);
    forall k | 0 <= k < |r|
      ensures r[k] != ' '
    {
      if k >= |stem| {
        assert r[k] == r[|stem|..][k - |stem|];
      }
    }
  }

  /** The post is itself a Markdown file: unless the stem is empty, its
      suffix is `.md` and its stem is the source stem with spaces replaced. */
  lemma SafeFilenameSuffix(stem: string)
    requires stem != ""
    ensures Suffix(SafeFilename(stem)) == ".md"
    ensures Stem(SafeFilename(stem)) == ReplaceChar(stem, ' ', '-')
  {
    var r := SafeFilename(stem);
    var n := |r|;
    var base := ReplaceChar(stem, ' ', '-');
    assert r[..n - 1] == base + ".m";
    assert r[..n - 1][..n - 2] == base + ".";
    assert LastDot(r[..n - 1][..n - 2]) == Some(n - 3);
    assert LastDot(r[..n - 1]) == Some(n - 3);
    assert LastDot(r) == Some(n - 3);
    assert r[n - 3..] == ".md";
  }

  /** Why `_on_publish_click` refuses to start. */
  datatype Refusal = NoFile | NotFound(src: Path) | NotMarkdown(src: Path) | NoTitle

  /** What a click on Publish does. `Aborted`: the reload raised, so the
      click ended before the run could start. */
  datatype Click = Busy | Refused(why: Refusal) | Started(src: Path) | Aborted(src: Path)

  /** What reading a file gives: its text (as UTF-8, or as GBK when UTF-8
      does not decode it); `Undecodable` when neither decodes it, which the
      handler reports; `ReadFails` when the UTF-8 read raises an error other
      than a decoding error, which nothing catches. */
  datatype Read = Text(s: string) | Undecodable | ReadFails

  /** Reading `p`: a directory always fails to read; a file reads as `read`. */
  function ReadOf(fs: FileSystem, p: Path, read: Read): (r: Read)
    ensures !IsFile(fs, p) ==> r == ReadFails
    ensures IsFile(fs, p) ==> r == read
  {
    if IsFile(fs, p) then read else ReadFails
  }

  /** `Path(entry).resolve()` from the working directory `cwd`. */
  function Resolved(cwd: Path, entry: string): Path
  {
    Normalize(JoinPath(cwd, entry))
  }

  /** `src.suffix.lower() in (".md", ".markdown")` */
  predicate IsMarkdown(src: Path)
  {
    var s := Lower(Suffix(NameOf(src)));
    s == ".md" || s == ".markdown"
  }

  /** The checks of `_on_publish_click`, in the order it makes them; `None`
      when all pass. */
  function Validate(fs: FileSystem, cwd: Path, fileEntry: string, titleEntry: string): (r: Option<Refusal>)
    ensures r.None? <==> Strip(fileEntry) != "" && Exists(fs, Resolved(cwd, Strip(fileEntry)))
                         && IsMarkdown(Resolved(cwd, Strip(fileEntry))) && Strip(titleEntry) != ""
    ensures r == Some(NoFile) <==> Strip(fileEntry) == ""
    ensures r.Some? && r.value.NotFound? ==> !Exists(fs, r.value.src)
    ensures r.Some? && r.value.NotMarkdown? ==> Exists(fs, r.value.src) && !IsMarkdown(r.value.src)
    ensures r == Some(NoTitle) ==> Strip(titleEntry) == ""
  {
    var path := Strip(fileEntry);
    if path == "" then Some(NoFile)
    else
      var src := Resolved(cwd, path);
      if !Exists(fs, src) then Some(NotFound(src))
      else if !IsMarkdown(src) then Some(NotMarkdown(src))
      else if Strip(titleEntry) == "" then Some(NoTitle)
      else None
  }

  /** The tags `_on_file_selected` selects from a loaded header: each item
      of a `tags` list through `str()` and stripped, or a `tags` string
      stripped; nothing when `tags` is missing, falsy or of another type. */
  function LoadedTags(meta: Option<Header>): set<string>
  {
    var v: Option<Value> := if meta.Some? then Get(meta.value, "tags") else None;
    if v.Some? && v.value.List? then ListTags(v.value.items)
    else if v.Some? && v.value.Str? && v.value.s != "" then {Strip(v.value.s)}
    else {}
  }

  /** A note whose `tags` are already a sorted list of clean names keeps
      that list when it is loaded and published again. */
  lemma LoadedTagsKept(h: Header, names: seq<string>)
    requires Get(h, "tags") == Some(StrList(names))
    requires Ascending(names)
    requires forall k :: 0 <= k < |names| ==> CleanName(names[k])
    ensures Sorted(LoadedTags(Some(h))) == names
  {
    ListedTags(names);
    assert LoadedTags(Some(h)) == ListTags(StrList(names).items);
    AscendingUnique(Sorted(LoadedTags(Some(h))), names);
  }

  /** The names a `tags` list contributes. */
  function ListTags(items: seq<Value>): set<string>
  {
    set k | 0 <= k < |items| :: Strip(PyStr(items[k]))
  }

  /** A list of clean names contributes exactly those names. */
  lemma ListedTags(names: seq<string>)
    requires forall k :: 0 <= k < |names| ==> CleanName(names[k])
    ensures forall x :: x in ListTags(StrList(names).items) <==> x in names
  {
    var items := StrList(names).items;
    forall k | 0 <= k < |names|
      ensures Strip(PyStr(items[k])) == names[k]
    {
      PyStrOfScalar(items[k]);
      StripIdentity(names[k]);
    }
  }

  /** The elements of a list of names, as a set. */
  function Names(ns: seq<string>): set<string>
  {
    set k | 0 <= k < |ns| :: ns[k]
  }

  /** One more name of the list, one more element of the set. */
  lemma NamesSnoc(ns: seq<string>, i: nat)
    requires i < |ns|
    ensures Names(ns[..i + 1]) == Names(ns[..i]) + {ns[i]}
  {
    var a, b := ns[..i + 1], ns[..i];
    forall x | x in Names(a) ensures x in Names(b) + {ns[i]} {
      var k :| 0 <= k < |a| && a[k] == x;
      if k < i { assert b[k] == x; }
    }
    forall x | x in Names(b) + {ns[i]} ensures x in Names(a) {
      if x == ns[i] { assert a[i] == x; }
      else { var k :| 0 <= k < |b| && b[k] == x; assert a[k] == x; }
    }
  }

  /** The loop of `_add_new_tag`: each name is added to the selection. */
  method AddAll(selected: set<string>, names: seq<string>) returns (r: set<string>)
    ensures r == selected + Names(names)
  {
    r := selected;
    var i := 0;
    while i < |names|
      invariant i <= |names|
      invariant r == selected + Names(names[..i])
    {
      NamesSnoc(names, i);
      r := r + {names[i]};
      i := i + 1;
    }
    assert names[..i] == names;
  }

  /** Adding names from the entry only ever selects clean names: nothing a
      blank entry, and nothing blank or padded with whitespace. */
  lemma AddedNamesClean(entry: string)
    ensures forall x :: x in Names(TagSelection.Parts(entry)) ==> CleanName(x)
    ensures AllSpace(entry) ==> Names(TagSelection.Parts(entry)) == {}
  {
    var ps := TagSelection.Parts(entry);
    forall x | x in Names(ps) ensures CleanName(x) {
      var k :| 0 <= k < |ps| && ps[k] == x;
    }
    if AllSpace(entry) {
      assert ps == [] by {
        StripShape(entry);
        TagSelection.BlankParts(entry);
      }
    }
  }

  class App {
    /** `_publishing`: a run is under way. */
    var publishing: bool
    /** `selected_tags` */
    var selectedTags: set<string>
    /** `source_path` */
    var sourcePath: Option<Path>
    /** `file_content` */
    var fileContent: string

    /** A run only ever starts for a loaded source. */
    predicate Valid()
      reads this
    {
      publishing ==> sourcePath.Some?
    }

    /** `__init__`: nothing selected, nothing loaded, no run. */
    constructor ()
      ensures Valid()
      ensures !publishing && selectedTags == {} && sourcePath == None && fileContent == ""
    {
      publishing := false;
      selectedTags := {};
      sourcePath := None;
      fileContent := "";
    }

    /** The state `_on_file_selected(path)` sets: the resolved source, and,
        when it exists and reads as text, that text and the tags of its
        header. `raised`: the read raised an error that leaves the handler
        (a directory, an unreadable file); the source is set all the same. */
    method OnFileSelected(c: Codec, fs: FileSystem, path: Path, read: Read) returns (raised: bool)
      modifies this
      ensures sourcePath == Some(Normalize(path)) && publishing == old(publishing)
      ensures raised <==> Exists(fs, Normalize(path)) && ReadOf(fs, Normalize(path), read).ReadFails?
      ensures Exists(fs, Normalize(path)) && ReadOf(fs, Normalize(path), read).Text? ==>
                var s := ReadOf(fs, Normalize(path), read).s;
                fileContent == s && selectedTags == LoadedTags(Parse(c, s).0)
      ensures !(Exists(fs, Normalize(path)) && ReadOf(fs, Normalize(path), read).Text?) ==>
                fileContent == old(fileContent) && selectedTags == old(selectedTags)
    {
      var src := Normalize(path);
      sourcePath := Some(src);
      raised := false;
      if !Exists(fs, src) {
        return;
      }
      var r := if IsFile(fs, src) then read else ReadFails;
      match r
      case ReadFails =>
        raised := true;
      case Undecodable =>
      case Text(s) =>
        fileContent := s;
        selectedTags := LoadedTags(Parse(c, fileContent).0);
    }

    /** `_on_tag_toggle(tag_name, is_selected)`: a chip switched on adds its
        tag to the selection, switched off removes it. */
    method OnTagToggle(tag: string, isSelected: bool)
      modifies this
      ensures selectedTags == if isSelected then old(selectedTags) + {tag} else old(selectedTags) - {tag}
      ensures unchanged(`publishing, `sourcePath, `fileContent)
    {
      if isSelected {
        selectedTags := selectedTags + {tag};
      } else {
        selectedTags := selectedTags - {tag};
      }
    }

    /** `_add_new_tag()` with the new-tag entry holding `entry`: every
        stripped, non-empty comma-separated name is selected, whether or not
        a chip for it exists already (a chip shows as selected exactly when
        its tag is in the selection). */
    method AddNewTag(entry: string)
      modifies this
      ensures selectedTags == old(selectedTags) + Names(TagSelection.Parts(entry))
      ensures unchanged(`publishing, `sourcePath, `fileContent)
    {
      selectedTags := AddAll(selectedTags, TagSelection.Parts(entry));
    }

    /** `_on_publish_click`: nothing while a run is under way; a refusal,
        with nothing changed, when a check fails; otherwise the source is
        (re)loaded unless it is the one loaded and its text is not empty,
        and the run starts unless that reload raised. */
    method OnPublishClick(c: Codec, fs: FileSystem, cwd: Path, fileEntry: string, titleEntry: string,
                          read: Read)
      returns (outcome: Click)
      requires Valid()
      modifies this
      ensures Valid()
      ensures old(publishing) ==> outcome == Busy && unchanged(this)
      ensures !old(publishing) && Validate(fs, cwd, fileEntry, titleEntry).Some? ==>
                outcome == Refused(Validate(fs, cwd, fileEntry, titleEntry).value) && unchanged(this)
      ensures !old(publishing) && Validate(fs, cwd, fileEntry, titleEntry).None? ==>
                var src := Resolved(cwd, Strip(fileEntry));
                var reload := old(sourcePath) != Some(src) || old(fileContent) == "";
                var r := ReadOf(fs, src, read);
                && sourcePath == Some(src)
                && (reload && r.ReadFails? ==> outcome == Aborted(src) && !publishing)
                && (!(reload && r.ReadFails?) ==> outcome == Started(src) && publishing)
                && (reload && r.Text? ==>
                      fileContent == r.s && selectedTags == LoadedTags(Parse(c, r.s).0))
                && (!(reload && r.Text?) ==>
                      fileContent == old(fileContent) && selectedTags == old(selectedTags))
    {
      if publishing {
        return Busy;
      }
      var check := Validate(fs, cwd, fileEntry, titleEntry);
      if check.Some? {
        return Refused(check.value);
      }
      var src := Resolved(cwd, Strip(fileEntry));
      NormalizeIdempotent(JoinPath(cwd, Strip(fileEntry)));
      outcome := StartRun(c, fs, src, read);
    }

    /** The end of `_on_publish_click`, once the checks have passed for the
        resolved, existing `src`: the file is (re)loaded unless it is the
        one loaded and its text is not empty, and the run starts, unless
        the reload raised. */
    method StartRun(c: Codec, fs: FileSystem, src: Path, read: Read) returns (outcome: Click)
      requires Exists(fs, src) && Normalize(src) == src
      modifies this
      ensures sourcePath == Some(src)
      ensures var reload := old(sourcePath) != Some(src) || old(fileContent) == "";
              var r := ReadOf(fs, src, read);
              && (reload && r.ReadFails? ==> outcome == Aborted(src) && publishing == old(publishing))
              && (!(reload && r.ReadFails?) ==> outcome == Started(src) && publishing)
              && (reload && r.Text? ==>
                    fileContent == r.s && selectedTags == LoadedTags(Parse(c, r.s).0))
              && (!(reload && r.Text?) ==>
                    fileContent == old(fileContent) && selectedTags == old(selectedTags))
    {
      if sourcePath != Some(src) || fileContent == "" {
        var raised := OnFileSelected(c, fs, src, read);
        if raised {
          return Aborted(src);
        }
      }
      publishing := true;
      outcome := Started(src);
    }

    /** `_build_final_content(content)`: the header rebuilt from the form
        and the sorted selection, and written out again. */
    method BuildFinalContent(c: Codec, content: string, form: Form, now: string) returns (text: string)
      ensures text == Built(c, content, ReadForm(form, now), Sorted(selectedTags))
    {
      var parsed := Parse(c, content);
      var fields := ReadForm(form, now);
      var tags := SortSet(selectedTags);
      var h: Header := if parsed.0.Some? then parsed.0.value else [];
      h := GuiFill(h, fields, tags);
      text := Dump(c, h, parsed.1);
    }

    /** `_do_publish`: the images are migrated into `store`, the header
        rebuilt, and the post is returned with its file name and the title
        the commit is made under. */
    method DoPublish(c: Codec, store: Store, fs: FileSystem, stamp: string, now: string, form: Form)
      returns (name: string, text: string, publishTitle: string)
      requires Valid() && publishing
      modifies store
      ensures var src := sourcePath.value;
              var m := Migrate(fs, src, true, stamp, fileContent, old(store.files));
              && store.files == m.assets
              && text == Built(c, m.text, ReadForm(form, now), Sorted(selectedTags))
              && name == SafeFilename(Stem(NameOf(src)))
              && publishTitle == if Strip(form.title) != "" then Strip(form.title) else Stem(NameOf(src))
    {
      var src := sourcePath.value;
      var migrated, copied, missing := MigrateImages(store, fs, src, true, stamp, fileContent);
      text := BuildFinalContent(c, migrated, form, now);
      name := SafeFilename(Stem(NameOf(src)));
      publishTitle := if Strip(form.title) != "" then Strip(form.title) else Stem(NameOf(src));
    }

    /** `_publish_done`: the run is over; nothing else changes. */
    method PublishDone()
      modifies this
      ensures Valid() && !publishing
      ensures sourcePath == old(sourcePath) && fileContent == old(fileContent) && selectedTags == old(selectedTags)
    {
      publishing := false;
    }
  }
}
