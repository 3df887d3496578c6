/** How the two scripts complete a note's header before publishing.

    The CLI (`ensure_front_matter`) writes a fresh header when there is none,
    and otherwise fills in only what is missing, leaving the note untouched
    when nothing is. The GUI (`_build_final_content`) always rewrites the
    header from the form, keeping an existing `updated`.

    Each rule set is specified as the list of `meta[key] = value` assignments
    it makes, applied in order to the header (`Assign`). */
module HeaderFill {
  import opened Base
  import opened Dict
  import opened Yaml
  import opened HeaderOps
  import opened FrontMatter
  import opened TagSelection

  /** What the CLI asks the user for, as typed: the tag line (read against
      `existing`, the blog's tag listing), the category and the excerpt. */
  datatype Answers = Answers(existing: seq<string>, tagLine: string, category: string, excerpt: string)

  function Tags(a: Answers): seq<string>
  {
    Selection(a.existing, a.tagLine)
  }

  /** What the answers come to: the selected tags and the stripped
      category and excerpt. */
  datatype Reply = Reply(tags: seq<string>, category: string, excerpt: string)

  function Read(a: Answers): Reply
  {
    Reply(Tags(a), Strip(a.category), Strip(a.excerpt))
  }

  /** The header `ensure_front_matter` writes for a note that has none. */
  function NewHeader(title: string, now: string, r: Reply): Header
  {
    [("title", Str(title)), ("date", Str(now)), ("updated", Str(now))]
      + Opt(r.tags != [], "tags", StrList(r.tags))
      + Opt(r.category != "", "categories", StrList([r.category]))
      + Opt(r.excerpt != "", "excerpt", Str(r.excerpt))
  }

  /** The assignments `ensure_front_matter` makes to an existing header `h`
      when the user's tag selection is `tags`. */
  function Completion(h: Header, title: string, now: string, tags: seq<string>): Header
  {
    Opt(MissingOrFalsy(h, "title"), "title", Str(title))
      + Opt(MissingOrFalsy(h, "date"), "date", Str(now))
      + Opt(!Has(h, "updated"), "updated", Str(now))
      + Opt(MissingOrFalsy(h, "tags") && tags != [], "tags", StrList(tags))
  }

  /** A header the CLI leaves alone. */
  predicate Complete(h: Header, tags: seq<string>)
  {
    && !MissingOrFalsy(h, "title")
    && !MissingOrFalsy(h, "date")
    && Has(h, "updated")
    && (!MissingOrFalsy(h, "tags") || tags == [])
  }

  /** The header the CLI writes out. */
  function Completed(meta: Option<Header>, title: string, now: string, r: Reply): Header
  {
    match meta
    case None => NewHeader(title, now, r)
    case Some(h) => Assign(h, Completion(h, title, now, r.tags))
  }

  /** The text `ensure_front_matter(content, title)` returns, `now` being
      the timestamp of the run. */
  function Ensured(c: Codec, content: string, title: string, now: string, r: Reply): string
  {
    var (meta, body) := Parse(c, content);
    if meta.Some? && Complete(meta.value, r.tags) then content
    else Dump(c, Completed(meta, title, now, r), body)
  }

  /** `ensure_front_matter(content, title)` */
  method EnsureFrontMatter(c: Codec, content: string, title: string, now: string, a: Answers)
    returns (result: string)
    ensures result == Ensured(c, content, title, now, Read(a))
  {
    var (meta, body) := Parse(c, content);
    if meta.None? {
      var tags, ignored := SelectTags(a.existing, a.tagLine);
      var h := FreshHeader(title, now, tags, Strip(a.category), Strip(a.excerpt));
      return Dump(c, h, body);
    }
    var h, changed := FillIn(meta.value, title, now, a);
    CompletionEmpty(meta.value, title, now, Tags(a));
    if changed {
      result := Dump(c, h, body);
    } else {
      result := content;
    }
  }

  /** The `else` branch of `ensure_front_matter`: fills in the existing
      header `h0` and reports whether anything changed. */
  method FillIn(h0: Header, title: string, now: string, a: Answers) returns (h: Header, changed: bool)
    ensures h == Assign(h0, Completion(h0, title, now, Tags(a)))
    ensures changed <==> Completion(h0, title, now, Tags(a)) != []
  {
    h := h0;
    changed := false;
    if MissingOrFalsy(h, "title") {
      h := Set(h, "title", Str(title));
      changed := true;
    }
    ghost var h1 := h;
    if MissingOrFalsy(h, "date") {
      h := Set(h, "date", Str(now));
      changed := true;
    }
    ghost var h2 := h;
    if !Has(h, "updated") {
      h := Set(h, "updated", Str(now));
      changed := true;
    }
    ghost var h3 := h;
    if MissingOrFalsy(h, "tags") {
      var tags, ignored := SelectTags(a.existing, a.tagLine);
      if tags != [] {
        h := Set(h, "tags", StrList(tags));
        changed := true;
      }
    }
    CompletionSteps(h0, title, now, Tags(a), h1, h2, h3, h);
  }

  /** The four `if`s of `FillIn`, one header after another, make the
      assignments of `Completion`. */
  lemma CompletionSteps(h0: Header, title: string, now: string, tags: seq<string>,
                        h1: Header, h2: Header, h3: Header, h4: Header)
    requires h1 == if MissingOrFalsy(h0, "title") then Set(h0, "title", Str(title)) else h0
    requires h2 == if MissingOrFalsy(h1, "date") then Set(h1, "date", Str(now)) else h1
    requires h3 == if !Has(h2, "updated") then Set(h2, "updated", Str(now)) else h2
    requires h4 == if MissingOrFalsy(h3, "tags") && tags != [] then Set(h3, "tags", StrList(tags)) else h3
    ensures h4 == Assign(h0, Completion(h0, title, now, tags))
  {
    var c1 := MissingOrFalsy(h0, "title");
    Keeps(h0, c1, "title", Str(title), "date");
    Keeps(h0, c1, "title", Str(title), "updated");
    Keeps(h1, MissingOrFalsy(h1, "date"), "date", Str(now), "updated");
    Keeps(h0, c1, "title", Str(title), "tags");
    Keeps(h1, MissingOrFalsy(h1, "date"), "date", Str(now), "tags");
    Keeps(h2, !Has(h2, "updated"), "updated", Str(now), "tags");
    FourSteps(h0, c1, "title", Str(title),
              MissingOrFalsy(h0, "date"), "date", Str(now),
              !Has(h0, "updated"), "updated", Str(now),
              MissingOrFalsy(h0, "tags") && tags != [], "tags", StrList(tags),
              h1, h2, h3, h4);
  }

  /** Four conditional assignments in a row are the assignments made. */
  lemma FourSteps(h0: Header, b1: bool, k1: string, v1: Value, b2: bool, k2: string, v2: Value,
                  b3: bool, k3: string, v3: Value, b4: bool, k4: string, v4: Value,
                  h1: Header, h2: Header, h3: Header, h4: Header)
    requires h1 == if b1 then Set(h0, k1, v1) else h0
    requires h2 == if b2 then Set(h1, k2, v2) else h1
    requires h3 == if b3 then Set(h2, k3, v3) else h2
    requires h4 == if b4 then Set(h3, k4, v4) else h3
    ensures h4 == Assign(h0, Opt(b1, k1, v1) + Opt(b2, k2, v2) + Opt(b3, k3, v3) + Opt(b4, k4, v4))
  {
    ThreeSteps(h0, b1, k1, v1, b2, k2, v2, b3, k3, v3, h1, h2, h3);
    AssignOpt(h0, Opt(b1, k1, v1) + Opt(b2, k2, v2) + Opt(b3, k3, v3), b4, k4, v4);
  }

  /** A conditional assignment to a key the header does not have appends it. */
  lemma AppendStep(h: Header, c: bool, key: string, value: Value)
    requires !Has(h, key)
    ensures (if c then Set(h, key, value) else h) == h + Opt(c, key, value)
  {
    if c {
      SetNew(h, key, value);
    } else {
      assert h + [] == h;
    }
  }

  /** Three conditional assignments of new keys append them in order. */
  lemma ThreeAppends(h0: Header, b1: bool, k1: string, v1: Value, b2: bool, k2: string, v2: Value,
                     b3: bool, k3: string, v3: Value, h1: Header, h2: Header, h3: Header)
    requires !Has(h0, k1) && !Has(h0, k2) && !Has(h0, k3)
    requires k1 != k2 && k1 != k3 && k2 != k3
    requires h1 == if b1 then Set(h0, k1, v1) else h0
    requires h2 == if b2 then Set(h1, k2, v2) else h1
    requires h3 == if b3 then Set(h2, k3, v3) else h2
    ensures h3 == h0 + Opt(b1, k1, v1) + Opt(b2, k2, v2) + Opt(b3, k3, v3)
  {
    Keeps(h0, b1, k1, v1, k2);
    Keeps(h0, b1, k1, v1, k3);
    Keeps(h1, b2, k2, v2, k3);
    AppendStep(h0, b1, k1, v1);
    AppendStep(h1, b2, k2, v2);
    AppendStep(h2, b3, k3, v3);
  }

  /** The `meta = {...}` built for a note without a header, once the tags,
      the category and the excerpt have been read. */
  method FreshHeader(title: string, now: string, tags: seq<string>, category: string, excerpt: string)
    returns (h: Header)
    ensures h == NewHeader(title, now, Reply(tags, category, excerpt))
  {
    h := [("title", Str(title)), ("date", Str(now)), ("updated", Str(now))];
    assert Keys(h) == ["title", "date", "updated"];
    h := AddExtras(h, tags, category, excerpt);
  }

  /** The three optional assignments that follow the literal, made to a
      header `h0` that has none of their keys yet. */
  method AddExtras(h0: Header, tags: seq<string>, category: string, excerpt: string) returns (h: Header)
    requires !Has(h0, "tags") && !Has(h0, "categories") && !Has(h0, "excerpt")
    ensures h == h0 + Opt(tags != [], "tags", StrList(tags))
                 + Opt(category != "", "categories", StrList([category]))
                 + Opt(excerpt != "", "excerpt", Str(excerpt))
  {
    h := h0;
    if tags != [] {
      h := Set(h, "tags", StrList(tags));
    }
    ghost var h1 := h;
    if category != "" {
      h := Set(h, "categories", StrList([category]));
    }
    ghost var h2 := h;
    if excerpt != "" {
      h := Set(h, "excerpt", Str(excerpt));
    }
    ThreeAppends(h0, tags != [], "tags", StrList(tags), category != "", "categories", StrList([category]),
                 excerpt != "", "excerpt", Str(excerpt), h1, h2, h);
  }

  /** The CLI changes nothing exactly when the header is complete. */
  lemma CompletionEmpty(h: Header, title: string, now: string, tags: seq<string>)
    ensures Completion(h, title, now, tags) == [] <==> Complete(h, tags)
  {
  }
  /** The header written for a note without one: `title`, `date` and
      `updated` first, both timestamps the time of the run, then the tags,
      the category and the excerpt when there are any. */
  lemma NewHeaderFacts(title: string, now: string, r: Reply)
    ensures Keys(NewHeader(title, now, r))
            == ["title", "date", "updated"]
               + (if r.tags != [] then ["tags"] else [])
               + (if r.category != "" then ["categories"] else [])
               + (if r.excerpt != "" then ["excerpt"] else [])
    ensures Get(NewHeader(title, now, r), "title") == Some(Str(title))
    ensures Get(NewHeader(title, now, r), "date") == Some(Str(now))
    ensures Get(NewHeader(title, now, r), "updated") == Some(Str(now))
    ensures Get(NewHeader(title, now, r), "tags")
            == if r.tags != [] then Some(StrList(r.tags)) else None
    ensures Get(NewHeader(title, now, r), "categories")
            == if r.category != "" then Some(StrList([r.category])) else None
    ensures Get(NewHeader(title, now, r), "excerpt")
            == if r.excerpt != "" then Some(Str(r.excerpt)) else None
  {
    var base: Header := [("title", Str(title)), ("date", Str(now)), ("updated", Str(now))];
    assert Keys(base) == ["title", "date", "updated"];
    assert Get(base, "title") == Some(Str(title));
    assert Get(base, "date") == Some(Str(now));
    assert Get(base, "updated") == Some(Str(now)) by {
      GetCons(base, "updated");
      GetCons(base[1..], "updated");
      assert base[1..][1..] == [("updated", Str(now))];
    }
    AppendGets(base, r.tags != [], "tags", StrList(r.tags), r.category != "", "categories", StrList([r.category]),
               r.excerpt != "", "excerpt", Str(r.excerpt));
  }

  /** Appending up to three entries under new, different keys: each can be
      looked up, the old keys keep their values, and the new keys follow
      the old ones. */
  lemma AppendGets(base: Header, b1: bool, k1: string, v1: Value, b2: bool, k2: string, v2: Value,
                   b3: bool, k3: string, v3: Value)
    requires !Has(base, k1) && !Has(base, k2) && !Has(base, k3)
    requires k1 != k2 && k1 != k3 && k2 != k3
    ensures Keys(base + Opt(b1, k1, v1) + Opt(b2, k2, v2) + Opt(b3, k3, v3))
            == Keys(base) + (if b1 then [k1] else []) + (if b2 then [k2] else []) + (if b3 then [k3] else [])
    ensures Get(base + Opt(b1, k1, v1) + Opt(b2, k2, v2) + Opt(b3, k3, v3), k1) == if b1 then Some(v1) else None
    ensures Get(base + Opt(b1, k1, v1) + Opt(b2, k2, v2) + Opt(b3, k3, v3), k2) == if b2 then Some(v2) else None
    ensures Get(base + Opt(b1, k1, v1) + Opt(b2, k2, v2) + Opt(b3, k3, v3), k3) == if b3 then Some(v3) else None
    ensures forall k :: Has(base, k) ==>
              Get(base + Opt(b1, k1, v1) + Opt(b2, k2, v2) + Opt(b3, k3, v3), k) == Get(base, k)
  {
    var t := Opt(b1, k1, v1);
    var g := Opt(b2, k2, v2);
    var e := Opt(b3, k3, v3);
    KeysAppend(base, t);
    KeysAppend(base + t, g);
    KeysAppend(base + t + g, e);
    assert Keys(t) == if b1 then [k1] else [];
    assert Keys(g) == if b2 then [k2] else [];
    assert Keys(e) == if b3 then [k3] else [];
    forall k
      ensures Get(base + t + g + e, k)
              == if Has(base, k) then Get(base, k) else if Has(t, k) then Get(t, k)
                 else if Has(g, k) then Get(g, k) else Get(e, k)
    {
      GetAppend(base + t + g, e, k);
      GetAppend(base + t, g, k);
      GetAppend(base, t, k);
    }
  }

  /** The keys the CLI assigns to an existing header are all different. */
  lemma CompletionDistinct(h: Header, title: string, now: string, tags: seq<string>)
    ensures Distinct(Keys(Completion(h, title, now, tags)))
  {
    var u1 := Opt(MissingOrFalsy(h, "title"), "title", Str(title));
    var u2 := Opt(MissingOrFalsy(h, "date"), "date", Str(now));
    var u3 := Opt(!Has(h, "updated"), "updated", Str(now));
    var none: Header := [];
    assert Keys(none) == [];
    DistinctOpt(none, MissingOrFalsy(h, "title"), "title", Str(title));
    assert none + u1 == u1;
    DistinctOpt(u1, MissingOrFalsy(h, "date"), "date", Str(now));
    DistinctOpt(u1 + u2, !Has(h, "updated"), "updated", Str(now));
    DistinctOpt(u1 + u2 + u3, MissingOrFalsy(h, "tags") && tags != [], "tags", StrList(tags));
  }

  /** What `ensure_front_matter` does to an existing header: `title` and
      `date` are filled in when missing or empty, `updated` only when
      absent (an empty one is kept), `tags` when missing or empty and the
      user picked some; every other key keeps its value, the keys already
      there keep their places and new ones follow in that order. */
  lemma CompletionFacts(h: Header, title: string, now: string, tags: seq<string>)
    ensures Get(Assign(h, Completion(h, title, now, tags)), "title")
            == if MissingOrFalsy(h, "title") then Some(Str(title)) else Get(h, "title")
    ensures Get(Assign(h, Completion(h, title, now, tags)), "date")
            == if MissingOrFalsy(h, "date") then Some(Str(now)) else Get(h, "date")
    ensures Get(Assign(h, Completion(h, title, now, tags)), "updated")
            == if !Has(h, "updated") then Some(Str(now)) else Get(h, "updated")
    ensures Get(Assign(h, Completion(h, title, now, tags)), "tags")
            == if MissingOrFalsy(h, "tags") && tags != [] then Some(StrList(tags)) else Get(h, "tags")
    ensures forall k :: k != "title" && k != "date" && k != "updated" && k != "tags" ==>
              Get(Assign(h, Completion(h, title, now, tags)), k) == Get(h, k)
  {
    var c1 := MissingOrFalsy(h, "title");
    var h1 := if c1 then Set(h, "title", Str(title)) else h;
    var c2 := MissingOrFalsy(h1, "date");
    var h2 := if c2 then Set(h1, "date", Str(now)) else h1;
    var c3 := !Has(h2, "updated");
    var h3 := if c3 then Set(h2, "updated", Str(now)) else h2;
    var c4 := MissingOrFalsy(h3, "tags") && tags != [];
    var h4 := if c4 then Set(h3, "tags", StrList(tags)) else h3;
    CompletionSteps(h, title, now, tags, h1, h2, h3, h4);
    forall k | k != "title" && k != "date" && k != "updated" && k != "tags"
      ensures Get(h4, k) == Get(h, k)
    {
      ChainGet(h, c1, "title", Str(title), c2, "date", Str(now), c3, "updated", Str(now),
               c4, "tags", StrList(tags), h1, h2, h3, h4, k);
    }
    Keeps(h, c1, "title", Str(title), "date");
    Keeps(h, c1, "title", Str(title), "updated");
    Keeps(h1, c2, "date", Str(now), "updated");
    Keeps(h, c1, "title", Str(title), "tags");
    Keeps(h1, c2, "date", Str(now), "tags");
    Keeps(h2, c3, "updated", Str(now), "tags");
    ChainGet(h, c1, "title", Str(title), c2, "date", Str(now), c3, "updated", Str(now),
             c4, "tags", StrList(tags), h1, h2, h3, h4, "title");
    ChainGet(h, c1, "title", Str(title), c2, "date", Str(now), c3, "updated", Str(now),
             c4, "tags", StrList(tags), h1, h2, h3, h4, "date");
    ChainGet(h, c1, "title", Str(title), c2, "date", Str(now), c3, "updated", Str(now),
             c4, "tags", StrList(tags), h1, h2, h3, h4, "updated");
    ChainGet(h, c1, "title", Str(title), c2, "date", Str(now), c3, "updated", Str(now),
             c4, "tags", StrList(tags), h1, h2, h3, h4, "tags");
  }

  /** The keys already in the header keep their places and the ones the
      CLI adds follow, in the order title, date, updated, tags. */
  lemma CompletionKeys(h: Header, title: string, now: string, tags: seq<string>)
    ensures Keys(Assign(h, Completion(h, title, now, tags)))
            == Keys(h) + Fresh(Keys(Completion(h, title, now, tags)), Keys(h))
  {
    CompletionDistinct(h, title, now, tags);
    AssignKeys(h, Completion(h, title, now, tags));
  }

  /** After four conditional assignments a key holds the value of the last
      one made to it, or its old value when none was made. */
  lemma ChainGet(h0: Header, b1: bool, k1: string, v1: Value, b2: bool, k2: string, v2: Value,
                 b3: bool, k3: string, v3: Value, b4: bool, k4: string, v4: Value,
                 h1: Header, h2: Header, h3: Header, h4: Header, k: string)
    requires h1 == if b1 then Set(h0, k1, v1) else h0
    requires h2 == if b2 then Set(h1, k2, v2) else h1
    requires h3 == if b3 then Set(h2, k3, v3) else h2
    requires h4 == if b4 then Set(h3, k4, v4) else h3
    ensures Get(h4, k) == if b4 && k == k4 then Some(v4) else if b3 && k == k3 then Some(v3)
                          else if b2 && k == k2 then Some(v2) else if b1 && k == k1 then Some(v1)
                          else Get(h0, k)
  {
    ThreeGets(h0, b1, k1, v1, b2, k2, v2, b3, k3, v3, h1, h2, h3, k);
    StepGet(h3, b4, k4, v4, k);
  }

  /** After the CLI, the header is complete: running it again would leave
      it alone, whatever the time. */
  lemma CompletedComplete(meta: Option<Header>, title: string, now: string, r: Reply)
    requires title != "" && now != ""
    ensures Complete(Completed(meta, title, now, r), r.tags)
  {
    match meta
    case None =>
      NewHeaderComplete(title, now, r);
    case Some(h) =>
      CompletionComplete(h, title, now, r.tags);
  }

  /** A header the CLI makes from nothing is complete. */
  lemma NewHeaderComplete(title: string, now: string, r: Reply)
    requires title != "" && now != ""
    ensures Complete(NewHeader(title, now, r), r.tags)
  {
    var g := NewHeader(title, now, r);
    NewHeaderFacts(title, now, r);
    assert !MissingOrFalsy(g, "title") && !MissingOrFalsy(g, "date");
    assert Get(g, "updated").Some?;
    assert !MissingOrFalsy(g, "tags") || r.tags == [];
  }

  /** A header the CLI fills in is complete. */
  lemma CompletionComplete(h: Header, title: string, now: string, tags: seq<string>)
    requires title != "" && now != ""
    ensures Complete(Assign(h, Completion(h, title, now, tags)), tags)
  {
    CompletionFacts(h, title, now, tags);
    FilledComplete(h, Assign(h, Completion(h, title, now, tags)), title, now, tags);
  }

  /** A header whose title, date, updated and tags hold what the CLI's
      completion puts there is complete. */
  lemma FilledComplete(h: Header, g: Header, title: string, now: string, tags: seq<string>)
    requires title != "" && now != ""
    requires Get(g, "title") == if MissingOrFalsy(h, "title") then Some(Str(title)) else Get(h, "title")
    requires Get(g, "date") == if MissingOrFalsy(h, "date") then Some(Str(now)) else Get(h, "date")
    requires Get(g, "updated") == if !Has(h, "updated") then Some(Str(now)) else Get(h, "updated")
    requires Get(g, "tags") == if MissingOrFalsy(h, "tags") && tags != [] then Some(StrList(tags)) else Get(h, "tags")
    ensures Complete(g, tags)
  {
    assert Get(g, "updated").Some?;
  }

  /** `ensure_front_matter` is idempotent: run on its own output, at any
      later time, it returns that output unchanged, provided the header it
      wrote reads back as written. */
  lemma EnsureIdempotent(c: Codec, content: string, title: string, now: string, later: string, r: Reply)
    requires title != "" && now != ""
    requires DumpsCleanly(c, Completed(Parse(c, content).0, title, now, r))
    ensures Ensured(c, Ensured(c, content, title, now, r), title, later, r)
            == Ensured(c, content, title, now, r)
  {
    var (meta, body) := Parse(c, content);
    if !(meta.Some? && Complete(meta.value, r.tags)) {
      var h := Completed(meta, title, now, r);
      RoundTrip(c, h, body);
      CompletedComplete(meta, title, now, r);
    }
  }
}
