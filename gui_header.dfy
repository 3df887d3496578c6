/** How the GUI (`_build_final_content`) writes a note's header: the form's
    fields always win when they are filled in, `updated` is added only when
    the header lacks it, and the header is always written out again.

    As for the CLI, the rules are specified as the list of `meta[key] = value`
    assignments made, applied in order to the header (`Assign`). */
module GuiHeader {
  import opened Base
  import opened Dict
  import opened Yaml
  import opened HeaderOps
  import opened FrontMatter

  /** The four text entries of the form, as typed. */
  datatype Form = Form(title: string, date: string, category: string, excerpt: string)

  /** What the form comes to once read: every entry stripped, and an empty
      date replaced by the time of the run. */
  datatype Fields = Fields(title: string, date: string, category: string, excerpt: string)

  function ReadForm(f: Form, now: string): (r: Fields)
    ensures r.title == Strip(f.title) && r.category == Strip(f.category) && r.excerpt == Strip(f.excerpt)
    ensures Strip(f.date) != "" ==> r.date == Strip(f.date)
    ensures Strip(f.date) == "" ==> r.date == now
    ensures now != "" ==> r.date != ""
  {
    var d := Strip(f.date);
    Fields(Strip(f.title), if d != "" then d else now, Strip(f.category), Strip(f.excerpt))
  }

  /** The first three assignments of `_build_final_content` to the header
      `h`: title, date and, when `h` lacks it, `updated`. */
  function Front(h: Header, r: Fields): Header
  {
    Opt(r.title != "", "title", Str(r.title))
    + Opt(r.date != "", "date", Str(r.date))
    + Opt(!Has(h, "updated"), "updated", Str(r.date))
  }

  /** The last three: category (as a one-element list), tags, excerpt. */
  function Back(r: Fields, tags: seq<string>): Header
  {
    Opt(r.category != "", "categories", StrList([r.category]))
    + Opt(tags != [], "tags", StrList(tags))
    + Opt(r.excerpt != "", "excerpt", Str(r.excerpt))
  }

  /** The assignments `_build_final_content` makes to the header `h`, in
      order, `tags` being the sorted selection. */
  function GuiAssignments(h: Header, r: Fields, tags: seq<string>): Header
  {
    Front(h, r) + Back(r, tags)
  }

  /** The header the GUI writes; a note without one starts from `{}`. */
  function GuiHeader(meta: Option<Header>, r: Fields, tags: seq<string>): Header
  {
    var h := if meta.Some? then meta.value else [];
    Assign(h, GuiAssignments(h, r, tags))
  }

  /** The text `_build_final_content(content)` returns. */
  function Built(c: Codec, content: string, r: Fields, tags: seq<string>): string
  {
    var (meta, body) := Parse(c, content);
    Dump(c, GuiHeader(meta, r, tags), body)
  }

  /** The six `if`s of `_build_final_content`, applied to `meta` in place. */
  method GuiFill(h0: Header, r: Fields, tags: seq<string>) returns (h: Header)
    ensures h == Assign(h0, GuiAssignments(h0, r, tags))
  {
    h := h0;
    if r.title != "" {
      h := Set(h, "title", Str(r.title));
    }
    ghost var h1 := h;
    if r.date != "" {
      h := Set(h, "date", Str(r.date));
    }
    ghost var h2 := h;
    if !Has(h, "updated") {
      h := Set(h, "updated", Str(r.date));
    }
    ghost var h3 := h;
    if r.category != "" {
      h := Set(h, "categories", StrList([r.category]));
    }
    ghost var h4 := h;
    if tags != [] {
      h := Set(h, "tags", StrList(tags));
    }
    ghost var h5 := h;
    if r.excerpt != "" {
      h := Set(h, "excerpt", Str(r.excerpt));
    }
    GuiSteps(h0, r, tags, h1, h2, h3, h4, h5, h);
  }

  /** The headers after each `if` of `GuiFill` are those of the assignments
      of `GuiAssignments`. */
  lemma GuiSteps(h0: Header, r: Fields, tags: seq<string>,
                 h1: Header, h2: Header, h3: Header, h4: Header, h5: Header, h6: Header)
    requires h1 == if r.title != "" then Set(h0, "title", Str(r.title)) else h0
    requires h2 == if r.date != "" then Set(h1, "date", Str(r.date)) else h1
    requires h3 == if !Has(h2, "updated") then Set(h2, "updated", Str(r.date)) else h2
    requires h4 == if r.category != "" then Set(h3, "categories", StrList([r.category])) else h3
    requires h5 == if tags != [] then Set(h4, "tags", StrList(tags)) else h4
    requires h6 == if r.excerpt != "" then Set(h5, "excerpt", Str(r.excerpt)) else h5
    ensures h6 == Assign(h0, GuiAssignments(h0, r, tags))
  {
    var c1 := r.title != "";
    var c2 := r.date != "";
    Keeps(h0, c1, "title", Str(r.title), "updated");
    Keeps(h1, c2, "date", Str(r.date), "updated");
    ThreeSteps(h0, c1, "title", Str(r.title), c2, "date", Str(r.date),
               !Has(h0, "updated"), "updated", Str(r.date), h1, h2, h3);
    ThreeSteps(h3, r.category != "", "categories", StrList([r.category]), tags != [], "tags", StrList(tags),
               r.excerpt != "", "excerpt", Str(r.excerpt), h4, h5, h6);
    AssignAppend(h0, Front(h0, r), Back(r, tags));
  }

  /** After the first three assignments a key holds the value assigned to
      it, or its old value. */
  lemma FrontGet(h: Header, r: Fields, k: string)
    ensures Get(Assign(h, Front(h, r)), k)
            == if !Has(h, "updated") && k == "updated" then Some(Str(r.date))
               else if r.date != "" && k == "date" then Some(Str(r.date))
               else if r.title != "" && k == "title" then Some(Str(r.title))
               else Get(h, k)
  {
    var h1 := if r.title != "" then Set(h, "title", Str(r.title)) else h;
    var h2 := if r.date != "" then Set(h1, "date", Str(r.date)) else h1;
    var h3 := if !Has(h, "updated") then Set(h2, "updated", Str(r.date)) else h2;
    ThreeSteps(h, r.title != "", "title", Str(r.title), r.date != "", "date", Str(r.date),
               !Has(h, "updated"), "updated", Str(r.date), h1, h2, h3);
    ThreeGets(h, r.title != "", "title", Str(r.title), r.date != "", "date", Str(r.date),
              !Has(h, "updated"), "updated", Str(r.date), h1, h2, h3, k);
  }

  /** After the last three assignments a key holds the value assigned to
      it, or its old value. */
  lemma BackGet(g: Header, r: Fields, tags: seq<string>, k: string)
    ensures Get(Assign(g, Back(r, tags)), k)
            == if r.excerpt != "" && k == "excerpt" then Some(Str(r.excerpt))
               else if tags != [] && k == "tags" then Some(StrList(tags))
               else if r.category != "" && k == "categories" then Some(StrList([r.category]))
               else Get(g, k)
  {
    var g1 := if r.category != "" then Set(g, "categories", StrList([r.category])) else g;
    var g2 := if tags != [] then Set(g1, "tags", StrList(tags)) else g1;
    var g3 := if r.excerpt != "" then Set(g2, "excerpt", Str(r.excerpt)) else g2;
    ThreeSteps(g, r.category != "", "categories", StrList([r.category]), tags != [], "tags", StrList(tags),
               r.excerpt != "", "excerpt", Str(r.excerpt), g1, g2, g3);
    ThreeGets(g, r.category != "", "categories", StrList([r.category]), tags != [], "tags", StrList(tags),
              r.excerpt != "", "excerpt", Str(r.excerpt), g1, g2, g3, k);
  }

  /** After all six assignments a key holds the value assigned to it, or
      its old value. */
  lemma GuiGet(h: Header, r: Fields, tags: seq<string>, k: string)
    ensures Get(Assign(h, GuiAssignments(h, r, tags)), k)
            == if r.excerpt != "" && k == "excerpt" then Some(Str(r.excerpt))
               else if tags != [] && k == "tags" then Some(StrList(tags))
               else if r.category != "" && k == "categories" then Some(StrList([r.category]))
               else if !Has(h, "updated") && k == "updated" then Some(Str(r.date))
               else if r.date != "" && k == "date" then Some(Str(r.date))
               else if r.title != "" && k == "title" then Some(Str(r.title))
               else Get(h, k)
  {
    AssignAppend(h, Front(h, r), Back(r, tags));
    FrontGet(h, r, k);
    BackGet(Assign(h, Front(h, r)), r, tags, k);
  }

  /** What the GUI does to a header: a non-empty title, date, category
      (as a one-element list), tag selection or excerpt replaces the old
      value; `updated` is set to the date only when absent, so it is always
      there afterwards; every other key keeps its value. */
  lemma GuiFacts(h: Header, r: Fields, tags: seq<string>)
    ensures Get(Assign(h, GuiAssignments(h, r, tags)), "title")
            == if r.title != "" then Some(Str(r.title)) else Get(h, "title")
    ensures Get(Assign(h, GuiAssignments(h, r, tags)), "date")
            == if r.date != "" then Some(Str(r.date)) else Get(h, "date")
    ensures Get(Assign(h, GuiAssignments(h, r, tags)), "updated")
            == if Has(h, "updated") then Get(h, "updated") else Some(Str(r.date))
    ensures Get(Assign(h, GuiAssignments(h, r, tags)), "categories")
            == if r.category != "" then Some(StrList([r.category])) else Get(h, "categories")
    ensures Get(Assign(h, GuiAssignments(h, r, tags)), "tags")
            == if tags != [] then Some(StrList(tags)) else Get(h, "tags")
    ensures Get(Assign(h, GuiAssignments(h, r, tags)), "excerpt")
            == if r.excerpt != "" then Some(Str(r.excerpt)) else Get(h, "excerpt")
    ensures forall k :: k !in GuiKeys ==> Get(Assign(h, GuiAssignments(h, r, tags)), k) == Get(h, k)
  {
    forall k | k !in GuiKeys
      ensures Get(Assign(h, GuiAssignments(h, r, tags)), k) == Get(h, k)
    {
      GuiGet(h, r, tags, k);
    }
    GuiGet(h, r, tags, "title");
    GuiGet(h, r, tags, "date");
    GuiGet(h, r, tags, "updated");
    GuiGet(h, r, tags, "categories");
    GuiGet(h, r, tags, "tags");
    GuiGet(h, r, tags, "excerpt");
  }

  /** The keys `_build_final_content` may assign. */
  const GuiKeys: set<string> := {"title", "date", "updated", "categories", "tags", "excerpt"}

  /** The keys the GUI assigns, in the order it assigns them. */
  lemma GuiAssignedKeys(h: Header, r: Fields, tags: seq<string>)
    ensures Keys(GuiAssignments(h, r, tags))
            == (if r.title != "" then ["title"] else []) + (if r.date != "" then ["date"] else [])
               + (if !Has(h, "updated") then ["updated"] else [])
               + ((if r.category != "" then ["categories"] else []) + (if tags != [] then ["tags"] else [])
                  + (if r.excerpt != "" then ["excerpt"] else []))
  {
    KeysAppend(Front(h, r), Back(r, tags));
    ThreeKeys(r.title != "", "title", Str(r.title), r.date != "", "date", Str(r.date),
              !Has(h, "updated"), "updated", Str(r.date));
    ThreeKeys(r.category != "", "categories", StrList([r.category]), tags != [], "tags", StrList(tags),
              r.excerpt != "", "excerpt", Str(r.excerpt));
  }

  /** No key is assigned twice. */
  lemma GuiDistinct(h: Header, r: Fields, tags: seq<string>)
    ensures Distinct(Keys(GuiAssignments(h, r, tags)))
  {
    FrontDistinct(h, r);
    BackDistinct(Front(h, r), r, tags);
  }

  /** The first three assignments name different keys, none of the last three. */
  lemma FrontDistinct(h: Header, r: Fields)
    ensures Distinct(Keys(Front(h, r)))
    ensures !Has(Front(h, r), "categories") && !Has(Front(h, r), "tags") && !Has(Front(h, r), "excerpt")
  {
    ThreeKeys(r.title != "", "title", Str(r.title), r.date != "", "date", Str(r.date),
              !Has(h, "updated"), "updated", Str(r.date));
    ThreeNamed(r.title != "", "title", r.date != "", "date", !Has(h, "updated"), "updated");
  }

  /** The last three assignments add keys none of which is already there. */
  lemma BackDistinct(u: Header, r: Fields, tags: seq<string>)
    requires Distinct(Keys(u)) && !Has(u, "categories") && !Has(u, "tags") && !Has(u, "excerpt")
    ensures Distinct(Keys(u + Back(r, tags)))
  {
    var w1 := Opt(r.category != "", "categories", StrList([r.category]));
    var w2 := Opt(tags != [], "tags", StrList(tags));
    DistinctOpt(u, r.category != "", "categories", StrList([r.category]));
    DistinctOpt(u + w1, tags != [], "tags", StrList(tags));
    DistinctOpt(u + w1 + w2, r.excerpt != "", "excerpt", Str(r.excerpt));
    assert u + Back(r, tags) == u + w1 + w2 + Opt(r.excerpt != "", "excerpt", Str(r.excerpt));
  }

  /** Existing keys keep their places; the new ones follow in the order
      title, date, updated, categories, tags, excerpt. A note without a
      header gets exactly the assigned keys, in that order. */
  lemma GuiKeyOrder(meta: Option<Header>, r: Fields, tags: seq<string>)
    ensures meta.Some? ==> (Keys(GuiHeader(meta, r, tags))
                            == Keys(meta.value) + Fresh(Keys(GuiAssignments(meta.value, r, tags)), Keys(meta.value)))
    ensures meta.None? ==> Keys(GuiHeader(meta, r, tags)) == Keys(GuiAssignments([], r, tags))
  {
    var h: Header := if meta.Some? then meta.value else [];
    GuiDistinct(h, r, tags);
    AssignKeys(h, GuiAssignments(h, r, tags));
    if meta.None? {
      FreshNone(Keys(GuiAssignments(h, r, tags)));
      assert Keys(h) == [];
    }
  }

  /** With a clock that gives a time, the header the GUI writes always has
      the form's date, or the time of the run when the date entry is blank,
      and always has an `updated`. */
  lemma GuiDated(meta: Option<Header>, f: Form, now: string, tags: seq<string>)
    requires now != ""
    ensures Get(GuiHeader(meta, ReadForm(f, now), tags), "date")
            == Some(Str(if Strip(f.date) != "" then Strip(f.date) else now))
    ensures Has(GuiHeader(meta, ReadForm(f, now), tags), "updated")
  {
    var h: Header := if meta.Some? then meta.value else [];
    GuiFacts(h, ReadForm(f, now), tags);
  }

  /** The GUI always writes the header out again, and it reads back as
      written. */
  lemma GuiRoundTrip(c: Codec, content: string, r: Fields, tags: seq<string>)
    requires DumpsCleanly(c, GuiHeader(Parse(c, content).0, r, tags))
    ensures Parse(c, Built(c, content, r, tags)).0 == Some(GuiHeader(Parse(c, content).0, r, tags))
  {
    var (meta, body) := Parse(c, content);
    RoundTrip(c, GuiHeader(meta, r, tags), body);
  }
}
