/** `collect_existing_tags` (publish.py, publish_gui.py) and
    `collect_existing_categories` (publish_gui.py): the names used under
    `tags` (or `categories`) across the published posts, counted, then listed
    by descending count, ties in the order the names were first met.

    Reading the posts directory is not part of this model: the posts come
    in as the headers `parse_front_matter` gave for them, in directory
    order. */
module TagIndex {
  import opened Base
  import opened Dict
  import opened Yaml

  // ---------------------------------------------------------------------
  // What the posts mention
  // ---------------------------------------------------------------------

  /** A name as the collectors keep it: stripped, and only if non-empty. */
  function Clean(text: string): (ns: seq<string>)
    ensures |ns| <= 1
    ensures ns == [] <==> Strip(text) == ""
    ensures ns != [] ==> ns[0] == Strip(text)
  {
    var t := Strip(text);
    if t == "" then [] else [t]
  }

  /** The names a list value contributes: `str(t).strip()` of each element. */
  function ItemNames(items: seq<Value>): seq<string>
  {
    if items == [] then []
    else ItemNames(items[..|items| - 1]) + Clean(PyStr(items[|items| - 1]))
  }

  /** What one post adds to the count for `field` (`"tags"` or
      `"categories"`): each element of a list value, or a string value;
      values of any other kind add nothing, and so does a post whose front
      matter is absent or empty (`if meta and field in meta`). */
  function Mentions(meta: Option<Header>, field: string): seq<string>
  {
    if meta.None? || meta.value == [] then []
    else
      match Get(meta.value, field)
      case None => []
      case Some(v) =>
        match v
        case List(items) => ItemNames(items)
        case Str(s) => Clean(s)
        case _ => []
  }

  /** Everything the posts mention, in the order the loop meets it. */
  function AllMentions(metas: seq<Option<Header>>, field: string): seq<string>
  {
    if metas == [] then []
    else AllMentions(metas[..|metas| - 1], field) + Mentions(metas[|metas| - 1], field)
  }

  lemma CleanIsClean(text: string)
    ensures forall k :: 0 <= k < |Clean(text)| ==> CleanName(Clean(text)[k])
  {
    StripShape(text);
  }

  lemma {:induction false} ItemNamesClean(items: seq<Value>)
    ensures forall k :: 0 <= k < |ItemNames(items)| ==> CleanName(ItemNames(items)[k])
  {
    if items != [] {
      ItemNamesClean(items[..|items| - 1]);
      CleanIsClean(PyStr(items[|items| - 1]));
    }
  }

  /** Every name a post contributes is stripped and non-empty. */
  lemma {:induction false} MentionsClean(metas: seq<Option<Header>>, field: string)
    ensures forall k :: 0 <= k < |AllMentions(metas, field)| ==> CleanName(AllMentions(metas, field)[k])
  {
    if metas != [] {
      MentionsClean(metas[..|metas| - 1], field);
      var meta := metas[|metas| - 1];
      if meta.Some? && meta.value != [] && Get(meta.value, field).Some? {
        match Get(meta.value, field).value
        case List(items) => ItemNamesClean(items);
        case Str(s) => CleanIsClean(s);
        case _ =>
      }
    }
  }

  // ---------------------------------------------------------------------
  // Counting
  // ---------------------------------------------------------------------

  /** Name -> count, in the order names were first counted. */
  type Counts = Dict<string, nat>

  /** `tag_count[name] = tag_count.get(name, 0) + 1` */
  function Bump(d: Counts, name: string): Counts
  {
    Set(d, name, match Get(d, name) case None => 1 case Some(c) => c + 1)
  }

  /** The counts after bumping every name of `ms` in turn. */
  function Tally(ms: seq<string>): Counts
  {
    if ms == [] then [] else Bump(Tally(ms[..|ms| - 1]), ms[|ms| - 1])
  }

  /** The tally lists each name once, in first-seen order. */
  lemma {:induction false} TallyKeys(ms: seq<string>)
    ensures Keys(Tally(ms)) == Dedup(ms)
  {
    if ms != [] {
      var p := ms[..|ms| - 1];
      var x := ms[|ms| - 1];
      TallyKeys(p);
      var d := Tally(p);
      assert Tally(ms) == Bump(d, x);
      assert Has(d, x) <==> x in Dedup(p);
    }
  }

  /** The tally holds, for each name, the number of times it occurs. */
  lemma {:induction false} TallyCounts(ms: seq<string>)
    ensures forall y :: Get(Tally(ms), y) == if y in ms then Some(multiset(ms)[y]) else None
  {
    if ms != [] {
      var p := ms[..|ms| - 1];
      var x := ms[|ms| - 1];
      assert ms == p + [x];
      TallyCounts(p);
      var d := Tally(p);
      assert Tally(ms) == Bump(d, x);
      forall y ensures Get(Tally(ms), y) == if y in ms then Some(multiset(ms)[y]) else None {
        assert multiset(ms)[y] == multiset(p)[y] + if y == x then 1 else 0;
        assert y in ms <==> y in p || y == x;
        assert y in p <==> multiset(p)[y] > 0;
        if y != x {
          assert Get(Tally(ms), y) == Get(d, y);
        } else {
          assert Get(Tally(ms), x) == Some(match Get(d, x) case None => 1 case Some(c) => c + 1);
        }
      }
    }
  }

  lemma TallyDistinct(ms: seq<string>)
    ensures Distinct(Keys(Tally(ms)))
  {
    TallyKeys(ms);
    DedupOrder(ms);
  }

  // ---------------------------------------------------------------------
  // Ranking: sorted(counts.items(), key=count, reverse=True)
  // ---------------------------------------------------------------------

  /** Where a stable insertion puts `e`: after every entry counted at least as often. */
  function InsertPos(r: Counts, e: (string, nat)): (p: nat)
    ensures p <= |r|
  {
    if r == [] then 0
    else if r[0].1 >= e.1 then 1 + InsertPos(r[1..], e)
    else 0
  }

  function Insert(r: Counts, e: (string, nat)): Counts
  {
    if r == [] then [e]
    else if r[0].1 >= e.1 then [r[0]] + Insert(r[1..], e)
    else [e] + r
  }

  /** The entries by descending count; `sorted` is stable, so entries with
      equal counts keep the order they have in `d`. */
  function SortByCount(d: Counts): Counts
  {
    if d == [] then [] else Insert(SortByCount(d[..|d| - 1]), d[|d| - 1])
  }

  /** `[name for name, _ in sorted(...)]` */
  function Ranked(d: Counts): seq<string>
  {
    Keys(SortByCount(d))
  }

  predicate Descending(r: Counts)
  {
    forall i, j :: 0 <= i < j < |r| ==> r[i].1 >= r[j].1
  }

  /** `r` holds the entries of `d` by descending count, ties in `d`'s order. */
  predicate RanksOf(d: Counts, r: Counts)
  {
    && multiset(r) == multiset(d)
    && Distinct(r)
    && Descending(r)
    && forall i, j :: 0 <= i < j < |r| && r[i].1 == r[j].1 && r[i] in d && r[j] in d
                      ==> FirstIndex(d, r[i]) < FirstIndex(d, r[j])
  }

  lemma {:induction false} InsertShape(r: Counts, e: (string, nat))
    ensures var p := InsertPos(r, e);
            && Insert(r, e) == r[..p] + [e] + r[p..]
            && (forall k :: 0 <= k < p ==> r[k].1 >= e.1)
            && (p < |r| ==> r[p].1 < e.1)
  {
    if r != [] && r[0].1 >= e.1 {
      InsertShape(r[1..], e);
      var p := InsertPos(r, e);
      assert r[1..][..p - 1] == r[1..p];
      assert r[1..][p - 1..] == r[p..];
      assert [r[0]] + r[1..p] == r[..p];
      forall k | 0 <= k < p ensures r[k].1 >= e.1 {
        if k > 0 { assert r[k] == r[1..][k - 1]; }
      }
    }
  }

  /** The ranking of `d` (entries all distinct) is a ranking in the sense of `RanksOf`. */
  lemma {:induction false} SortRanks(d: Counts)
    requires Distinct(d)
    ensures RanksOf(d, SortByCount(d))
  {
    if d != [] {
      var n := |d| - 1;
      var d' := d[..n];
      var e := d[n];
      assert d == d' + [e];
      assert Distinct(d') by {
        forall i, j | 0 <= i < j < n ensures d'[i] != d'[j] {
          assert d'[i] == d[i] && d'[j] == d[j];
        }
      }
      assert e !in d' by {
        forall i | 0 <= i < n ensures d'[i] != e {
          assert d'[i] == d[i];
        }
      }
      SortRanks(d');
      var r' := SortByCount(d');
      InsertStep(d, r', e);
    }
  }

  /** Inserting the last entry of `d` into a ranking of the rest ranks all of `d`. */
  lemma InsertStep(d: Counts, r': Counts, e: (string, nat))
    requires d != [] && e == d[|d| - 1] && e !in d[..|d| - 1]
    requires RanksOf(d[..|d| - 1], r')
    ensures RanksOf(d, Insert(r', e))
  {
    var n := |d| - 1;
    assert d == d[..n] + [e];
    InsertPerm(r', e);
    assert e !in multiset(r');
    InsertDistinct(r', e);
    InsertDescending(r', e);
    InsertStable(d, r', e);
  }

  /** The entries of `Insert(r, e)` by position. */
  lemma InsertAt(r: Counts, e: (string, nat))
    ensures var p := InsertPos(r, e);
            && |Insert(r, e)| == |r| + 1
            && (forall k :: 0 <= k < p ==> Insert(r, e)[k] == r[k])
            && Insert(r, e)[p] == e
            && (forall k :: p < k <= |r| ==> Insert(r, e)[k] == r[k - 1])
            && (forall k :: 0 <= k < p ==> r[k].1 >= e.1)
            && (p < |r| ==> r[p].1 < e.1)
  {
    InsertShape(r, e);
  }

  lemma InsertPerm(r: Counts, e: (string, nat))
    ensures multiset(Insert(r, e)) == multiset(r) + multiset{e}
  {
    var p := InsertPos(r, e);
    InsertShape(r, e);
    assert r == r[..p] + r[p..];
  }

  lemma InsertDistinct(r: Counts, e: (string, nat))
    requires Distinct(r) && e !in r
    ensures Distinct(Insert(r, e))
  {
    var p := InsertPos(r, e);
    InsertAt(r, e);
    var s := Insert(r, e);
    forall i, j | 0 <= i < j < |s| ensures s[i] != s[j] {
      if i != p && j != p {
        var i' := if i < p then i else i - 1;
        var j' := if j < p then j else j - 1;
        assert s[i] == r[i'] && s[j] == r[j'];
      } else if i == p {
        assert s[j] == r[j - 1];
      } else {
        assert s[i] == r[i];
      }
    }
  }

  lemma InsertDescending(r: Counts, e: (string, nat))
    requires Descending(r)
    ensures Descending(Insert(r, e))
  {
    var p := InsertPos(r, e);
    InsertAt(r, e);
    var s := Insert(r, e);
    forall i, j | 0 <= i < j < |s| ensures s[i].1 >= s[j].1 {
      if j == p {
        assert s[i] == r[i];
      } else if i == p {
        assert s[j] == r[j - 1] && r[p].1 >= r[j - 1].1;
      } else {
        var i' := if i < p then i else i - 1;
        var j' := if j < p then j else j - 1;
        assert s[i] == r[i'] && s[j] == r[j'];
      }
    }
  }

  lemma InsertStable(d: Counts, r: Counts, e: (string, nat))
    requires d != [] && e == d[|d| - 1] && e !in d[..|d| - 1]
    requires RanksOf(d[..|d| - 1], r)
    ensures var s := Insert(r, e);
            forall i, j :: 0 <= i < j < |s| && s[i].1 == s[j].1 && s[i] in d && s[j] in d
                           ==> FirstIndex(d, s[i]) < FirstIndex(d, s[j])
  {
    var s := Insert(r, e);
    InsertAt(r, e);
    forall i, j | 0 <= i < j < |s| && s[i] in d && s[j] in d
      ensures s[i].1 == s[j].1 ==> FirstIndex(d, s[i]) < FirstIndex(d, s[j])
    {
      InsertStablePair(d, r, e, i, j);
    }
  }

  /** Stability for one pair of positions of `Insert(r, e)`. */
  lemma InsertStablePair(d: Counts, r: Counts, e: (string, nat), i: nat, j: nat)
    requires d != [] && e == d[|d| - 1] && e !in d[..|d| - 1]
    requires RanksOf(d[..|d| - 1], r)
    requires i < j < |r| + 1
    ensures var s := Insert(r, e);
            |s| == |r| + 1 &&
            (s[i] in d && s[j] in d && s[i].1 == s[j].1 ==> FirstIndex(d, s[i]) < FirstIndex(d, s[j]))
  {
    var p := InsertPos(r, e);
    InsertAt(r, e);
    if i == p {
      InsertStableNew(r, e, j);
    } else if j == p {
      InsertStableBeforeNew(d, r, e, i);
    } else {
      InsertStableOld(d, r, e, i, j);
    }
  }

  /** The inserted entry outranks every entry placed after it. */
  lemma InsertStableNew(r: Counts, e: (string, nat), j: nat)
    requires Descending(r)
    requires InsertPos(r, e) < j < |r| + 1
    ensures var s := Insert(r, e);
            |s| == |r| + 1 && s[InsertPos(r, e)] == e && s[j].1 < e.1
  {
    var p := InsertPos(r, e);
    InsertAt(r, e);
    var s := Insert(r, e);
    assert s[j] == r[j - 1];
    assert r[j - 1].1 <= r[p].1 by {
      if j - 1 > p { assert Descending(r); }
    }
  }

  /** An old entry ahead of the inserted one comes first in `d`. */
  lemma InsertStableBeforeNew(d: Counts, r: Counts, e: (string, nat), i: nat)
    requires d != [] && e == d[|d| - 1] && e !in d[..|d| - 1]
    requires multiset(r) == multiset(d[..|d| - 1])
    requires i < InsertPos(r, e) <= |r|
    ensures var s := Insert(r, e);
            |s| == |r| + 1 && s[i] in d && s[InsertPos(r, e)] == e && FirstIndex(d, s[i]) < FirstIndex(d, e)
  {
    var n := |d| - 1;
    var d' := d[..n];
    InsertAt(r, e);
    var s := Insert(r, e);
    assert s[i] == r[i] && r[i] in multiset(d');
    FirstIndexOfPrefix(d, r[i], n);
    assert FirstIndex(d, e) == n by {
      forall k | 0 <= k < n ensures d[k] != e { assert d[k] == d'[k]; }
    }
  }

  /** Two old entries keep the order the ranking of the rest gave them. */
  lemma InsertStableOld(d: Counts, r: Counts, e: (string, nat), i: nat, j: nat)
    requires d != [] && e == d[|d| - 1] && e !in d[..|d| - 1]
    requires RanksOf(d[..|d| - 1], r)
    requires i < j < |r| + 1 && i != InsertPos(r, e) && j != InsertPos(r, e)
    ensures var s := Insert(r, e);
            |s| == |r| + 1 &&
            (s[i] in d && s[j] in d && s[i].1 == s[j].1 ==> FirstIndex(d, s[i]) < FirstIndex(d, s[j]))
  {
    var n := |d| - 1;
    var d' := d[..n];
    var p := InsertPos(r, e);
    InsertAt(r, e);
    var s := Insert(r, e);
    var i' := if i < p then i else i - 1;
    var j' := if j < p then j else j - 1;
    assert s[i] == r[i'] && s[j] == r[j'] && i' < j';
    assert r[i'] in d' && r[j'] in d' by {
      assert r[i'] in multiset(d') && r[j'] in multiset(d');
    }
    FirstIndexOfPrefix(d, r[i'], n);
    FirstIndexOfPrefix(d, r[j'], n);
    if s[i].1 == s[j].1 {
      assert FirstIndex(d', r[i']) < FirstIndex(d', r[j']);
    }
  }

  /** Distinct keys make distinct entries. */
  lemma DistinctEntries(d: Counts)
    requires Distinct(Keys(d))
    ensures Distinct(d)
  {
    forall i, j | 0 <= i < j < |d| ensures d[i] != d[j] {
      assert Keys(d)[i] != Keys(d)[j];
    }
  }

  // ---------------------------------------------------------------------
  // The collector
  // ---------------------------------------------------------------------

  /** The index over the headers of all posts, for `field`. */
  function Index(metas: seq<Option<Header>>, field: string): seq<string>
  {
    Ranked(Tally(AllMentions(metas, field)))
  }

  /** A ranking lists the same names as the dict it ranks, each once. */
  lemma RankedKeys(d: Counts, r: Counts)
    requires RanksOf(d, r) && Distinct(Keys(d))
    ensures Distinct(Keys(r))
    ensures forall x :: x in Keys(r) <==> x in Keys(d)
  {
    forall i, j | 0 <= i < j < |r| ensures Keys(r)[i] != Keys(r)[j] {
      assert r[i] in multiset(d) && r[j] in multiset(d);
      var a :| 0 <= a < |d| && d[a] == r[i];
      var b :| 0 <= b < |d| && d[b] == r[j];
      assert r[i] != r[j];
      assert a != b;
      assert Keys(d)[a] == r[i].0 && Keys(d)[b] == r[j].0;
      if a < b { assert Keys(d)[a] != Keys(d)[b]; } else { assert Keys(d)[b] != Keys(d)[a]; }
    }
    forall x ensures x in Keys(r) <==> x in Keys(d) {
      if x in Keys(r) {
        var i :| 0 <= i < |r| && Keys(r)[i] == x;
        assert r[i] in multiset(d);
        var a :| 0 <= a < |d| && d[a] == r[i];
        assert Keys(d)[a] == x;
      }
      if x in Keys(d) {
        var a :| 0 <= a < |d| && Keys(d)[a] == x;
        assert d[a] in multiset(r);
        var i :| 0 <= i < |r| && r[i] == d[a];
        assert Keys(r)[i] == x;
      }
    }
  }

  /** The ranked names are the mentioned names, each once. */
  lemma IndexNames(ms: seq<string>)
    ensures Distinct(Ranked(Tally(ms)))
    ensures forall x :: x in Ranked(Tally(ms)) <==> x in ms
  {
    var d := Tally(ms);
    TallyKeys(ms);
    TallyDistinct(ms);
    DistinctEntries(d);
    SortRanks(d);
    RankedKeys(d, SortByCount(d));
  }

  /** Each entry of the tally is a mentioned name with its number of mentions. */
  lemma TallyEntries(ms: seq<string>)
    ensures forall a :: 0 <= a < |Tally(ms)| ==>
              Tally(ms)[a].0 in ms && Tally(ms)[a].1 == multiset(ms)[Tally(ms)[a].0]
  {
    var d := Tally(ms);
    TallyKeys(ms);
    TallyCounts(ms);
    TallyDistinct(ms);
    forall a | 0 <= a < |d| ensures d[a].0 in ms && d[a].1 == multiset(ms)[d[a].0] {
      GetAt(d, a);
      assert Keys(d)[a] == d[a].0;
    }
  }

  /** A ranking of the tally holds mentioned names with their mention counts. */
  lemma RankedEntries(ms: seq<string>, d: Counts, r: Counts)
    requires d == Tally(ms) && RanksOf(d, r)
    ensures forall k :: 0 <= k < |r| ==> r[k] in d && r[k].0 in ms && r[k].1 == multiset(ms)[r[k].0]
  {
    TallyEntries(ms);
    forall k | 0 <= k < |r| ensures r[k] in d && r[k].0 in ms && r[k].1 == multiset(ms)[r[k].0] {
      assert r[k] in multiset(d);
      var a :| 0 <= a < |d| && d[a] == r[k];
    }
  }

  /** A ranking of the tally orders names by mentions, ties by first mention. */
  lemma RankedOrder(ms: seq<string>, d: Counts, r: Counts)
    requires d == Tally(ms) && RanksOf(d, r)
    ensures forall k :: 0 <= k < |r| ==> r[k].0 in ms && r[k].1 == multiset(ms)[r[k].0]
    ensures forall i, j :: 0 <= i < j < |r| ==>
              multiset(ms)[r[i].0] > multiset(ms)[r[j].0]
              || (multiset(ms)[r[i].0] == multiset(ms)[r[j].0] && FirstIndex(ms, r[i].0) < FirstIndex(ms, r[j].0))
  {
    RankedEntries(ms, d, r);
    TallyKeys(ms);
    DedupOrder(ms);
    forall i, j | 0 <= i < j < |r|
      ensures multiset(ms)[r[i].0] > multiset(ms)[r[j].0]
              || (multiset(ms)[r[i].0] == multiset(ms)[r[j].0] && FirstIndex(ms, r[i].0) < FirstIndex(ms, r[j].0))
    {
      if r[i].1 == r[j].1 {
        var a := FirstIndex(d, r[i]);
        var b := FirstIndex(d, r[j]);
        assert a < b;
        assert Dedup(ms)[a] == Keys(d)[a] == r[i].0;
        assert Dedup(ms)[b] == Keys(d)[b] == r[j].0;
      }
    }
  }

  /** Names come by descending number of mentions; names mentioned equally
      often come in the order they were first mentioned. */
  lemma IndexOrder(ms: seq<string>)
    ensures forall k :: 0 <= k < |Ranked(Tally(ms))| ==> Ranked(Tally(ms))[k] in ms
    ensures forall i, j :: 0 <= i < j < |Ranked(Tally(ms))| ==>
              var x, y := Ranked(Tally(ms))[i], Ranked(Tally(ms))[j];
              multiset(ms)[x] > multiset(ms)[y]
              || (multiset(ms)[x] == multiset(ms)[y] && FirstIndex(ms, x) < FirstIndex(ms, y))
  {
    var d := Tally(ms);
    var r := SortByCount(d);
    TallyDistinct(ms);
    DistinctEntries(d);
    SortRanks(d);
    RankedOrder(ms, d, r);
    assert forall k :: 0 <= k < |r| ==> Ranked(d)[k] == r[k].0;
  }

  /** Counting one more name, or none. */
  lemma TallyClean(ms: seq<string>, text: string)
    ensures Tally(ms + Clean(text)) == if Strip(text) == "" then Tally(ms) else Bump(Tally(ms), Strip(text))
  {
    if Strip(text) == "" {
      assert ms + Clean(text) == ms;
    } else {
      assert (ms + Clean(text))[..|ms|] == ms;
    }
  }

  lemma ItemNamesSnoc(items: seq<Value>, j: nat)
    requires j < |items|
    ensures ItemNames(items[..j + 1]) == ItemNames(items[..j]) + Clean(PyStr(items[j]))
  {
    assert items[..j + 1][..j] == items[..j];
  }

  lemma AllMentionsSnoc(metas: seq<Option<Header>>, field: string, i: nat)
    requires i < |metas|
    ensures AllMentions(metas[..i + 1], field) == AllMentions(metas[..i], field) + Mentions(metas[i], field)
  {
    assert metas[..i + 1][..i] == metas[..i];
  }

  /** `s = text.strip()`, then `if s: tag_count[s] = tag_count.get(s, 0) + 1`. */
  method CountOne(counts: Counts, ghost seen: seq<string>, text: string) returns (r: Counts)
    requires counts == Tally(seen)
    ensures r == Tally(seen + Clean(text))
  {
    TallyClean(seen, text);
    var name := Strip(text);
    r := counts;
    if name != "" {
      r := Bump(r, name);
    }
  }

  /** The inner loop over a list value: each element's `str()` is counted. */
  method CountItems(counts: Counts, ghost seen: seq<string>, items: seq<Value>) returns (r: Counts)
    requires counts == Tally(seen)
    ensures r == Tally(seen + ItemNames(items))
  {
    r := counts;
    assert seen + ItemNames(items[..0]) == seen by {
      assert items[..0] == [];
    }
    for j := 0 to |items|
      invariant r == Tally(seen + ItemNames(items[..j]))
    {
      ghost var sofar := seen + ItemNames(items[..j]);
      ItemNamesSnoc(items, j);
      AppendAssoc(seen, ItemNames(items[..j]), Clean(PyStr(items[j])));
      r := CountOne(r, sofar, PyStr(items[j]));
    }
    assert items[..|items|] == items;
  }

  /** `collect_existing_tags()` with `field == "tags"`,
      `collect_existing_categories()` with `field == "categories"`: the
      count is kept in a dict filled post by post, then ranked. */
  method CollectNames(metas: seq<Option<Header>>, field: string) returns (names: seq<string>)
    ensures names == Index(metas, field)
  {
    var counts: Counts := [];
    for i := 0 to |metas|
      invariant counts == Tally(AllMentions(metas[..i], field))
    {
      ghost var before := AllMentions(metas[..i], field);
      AllMentionsSnoc(metas, field, i);
      var meta := metas[i];
      if meta.Some? && meta.value != [] && Has(meta.value, field) {
        var v := Get(meta.value, field).value;
        match v
        case List(items) =>
          counts := CountItems(counts, before, items);
        case Str(s) =>
          counts := CountOne(counts, before, s);
        case _ =>
          assert Mentions(meta, field) == [];
          assert before + [] == before;
      } else {
        assert Mentions(meta, field) == [];
        assert before + [] == before;
      }
    }
    assert metas[..|metas|] == metas;
    names := Ranked(counts);
  }
}
