/** `interactive_tags`: the line the user types at the tag prompt is split at
    commas; each piece is either the number of a listed tag (counted from 1)
    or the name of a new tag, and every tag is taken once, in the order it is
    first named. Numbers outside the listing are reported and skipped. */
module TagSelection {
  import opened Base
  import Yaml

  predicate IsDigit(c: char)
  {
    '0' <= c <= '9'
  }

  /** What `int()` accepts after its sign: ASCII digits, with single
      underscores allowed between two digits. */
  predicate DigitRun(s: string)
  {
    && s != []
    && IsDigit(s[0]) && IsDigit(s[|s| - 1])
    && (forall k :: 0 <= k < |s| ==> IsDigit(s[k]) || s[k] == '_')
    && (forall k :: 0 <= k < |s| - 1 ==> s[k] != '_' || s[k + 1] != '_')
  }

  /** The number the digits of `s` spell, underscores skipped. */
  function DigitsValue(s: string): nat
  {
    if s == [] then 0
    else
      var c := s[|s| - 1];
      if IsDigit(c) then 10 * DigitsValue(s[..|s| - 1]) + (c as int - '0' as int)
      else DigitsValue(s[..|s| - 1])
  }

  /** `int(part)` for a part that has already been stripped: `None` where
      Python raises `ValueError`. */
  function ParseInt(s: string): (r: Option<int>)
    ensures r.Some? ==> s != [] && (IsDigit(s[0]) || s[0] == '+' || s[0] == '-')
  {
    if s != [] && (s[0] == '+' || s[0] == '-') then
      if DigitRun(s[1..]) then
        var n: int := DigitsValue(s[1..]);
        Some(if s[0] == '-' then -n else n)
      else None
    else if DigitRun(s) then Some(DigitsValue(s))
    else None
  }

  lemma DigitCharValue(d: nat)
    requires d < 10
    ensures Yaml.DigitChar(d) as int - '0' as int == d
  {
  }

  /** The digits `str(n)` writes read back as `n`. */
  lemma {:induction false} DecimalValue(n: nat)
    ensures DigitsValue(Yaml.Decimal(n)) == n
  {
    var r := Yaml.Decimal(n);
    DigitCharValue(n % 10);
    if n >= 10 {
      var h := Yaml.Decimal(n / 10);
      assert r == h + [Yaml.DigitChar(n % 10)];
      assert r[..|r| - 1] == h;
      DecimalValue(n / 10);
    }
  }

  /** `int(str(i)) == i`: every number the listing shows, and every other
      integer written out in decimal, is read back as itself. */
  lemma ParseIntStr(i: int)
    ensures ParseInt(Yaml.IntStr(i)) == Some(i)
  {
    var n := if i < 0 then -i else i;
    var d := Yaml.Decimal(n);
    DecimalValue(n);
    DecimalDigits(n);
    var s := Yaml.IntStr(i);
    if i < 0 {
      assert s == "-" + d && s[1..] == d;
    } else {
      assert s == d && s[0] != '+' && s[0] != '-';
    }
  }

  lemma DecimalDigits(n: nat)
    ensures DigitRun(Yaml.Decimal(n))
  {
    var d := Yaml.Decimal(n);
    assert forall k :: 0 <= k < |d| ==> IsDigit(d[k]);
  }

  /** The stripped, non-empty pieces of the comma-separated `pieces`. */
  function Pieces(pieces: seq<string>): seq<string>
  {
    if pieces == [] then []
    else
      var p := Strip(pieces[0]);
      var rest := Pieces(pieces[1..]);
      if p == [] then rest else [p] + rest
  }

  /** Every piece kept is a clean name. */
  lemma {:induction false} PiecesClean(pieces: seq<string>)
    ensures forall k :: 0 <= k < |Pieces(pieces)| ==> CleanName(Pieces(pieces)[k])
  {
    if pieces != [] {
      var p := Strip(pieces[0]);
      var rest := Pieces(pieces[1..]);
      PiecesClean(pieces[1..]);
      if p != [] {
        assert CleanName(p) by {
          StripClean(pieces[0]);
        }
        CleanCons(p, rest);
      }
    }
  }

  lemma CleanCons(p: string, rest: seq<string>)
    requires CleanName(p)
    requires forall k :: 0 <= k < |rest| ==> CleanName(rest[k])
    ensures forall k :: 0 <= k < |[p] + rest| ==> CleanName(([p] + rest)[k])
  {
    forall k | 1 <= k < |[p] + rest| ensures CleanName(([p] + rest)[k]) {
      assert ([p] + rest)[k] == rest[k - 1];
    }
  }

  /** `[p.strip() for p in user_input.strip().split(",") if p.strip()]` */
  function Parts(input: string): (ps: seq<string>)
    ensures forall k :: 0 <= k < |ps| ==> CleanName(ps[k])
  {
    PiecesClean(Split(Strip(input), ','));
    Pieces(Split(Strip(input), ','))
  }

  /** What one part means. */
  datatype Choice = Pick(tag: string) | OutOfRange(index: int)

  function Choose(existing: seq<string>, part: string): (c: Choice)
    ensures c.OutOfRange? ==> !(1 <= c.index <= |existing|)
  {
    match ParseInt(part)
    case Some(idx) => if 1 <= idx <= |existing| then Pick(existing[idx - 1]) else OutOfRange(idx)
    case None => Pick(part)
  }

  /** The tag a part names, if any. */
  function Named(c: Choice): seq<string>
  {
    if c.Pick? then [c.tag] else []
  }

  /** The number a part is warned about, if any. */
  function Warned(c: Choice): seq<int>
  {
    if c.OutOfRange? then [c.index] else []
  }

  /** Every tag named by `parts`, in order, repeats included. */
  function Picks(existing: seq<string>, parts: seq<string>): seq<string>
  {
    if parts == [] then []
    else Picks(existing, parts[..|parts| - 1]) + Named(Choose(existing, parts[|parts| - 1]))
  }

  /** The out-of-range numbers the user is warned about, in order. */
  function Ignored(existing: seq<string>, parts: seq<string>): seq<int>
  {
    if parts == [] then []
    else Ignored(existing, parts[..|parts| - 1]) + Warned(Choose(existing, parts[|parts| - 1]))
  }

  lemma PicksSnoc(existing: seq<string>, parts: seq<string>, i: nat)
    requires i < |parts|
    ensures Picks(existing, parts[..i + 1]) == Picks(existing, parts[..i]) + Named(Choose(existing, parts[i]))
    ensures Ignored(existing, parts[..i + 1]) == Ignored(existing, parts[..i]) + Warned(Choose(existing, parts[i]))
  {
    assert parts[..i + 1][..i] == parts[..i];
  }

  /** The tags `interactive_tags` returns for the line `input`. */
  function Selection(existing: seq<string>, input: string): seq<string>
  {
    Dedup(Picks(existing, Parts(input)))
  }

  lemma BlankParts(input: string)
    requires Strip(input) == []
    ensures Parts(input) == []
  {
    assert Split(Strip(input), ',') == [""];
    assert Pieces([""]) == [];
  }

  /** `interactive_tags(existing_tags)` once the user has typed `input`:
      `selected` is the list it returns, `ignored` the numbers it warns about. */
  method SelectTags(existing: seq<string>, input: string) returns (selected: seq<string>, ignored: seq<int>)
    ensures selected == Selection(existing, input)
    ensures ignored == Ignored(existing, Parts(input))
  {
    var line := Strip(input);
    if line == [] {
      assert Parts(input) == [] by {
        BlankParts(input);
      }
      return [], [];
    }
    var parts := Pieces(Split(line, ','));
    assert parts == Parts(input);
    selected, ignored := [], [];
    for i := 0 to |parts|
      invariant selected == Dedup(Picks(existing, parts[..i]))
      invariant ignored == Ignored(existing, parts[..i])
    {
      assert Picks(existing, parts[..i + 1]) == Picks(existing, parts[..i]) + Named(Choose(existing, parts[i]))
          && Ignored(existing, parts[..i + 1]) == Ignored(existing, parts[..i]) + Warned(Choose(existing, parts[i])) by {
        PicksSnoc(existing, parts, i);
      }
      var warned;
      selected, warned := TakePart(existing, selected, Picks(existing, parts[..i]), parts[i]);
      ignored := ignored + warned;
    }
    assert parts[..|parts|] == parts;
  }

  /** The body of the loop over the parts: `selected` holds the tags taken
      from the parts before `part`, which named `before`. */
  method TakePart(existing: seq<string>, selected: seq<string>, ghost before: seq<string>, part: string)
    returns (after: seq<string>, warned: seq<int>)
    requires selected == Dedup(before)
    ensures after == Dedup(before + Named(Choose(existing, part)))
    ensures warned == Warned(Choose(existing, part))
  {
    after, warned := selected, [];
    var idx := ParseInt(part);
    if idx.Some? {
      if 1 <= idx.value <= |existing| {
        var tag := existing[idx.value - 1];
        assert Named(Choose(existing, part)) == [tag];
        DedupSnoc(before, tag);
        if tag !in selected {
          after := selected + [tag];
        }
      } else {
        warned := [idx.value];
        assert Named(Choose(existing, part)) == [];
        assert before + [] == before;
      }
    } else {
      assert Named(Choose(existing, part)) == [part];
      DedupSnoc(before, part);
      if part !in selected {
        after := selected + [part];
      }
    }
  }

  /** A blank line (or just pressing Enter) selects nothing. */
  lemma BlankSelectsNothing(existing: seq<string>, input: string)
    requires AllSpace(input)
    ensures Selection(existing, input) == []
    ensures Ignored(existing, Parts(input)) == []
  {
    assert Strip(input) == [] by {
      StripShape(input);
    }
    assert Parts(input) == [] by {
      BlankParts(input);
    }
  }

  /** A tag is named by the parts exactly when some part chooses it. */
  lemma {:induction false} PicksMembers(existing: seq<string>, parts: seq<string>, x: string)
    ensures x in Picks(existing, parts) <==> exists k :: 0 <= k < |parts| && Choose(existing, parts[k]) == Pick(x)
  {
    if x in Picks(existing, parts) {
      PicksSound(existing, parts, x);
    }
    if exists k :: 0 <= k < |parts| && Choose(existing, parts[k]) == Pick(x) {
      var k :| 0 <= k < |parts| && Choose(existing, parts[k]) == Pick(x);
      PicksComplete(existing, parts, x, k);
    }
  }

  lemma {:induction false} PicksSound(existing: seq<string>, parts: seq<string>, x: string)
    requires x in Picks(existing, parts)
    ensures exists k :: 0 <= k < |parts| && Choose(existing, parts[k]) == Pick(x)
  {
    var n := |parts| - 1;
    var pre := parts[..n];
    assert Picks(existing, parts) == Picks(existing, pre) + Named(Choose(existing, parts[n]));
    if x in Picks(existing, pre) {
      PicksSound(existing, pre, x);
      var k :| 0 <= k < n && Choose(existing, pre[k]) == Pick(x);
      assert pre[k] == parts[k];
    } else {
      assert Choose(existing, parts[n]) == Pick(x);
    }
  }

  lemma {:induction false} PicksComplete(existing: seq<string>, parts: seq<string>, x: string, k: nat)
    requires k < |parts| && Choose(existing, parts[k]) == Pick(x)
    ensures x in Picks(existing, parts)
  {
    var n := |parts| - 1;
    var pre := parts[..n];
    assert Picks(existing, parts) == Picks(existing, pre) + Named(Choose(existing, parts[n]));
    if k < n {
      assert pre[k] == parts[k];
      PicksComplete(existing, pre, x, k);
    } else {
      assert x in Named(Choose(existing, parts[n]));
    }
  }

  /** The selection holds each tag once, in the order the parts first name it. */
  lemma SelectionOrder(existing: seq<string>, input: string)
    ensures var sel := Selection(existing, input);
            var picks := Picks(existing, Parts(input));
            && Distinct(sel)
            && forall i, j :: 0 <= i < j < |sel| ==> FirstIndex(picks, sel[i]) < FirstIndex(picks, sel[j])
  {
    DedupOrder(Picks(existing, Parts(input)));
  }

  /** A tag is selected exactly when some part names it, by number or by
      name; a selected tag is either listed, or a new name that does not
      read as a number and has no surrounding whitespace. */
  lemma SelectionMembers(existing: seq<string>, input: string, x: string)
    ensures var parts := Parts(input);
            x in Selection(existing, input) <==> exists k :: 0 <= k < |parts| && Choose(existing, parts[k]) == Pick(x)
    ensures x in Selection(existing, input) ==> x in existing || (ParseInt(x) == None && CleanName(x))
  {
    var parts := Parts(input);
    PicksMembers(existing, parts, x);
    if x in Selection(existing, input) {
      var k :| 0 <= k < |parts| && Choose(existing, parts[k]) == Pick(x);
      ChooseOrigin(existing, parts[k], x);
    }
  }

  /** A part names either a listed tag or itself, and names itself only
      when it does not read as a number. */
  lemma ChooseOrigin(existing: seq<string>, part: string, x: string)
    requires Choose(existing, part) == Pick(x)
    ensures x in existing || (x == part && ParseInt(part) == None)
  {
  }

  /** The parts of names typed between commas are those names. */
  lemma {:induction false} PartsOfJoin(names: seq<string>)
    requires forall k :: 0 <= k < |names| ==> CleanName(names[k]) && ',' !in names[k]
    ensures Parts(Join(names, ',')) == names
  {
    if names == [] {
      assert Split(Strip([]), ',') == [""];
      assert Pieces([""]) == [];
    } else {
      var j := Join(names, ',');
      JoinEnds(names, ',');
      StripIdentity(j);
      JoinSplit(names, ',');
      PiecesOfClean(names);
    }
  }

  lemma {:induction false} PiecesOfClean(names: seq<string>)
    requires forall k :: 0 <= k < |names| ==> CleanName(names[k])
    ensures Pieces(names) == names
  {
    if names != [] {
      StripIdentity(names[0]);
      PiecesOfClean(names[1..]);
      assert [names[0]] + names[1..] == names;
    }
  }

  /** Parts that are all new names choose themselves. */
  lemma {:induction false} PicksOfNames(existing: seq<string>, names: seq<string>)
    requires forall k :: 0 <= k < |names| ==> ParseInt(names[k]) == None
    ensures Picks(existing, names) == names
  {
    if names != [] {
      var n := |names| - 1;
      PicksOfNames(existing, names[..n]);
      assert names[..n] + [names[n]] == names;
    }
  }

  /** Typing distinct new tag names separated by commas selects exactly
      those names, in the order typed. */
  lemma SelectByName(existing: seq<string>, names: seq<string>)
    requires Distinct(names)
    requires forall k :: 0 <= k < |names| ==> CleanName(names[k]) && ',' !in names[k] && ParseInt(names[k]) == None
    ensures Selection(existing, Join(names, ',')) == names
  {
    var input := Join(names, ',');
    PartsOfJoin(names);
    PicksOfNames(existing, names);
    DedupDistinct(names);
    calc {
      Selection(existing, input);
      Dedup(Picks(existing, Parts(input)));
      Dedup(Picks(existing, names));
      Dedup(names);
      names;
    }
  }

  /** Typing the number shown beside a listed tag selects that tag. */
  lemma ChooseByNumber(existing: seq<string>, i: nat)
    requires 1 <= i <= |existing|
    ensures Choose(existing, Yaml.IntStr(i)) == Pick(existing[i - 1])
  {
    ParseIntStr(i);
  }
}
