/** Python's ordering of `str` values (lexicographic by code point, a proper
    prefix first) and `sorted()` of a set of strings, as the GUI uses it for
    the selected tags. */
module StrOrder {

  /** `a < b` on Python strings. */
  predicate Less(a: string, b: string)
  {
    if a == [] then b != []
    else b != [] && (a[0] < b[0] || (a[0] == b[0] && Less(a[1..], b[1..])))
  }

  lemma {:induction false} LessIrreflexive(a: string)
    ensures !Less(a, a)
  {
    if a != [] {
      LessIrreflexive(a[1..]);
    }
  }

  lemma {:induction false} LessTransitive(a: string, b: string, c: string)
    requires Less(a, b) && Less(b, c)
    ensures Less(a, c)
  {
    if a != [] && a[0] == b[0] && b[0] == c[0] {
      LessTransitive(a[1..], b[1..], c[1..]);
    }
  }

  /** Any two different strings are ordered one way, and only one way. */
  lemma {:induction false} LessTotal(a: string, b: string)
    ensures a != b ==> Less(a, b) || Less(b, a)
    ensures !(Less(a, b) && Less(b, a))
  {
    if a != [] && b != [] && a[0] == b[0] {
      LessTotal(a[1..], b[1..]);
      if a != b {
        assert a == [a[0]] + a[1..] && b == [b[0]] + b[1..];
      }
    }
  }

  /** `m` is the least element of `s`. */
  predicate IsLeast(m: string, s: set<string>)
  {
    m in s && forall y :: y in s && y != m ==> Less(m, y)
  }

  /** A finite non-empty set of strings has a least element. */
  lemma {:induction false} LeastExists(s: set<string>)
    requires s != {}
    ensures exists m :: IsLeast(m, s)
    decreases |s|
  {
    var x :| x in s;
    if s - {x} == {} {
      assert s == {x};
      assert IsLeast(x, s);
    } else {
      LeastExists(s - {x});
      var m :| IsLeast(m, s - {x});
      LessTotal(m, x);
      if Less(m, x) {
        assert IsLeast(m, s);
      } else {
        forall y | y in s && y != x ensures Less(x, y) {
          if y != m { LessTransitive(x, m, y); }
        }
        assert IsLeast(x, s);
      }
    }
  }

  /** Strictly ascending. */
  predicate Ascending(r: seq<string>)
  {
    forall i, j :: 0 <= i < j < |r| ==> Less(r[i], r[j])
  }

  /** `sorted(s)` for a set `s` of strings. */
  ghost function Sorted(s: set<string>): (r: seq<string>)
    ensures Ascending(r)
    ensures forall x :: x in r <==> x in s
    decreases |s|
  {
    if s == {} then []
    else
      LeastExists(s);
      var m :| IsLeast(m, s);
      var rest := Sorted(s - {m});
      assert forall j :: 0 <= j < |rest| ==> Less(m, rest[j]) by {
        forall j | 0 <= j < |rest| ensures Less(m, rest[j]) {
          assert rest[j] in s - {m};
        }
      }
      [m] + rest
  }

  /** Only one ascending list holds exactly the elements of a given set,
      so `Sorted` is the list `sorted()` returns. */
  lemma {:induction false} AscendingUnique(r: seq<string>, t: seq<string>)
    requires Ascending(r) && Ascending(t)
    requires forall x :: x in r <==> x in t
    ensures r == t
  {
    assert r == [] <==> t == [] by {
      if r != [] { assert r[0] in r; }
      if t != [] { assert t[0] in t; }
    }
    if r != [] {
      assert r[0] in r && t[0] in t;
      assert r[0] == t[0] by {
        if r[0] != t[0] {
          var i :| 0 <= i < |t| && t[i] == r[0];
          var j :| 0 <= j < |r| && r[j] == t[0];
          assert i > 0 && j > 0;
          assert Less(r[0], r[j]) && Less(t[0], t[i]);
          LessTotal(r[0], t[0]);
        }
      }
      forall x ensures x in r[1..] <==> x in t[1..] {
        TailMember(r, t, x);
        TailMember(t, r, x);
      }
      AscendingUnique(r[1..], t[1..]);
      assert r == [r[0]] + r[1..] && t == [t[0]] + t[1..];
    }
  }

  lemma TailMember(r: seq<string>, t: seq<string>, x: string)
    requires Ascending(r) && Ascending(t) && r != [] && t != [] && r[0] == t[0]
    requires forall y :: y in r <==> y in t
    ensures x in r[1..] ==> x in t[1..]
  {
    if x in r[1..] {
      var j :| 1 <= j < |r| && r[j] == x;
      assert Less(r[0], x);
      LessIrreflexive(x);
      assert x in t;
      var k :| 0 <= k < |t| && t[k] == x;
      assert k != 0;
      assert t[1..][k - 1] == x;
    }
  }

  /** `sorted(s)`: the least remaining element is taken until none is left. */
  method SortSet(s: set<string>) returns (r: seq<string>)
    ensures r == Sorted(s)
  {
    r := [];
    var rest := s;
    while rest != {}
      invariant forall x :: x in s <==> x in r || x in rest
      invariant forall x :: x in r ==> x !in rest
      invariant Ascending(r)
      invariant forall i, y :: 0 <= i < |r| && y in rest ==> Less(r[i], y)
      decreases |rest|
    {
      LeastExists(rest);
      var m :| IsLeast(m, rest);
      r := r + [m];
      rest := rest - {m};
    }
    AscendingUnique(r, Sorted(s));
  }
}
