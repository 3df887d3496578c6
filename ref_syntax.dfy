/** The two image-reference patterns of `migrate_images` /
    `_migrate_images`, as matchers at a given position:
      standard  `!\[([^\]]*)\]\((?!https?://)([^)]+)\)`
      wiki      `!\[\[([^\]|]+?)(\|[^\]]*)?\]\]`
    Both are deterministic (each character class stops at its own
    terminator, so backtracking never finds a second way to match); each
    matcher is proved to answer with exactly the match the pattern has at
    that position, described declaratively by `StdRefAt` / `WikiRefAt`. */
module RefSyntax {
  import opened Base

  /** The first index at or after `from` holding `c`. */
  function FindFrom(s: string, from: nat, c: char): (r: Option<nat>)
    ensures r.Some? ==> from <= r.value < |s| && s[r.value] == c
                        && forall k :: from <= k < r.value ==> s[k] != c
    ensures r.None? ==> forall k :: from <= k < |s| ==> s[k] != c
    decreases |s| - from
  {
    if from >= |s| then None
    else if s[from] == c then Some(from)
    else FindFrom(s, from + 1, c)
  }

  /** Where `FindFrom` stops is determined by the characters alone. */
  lemma FindFromAt(s: string, from: nat, c: char, j: nat)
    requires from <= j < |s| && s[j] == c
    requires forall k :: from <= k < j ==> s[k] != c
    ensures FindFrom(s, from, c) == Some(j)
  {
  }

  /** A slice that spells `a + b` splits into a slice spelling `a` and one spelling `b`. */
  lemma SplitAt(s: string, i: nat, a: string, b: string)
    requires i + |a| + |b| <= |s| && s[i..i + |a| + |b|] == a + b
    ensures s[i..i + |a|] == a && s[i + |a|..i + |a| + |b|] == b
  {
    var t := s[i..i + |a| + |b|];
    assert t[..|a|] == a && t[|a|..] == b;
    assert s[i..i + |a|] == t[..|a|];
    assert s[i + |a|..i + |a| + |b|] == t[|a|..];
  }

  /** A character is absent from a slice when no position of the slice
      holds it. */
  lemma NotIn(s: string, a: nat, b: nat, c: char)
    requires a <= b <= |s|
    ensures c !in s[a..b] <==> forall q :: a <= q < b ==> s[q] != c
  {
    if c in s[a..b] {
      var q :| 0 <= q < b - a && s[a..b][q] == c;
      assert s[a + q] == c;
    }
    if exists q :: a <= q < b && s[q] == c {
      var q :| a <= q < b && s[q] == c;
      assert s[a..b][q - a] == c;
    }
  }

  // ---------------------------------------------------------------------
  // Standard syntax: !\[([^\]]*)\]\((?!https?://)([^)]+)\)
  // ---------------------------------------------------------------------

  /** The two groups of a standard reference. */
  datatype StdRef = StdRef(alt: string, path: string)

  /** The text a standard reference matches. */
  function StdText(m: StdRef): string
  {
    "![" + m.alt + "](" + m.path + ")"
  }

  predicate HttpPrefix(t: string)
  {
    "http://" <= t || "https://" <= t
  }

  /** The pattern matches at `i` with groups `m`: the alt text has no `]`, the
      path is non-empty, has no `)` and does not start with a web scheme. */
  predicate StdRefAt(s: string, i: nat, m: StdRef)
  {
    && ']' !in m.alt && ')' !in m.path && m.path != [] && !HttpPrefix(m.path)
    && i + |StdText(m)| <= |s| && s[i..i + |StdText(m)|] == StdText(m)
  }

  /** The standard-syntax match at `i`, if any. */
  function MatchStd(s: string, i: nat): (r: Option<StdRef>)
    ensures r.Some? ==> i + |StdText(r.value)| <= |s|
  {
    if i + 2 <= |s| && s[i] == '!' && s[i + 1] == '[' then
      match FindFrom(s, i + 2, ']')
      case None => None
      case Some(j) =>
        if j + 1 < |s| && s[j + 1] == '(' then
          match FindFrom(s, j + 2, ')')
          case None => None
          case Some(k) =>
            if k > j + 2 && !HttpPrefix(s[j + 2..k]) then Some(StdRef(s[i + 2..j], s[j + 2..k])) else None
        else None
    else None
  }

  /** The matcher finds exactly the matches of the pattern: a match at `i`
      exists if and only if it answers with it, so it is also the only one. */
  lemma MatchStdSpec(s: string, i: nat)
    ensures forall m :: StdRefAt(s, i, m) <==> MatchStd(s, i) == Some(m)
  {
    if i + 2 <= |s| && s[i] == '!' && s[i + 1] == '[' && FindFrom(s, i + 2, ']').Some? {
      var j := FindFrom(s, i + 2, ']').value;
      if j + 1 < |s| && s[j + 1] == '(' && FindFrom(s, j + 2, ')').Some? {
        var k := FindFrom(s, j + 2, ')').value;
        if k > j + 2 && !HttpPrefix(s[j + 2..k]) {
          StdFound(s, i, j, k);
          assert MatchStd(s, i) == Some(StdRef(s[i + 2..j], s[j + 2..k]));
          return;
        }
      }
    }
    NoStdRef(s, i);
    assert MatchStd(s, i) == None;
  }

  /** The pieces of a standard match, as slices of `s`. */
  lemma StdPieces(s: string, i: nat, m: StdRef)
    requires StdRefAt(s, i, m)
    ensures var j := i + 2 + |m.alt|;
            var k := j + 2 + |m.path|;
            && k < |s| && s[i..i + 2] == "![" && s[i + 2..j] == m.alt && s[j..j + 2] == "]("
            && s[j + 2..k] == m.path && s[k..k + 1] == ")"
  {
    var x1 := "![" + m.alt;
    var x2 := x1 + "](";
    var x3 := x2 + m.path;
    assert StdText(m) == x3 + ")";
    SplitAt(s, i, x3, ")");
    assert s[i..i + |x2| + |m.path|] == x2 + m.path;
    SplitAt(s, i, x2, m.path);
    assert s[i..i + |x1| + 2] == x1 + "](";
    SplitAt(s, i, x1, "](");
    assert s[i..i + 2 + |m.alt|] == "![" + m.alt;
    SplitAt(s, i, "![", m.alt);
  }

  /** What a match at `i` says about the characters of `s`. */
  lemma StdRefChars(s: string, i: nat, m: StdRef)
    requires StdRefAt(s, i, m)
    ensures var j := i + 2 + |m.alt|;
            var k := j + 2 + |m.path|;
            && k < |s| && s[i] == '!' && s[i + 1] == '[' && s[j] == ']' && s[j + 1] == '('
            && s[k] == ')' && s[i + 2..j] == m.alt && s[j + 2..k] == m.path
            && FindFrom(s, i + 2, ']') == Some(j)
            && FindFrom(s, j + 2, ')') == Some(k)
  {
    StdPieces(s, i, m);
    StdMarks(s, i, m);
    StdFinds(s, i, m);
  }

  /** The four brackets of a match sit where its groups end. */
  lemma StdMarks(s: string, i: nat, m: StdRef)
    requires StdRefAt(s, i, m)
    ensures var j := i + 2 + |m.alt|;
            var k := j + 2 + |m.path|;
            && k < |s| && s[i] == '!' && s[i + 1] == '[' && s[j] == ']' && s[j + 1] == '(' && s[k] == ')'
  {
    var j := i + 2 + |m.alt|;
    var k := j + 2 + |m.path|;
    StdPieces(s, i, m);
    assert s[k] == ')' by { assert s[k] == s[k..k + 1][0]; }
    assert s[j] == ']' && s[j + 1] == '(' by {
      assert s[j] == s[j..j + 2][0] && s[j + 1] == s[j..j + 2][1];
    }
    assert s[i] == '!' && s[i + 1] == '[' by {
      assert s[i] == s[i..i + 2][0] && s[i + 1] == s[i..i + 2][1];
    }
  }

  /** Searching from the start of each group finds the bracket that closes it. */
  lemma StdFinds(s: string, i: nat, m: StdRef)
    requires StdRefAt(s, i, m)
    ensures var j := i + 2 + |m.alt|;
            var k := j + 2 + |m.path|;
            && FindFrom(s, i + 2, ']') == Some(j)
            && FindFrom(s, j + 2, ')') == Some(k)
  {
    var j := i + 2 + |m.alt|;
    var k := j + 2 + |m.path|;
    StdPieces(s, i, m);
    StdMarks(s, i, m);
    FindsClose(s, i + 2, j, ']');
    FindsClose(s, j + 2, k, ')');
  }

  /** A search finds the first occurrence after a stretch free of it. */
  lemma FindsClose(s: string, from: nat, end: nat, c: char)
    requires from <= end < |s| && s[end] == c && c !in s[from..end]
    ensures FindFrom(s, from, c) == Some(end)
  {
    NotIn(s, from, end, c);
    FindFromAt(s, from, c, end);
  }

  /** The matcher's answer is a match, and the only one. */
  lemma StdFound(s: string, i: nat, j: nat, k: nat)
    requires i + 2 <= |s| && s[i] == '!' && s[i + 1] == '['
    requires FindFrom(s, i + 2, ']') == Some(j) && j + 1 < |s| && s[j + 1] == '('
    requires FindFrom(s, j + 2, ')') == Some(k) && k > j + 2 && !HttpPrefix(s[j + 2..k])
    ensures forall m :: StdRefAt(s, i, m) <==> m == StdRef(s[i + 2..j], s[j + 2..k])
  {
    forall m | StdRefAt(s, i, m)
      ensures m == StdRef(s[i + 2..j], s[j + 2..k])
    {
      StdRefChars(s, i, m);
    }
    StdFoundMatches(s, i, j, k);
  }

  /** The matcher's answer is a match. */
  lemma StdFoundMatches(s: string, i: nat, j: nat, k: nat)
    requires i + 2 <= |s| && s[i] == '!' && s[i + 1] == '['
    requires FindFrom(s, i + 2, ']') == Some(j) && j + 1 < |s| && s[j + 1] == '('
    requires FindFrom(s, j + 2, ')') == Some(k) && k > j + 2 && !HttpPrefix(s[j + 2..k])
    ensures StdRefAt(s, i, StdRef(s[i + 2..j], s[j + 2..k]))
  {
    StdFoundText(s, i, j, k);
    NotIn(s, i + 2, j, ']');
    NotIn(s, j + 2, k, ')');
  }

  /** The text from `!` to the closing `)` spells the reference the matcher builds. */
  lemma StdFoundText(s: string, i: nat, j: nat, k: nat)
    requires i + 2 <= j && j + 2 < k < |s|
    requires s[i] == '!' && s[i + 1] == '[' && s[j] == ']' && s[j + 1] == '(' && s[k] == ')'
    ensures s[i..k + 1] == StdText(StdRef(s[i + 2..j], s[j + 2..k]))
  {
    assert s[i..i + 2] == "![";
    assert s[j..j + 2] == "](";
    assert s[k..k + 1] == ")";
    assert s[i..j] == s[i..i + 2] + s[i + 2..j];
    assert s[i..j + 2] == s[i..j] + s[j..j + 2];
    assert s[i..k] == s[i..j + 2] + s[j + 2..k];
    assert s[i..k + 1] == s[i..k] + s[k..k + 1];
  }

  /** When the matcher gives up, no match exists. */
  lemma NoStdRef(s: string, i: nat)
    requires !(i + 2 <= |s| && s[i] == '!' && s[i + 1] == '['
               && FindFrom(s, i + 2, ']').Some?
               && var j := FindFrom(s, i + 2, ']').value;
               && j + 1 < |s| && s[j + 1] == '('
               && FindFrom(s, j + 2, ')').Some?
               && var k := FindFrom(s, j + 2, ')').value;
               && k > j + 2 && !HttpPrefix(s[j + 2..k]))
    ensures forall m :: !StdRefAt(s, i, m)
  {
    forall m | StdRefAt(s, i, m) ensures false {
      StdRefChars(s, i, m);
    }
  }

  // ---------------------------------------------------------------------
  // Wiki syntax: !\[\[([^\]|]+?)(\|[^\]]*)?\]\]
  // ---------------------------------------------------------------------

  /** The first group, and the second without its leading `|`. */
  datatype WikiRef = WikiRef(target: string, alias: Option<string>)

  function AliasText(alias: Option<string>): string
  {
    match alias
    case None => ""
    case Some(a) => "|" + a
  }

  /** The text a wiki reference matches. */
  function WikiText(w: WikiRef): string
  {
    "![[" + w.target + AliasText(w.alias) + "]]"
  }

  /** The pattern matches at `i` with groups `w`: a non-empty target free of
      `]` and `|`, then optionally `|` and text free of `]`, then `]]`. */
  predicate WikiRefAt(s: string, i: nat, w: WikiRef)
  {
    && w.target != [] && ']' !in w.target && '|' !in w.target
    && (w.alias.Some? ==> ']' !in w.alias.value)
    && i + |WikiText(w)| <= |s| && s[i..i + |WikiText(w)|] == WikiText(w)
  }

  /** The first index at or after `from` holding `]` or `|`: where the lazy
      first group has to stop. */
  function FindStop(s: string, from: nat): (r: Option<nat>)
    ensures r.Some? ==> from <= r.value < |s| && (s[r.value] == ']' || s[r.value] == '|')
                        && forall k :: from <= k < r.value ==> s[k] != ']' && s[k] != '|'
    ensures r.None? ==> forall k :: from <= k < |s| ==> s[k] != ']' && s[k] != '|'
    decreases |s| - from
  {
    if from >= |s| then None
    else if s[from] == ']' || s[from] == '|' then Some(from)
    else FindStop(s, from + 1)
  }

  lemma FindStopAt(s: string, from: nat, p: nat)
    requires from <= p < |s| && (s[p] == ']' || s[p] == '|')
    requires forall k :: from <= k < p ==> s[k] != ']' && s[k] != '|'
    ensures FindStop(s, from) == Some(p)
  {
  }

  /** The wiki-syntax match at `i`, if any. */
  function MatchWiki(s: string, i: nat): (r: Option<WikiRef>)
    ensures r.Some? ==> i + |WikiText(r.value)| <= |s|
  {
    if i + 3 <= |s| && s[i] == '!' && s[i + 1] == '[' && s[i + 2] == '[' then
      match FindStop(s, i + 3)
      case None => None
      case Some(p) =>
        if p == i + 3 then None
        else if s[p] == ']' then
          if p + 1 < |s| && s[p + 1] == ']' then Some(WikiRef(s[i + 3..p], None)) else None
        else
          match FindFrom(s, p + 1, ']')
          case None => None
          case Some(q) =>
            if q + 1 < |s| && s[q + 1] == ']' then Some(WikiRef(s[i + 3..p], Some(s[p + 1..q]))) else None
    else None
  }

  /** The matcher finds exactly the matches of the pattern (so the lazy
      group leaves no choice: there is at most one match at `i`). */
  lemma MatchWikiSpec(s: string, i: nat)
    ensures forall w :: WikiRefAt(s, i, w) <==> MatchWiki(s, i) == Some(w)
  {
    if i + 3 <= |s| && s[i] == '!' && s[i + 1] == '[' && s[i + 2] == '[' && FindStop(s, i + 3).Some? {
      var p := FindStop(s, i + 3).value;
      if p > i + 3 {
        if s[p] == ']' && p + 1 < |s| && s[p + 1] == ']' {
          WikiFound(s, i, p, None);
          assert MatchWiki(s, i) == Some(WikiRef(s[i + 3..p], None));
          return;
        } else if s[p] == '|' && FindFrom(s, p + 1, ']').Some? {
          var q := FindFrom(s, p + 1, ']');
          if q.value + 1 < |s| && s[q.value + 1] == ']' {
            WikiFound(s, i, p, q);
            assert MatchWiki(s, i) == Some(WikiRef(s[i + 3..p], Some(s[p + 1..q.value])));
            return;
          }
        }
      }
    }
    NoWikiRef(s, i);
    assert MatchWiki(s, i) == None;
  }

  /** The pieces of a wiki match, as slices of `s`. */
  lemma WikiPieces(s: string, i: nat, w: WikiRef)
    requires WikiRefAt(s, i, w)
    ensures var p := i + 3 + |w.target|;
            var e := p + |AliasText(w.alias)|;
            && e + 2 <= |s|
            && s[i..i + 3] == "![[" && s[i + 3..p] == w.target
            && s[p..e] == AliasText(w.alias) && s[e..e + 2] == "]]"
  {
    var a := AliasText(w.alias);
    var x1 := "![[" + w.target;
    var x2 := x1 + a;
    assert WikiText(w) == x2 + "]]";
    SplitAt(s, i, x2, "]]");
    assert s[i..i + |x1| + |a|] == x1 + a;
    SplitAt(s, i, x1, a);
    assert s[i..i + 3 + |w.target|] == "![[" + w.target;
    SplitAt(s, i, "![[", w.target);
  }

  /** What a wiki match at `i` says about the characters of `s`. */
  lemma WikiRefChars(s: string, i: nat, w: WikiRef)
    requires WikiRefAt(s, i, w)
    ensures var p := i + 3 + |w.target|;
            && p < |s| && s[i] == '!' && s[i + 1] == '[' && s[i + 2] == '['
            && s[i + 3..p] == w.target && FindStop(s, i + 3) == Some(p)
            && (w.alias.None? ==> s[p] == ']' && p + 1 < |s| && s[p + 1] == ']')
            && (w.alias.Some? ==>
                  var q := p + 1 + |w.alias.value|;
                  && s[p] == '|' && q + 1 < |s| && s[q + 1] == ']'
                  && s[p + 1..q] == w.alias.value && FindFrom(s, p + 1, ']') == Some(q))
  {
    var p := i + 3 + |w.target|;
    var e := p + |AliasText(w.alias)|;
    WikiPieces(s, i, w);
    assert s[i] == '!' && s[i + 1] == '[' && s[i + 2] == '[' by {
      assert s[i] == s[i..i + 3][0] && s[i + 1] == s[i..i + 3][1] && s[i + 2] == s[i..i + 3][2];
    }
    assert s[e] == ']' && s[e + 1] == ']' by {
      assert s[e] == s[e..e + 2][0] && s[e + 1] == s[e..e + 2][1];
    }
    WikiAliasChars(s, p, w.alias);
    TargetStop(s, i + 3, p);
  }

  /** A target free of `]` and `|`, followed by one of them, is exactly where
      the lazy first group stops. */
  lemma TargetStop(s: string, from: nat, p: nat)
    requires from <= p < |s| && (s[p] == ']' || s[p] == '|')
    requires ']' !in s[from..p] && '|' !in s[from..p]
    ensures FindStop(s, from) == Some(p)
  {
    NotIn(s, from, p, ']');
    NotIn(s, from, p, '|');
    FindStopAt(s, from, p);
  }

  /** The alias part of a wiki match, as characters. */
  lemma WikiAliasChars(s: string, p: nat, alias: Option<string>)
    requires alias.Some? ==> ']' !in alias.value
    requires var e := p + |AliasText(alias)|;
             e + 2 <= |s| && s[p..e] == AliasText(alias) && s[e] == ']' && s[e + 1] == ']'
    ensures alias.None? ==> s[p] == ']' && p + 1 < |s| && s[p + 1] == ']'
    ensures alias.Some? ==>
              var q := p + 1 + |alias.value|;
              && s[p] == '|' && q + 1 < |s| && s[q + 1] == ']'
              && s[p + 1..q] == alias.value && FindFrom(s, p + 1, ']') == Some(q)
  {
    match alias
    case None =>
    case Some(a) =>
      var q := p + 1 + |a|;
      SplitAt(s, p, "|", a);
      assert s[p] == '|' by { assert s[p] == s[p..p + 1][0]; }
      assert s[p + 1..q] == a;
      NotIn(s, p + 1, q, ']');
      FindFromAt(s, p + 1, ']', q);
  }

  /** The matcher's answer is a match, and the only one. */
  lemma WikiFound(s: string, i: nat, p: nat, q: Option<nat>)
    requires i + 3 <= |s| && s[i] == '!' && s[i + 1] == '[' && s[i + 2] == '['
    requires FindStop(s, i + 3) == Some(p) && p > i + 3
    requires q.None? ==> s[p] == ']' && p + 1 < |s| && s[p + 1] == ']'
    requires q.Some? ==> s[p] == '|' && FindFrom(s, p + 1, ']') == q && q.value + 1 < |s| && s[q.value + 1] == ']'
    ensures var w0 := WikiRef(s[i + 3..p], if q.Some? then Some(s[p + 1..q.value]) else None);
            forall w :: WikiRefAt(s, i, w) <==> w == w0
  {
    forall w | WikiRefAt(s, i, w)
      ensures w == WikiRef(s[i + 3..p], if q.Some? then Some(s[p + 1..q.value]) else None)
    {
      WikiUnique(s, i, p, q, w);
    }
    WikiFoundMatches(s, i, p, q);
  }

  /** A wiki match at `i` has the groups the matcher reads off. */
  lemma WikiUnique(s: string, i: nat, p: nat, q: Option<nat>, w: WikiRef)
    requires FindStop(s, i + 3) == Some(p)
    requires q.None? ==> s[p] == ']'
    requires q.Some? ==> s[p] == '|' && FindFrom(s, p + 1, ']') == q
    requires WikiRefAt(s, i, w)
    ensures w == WikiRef(s[i + 3..p], if q.Some? then Some(s[p + 1..q.value]) else None)
  {
    WikiRefChars(s, i, w);
    assert i + 3 + |w.target| == p;
    match w.alias
    case None =>
      assert q.None?;
    case Some(a) =>
      assert q == Some(p + 1 + |a|);
  }

  lemma WikiFoundMatches(s: string, i: nat, p: nat, q: Option<nat>)
    requires i + 3 <= |s| && s[i] == '!' && s[i + 1] == '[' && s[i + 2] == '['
    requires FindStop(s, i + 3) == Some(p) && p > i + 3
    requires q.None? ==> s[p] == ']' && p + 1 < |s| && s[p + 1] == ']'
    requires q.Some? ==> s[p] == '|' && FindFrom(s, p + 1, ']') == q && q.value + 1 < |s| && s[q.value + 1] == ']'
    ensures WikiRefAt(s, i, WikiRef(s[i + 3..p], if q.Some? then Some(s[p + 1..q.value]) else None))
  {
    var w0 := WikiRef(s[i + 3..p], if q.Some? then Some(s[p + 1..q.value]) else None);
    NotIn(s, i + 3, p, ']');
    NotIn(s, i + 3, p, '|');
    if q.Some? {
      var e := q.value;
      NotIn(s, p + 1, e, ']');
      WikiAliasText(s, i, p, e);
    } else {
      WikiPlainText(s, i, p);
    }
  }

  /** `![[target]]` spelled out character by character. */
  lemma WikiPlainText(s: string, i: nat, p: nat)
    requires i + 3 <= p && p + 1 < |s|
    requires s[i] == '!' && s[i + 1] == '[' && s[i + 2] == '[' && s[p] == ']' && s[p + 1] == ']'
    ensures s[i..p + 2] == WikiText(WikiRef(s[i + 3..p], None))
  {
    assert s[i..i + 3] == "![[";
    assert s[p..p + 2] == "]]";
    assert s[i..p] == s[i..i + 3] + s[i + 3..p];
    assert s[i..p + 2] == s[i..p] + s[p..p + 2];
  }

  /** `![[target|alias]]` spelled out character by character. */
  lemma WikiAliasText(s: string, i: nat, p: nat, e: nat)
    requires i + 3 <= p < e && e + 1 < |s|
    requires s[i] == '!' && s[i + 1] == '[' && s[i + 2] == '[' && s[p] == '|'
    requires s[e] == ']' && s[e + 1] == ']'
    ensures s[i..e + 2] == WikiText(WikiRef(s[i + 3..p], Some(s[p + 1..e])))
  {
    assert s[i..i + 3] == "![[";
    assert s[p..e] == "|" + s[p + 1..e];
    assert s[p..e] == AliasText(Some(s[p + 1..e]));
    assert s[e..e + 2] == "]]";
    assert s[i..p] == s[i..i + 3] + s[i + 3..p];
    assert s[i..e] == s[i..p] + s[p..e];
    assert s[i..e + 2] == s[i..e] + s[e..e + 2];
  }

  /** When the matcher gives up, no match exists. */
  lemma NoWikiRef(s: string, i: nat)
    requires !(i + 3 <= |s| && s[i] == '!' && s[i + 1] == '[' && s[i + 2] == '['
               && FindStop(s, i + 3).Some?
               && var p := FindStop(s, i + 3).value;
               && p > i + 3
               && ((s[p] == ']' && p + 1 < |s| && s[p + 1] == ']')
                   || (s[p] == '|' && FindFrom(s, p + 1, ']').Some?
                       && var q := FindFrom(s, p + 1, ']').value;
                       q + 1 < |s| && s[q + 1] == ']')))
    ensures forall w :: !WikiRefAt(s, i, w)
  {
    forall w | WikiRefAt(s, i, w) ensures false {
      WikiRefChars(s, i, w);
    }
  }
}
