/** Splitting a note into its YAML front matter and its body, and joining
    them back (`parse_front_matter` / `dump_front_matter`, identical in
    publish.py and publish_gui.py).

    The block is recognised by `re.match(r"^---\s*\n(.*?)\n---\s*\n", s, re.DOTALL)`.
    The search below follows the order in which Python's backtracking
    engine tries the alternatives, so the match it returns is the one
    Python returns:
      - the greedy `\s*\n` after the opening `---` first ends at the LAST
        newline of the whitespace run there, then at earlier ones;
      - the lazy group `(.*?)` takes the SHORTEST extent after which the
        closing `\n---\s*\n` matches;
      - the closing greedy `\s*\n` ends at the last newline of its
        whitespace run (being last in the pattern, that choice always wins). */
module FrontMatter {
  import opened Base
  import opened Dict
  import opened Yaml

  /** Offsets of a match: the group is `s[start..stop]`, the match is `s[..end]`. */
  datatype Block = Block(start: nat, stop: nat, end: nat)

  /** The pattern matches `s[..b.end]` with its group at `s[b.start..b.stop]`:
      `---`, whitespace, a newline, anything, a newline, `---`, whitespace, a newline. */
  predicate BlockAt(s: string, b: Block)
  {
    && 4 <= b.start <= b.stop
    && b.stop + 4 < b.end <= |s|
    && s[..3] == "---"
    && (forall q :: 3 <= q < b.start - 1 ==> IsSpace(s[q]))
    && s[b.start - 1] == '\n'
    && MarkerAt(s, b.stop)
    && (forall q :: b.stop + 4 <= q < b.end - 1 ==> IsSpace(s[q]))
    && s[b.end - 1] == '\n'
  }

  /** Python's backtracking reaches `r` before `b`: a later opening newline
      first, then a shorter group, then a longer closing whitespace run. */
  predicate Prefers(r: Block, b: Block)
  {
    && b.start <= r.start
    && (b.start == r.start ==> r.stop <= b.stop)
    && (b.start == r.start && b.stop == r.stop ==> b.end <= r.end)
  }

  /** The match `re.match` returns: the block reached before every other one. */
  ghost predicate FirstBlock(s: string, b: Block)
  {
    BlockAt(s, b) && forall b' :: BlockAt(s, b') ==> Prefers(b, b')
  }

  /** At most one block is reached first. */
  lemma FirstBlockUnique(s: string, b: Block, b': Block)
    requires FirstBlock(s, b) && FirstBlock(s, b')
    ensures b == b'
  {
    assert Prefers(b, b') && Prefers(b', b);
  }

  /** The text `\n---` starts at `k`. */
  predicate MarkerAt(s: string, k: nat)
  {
    k + 4 <= |s| && s[k] == '\n' && s[k + 1] == '-' && s[k + 2] == '-' && s[k + 3] == '-'
  }

  /** End of the whitespace run starting at `i` (how far a greedy `\s*` reaches). */
  function WsEnd(s: string, i: nat): (e: nat)
    requires i <= |s|
    ensures i <= e <= |s| && (e == |s| || !IsSpace(s[e]))
    decreases |s| - i
  {
    if i < |s| && IsSpace(s[i]) then WsEnd(s, i + 1) else i
  }

  /** Everything the run passes over is whitespace. */
  lemma {:induction false} WsEndSpaces(s: string, i: nat)
    requires i <= |s|
    ensures forall q :: i <= q < WsEnd(s, i) ==> IsSpace(s[q])
    decreases |s| - i
  {
    if i < |s| && IsSpace(s[i]) {
      WsEndSpaces(s, i + 1);
    }
  }

  /** The last newline in `s[lo..hi]`. */
  function LastNewline(s: string, lo: nat, hi: nat): (r: Option<nat>)
    requires lo <= hi <= |s|
    ensures r.Some? ==> lo <= r.value < hi && s[r.value] == '\n'
    decreases hi - lo
  {
    if hi == lo then None
    else if s[hi - 1] == '\n' then Some(hi - 1)
    else LastNewline(s, lo, hi - 1)
  }

  /** Every newline in `s[lo..hi]` is found, at or after it. */
  lemma {:induction false} LastNewlineLast(s: string, lo: nat, hi: nat)
    requires lo <= hi <= |s|
    ensures forall q :: lo <= q < hi && s[q] == '\n' ==>
              LastNewline(s, lo, hi).Some? && q <= LastNewline(s, lo, hi).value
    decreases hi - lo
  {
    if lo < hi && s[hi - 1] != '\n' {
      LastNewlineLast(s, lo, hi - 1);
    }
  }

  /** End of the match of the closing `\n---\s*\n` when it starts at `k`. */
  function CloseAt(s: string, k: nat): (r: Option<nat>)
    ensures r.Some? ==> k + 4 < r.value <= |s| && MarkerAt(s, k) && s[r.value - 1] == '\n'
  {
    if MarkerAt(s, k) then
      match LastNewline(s, k + 4, WsEnd(s, k + 4))
      case Some(p) => Some(p + 1)
      case None => None
    else None
  }

  /** The closing whitespace run is whitespace. */
  lemma CloseAtSpaces(s: string, k: nat)
    ensures CloseAt(s, k).Some? ==> forall q :: k + 4 <= q < CloseAt(s, k).value - 1 ==> IsSpace(s[q])
  {
    if MarkerAt(s, k) {
      WsEndSpaces(s, k + 4);
    }
  }

  /** A closing delimiter at `k` is found whenever one can end at `e`, and
      the one found ends no earlier. */
  lemma CloseAtComplete(s: string, k: nat, e: nat)
    requires k + 4 < e <= |s| && MarkerAt(s, k) && s[e - 1] == '\n'
    requires forall q :: k + 4 <= q < e - 1 ==> IsSpace(s[q])
    ensures CloseAt(s, k).Some? && e <= CloseAt(s, k).value
  {
    var w := WsEnd(s, k + 4);
    assert e - 1 < w;
    LastNewlineLast(s, k + 4, w);
  }

  /** The lazy group: the first `k >= from` where the closing delimiter matches. */
  function FindClose(s: string, from: nat): Option<nat>
    decreases |s| - from
  {
    if from + 4 > |s| then None
    else if CloseAt(s, from).Some? then Some(from)
    else FindClose(s, from + 1)
  }

  /** Where the lazy search stops, the closing delimiter matches. */
  lemma {:induction false} FindCloseSound(s: string, from: nat)
    ensures FindClose(s, from).Some? ==> from <= FindClose(s, from).value
                                         && CloseAt(s, FindClose(s, from).value).Some?
    decreases |s| - from
  {
    if from + 4 <= |s| && CloseAt(s, from).None? {
      FindCloseSound(s, from + 1);
    }
  }

  /** ... and no closing delimiter matches before it. */
  lemma {:induction false} FindCloseFirst(s: string, from: nat, j: nat)
    requires FindClose(s, from).Some? && from <= j < FindClose(s, from).value
    ensures CloseAt(s, j).None?
    decreases |s| - from
  {
    if j > from {
      FindCloseFirst(s, from + 1, j);
    }
  }

  lemma {:induction false} FindCloseComplete(s: string, from: nat, k: nat)
    requires from <= k && CloseAt(s, k).Some?
    ensures FindClose(s, from).Some?
    decreases k - from
  {
    if from < k && CloseAt(s, from).None? {
      FindCloseComplete(s, from + 1, k);
    }
  }

  lemma {:induction false} FindCloseSkip(s: string, from: nat, k: nat)
    requires from <= k <= |s|
    requires forall j :: from <= j < k ==> CloseAt(s, j).None?
    ensures FindClose(s, from) == FindClose(s, k)
    decreases k - from
  {
    if from < k {
      FindCloseSkip(s, from + 1, k);
    }
  }

  lemma OpenedBlock(s: string, t: nat, k: nat, e: nat)
    requires |s| >= 3 && s[..3] == "---"
    requires 3 <= t < |s| && s[t] == '\n' && forall q :: 3 <= q < t ==> IsSpace(s[q])
    requires t + 1 <= k && CloseAt(s, k) == Some(e)
    ensures BlockAt(s, Block(t + 1, k, e))
  {
    CloseAtSpaces(s, k);
  }

  /** The greedy `\s*\n` after the opening `---`: newline positions below
      `hi` are tried from the last one down, and the first one after which
      the lazy group finds a close wins. The result is that newline. */
  function TryOpen(s: string, hi: nat): Option<nat>
    requires 3 <= hi <= |s|
    decreases hi
  {
    match LastNewline(s, 3, hi)
    case None => None
    case Some(t) =>
      if FindClose(s, t + 1).Some? then Some(t) else TryOpen(s, t)
  }

  /** The match whose opening `\s*\n` ends at newline `t`: the group runs
      to the first close after it, and the close ends at its greedy newline. */
  function OpenedAt(s: string, t: nat): (b: Block)
    requires FindClose(s, t + 1).Some?
    ensures b.start == t + 1 <= b.stop && FindClose(s, b.start) == Some(b.stop) && CloseAt(s, b.stop) == Some(b.end)
  {
    FindCloseSound(s, t + 1);
    var k := FindClose(s, t + 1).value;
    Block(t + 1, k, CloseAt(s, k).value)
  }

  /** `TryOpen` at its last newline `t`, when the lazy group finds a close
      after it. */
  lemma TryOpenHit(s: string, hi: nat, t: nat)
    requires 3 <= hi <= |s|
    requires LastNewline(s, 3, hi) == Some(t) && FindClose(s, t + 1).Some?
    ensures TryOpen(s, hi) == Some(t)
  {
  }

  /** `TryOpen` at its last newline `t`, when the lazy group finds no close
      after it: it backtracks to the newlines before `t`. */
  lemma TryOpenMiss(s: string, hi: nat, t: nat)
    requires 3 <= hi <= |s|
    requires LastNewline(s, 3, hi) == Some(t) && FindClose(s, t + 1).None?
    ensures TryOpen(s, hi) == TryOpen(s, t)
  {
  }

  /** What `TryOpen` finds is a newline below `hi` after which the lazy
      group finds a close. */
  lemma {:induction false} TryOpenOpens(s: string, hi: nat)
    requires 3 <= hi <= |s|
    ensures var r := TryOpen(s, hi);
            r.Some? ==> 3 <= r.value < hi && s[r.value] == '\n' && FindClose(s, r.value + 1).Some?
    decreases hi
  {
    match LastNewline(s, 3, hi)
    case None =>
    case Some(t) =>
      if FindClose(s, t + 1).Some? {
        TryOpenHit(s, hi, t);
      } else {
        TryOpenMiss(s, hi, t);
        TryOpenOpens(s, t);
      }
  }

  /** Backtracking never passes over an opening newline `o` below `hi`
      after which the lazy group finds a close. */
  lemma {:induction false} TryOpenLatest(s: string, hi: nat, o: nat)
    requires 3 <= o < hi <= |s| && s[o] == '\n' && FindClose(s, o + 1).Some?
    ensures TryOpen(s, hi).Some? && o <= TryOpen(s, hi).value
    decreases hi
  {
    var nl := LastNewline(s, 3, hi);
    LastNewlineLast(s, 3, hi);
    assert nl.Some? && o <= nl.value;
    var t := nl.value;
    if FindClose(s, t + 1).Some? {
      TryOpenHit(s, hi, t);
    } else {
      TryOpenMiss(s, hi, t);
      TryOpenLatest(s, t, o);
    }
  }

  /** The lazy group, started right after a block's opening newline, stops
      at that block's close or earlier. */
  lemma OpenedFirst(s: string, b: Block)
    requires BlockAt(s, b)
    ensures FindClose(s, b.start).Some? && Prefers(OpenedAt(s, b.start - 1), b)
  {
    CloseAtComplete(s, b.stop, b.end);
    FindCloseComplete(s, b.start, b.stop);
    if b.stop < FindClose(s, b.start).value {
      FindCloseFirst(s, b.start, b.stop);
    }
  }

  /** An opening newline in the whitespace run after `---`, followed by a
      close, gives a block. */
  lemma OpenedAtBlock(s: string, t: nat)
    requires |s| >= 3 && s[..3] == "---"
    requires 3 <= t < WsEnd(s, 3) && s[t] == '\n' && FindClose(s, t + 1).Some?
    ensures BlockAt(s, OpenedAt(s, t))
  {
    var b := OpenedAt(s, t);
    WsEndSpaces(s, 3);
    OpenedBlock(s, t, b.stop, b.end);
  }

  /** A block's opening newline lies inside the whitespace run after `---`. */
  lemma OpenInRun(s: string, b: Block)
    requires BlockAt(s, b)
    ensures b.start - 1 < WsEnd(s, 3)
  {
    var w := WsEnd(s, 3);
    if w <= b.start - 1 {
      assert IsSpace(s[w]);
    }
  }

  /** The search from the whitespace run after the opening `---` finds a
      block, and one reached before every other block; it finds nothing
      only when there is no block. */
  lemma TryOpenBest(s: string)
    requires |s| >= 3 && s[..3] == "---"
    ensures var r := TryOpen(s, WsEnd(s, 3));
            && (r.None? ==> forall b :: !BlockAt(s, b))
            && (r.Some? ==> FindClose(s, r.value + 1).Some? && FirstBlock(s, OpenedAt(s, r.value)))
  {
    var r := TryOpen(s, WsEnd(s, 3));
    TryOpenAll(s);
    if r.Some? {
      TryOpenOpens(s, WsEnd(s, 3));
      OpenedAtBlock(s, r.value);
    }
  }

  /** The search reaches its match before every block. */
  lemma TryOpenAll(s: string)
    requires |s| >= 3
    ensures var r := TryOpen(s, WsEnd(s, 3));
            forall b :: BlockAt(s, b) ==>
              r.Some? && FindClose(s, r.value + 1).Some? && Prefers(OpenedAt(s, r.value), b)
  {
    forall b | BlockAt(s, b)
      ensures var r := TryOpen(s, WsEnd(s, 3));
              r.Some? && FindClose(s, r.value + 1).Some? && Prefers(OpenedAt(s, r.value), b)
    {
      TryOpenBlock(s, b);
    }
  }

  /** The search reaches its match before any given block. */
  lemma TryOpenBlock(s: string, b: Block)
    requires BlockAt(s, b)
    ensures var r := TryOpen(s, WsEnd(s, 3));
            r.Some? && FindClose(s, r.value + 1).Some? && Prefers(OpenedAt(s, r.value), b)
  {
    OpenedFirst(s, b);
    OpenInRun(s, b);
    TryOpenOver(s, b.start - 1, b);
  }

  /** The search reaches its match before a block that opens at newline `o`. */
  lemma TryOpenOver(s: string, o: nat, b: Block)
    requires 3 <= o < |s| && o < WsEnd(s, 3) && s[o] == '\n' && FindClose(s, o + 1).Some?
    requires o + 1 == b.start && Prefers(OpenedAt(s, o), b)
    ensures var r := TryOpen(s, WsEnd(s, 3));
            r.Some? && FindClose(s, r.value + 1).Some? && Prefers(OpenedAt(s, r.value), b)
  {
    var hi := WsEnd(s, 3);
    TryOpenLatest(s, hi, o);
    TryOpenOpens(s, hi);
  }

  /** The match `re.match` finds, if any. */
  function MatchBlock(s: string): (r: Option<Block>)
    ensures r.Some? ==> FirstBlock(s, r.value)
    ensures r.None? ==> forall b :: !BlockAt(s, b)
  {
    if |s| >= 3 && s[..3] == "---" then
      TryOpenBest(s);
      match TryOpen(s, WsEnd(s, 3))
      case Some(t) => Some(OpenedAt(s, t))
      case None => None
    else None
  }

  /** `meta = yaml.safe_load(raw); if not isinstance(meta, dict): meta = {}`,
      with a `YAMLError` also giving `{}`. */
  function AsMapping(l: Loaded): Header
  {
    if l.Doc? && l.v.Map? then l.v.entries else []
  }

  /** `parse_front_matter(content)`: `(meta or None, body)`. */
  function Parse(c: Codec, s: string): (r: (Option<Header>, string))
    ensures r.0.None? <==> forall b :: !BlockAt(s, b)
    ensures r.0.None? ==> r.1 == s
    ensures r.0.Some? ==> exists b :: FirstBlock(s, b) && r.1 == s[b.end..]
                                      && r.0.value == AsMapping(c.load(s[b.start..b.stop]))
  {
    match MatchBlock(s)
    case None => (None, s)
    case Some(b) => (Some(AsMapping(c.load(s[b.start..b.stop]))), s[b.end..])
  }

  /** `Parse` once the match is known. */
  lemma ParseMatched(c: Codec, s: string, b: Block, group: string, body: string)
    requires MatchBlock(s) == Some(b)
    requires b.start <= b.stop <= b.end <= |s| && s[b.start..b.stop] == group && s[b.end..] == body
    ensures Parse(c, s) == (Some(AsMapping(c.load(group))), body)
  {
  }

  /** With two closing lines, the group stops at the first one and the
      second stays in the body. */
  lemma ParseFirstClose(c: Codec)
    ensures Parse(c, "---\na\n---\nb\n---\n") == (Some(AsMapping(c.load("a"))), "b\n---\n")
  {
    var s := "---\na\n---\nb\n---\n";
    assert WsEnd(s, 3) == 4 by { assert WsEnd(s, 4) == 4; }
    assert LastNewline(s, 3, 4) == Some(3);
    assert CloseAt(s, 4).None?;
    assert CloseAt(s, 5) == Some(10) by {
      assert MarkerAt(s, 5);
      assert WsEnd(s, 9) == 10 by { assert WsEnd(s, 10) == 10; }
    }
    assert FindClose(s, 4) == Some(5);
    assert TryOpen(s, 4) == Some(3);
    ParseMatched(c, s, Block(4, 5, 10), "a", "b\n---\n");
  }

  /** A block that does not load as a mapping still yields a header: the
      empty one, never an absent one. */
  lemma ParseMalformedBlock(c: Codec, s: string)
    requires exists b :: BlockAt(s, b)
    requires forall b :: BlockAt(s, b) ==> !(c.load(s[b.start..b.stop]).Doc? && c.load(s[b.start..b.stop]).v.Map?)
    ensures Parse(c, s).0 == Some([])
  {
  }

  /** `dump_front_matter(meta, body)` */
  function Dump(c: Codec, h: Header, body: string): string
  {
    "---\n" + c.dump(h) + "---\n" + body
  }

  /** What the round trip assumes of the text the YAML emitter writes: it
      ends with a newline, starts with a non-blank character and has no line
      starting with `---`. */
  predicate CleanYaml(y: string)
  {
    && |y| >= 1 && y[|y| - 1] == '\n' && !IsSpace(y[0])
    && (forall k :: 0 <= k < |y| ==> !MarkerAt(y, k))
  }

  /** ... and of the emitter and the loader together: the text loads back
      (without its final newline, as the group captures it) as `h`. */
  predicate DumpsCleanly(c: Codec, h: Header)
  {
    var y := c.dump(h);
    CleanYaml(y) && c.load(y[..|y| - 1]) == Doc(Map(h))
  }

  /** Where the body starts again after a parse when the text after the
      closing `---\n` is `b`: the closing `\s*\n` also swallows every line of
      `b` up to its last newline inside the leading whitespace run. */
  function Swallowed(b: string): (n: nat)
    ensures n <= |b|
  {
    match LastNewline(b, 0, WsEnd(b, 0))
    case Some(p) => p + 1
    case None => 0
  }

  lemma {:induction false} WsEndShift(p: string, b: string, i: nat)
    requires i <= |b|
    ensures WsEnd(p + b, |p| + i) == |p| + WsEnd(b, i)
    decreases |b| - i
  {
    assert forall q :: 0 <= q < |b| ==> (p + b)[|p| + q] == b[q];
    if i < |b| && IsSpace(b[i]) {
      WsEndShift(p, b, i + 1);
    }
  }

  lemma {:induction false} LastNewlineShift(p: string, b: string, lo: nat, hi: nat)
    requires lo <= hi <= |b|
    ensures LastNewline(p + b, |p| + lo, |p| + hi) ==
              match LastNewline(b, lo, hi) case Some(q) => Some(|p| + q) case None => None
    decreases hi - lo
  {
    if lo < hi {
      assert (p + b)[|p| + hi - 1] == b[hi - 1];
      LastNewlineShift(p, b, lo, hi - 1);
    }
  }

  lemma NoCloseInsideYaml(y: string, b: string, j: nat)
    requires CleanYaml(y) && 4 <= j < 3 + |y|
    ensures CloseAt("---\n" + y + "---\n" + b, j).None?
  {
    var t := "---\n" + y + "---\n" + b;
    if j + 4 <= 4 + |y| {
      assert t[j] == y[j - 4] && t[j + 1] == y[j - 3] && t[j + 2] == y[j - 2] && t[j + 3] == y[j - 1];
      assert !MarkerAt(y, j - 4);
    } else {
      assert t[3 + |y|] == '\n';
    }
  }

  /** A newline at `lo` is the last one in `s[lo..hi]` unless a later one follows. */
  lemma {:induction false} LastNewlineFrom(s: string, lo: nat, hi: nat)
    requires lo < hi <= |s| && s[lo] == '\n'
    ensures LastNewline(s, lo, hi) ==
              match LastNewline(s, lo + 1, hi) case Some(q) => Some(q) case None => Some(lo)
    decreases hi - lo
  {
    if lo + 1 < hi && s[hi - 1] != '\n' {
      LastNewlineFrom(s, lo, hi - 1);
    }
  }

  /** After a prefix ending in a newline, the closing `\s*\n` ends where
      `Swallowed` says. */
  lemma CloseRun(p: string, b: string)
    requires |p| >= 1 && p[|p| - 1] == '\n'
    ensures LastNewline(p + b, |p| - 1, |p| + WsEnd(b, 0)) == Some(|p| - 1 + Swallowed(b))
  {
    var w := WsEnd(b, 0);
    assert (p + b)[|p| - 1] == '\n';
    LastNewlineFrom(p + b, |p| - 1, |p| + w);
    LastNewlineShift(p, b, 0, w);
  }

  lemma CloseAfterYaml(y: string, b: string)
    requires CleanYaml(y)
    ensures CloseAt("---\n" + y + "---\n" + b, 3 + |y|) == Some(|y| + 8 + Swallowed(b))
  {
    var p := "---\n" + y + "---\n";
    var t := p + b;
    var k := 3 + |y|;
    assert t[k] == y[|y| - 1] && t[k + 1..k + 4] == "---";
    assert MarkerAt(t, k);
    WsEndShift(p, b, 0);
    assert t[k + 4] == '\n' && |p| == k + 5;
    assert WsEnd(t, k + 4) == |p| + WsEnd(b, 0) by { assert IsSpace(t[k + 4]); }
    CloseRun(p, b);
  }

  lemma MatchDumped(y: string, b: string)
    requires CleanYaml(y)
    ensures MatchBlock("---\n" + y + "---\n" + b) == Some(Block(4, 3 + |y|, |y| + 8 + Swallowed(b)))
  {
    var t := "---\n" + y + "---\n" + b;
    assert t[..3] == "---";
    DumpedOpen(y, b);
  }

  /** In dumped text the search opens at the first newline and the group
      stops at the dumped closing `---`. */
  lemma DumpedOpen(y: string, b: string)
    requires CleanYaml(y)
    ensures var t := "---\n" + y + "---\n" + b;
            && 3 < |t| && WsEnd(t, 3) == 4 && TryOpen(t, 4) == Some(3)
            && FindClose(t, 4).Some? && OpenedAt(t, 3) == Block(4, 3 + |y|, |y| + 8 + Swallowed(b))
  {
    var t := "---\n" + y + "---\n" + b;
    var k := 3 + |y|;
    assert t[3] == '\n' && t[4] == y[0];
    assert WsEnd(t, 3) == 4 by { assert WsEnd(t, 4) == 4; }
    assert LastNewline(t, 3, 4) == Some(3);
    forall j | 4 <= j < k ensures CloseAt(t, j).None? {
      NoCloseInsideYaml(y, b, j);
    }
    CloseAfterYaml(y, b);
    assert FindClose(t, k) == Some(k);
    FindCloseSkip(t, 4, k);
    TryOpenHit(t, 4, 3);
  }

  /** Where the group and the body sit in dumped text. */
  lemma DumpedSlices(y: string, b: string)
    requires |y| >= 1
    ensures var t := "---\n" + y + "---\n" + b;
            && t[4..3 + |y|] == y[..|y| - 1]
            && t[|y| + 8 + Swallowed(b)..] == b[Swallowed(b)..]
  {
    var p := "---\n" + y + "---\n";
    var t := p + b;
    assert t[4..3 + |y|] == y[..|y| - 1] by {
      assert forall i :: 4 <= i < 3 + |y| ==> t[i] == y[i - 4];
    }
    assert t[|p| + Swallowed(b)..] == b[Swallowed(b)..];
  }

  /** Parsing what `Dump` wrote gives back the header, and the body minus
      what the closing delimiter swallows. */
  lemma RoundTrip(c: Codec, h: Header, b: string)
    requires DumpsCleanly(c, h)
    ensures Parse(c, Dump(c, h, b)) == (Some(h), b[Swallowed(b)..])
  {
    ParseDumped(c, c.dump(h), b);
  }

  /** Parsing dumped text reads the group back as the dumped YAML minus its
      final newline. */
  lemma ParseDumped(c: Codec, y: string, b: string)
    requires CleanYaml(y)
    ensures Parse(c, "---\n" + y + "---\n" + b) == (Some(AsMapping(c.load(y[..|y| - 1]))), b[Swallowed(b)..])
  {
    MatchDumped(y, b);
    DumpedSlices(y, b);
    ParseMatched(c, "---\n" + y + "---\n" + b, Block(4, 3 + |y|, |y| + 8 + Swallowed(b)), y[..|y| - 1], b[Swallowed(b)..]);
  }

  /** Nothing is swallowed exactly when the leading whitespace run holds
      no newline. */
  lemma SwallowedNone(b: string)
    ensures Swallowed(b) == 0 <==> '\n' !in b[..WsEnd(b, 0)]
  {
    var w := WsEnd(b, 0);
    LastNewlineLast(b, 0, w);
    assert forall q :: 0 <= q < w ==> b[q] == b[..w][q];
  }

  /** The body comes back intact exactly when its leading whitespace run
      holds no newline. */
  lemma RoundTripBody(c: Codec, h: Header, b: string)
    requires DumpsCleanly(c, h)
    ensures Parse(c, Dump(c, h, b)).1 == b <==> '\n' !in b[..WsEnd(b, 0)]
  {
    RoundTrip(c, h, b);
    SwallowedNone(b);
    assert |b[Swallowed(b)..]| == |b| - Swallowed(b);
  }
}
