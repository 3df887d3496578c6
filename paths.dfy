/** The part of `pathlib` the scripts use, on `/`-separated paths, and the
    filesystem as a map from file paths to their bytes. */
module Paths {
  import opened Base

  /** An absolute path, as its components below the root. */
  type Path = seq<string>

  type Bytes = seq<bv8>

  /** The regular files, keyed by their normalised absolute paths. */
  type FileSystem = map<Path, Bytes>

  /** `p.parent`; the parent of the root is the root. */
  function Parent(p: Path): (q: Path)
    ensures p == [] ==> q == []
    ensures p != [] ==> q + [p[|p| - 1]] == p
  {
    if p == [] then [] else p[..|p| - 1]
  }

  /** `p.parent` taken `n` times. */
  function Ancestor(p: Path, n: nat): Path
  {
    if n == 0 then p else Ancestor(Parent(p), n - 1)
  }

  /** The components `pathlib` keeps when it parses `ref`: empty ones (from
      doubled or trailing slashes) and `.` are dropped, `..` is kept. */
  function Parts(ref: string): (cs: seq<string>)
    ensures forall k :: 0 <= k < |cs| ==> cs[k] != "" && cs[k] != "." && '/' !in cs[k]
  {
    KeepParts(Split(ref, '/'))
  }

  function KeepParts(pieces: seq<string>): (cs: seq<string>)
    requires forall k :: 0 <= k < |pieces| ==> '/' !in pieces[k]
    ensures forall k :: 0 <= k < |cs| ==> cs[k] != "" && cs[k] != "." && '/' !in cs[k]
  {
    if pieces == [] then []
    else
      var rest := KeepParts(pieces[1..]);
      if pieces[0] == "" || pieces[0] == "." then rest else [pieces[0]] + rest
  }

  predicate IsAbsolute(ref: string)
  {
    |ref| > 0 && ref[0] == '/'
  }

  /** `dir / ref`: an absolute `ref` replaces `dir`. */
  function JoinPath(dir: Path, ref: string): Path
  {
    if IsAbsolute(ref) then Parts(ref) else dir + Parts(ref)
  }

  /** `dir / name` for a single component; `dir / ""` is `dir`. */
  function Child(dir: Path, name: string): Path
  {
    if name == "" then dir else dir + [name]
  }

  /** `p.name`; the root has the empty name. */
  function NameOf(p: Path): string
  {
    if p == [] then "" else p[|p| - 1]
  }

  /** `Path(ref).name` */
  function RefName(ref: string): string
  {
    NameOf(Parts(ref))
  }

  /** The lexical normal form of `p`: each `..` removes the component
      before it (`..` at the root stays at the root). It is the path the
      operating system opens when every `..` is looked up in a directory
      (`DotDotsWalk`). */
  function Normalize(p: Path): (q: Path)
    ensures forall k :: 0 <= k < |q| ==> q[k] != ".."
  {
    if p == [] then []
    else
      var q := Normalize(p[..|p| - 1]);
      if p[|p| - 1] == ".." then Parent(q) else q + [p[|p| - 1]]
  }

  /** A normalised path is its own normal form: resolving twice is
      resolving once. */
  lemma {:induction false} NormalizeIdempotent(p: Path)
    ensures Normalize(Normalize(p)) == Normalize(p)
  {
    NormalFixed(Normalize(p));
  }

  lemma {:induction false} NormalFixed(q: Path)
    requires forall k :: 0 <= k < |q| ==> q[k] != ".."
    ensures Normalize(q) == q
  {
    if q != [] {
      NormalFixed(q[..|q| - 1]);
      assert q[..|q| - 1] + [q[|q| - 1]] == q;
    }
  }

  /** A directory, given by its normalised path: the root, or a path that
      is not a file and lies on the way to one. */
  predicate IsDir(fs: FileSystem, d: Path)
  {
    d == [] || (d !in fs && exists f :: f in fs && d <= f)
  }

  /** The operating system looks every `..` up in the directory its
      components so far name, so a `..` after a missing folder or after a
      file fails the lookup, although the lexical form would drop both. */
  predicate DotDotsWalk(fs: FileSystem, p: Path)
  {
    forall k :: 0 <= k < |p| && p[k] == ".." ==> IsDir(fs, Normalize(p[..k]))
  }

  /** `p.is_file()` on a path as written: every `..` is looked up in a
      directory, and the path it names is a file. */
  predicate IsFile(fs: FileSystem, p: Path)
  {
    DotDotsWalk(fs, p) && Normalize(p) in fs
  }

  /** On a path without `..` (such as a resolved one) `is_file()` is plain
      membership. */
  lemma ResolvedIsFile(fs: FileSystem, p: Path)
    requires forall k :: 0 <= k < |p| ==> p[k] != ".."
    ensures IsFile(fs, p) <==> p in fs
  {
    NormalFixed(p);
  }

  /** A `..` whose folder is not a directory makes the whole path fail,
      whatever the lexical form names. */
  lemma DotDotBlocks(fs: FileSystem, p: Path, k: nat)
    requires k < |p| && p[k] == ".." && !IsDir(fs, Normalize(p[..k]))
    ensures !IsFile(fs, p)
  {
  }

  /** `p.exists()`: a file, or a directory on the way to one. */
  predicate Exists(fs: FileSystem, p: Path)
  {
    exists f :: f in fs && Normalize(p) <= f
  }

  /** Index of the last `.` of `name`, if any. */
  function LastDot(name: string): (r: Option<nat>)
    ensures r.Some? ==> r.value < |name| && name[r.value] == '.'
                        && forall k :: r.value < k < |name| ==> name[k] != '.'
    ensures r.None? ==> '.' !in name
  {
    if name == [] then None
    else if name[|name| - 1] == '.' then Some(|name| - 1)
    else
      var r := LastDot(name[..|name| - 1]);
      assert name == name[..|name| - 1] + [name[|name| - 1]];
      r
  }

  /** Where `Path.suffix` starts: at the last dot, provided it is neither the
      first nor the last character of the name. */
  function SuffixStart(name: string): (r: Option<nat>)
    ensures r.Some? ==> 0 < r.value < |name| - 1 && name[r.value] == '.'
                        && '.' !in name[r.value + 1..]
  {
    match LastDot(name)
    case Some(i) => if 0 < i < |name| - 1 then Some(i) else None
    case None => None
  }

  /** `Path(name).suffix` */
  function Suffix(name: string): string
  {
    match SuffixStart(name)
    case Some(i) => name[i..]
    case None => ""
  }

  /** `Path(name).stem` */
  function Stem(name: string): string
  {
    match SuffixStart(name)
    case Some(i) => name[..i]
    case None => name
  }

  /** Stem and suffix split a name without losing anything; the suffix is
      empty or a dot followed by at least one dot-free character, and the stem
      of a name with a suffix is never empty. */
  lemma StemSuffix(name: string)
    ensures Stem(name) + Suffix(name) == name
    ensures Suffix(name) == "" || (|Suffix(name)| >= 2 && Suffix(name)[0] == '.' && '.' !in Suffix(name)[1..])
    ensures Suffix(name) != "" ==> Stem(name) != ""
  {
    match SuffixStart(name)
    case Some(i) =>
      assert name[i..][1..] == name[i + 1..];
    case None =>
  }
}
