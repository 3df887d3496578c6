/** The YAML side of the front matter. PyYAML itself is not part of this
    model: a `Codec` is any pair of total functions standing for
    `yaml.dump(..., sort_keys=False)` and `yaml.safe_load`, and the lemmas
    that need it state what they assume of it. What the scripts do with the
    loaded values is modelled: their tag (null, bool, int, string, list,
    mapping), Python truthiness, and `str()`. */
module Yaml {
  import opened Base
  import opened Dict
  import opened PyRepr

  datatype Value =
    | Null
    | Bool(b: bool)
    | Int(i: int)
    | Str(s: string)
    | List(items: seq<Value>)
    | Map(entries: Dict<string, Value>)

  /** A loaded front-matter mapping, in insertion order. */
  type Header = Dict<string, Value>

  /** Outcome of `yaml.safe_load`: a document or a `yaml.YAMLError`. */
  datatype Loaded = YamlError | Doc(v: Value)

  datatype Codec = Codec(dump: Header -> string, load: string -> Loaded)

  /** `bool(v)` in Python. */
  predicate Truthy(v: Value)
  {
    match v
    case Null => false
    case Bool(b) => b
    case Int(i) => i != 0
    case Str(s) => s != ""
    case List(items) => items != []
    case Map(entries) => entries != []
  }

  /** `"key" not in meta or not meta["key"]`: the key is absent or falsy. */
  predicate MissingOrFalsy(h: Header, key: string)
  {
    match Get(h, key)
    case None => true
    case Some(v) => !Truthy(v)
  }

  function DigitChar(d: nat): (c: char)
    requires d < 10
    ensures '0' <= c <= '9'
  {
    ['0', '1', '2', '3', '4', '5', '6', '7', '8', '9'][d]
  }

  /** Decimal digits of `n`, most significant first, as `str(n)` writes them. */
  function Decimal(n: nat): (r: string)
    ensures r != []
    ensures forall k :: 0 <= k < |r| ==> '0' <= r[k] <= '9'
  {
    if n < 10 then [DigitChar(n)] else Decimal(n / 10) + [DigitChar(n % 10)]
  }

  /** `str(i)` for an int. */
  function IntStr(i: int): (r: string)
    ensures r != [] && !IsSpace(r[0]) && !IsSpace(r[|r| - 1])
  {
    if i < 0 then "-" + Decimal(-i) else Decimal(i)
  }

  /** `str(v)` when `quoted` is false, `repr(v)` when it is true; `repr`
      differs from `str` only on strings, and is what `str()` of a list or
      a dict writes for their elements. */
  function Show(v: Value, quoted: bool): string
    decreases v
  {
    match v
    case Null => "None"
    case Bool(b) => if b then "True" else "False"
    case Int(i) => IntStr(i)
    case Str(s) => if quoted then Repr(s) else s
    case List(items) =>
      "[" + CommaJoin(seq(|items|, k requires 0 <= k < |items| => Show(items[k], true))) + "]"
    case Map(entries) =>
      "{" + CommaJoin(seq(|entries|, k requires 0 <= k < |entries| =>
                            Repr(entries[k].0) + ": " + Show(entries[k].1, true))) + "}"
  }

  function CommaJoin(parts: seq<string>): string
  {
    if parts == [] then ""
    else if |parts| == 1 then parts[0]
    else parts[0] + ", " + CommaJoin(parts[1..])
  }

  /** `str(v)` */
  function PyStr(v: Value): string
  {
    Show(v, false)
  }

  /** `str()` of an int is a number with no surrounding whitespace, so
      stripping keeps it whole; a string is its own `str()`. */
  lemma PyStrOfScalar(v: Value)
    ensures v.Str? ==> PyStr(v) == v.s
    ensures v.Int? ==> PyStr(v) != [] && Strip(PyStr(v)) == PyStr(v)
  {
    if v.Int? {
      StripIdentity(IntStr(v.i));
    }
  }

  /** `str()` of a one-string list writes the string as `repr` does: an
      apostrophe with no double quote switches to double quotes, so
      `str(["it's"])` is `["it's"]`. */
  lemma PyStrOfStrList(s: string)
    ensures PyStr(List([Str(s)])) == "[" + Repr(s) + "]"
    ensures '\'' in s && '"' !in s && (forall k :: 0 <= k < |s| ==> s[k] != '\\' && !Hidden(s[k])) ==>
              PyStr(List([Str(s)])) == "[\"" + s + "\"]"
  {
    var items := [Str(s)];
    assert seq(|items|, k requires 0 <= k < |items| => Show(items[k], true)) == [Repr(s)];
    if '\'' in s && '"' !in s && (forall k :: 0 <= k < |s| ==> s[k] != '\\' && !Hidden(s[k])) {
      ReprApostrophe(s);
    }
  }

  /** A list value of strings, as the scripts build for `tags` and `categories`. */
  function StrList(names: seq<string>): (v: Value)
    ensures v.List? && |v.items| == |names|
    ensures forall k :: 0 <= k < |names| ==> v.items[k] == Str(names[k])
  {
    List(seq(|names|, k requires 0 <= k < |names| => Str(names[k])))
  }
}
