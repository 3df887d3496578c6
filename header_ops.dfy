/** Conditional assignments to a header, one `if key ...: meta[key] = value`
    after another, as both scripts make them. */
module HeaderOps {
  import opened Base
  import opened Dict
  import opened Yaml

  /** A conditional assignment to one key leaves every other key alone. */
  lemma Keeps(h: Header, c: bool, key: string, value: Value, other: string)
    requires other != key
    ensures Get(if c then Set(h, key, value) else h, other) == Get(h, other)
  {
  }

  /** A conditional assignment changes the value of its own key only. */
  lemma StepGet(h: Header, c: bool, key: string, value: Value, k: string)
    ensures Get(if c then Set(h, key, value) else h, k) == if c && k == key then Some(value) else Get(h, k)
  {
  }

  /** A conditional assignment gives its key the value assigned. */
  lemma Puts(h: Header, c: bool, key: string, value: Value)
    ensures Get(if c then Set(h, key, value) else h, key) == if c then Some(value) else Get(h, key)
  {
  }

  /** After three conditional assignments a key holds the value of the last
      one made to it, or its old value when none was made. */
  lemma ThreeGets(h0: Header, b1: bool, k1: string, v1: Value, b2: bool, k2: string, v2: Value,
                  b3: bool, k3: string, v3: Value, h1: Header, h2: Header, h3: Header, k: string)
    requires h1 == if b1 then Set(h0, k1, v1) else h0
    requires h2 == if b2 then Set(h1, k2, v2) else h1
    requires h3 == if b3 then Set(h2, k3, v3) else h2
    ensures Get(h3, k) == if b3 && k == k3 then Some(v3) else if b2 && k == k2 then Some(v2)
                          else if b1 && k == k1 then Some(v1) else Get(h0, k)
  {
    StepGet(h0, b1, k1, v1, k);
    StepGet(h1, b2, k2, v2, k);
    StepGet(h2, b3, k3, v3, k);
  }

  /** Three conditional assignments in a row are the assignments made. */
  lemma ThreeSteps(h0: Header, b1: bool, k1: string, v1: Value, b2: bool, k2: string, v2: Value,
                   b3: bool, k3: string, v3: Value, h1: Header, h2: Header, h3: Header)
    requires h1 == if b1 then Set(h0, k1, v1) else h0
    requires h2 == if b2 then Set(h1, k2, v2) else h1
    requires h3 == if b3 then Set(h2, k3, v3) else h2
    ensures h3 == Assign(h0, Opt(b1, k1, v1) + Opt(b2, k2, v2) + Opt(b3, k3, v3))
  {
    var none: Header := [];
    var u1 := Opt(b1, k1, v1);
    var u2 := u1 + Opt(b2, k2, v2);
    assert h0 == Assign(h0, none);
    AssignOpt(h0, none, b1, k1, v1);
    assert none + u1 == u1;
    AssignOpt(h0, u1, b2, k2, v2);
    AssignOpt(h0, u2, b3, k3, v3);
  }

  /** The keys three conditional assignments name. */
  lemma ThreeKeys(b1: bool, k1: string, v1: Value, b2: bool, k2: string, v2: Value,
                  b3: bool, k3: string, v3: Value)
    ensures Keys(Opt(b1, k1, v1) + Opt(b2, k2, v2) + Opt(b3, k3, v3)) == Named(b1, k1, b2, k2, b3, k3)
  {
    KeysAppend(Opt(b1, k1, v1) + Opt(b2, k2, v2), Opt(b3, k3, v3));
    KeysAppend(Opt(b1, k1, v1), Opt(b2, k2, v2));
    OptKeys(b1, k1, v1);
    OptKeys(b2, k2, v2);
    OptKeys(b3, k3, v3);
  }

  lemma OptKeys(b: bool, key: string, value: Value)
    ensures Keys(Opt(b, key, value)) == if b then [key] else []
  {
  }

  /** The keys of three conditional assignments that are made, in order. */
  function Named(b1: bool, k1: string, b2: bool, k2: string, b3: bool, k3: string): seq<string>
  {
    (if b1 then [k1] else []) + (if b2 then [k2] else []) + (if b3 then [k3] else [])
  }

  /** Three different keys, each named or not, make a list without repeats
      that holds nothing else. */
  lemma ThreeNamed(b1: bool, k1: string, b2: bool, k2: string, b3: bool, k3: string)
    requires k1 != k2 && k1 != k3 && k2 != k3
    ensures Distinct(Named(b1, k1, b2, k2, b3, k3))
    ensures forall k :: k in Named(b1, k1, b2, k2, b3, k3) ==> k == k1 || k == k2 || k == k3
  {
  }
}
