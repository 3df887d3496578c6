/** `repr()` of a Python string, as `str()` of a list or a dict writes each
    string inside it: quoted, with the quote character, the backslash and
    the characters Python does not print written as escapes. `Unrepr`
    reads such a literal back, for the escapes `repr` writes. */
module PyRepr {
  import opened Base

  /** The quote `repr` picks: `"` when the text holds a `'` and no `"`,
      `'` otherwise. */
  function QuoteFor(s: string): (q: char)
    ensures q == '\'' || q == '"'
    ensures q == '"' <==> '\'' in s && '"' !in s
  {
    if '\'' in s && '"' !in s then '"' else '\''
  }

  /** Characters `repr` escapes because they are not printable: the C0
      and C1 controls and DEL, the separators other than the plain space,
      the common format characters, and the private-use planes. */
  predicate Hidden(c: char)
  {
    var n := c as int;
    || n < 0x20 || 0x7F <= n <= 0xA0 || n == 0xAD
    || (IsSpace(c) && c != ' ')
    || 0x600 <= n <= 0x605 || n == 0x61C || n == 0x6DD || n == 0x70F || n == 0x180E
    || 0x200B <= n <= 0x200F || 0x202A <= n <= 0x202E
    || 0x2060 <= n <= 0x2064 || 0x2066 <= n <= 0x206F
    || n == 0xFEFF || 0xFFF9 <= n <= 0xFFFB
    || 0xE000 <= n <= 0xF8FF || 0xF0000 <= n
  }

  function Pow16(w: nat): (p: nat)
    ensures p >= 1
  {
    if w == 0 then 1 else 16 * Pow16(w - 1)
  }

  function HexDigit(d: nat): (c: char)
    requires d < 16
  {
    "0123456789abcdef"[d]
  }

  /** `n` as `w` lower-case hexadecimal digits, most significant first. */
  function Hex(n: nat, w: nat): (r: string)
    ensures |r| == w
  {
    if w == 0 then [] else Hex(n / 16, w - 1) + [HexDigit(n % 16)]
  }

  /** The value of one hexadecimal digit, either case. */
  function DigitValue(c: char): (r: Option<nat>)
    ensures r.Some? ==> r.value < 16
  {
    if '0' <= c <= '9' then Some(c as int - '0' as int)
    else if 'a' <= c <= 'f' then Some(c as int - 'a' as int + 10)
    else if 'A' <= c <= 'F' then Some(c as int - 'A' as int + 10)
    else None
  }

  /** The value of a run of hexadecimal digits. */
  function HexValue(t: string): Option<nat>
  {
    if t == [] then Some(0)
    else
      match HexValue(t[..|t| - 1])
      case None => None
      case Some(v) =>
        match DigitValue(t[|t| - 1])
        case None => None
        case Some(d) => Some(16 * v + d)
  }

  /** Reading the digits back gives the number they were written from. */
  lemma {:induction false} HexRoundTrip(n: nat, w: nat)
    requires n < Pow16(w)
    ensures HexValue(Hex(n, w)) == Some(n)
  {
    if w > 0 {
      DivStep(n, Pow16(w - 1));
      HexRoundTrip(n / 16, w - 1);
      DigitRoundTrip(n % 16);
      HexValueSnoc(Hex(n / 16, w - 1), n / 16, HexDigit(n % 16), n % 16);
    }
  }

  lemma DivStep(n: nat, p: nat)
    requires n < 16 * p
    ensures n / 16 < p && 16 * (n / 16) + n % 16 == n
  {
  }

  lemma HexValueSnoc(u: string, v: nat, c: char, d: nat)
    requires HexValue(u) == Some(v) && DigitValue(c) == Some(d)
    ensures HexValue(u + [c]) == Some(16 * v + d)
  {
    assert (u + [c])[..|u|] == u;
  }

  lemma DigitRoundTrip(d: nat)
    requires d < 16
    ensures DigitValue(HexDigit(d)) == Some(d)
  {
  }

  /** A code point that is a `char`: not a surrogate, not past U+10FFFF. */
  predicate IsScalar(n: int)
  {
    0 <= n < 0xD800 || 0xE000 <= n < 0x110000
  }

  /** How `repr` writes one character inside quotes `q`. */
  function Escape(c: char, q: char): (r: string)
    ensures r != []
  {
    if c == q || c == '\\' then ['\\', c]
    else if c == '\t' then "\\t"
    else if c == '\n' then "\\n"
    else if c == '\r' then "\\r"
    else if Hidden(c) then
      if c as int < 0x100 then "\\x" + Hex(c as int, 2)
      else if c as int < 0x10000 then "\\u" + Hex(c as int, 4)
      else "\\U" + Hex(c as int, 8)
    else [c]
  }

  /** The characters of `s` written one after the other. */
  function Escaped(s: string, q: char): string
  {
    if s == [] then [] else Escape(s[0], q) + Escaped(s[1..], q)
  }

  /** `repr(s)` */
  function Repr(s: string): (r: string)
    ensures |r| >= 2 && r[0] == r[|r| - 1] == QuoteFor(s)
  {
    var q := QuoteFor(s);
    [q] + Escaped(s, q) + [q]
  }

  function Prepend(c: char, r: Option<string>): Option<string>
  {
    match r
    case Some(t) => Some([c] + t)
    case None => None
  }

  /** The width of the hexadecimal code after `\x`, `\u` or `\U`. */
  function CodeWidth(e: char): nat
  {
    if e == 'x' then 2 else if e == 'u' then 4 else 8
  }

  /** The character a hexadecimal code names, if it names one. */
  function CodeChar(t: string): Option<char>
  {
    match HexValue(t)
    case Some(n) => if IsScalar(n) then Some(n as char) else None
    case None => None
  }

  /** The text between the quotes of a Python string literal, with the
      escapes `repr` writes decoded; `None` on any other escape. */
  function Unescape(t: string): Option<string>
    decreases |t|
  {
    if t == [] then Some([])
    else if t[0] != '\\' then Prepend(t[0], Unescape(t[1..]))
    else if |t| < 2 then None
    else if t[1] == '\\' || t[1] == '\'' || t[1] == '"' then Prepend(t[1], Unescape(t[2..]))
    else if t[1] == 't' then Prepend('\t', Unescape(t[2..]))
    else if t[1] == 'n' then Prepend('\n', Unescape(t[2..]))
    else if t[1] == 'r' then Prepend('\r', Unescape(t[2..]))
    else if t[1] == 'x' || t[1] == 'u' || t[1] == 'U' then
      var w := CodeWidth(t[1]);
      if |t| < 2 + w then None
      else
        match CodeChar(t[2..2 + w])
        case Some(c) => Prepend(c, Unescape(t[2 + w..]))
        case None => None
    else None
  }

  /** Reading a quoted literal back: `eval` of what `repr` writes. */
  function Unrepr(t: string): Option<string>
  {
    if |t| >= 2 && (t[0] == '\'' || t[0] == '"') && t[|t| - 1] == t[0] then Unescape(t[1..|t| - 1])
    else None
  }

  /** A hexadecimal escape reads back as the character its digits name. */
  lemma CodeStep(e: char, digits: string, c: char, rest: string)
    requires (e == 'x' || e == 'u' || e == 'U') && |digits| == CodeWidth(e)
    requires CodeChar(digits) == Some(c)
    ensures Unescape(['\\', e] + digits + rest) == Prepend(c, Unescape(rest))
  {
    var t := ['\\', e] + digits + rest;
    assert t[2..2 + |digits|] == digits && t[2 + |digits|..] == rest;
  }

  /** `w` hexadecimal digits of a character below `16^w` name it. */
  lemma CodeRoundTrip(c: char, w: nat)
    requires c as int < Pow16(w)
    ensures CodeChar(Hex(c as int, w)) == Some(c)
  {
    HexRoundTrip(c as int, w);
    assert IsScalar(c as int);
  }

  /** One escaped character reads back as itself. */
  lemma EscapeRoundTrip(c: char, q: char, rest: string)
    requires q == '\'' || q == '"'
    ensures Unescape(Escape(c, q) + rest) == Prepend(c, Unescape(rest))
  {
    var t := Escape(c, q) + rest;
    if c == q || c == '\\' || c == '\t' || c == '\n' || c == '\r' {
      assert t[2..] == rest;
    } else if Hidden(c) {
      if c as int < 0x100 {
        assert Pow16(2) == 0x100;
        CodeRoundTrip(c, 2);
        CodeStep('x', Hex(c as int, 2), c, rest);
      } else if c as int < 0x10000 {
        assert Pow16(4) == 0x10000;
        CodeRoundTrip(c, 4);
        CodeStep('u', Hex(c as int, 4), c, rest);
      } else {
        assert Pow16(8) == 0x1_0000_0000;
        CodeRoundTrip(c, 8);
        CodeStep('U', Hex(c as int, 8), c, rest);
      }
    } else {
      assert t[1..] == rest;
    }
  }

  /** The escaped characters read back as the text. */
  lemma {:induction false} EscapedRoundTrip(s: string, q: char)
    requires q == '\'' || q == '"'
    ensures Unescape(Escaped(s, q)) == Some(s)
  {
    if s != [] {
      EscapeRoundTrip(s[0], q, Escaped(s[1..], q));
      EscapedRoundTrip(s[1..], q);
      assert [s[0]] + s[1..] == s;
    }
  }

  /** Reading back what `repr` wrote gives the original text. */
  lemma ReprRoundTrip(s: string)
    ensures Unrepr(Repr(s)) == Some(s)
  {
    var q := QuoteFor(s);
    var r := Repr(s);
    assert r[1..|r| - 1] == Escaped(s, q);
    EscapedRoundTrip(s, q);
  }

  /** Text with no quote character `q`, no backslash and nothing hidden
      is written as it is. */
  lemma {:induction false} PlainEscaped(s: string, q: char)
    requires forall k :: 0 <= k < |s| ==> s[k] != q && s[k] != '\\' && !Hidden(s[k])
    ensures Escaped(s, q) == s
  {
    if s != [] {
      assert !Hidden(s[0]) && s[0] != '\t' && s[0] != '\n' && s[0] != '\r';
      PlainEscaped(s[1..], q);
      assert [s[0]] + s[1..] == s;
    }
  }

  /** Plain text with no apostrophe is written between single quotes. */
  lemma ReprPlain(s: string)
    requires forall k :: 0 <= k < |s| ==> s[k] != '\'' && s[k] != '\\' && !Hidden(s[k])
    ensures Repr(s) == "'" + s + "'"
  {
    assert '\'' !in s;
    PlainEscaped(s, '\'');
  }

  /** Plain text with an apostrophe and no double quote is written between
      double quotes, its apostrophes as they are. */
  lemma ReprApostrophe(s: string)
    requires '\'' in s && '"' !in s
    requires forall k :: 0 <= k < |s| ==> s[k] != '\\' && !Hidden(s[k])
    ensures Repr(s) == "\"" + s + "\""
  {
    PlainEscaped(s, '"');
  }
}
