/** JSON values as the audit log stores them, JavaScript truthiness of those values,
    and `JSON.stringify` of the `{categoryId, categoryName}` details object together
    with a reader that recovers both fields from that text. */
module JsonText {
  import opened Wrappers
  import opened Text

  /** A JSON value (arrays are not produced anywhere in this application). */
  datatype Json = Null | Bool(b: bool) | Num(n: int) | Str(s: string) | Obj(fields: map<string, Json>)

  /** JavaScript truthiness: `null`, `false`, `0` and `""` are falsy; objects are truthy. */
  predicate Truthy(j: Json) {
    match j
    case Null => false
    case Bool(b) => b
    case Num(n) => n != 0
    case Str(s) => s != []
    case Obj(_) => true
  }

  /** The escape `JSON.stringify` writes for one character of a string. */
  function EscapeChar(c: char): (e: string)
    ensures |e| >= 1
    ensures e[0] == '\\' || (e == [c] && c != '"' && c >= ' ')
  {
    if c == '"' then "\\\""
    else if c == '\\' then "\\\\"
    else if c == '\U{8}' then "\\b"
    else if c == '\t' then "\\t"
    else if c == '\n' then "\\n"
    else if c == '\U{C}' then "\\f"
    else if c == '\r' then "\\r"
    else if c < ' ' then "\\u00" + [HexChar(c as int / 16), HexChar(c as int % 16)]
    else [c]
  }

  function Escape(s: string): string {
    if s == [] then [] else EscapeChar(s[0]) + Escape(s[1..])
  }

  /** `JSON.stringify` of a string: quoted, with the escapes above. */
  function Quote(s: string): string {
    "\"" + Escape(s) + "\""
  }

  /** The character a one-letter escape stands for. */
  function ShortEscape(e: char): Option<char> {
    if e == '"' then Some('"')
    else if e == '\\' then Some('\\')
    else if e == '/' then Some('/')
    else if e == 'b' then Some('\U{8}')
    else if e == 't' then Some('\t')
    else if e == 'n' then Some('\n')
    else if e == 'f' then Some('\U{C}')
    else if e == 'r' then Some('\r')
    else None
  }

  /** Reads one escape sequence, `t` starting just after the backslash: the character
      and the number of characters of `t` consumed. */
  function DecodeEscape(t: string): (r: Option<(char, nat)>)
    ensures r.Some? ==> 1 <= r.value.1 <= |t|
  {
    if t == [] then None
    else if ShortEscape(t[0]).Some? then Some((ShortEscape(t[0]).value, 1))
    else if t[0] == 'u' && |t| >= 5 && IsHexDigit(t[1]) && IsHexDigit(t[2]) && IsHexDigit(t[3]) && IsHexDigit(t[4]) then
      var code := ((HexValue(t[1]) * 16 + HexValue(t[2])) * 16 + HexValue(t[3])) * 16 + HexValue(t[4]);
      if code < 0xD800 || 0xE000 <= code then Some((code as char, 5)) else None
    else None
  }

  function Cons(c: char, r: Option<(string, string)>): Option<(string, string)> {
    match r
    case None => None
    case Some((v, rest)) => Some(([c] + v, rest))
  }

  /** Reads the body of a JSON string literal up to its closing quote: the decoded
      string and the text after the quote. */
  function ReadString(t: string): Option<(string, string)>
    decreases |t|
  {
    if t == [] then None
    else if t[0] == '"' then Some(([], t[1..]))
    else if t[0] == '\\' then
      match DecodeEscape(t[1..])
      case None => None
      case Some((c, k)) => Cons(c, ReadString(t[1 + k..]))
    else if t[0] < ' ' then None
    else Cons(t[0], ReadString(t[1..]))
  }

  /** Reading back one escaped character. */
  lemma ReadEscapedChar(c: char, tail: string)
    ensures ReadString(EscapeChar(c) + tail) == Cons(c, ReadString(tail))
  {
    if c < ' ' && c != '\U{8}' && c != '\t' && c != '\n' && c != '\U{C}' && c != '\r' {
      ReadUnicodeEscape(c, tail);
    } else if EscapeChar(c)[0] == '\\' {
      ReadShortEscape(c, EscapeChar(c), tail);
    } else {
      var t := EscapeChar(c) + tail;
      assert t[1..] == tail;
    }
  }

  /** A control character without a short escape is written `\u00XY` and read back. */
  lemma ReadUnicodeEscape(c: char, tail: string)
    requires c < ' ' && c != '\U{8}' && c != '\t' && c != '\n' && c != '\U{C}' && c != '\r'
    ensures ReadString(EscapeChar(c) + tail) == Cons(c, ReadString(tail))
  {
    var hi, lo := c as int / 16, c as int % 16;
    var t := EscapeChar(c) + tail;
    assert EscapeChar(c) == "\\u00" + [HexChar(hi), HexChar(lo)];
    assert t[1..] == ['u', '0', '0', HexChar(hi), HexChar(lo)] + tail;
    assert DecodeEscape(t[1..]) == Some((c, 5));
    assert t[6..] == tail;
  }

  /** A two-character escape `\x` is read back as the character it stands for. */
  lemma ReadShortEscape(c: char, e: string, tail: string)
    requires e == EscapeChar(c) && e[0] == '\\' && (c >= ' ' || c == '\U{8}' || c == '\t' || c == '\n' || c == '\U{C}' || c == '\r')
    ensures ReadString(e + tail) == Cons(c, ReadString(tail))
  {
    var t := e + tail;
    assert |e| == 2 && ShortEscape(e[1]) == Some(c);
    assert t[1..] == [e[1]] + tail;
    assert t[2..] == tail;
  }

  /** Reading the escaped form of `s` followed by the closing quote gives `s` back. */
  lemma {:induction false} ReadQuoted(s: string, rest: string)
    ensures ReadString(Escape(s) + "\"" + rest) == Some((s, rest))
  {
    if s == [] {
      assert Escape(s) + "\"" + rest == "\"" + rest;
    } else {
      var tail := Escape(s[1..]) + "\"" + rest;
      assert Escape(s) + "\"" + rest == EscapeChar(s[0]) + tail;
      ReadEscapedChar(s[0], tail);
      ReadQuoted(s[1..], rest);
      assert [s[0]] + s[1..] == s;
    }
  }

  const DetailsIdKey: string := "{\"categoryId\":"
  const DetailsNameKey: string := ",\"categoryName\":"

  /** `JSON.stringify({categoryId, categoryName})`. */
  function CategoryDetailsText(categoryId: nat, categoryName: string): (t: string)
    ensures t != [] && t[0] == '{'
  {
    DetailsIdKey + NatToString(categoryId) + DetailsNameKey + Quote(categoryName) + "}"
  }

  /** The text after `prefix`, when `t` starts with it. */
  function AfterPrefix(t: string, prefix: string): (r: Option<string>)
    ensures r.Some? ==> t == prefix + r.value
  {
    if |t| >= |prefix| && t[..|prefix|] == prefix then Some(t[|prefix|..]) else None
  }

  lemma AfterPrefixOf(prefix: string, rest: string)
    ensures AfterPrefix(prefix + rest, prefix) == Some(rest)
  {
    assert (prefix + rest)[..|prefix|] == prefix;
    assert (prefix + rest)[|prefix|..] == rest;
  }

  /** Reads a non-empty run of digits: its value and the text after it. */
  function ReadNat(t: string): Option<(nat, string)> {
    var k := LeadingDigits(t);
    if k == 0 then None else Some((DigitsValue(t[..k]), t[k..]))
  }

  lemma ReadNatOf(n: nat, rest: string)
    requires rest == [] || !IsDigit(rest[0])
    ensures ReadNat(NatToString(n) + rest) == Some((n, rest))
  {
    var digits := NatToString(n);
    LeadingDigitsOfRun(digits, rest);
    assert (digits + rest)[..|digits|] == digits;
    assert (digits + rest)[|digits|..] == rest;
    DigitsValueOfNatToString(n);
  }

  /** Reads a `{categoryId, categoryName}` object written in the form above. */
  function ParseCategoryDetails(t: string): (r: Option<(nat, string)>)
    ensures r.Some? ==> |t| > |DetailsIdKey| && t[..|DetailsIdKey|] == DetailsIdKey
  {
    match AfterPrefix(t, DetailsIdKey)
    case None => None
    case Some(u) =>
      match ReadNat(u)
      case None => None
      case Some((id, v)) =>
        match AfterPrefix(v, DetailsNameKey + "\"")
        case None => None
        case Some(w) =>
          match ReadString(w)
          case None => None
          case Some((name, rest)) => if rest == "}" then Some((id, name)) else None
  }

  /** The details text cut at the places the reader looks at. */
  lemma DetailsTextShape(categoryId: nat, categoryName: string)
    ensures CategoryDetailsText(categoryId, categoryName)
            == DetailsIdKey + (NatToString(categoryId) + ((DetailsNameKey + "\"") + (Escape(categoryName) + "\"" + "}")))
  {
    Regroup(DetailsIdKey, NatToString(categoryId), DetailsNameKey, "\"", Escape(categoryName), "}");
  }

  lemma Regroup(a: string, b: string, c: string, q: string, d: string, e: string)
    ensures a + b + c + (q + d + q) + e == a + (b + ((c + q) + (d + q + e)))
  {
  }

  /** The stored details text gives back the category id and name it was made from. */
  lemma CategoryDetailsRoundTrip(categoryId: nat, categoryName: string)
    ensures ParseCategoryDetails(CategoryDetailsText(categoryId, categoryName)) == Some((categoryId, categoryName))
  {
    var w := Escape(categoryName) + "\"" + "}";
    var v := (DetailsNameKey + "\"") + w;
    var u := NatToString(categoryId) + v;
    DetailsTextShape(categoryId, categoryName);
    AfterPrefixOf(DetailsIdKey, u);
    assert v[0] == ',';
    ReadNatOf(categoryId, v);
    AfterPrefixOf(DetailsNameKey + "\"", w);
    ReadQuoted(categoryName, "}");
  }
}
