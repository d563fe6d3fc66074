/** The string operations of the JavaScript runtime that the application relies on:
    `toLowerCase`/`toUpperCase` (on ASCII letters), `trim`, `split` on one character,
    `includes`, `replace(/c/g, d)` and the decimal rendering of a non-negative integer. */
module Text {

  predicate IsUpperAscii(c: char) { 'A' <= c <= 'Z' }

  predicate IsLowerAscii(c: char) { 'a' <= c <= 'z' }

  function LowerChar(c: char): (d: char)
    ensures !IsUpperAscii(d)
    ensures IsWhitespace(d) <==> IsWhitespace(c)
    ensures IsUpperAscii(c) ==> IsLowerAscii(d)
    ensures !IsUpperAscii(c) ==> d == c
  {
    if IsUpperAscii(c) then (c as int + 32) as char else c
  }

  function UpperChar(c: char): (d: char)
    ensures !IsLowerAscii(d)
    ensures IsLowerAscii(c) ==> IsUpperAscii(d) && LowerChar(d) == c
    ensures !IsLowerAscii(c) ==> d == c
  {
    if IsLowerAscii(c) then (c as int - 32) as char else c
  }

  /** No upper-case letter occurs in `s`. */
  predicate IsLowerCase(s: string) {
    forall i :: 0 <= i < |s| ==> !IsUpperAscii(s[i])
  }

  /** `s.toLowerCase()`: every letter lowered, everything else kept in place. */
  function ToLower(s: string): (r: string)
    ensures |r| == |s| && IsLowerCase(r)
    ensures forall i :: 0 <= i < |s| ==> r[i] == LowerChar(s[i])
  {
    if s == [] then [] else [LowerChar(s[0])] + ToLower(s[1..])
  }

  /** Lowering a string that holds no upper-case letter changes nothing. */
  lemma ToLowerOfLower(s: string)
    requires IsLowerCase(s)
    ensures ToLower(s) == s
  {
  }

  /** Lowering is idempotent: `toLowerCase(toLowerCase(s)) == toLowerCase(s)`. */
  lemma ToLowerIdempotent(s: string)
    ensures ToLower(ToLower(s)) == ToLower(s)
  {
    ToLowerOfLower(ToLower(s));
  }

  /** The characters `trim` removes: ECMAScript WhiteSpace and LineTerminator. */
  predicate IsWhitespace(c: char) {
    c == '\t' || c == '\n' || c == '\U{B}' || c == '\U{C}' || c == '\r' || c == ' '
    || c == '\U{A0}' || c == '\U{1680}' || ('\U{2000}' <= c <= '\U{200A}')
    || c == '\U{2028}' || c == '\U{2029}' || c == '\U{202F}' || c == '\U{205F}'
    || c == '\U{3000}' || c == '\U{FEFF}'
  }

  predicate AllWhitespace(s: string) {
    forall i :: 0 <= i < |s| ==> IsWhitespace(s[i])
  }

  function TrimStart(s: string): (r: string)
    ensures |r| <= |s| && r == s[|s| - |r|..]
    ensures forall k :: 0 <= k < |s| - |r| ==> IsWhitespace(s[k])
    ensures r == [] || !IsWhitespace(r[0])
  {
    if s != [] && IsWhitespace(s[0]) then TrimStart(s[1..]) else s
  }

  function TrimEnd(s: string): (r: string)
    ensures |r| <= |s| && r == s[..|r|]
    ensures forall k :: |r| <= k < |s| ==> IsWhitespace(s[k])
    ensures r == [] || !IsWhitespace(r[|r| - 1])
  {
    if s != [] && IsWhitespace(s[|s| - 1]) then TrimEnd(s[..|s| - 1]) else s
  }

  /** `r` is the infix of `s` starting at `i` with only whitespace around it. */
  predicate TrimmedAt(s: string, r: string, i: int) {
    0 <= i <= |s| - |r| && r == s[i..i + |r|]
    && (forall k :: 0 <= k < i ==> IsWhitespace(s[k]))
    && (forall k :: i + |r| <= k < |s| ==> IsWhitespace(s[k]))
  }

  /** `s.trim()`: the infix of `s` left after dropping whitespace at both ends. */
  function Trim(s: string): (r: string)
    ensures exists i :: TrimmedAt(s, r, i)
    ensures r == [] || (!IsWhitespace(r[0]) && !IsWhitespace(r[|r| - 1]))
  {
    var t := TrimStart(s);
    var r := TrimEnd(t);
    TrimmedInfix(s, t, r);
    r
  }

  /** A whitespace-free end cut from a whitespace-free start lies in `s` with only
      whitespace around it. */
  lemma TrimmedInfix(s: string, t: string, r: string)
    requires |t| <= |s| && t == s[|s| - |t|..]
    requires forall k :: 0 <= k < |s| - |t| ==> IsWhitespace(s[k])
    requires t == [] || !IsWhitespace(t[0])
    requires |r| <= |t| && r == t[..|r|]
    requires forall k :: |r| <= k < |t| ==> IsWhitespace(t[k])
    requires r == [] || !IsWhitespace(r[|r| - 1])
    ensures TrimmedAt(s, r, |s| - |t|)
    ensures r == [] || (!IsWhitespace(r[0]) && !IsWhitespace(r[|r| - 1]))
  {
    var i := |s| - |t|;
    assert s[i..i + |r|] == t[..|r|];
    forall k | i + |r| <= k < |s|
      ensures IsWhitespace(s[k])
    {
      assert s[k] == t[k - i];
    }
    if r != [] {
      assert r[0] == t[0];
    }
  }

  /** Lowering keeps an infix with whitespace around it in place: lowering changes no
      character's whitespace-ness and no length. */
  lemma LowerKeepsTrimmed(s: string, r: string, i: int)
    requires TrimmedAt(s, r, i)
    ensures TrimmedAt(ToLower(s), ToLower(r), i)
  {
    var ls, lr := ToLower(s), ToLower(r);
    forall k | 0 <= k < |lr|
      ensures lr[k] == ls[i + k]
    {
      assert r[k] == s[i + k];
    }
    assert lr == ls[i..i + |lr|];
  }

  /** A string trims to nothing exactly when it is all whitespace. */
  lemma TrimEmptyIff(s: string)
    ensures Trim(s) == [] <==> AllWhitespace(s)
  {
    var r := Trim(s);
    var i :| TrimmedAt(s, r, i);
    if r != [] {
      assert r[0] == s[i];
    }
  }

  /** Index of the first occurrence of `c` in `s`. */
  function IndexOf(s: string, c: char): (i: nat)
    requires c in s
    ensures i < |s| && s[i] == c && c !in s[..i]
    ensures forall k :: 0 <= k < i ==> s[k] != c
  {
    if s[0] == c then 0 else 1 + IndexOf(s[1..], c)
  }

  /** `s.split(sep)` for a one-character separator. */
  function Split(s: string, sep: char): (parts: seq<string>)
    ensures |parts| >= 1
    ensures forall k :: 0 <= k < |parts| ==> sep !in parts[k]
    decreases |s|
  {
    if sep !in s then [s]
    else
      var i := IndexOf(s, sep);
      [s[..i]] + Split(s[i + 1..], sep)
  }

  /** Splitting two separator-free strings joined by the separator gives them back. */
  lemma SplitPair(a: string, b: string, sep: char)
    requires sep !in a && sep !in b
    ensures Split(a + [sep] + b, sep) == [a, b]
  {
    var s := a + [sep] + b;
    assert s[|a|] == sep;
    var i := IndexOf(s, sep);
    assert s[..i] == a;
    assert s[i + 1..] == b;
  }

  /** The first occurrence of `c` in `a` is also its first occurrence in `a + rest`. */
  lemma IndexOfPrefix(a: string, rest: string, c: char)
    requires c in a
    ensures IndexOf(a + rest, c) == IndexOf(a, c)
  {
    var i := IndexOf(a, c);
    var j := IndexOf(a + rest, c);
    assert (a + rest)[i] == c;
    assert (a + rest)[..i] == a[..i];
    assert forall k :: 0 <= k < i ==> (a + rest)[k] == a[k];
  }

  /** Splitting at a separator placed between two strings splits each of them apart. */
  lemma {:induction false} SplitAppend(a: string, b: string, sep: char)
    ensures Split(a + [sep] + b, sep) == Split(a, sep) + Split(b, sep)
    decreases |a|
  {
    if sep !in a {
      SplitPair2(a, b, sep);
    } else {
      var i := IndexOf(a, sep);
      SplitAppend(a[i + 1..], b, sep);
      SplitAppendStep(a, b, sep, i);
    }
  }

  /** The inductive step of `SplitAppend`: the claim for the rest of `a` gives it for `a`. */
  lemma SplitAppendStep(a: string, b: string, sep: char, i: nat)
    requires sep in a && i == IndexOf(a, sep)
    requires Split(a[i + 1..] + [sep] + b, sep) == Split(a[i + 1..], sep) + Split(b, sep)
    ensures Split(a + [sep] + b, sep) == Split(a, sep) + Split(b, sep)
  {
    var tail := a[i + 1..];
    SplitAtFirst(a, b, sep, i);
    SplitUnfold(a, sep);
    assert [a[..i]] + (Split(tail, sep) + Split(b, sep))
        == ([a[..i]] + Split(tail, sep)) + Split(b, sep);
  }

  /** One step of `Split`: the part before the first separator, then the rest split. */
  lemma SplitUnfold(s: string, sep: char)
    requires sep in s
    ensures Split(s, sep) == [s[..IndexOf(s, sep)]] + Split(s[IndexOf(s, sep) + 1..], sep)
  {
  }

  /** When `a` holds the separator, splitting `a + [sep] + b` cuts first where `a` would. */
  lemma SplitAtFirst(a: string, b: string, sep: char, i: nat)
    requires sep in a && i == IndexOf(a, sep)
    ensures Split(a + [sep] + b, sep) == [a[..i]] + Split(a[i + 1..] + [sep] + b, sep)
  {
    var rest := [sep] + b;
    var s := a + rest;
    assert a + [sep] + b == s;
    assert IndexOf(s, sep) == i by {
      IndexOfPrefix(a, rest, sep);
    }
    assert s[..i] == a[..i];
    assert s[i + 1..] == a[i + 1..] + [sep] + b by {
      assert s[i + 1..] == a[i + 1..] + rest;
    }
    SplitUnfold(s, sep);
  }

  /** Splitting at the first separator, when `a` holds none. */
  lemma SplitPair2(a: string, b: string, sep: char)
    requires sep !in a
    ensures Split(a + [sep] + b, sep) == [a] + Split(b, sep)
  {
    var s := a + [sep] + b;
    assert s[|a|] == sep;
    var i := IndexOf(s, sep);
    forall k | 0 <= k < |a|
      ensures s[k] != sep
    {
      assert s[k] == a[k];
    }
    assert s[..i] == a;
    assert s[i + 1..] == b;
  }

  predicate OccursAt(s: string, sub: string, i: int) {
    0 <= i <= |s| - |sub| && s[i..i + |sub|] == sub
  }

  /** `s.includes(sub)`. */
  predicate Contains(s: string, sub: string) {
    exists i | 0 <= i <= |s| - |sub| :: OccursAt(s, sub, i)
  }

  lemma ContainsEmpty(s: string)
    ensures Contains(s, [])
  {
    assert OccursAt(s, [], 0);
  }

  /** `s.replace(/from/g, to)` for single characters. */
  function ReplaceAll(s: string, from: char, to: char): (r: string)
    ensures |r| == |s|
    ensures from != to ==> from !in r
    ensures forall i :: 0 <= i < |s| ==> r[i] == (if s[i] == from then to else s[i])
  {
    if s == [] then [] else [if s[0] == from then to else s[0]] + ReplaceAll(s[1..], from, to)
  }

  predicate IsDigit(c: char) { '0' <= c <= '9' }

  function DigitChar(d: nat): (c: char)
    requires d < 10
    ensures IsDigit(c) && c as int - '0' as int == d
  {
    ('0' as int + d) as char
  }

  function DigitValue(c: char): (d: nat)
    requires IsDigit(c)
    ensures d < 10 && DigitChar(d) == c
  {
    c as int - '0' as int
  }

  predicate IsHexDigit(c: char) {
    IsDigit(c) || ('a' <= c <= 'f') || ('A' <= c <= 'F')
  }

  /** A lower-case hexadecimal digit. */
  function HexChar(d: nat): (c: char)
    requires d < 16
    ensures IsHexDigit(c) && c != '.' && HexValue(c) == d
  {
    if d < 10 then DigitChar(d) else ('a' as int + d - 10) as char
  }

  function HexValue(c: char): (d: nat)
    requires IsHexDigit(c)
    ensures d < 16
  {
    if IsDigit(c) then DigitValue(c)
    else if 'a' <= c <= 'f' then c as int - 'a' as int + 10
    else c as int - 'A' as int + 10
  }

  /** Decimal rendering of a non-negative integer, as `String(n)` writes it. */
  function NatToString(n: nat): (s: string)
    ensures |s| >= 1
    ensures forall i :: 0 <= i < |s| ==> IsDigit(s[i])
  {
    (if n < 10 then [] else NatToString(n / 10)) + [DigitChar(n % 10)]
  }

  /** The value of a non-empty run of decimal digits. */
  function DigitsValue(s: string): nat
    requires forall i :: 0 <= i < |s| ==> IsDigit(s[i])
  {
    if s == [] then 0 else 10 * DigitsValue(s[..|s| - 1]) + DigitValue(s[|s| - 1])
  }

  lemma {:induction false} DigitsValueOfNatToString(n: nat)
    ensures DigitsValue(NatToString(n)) == n
  {
    var s := NatToString(n);
    var init: string := if n < 10 then [] else NatToString(n / 10);
    assert s == init + [DigitChar(n % 10)];
    assert s[..|s| - 1] == init;
    assert DigitValue(s[|s| - 1]) == n % 10;
    if n >= 10 {
      DigitsValueOfNatToString(n / 10);
      assert DigitsValue(init) == n / 10;
    }
  }

  /** Length of the longest prefix of `s` made of digits. */
  function LeadingDigits(s: string): (k: nat)
    ensures k <= |s|
    ensures forall i :: 0 <= i < k ==> IsDigit(s[i])
    ensures k < |s| ==> !IsDigit(s[k])
  {
    if s != [] && IsDigit(s[0]) then 1 + LeadingDigits(s[1..]) else 0
  }

  lemma {:induction false} LeadingDigitsOfRun(a: string, rest: string)
    requires forall i :: 0 <= i < |a| ==> IsDigit(a[i])
    requires rest == [] || !IsDigit(rest[0])
    ensures LeadingDigits(a + rest) == |a|
  {
    if a != [] {
      assert (a + rest)[1..] == a[1..] + rest;
      LeadingDigitsOfRun(a[1..], rest);
    }
  }
}
