/** The JavaScript values the generators read from the sheet's API, and
    the few built-ins they apply to them: truthiness, `String(v)`,
    property access, `a || b`, `encodeURIComponent` and
    `JSON.stringify` of an array of strings. */
module Js {
  import opened Text
  import Markup

  /** A parsed JSON value. `Null` stands for both `null` and `undefined`;
      `Num` carries the number's `String(n)` rendering. Object fields are a
      map, since nothing here depends on key order. */
  datatype Value =
    | Null
    | Bool(b: bool)
    | Num(text: string)
    | Str(s: string)
    | Arr(items: seq<Value>)
    | Obj(fields: map<string, Value>)

  /** `Boolean(v)`. */
  predicate Truthy(v: Value) {
    match v
    case Null => false
    case Bool(b) => b
    case Num(t) => t != "0" && t != "NaN"
    case Str(s) => s != []
    case Arr(_) => true
    case Obj(_) => true
  }

  /** `String(v)`; an array is joined with `,`, its null elements
      becoming empty strings. */
  function ToStr(v: Value): (r: string)
    decreases v
  {
    match v
    case Null => "null"
    case Bool(b) => if b then "true" else "false"
    case Num(t) => t
    case Str(s) => s
    case Arr(items) =>
      Join(seq(|items|, i requires 0 <= i < |items| =>
        if items[i].Null? then [] else ToStr(items[i])), ",")
    case Obj(_) => "[object Object]"
  }

  /** `String(v ?? "")`. */
  function StrOrEmpty(v: Value): (r: string)
    ensures v.Null? ==> r == []
    ensures v.Str? ==> r == v.s
  {
    if v.Null? then [] else ToStr(v)
  }

  /** `safeStr(v)` of both blog generators: `String(v ?? "").trim()`. */
  function SafeStr(v: Value): (r: string)
    ensures IsTrimmed(r)
    ensures v.Null? ==> r == []
    ensures v.Str? ==> r == Trim(v.s)
  {
    TrimIsTrimmed(StrOrEmpty(v));
    Trim(StrOrEmpty(v))
  }

  /** `safeStr` of a string that is already trimmed gives it back. */
  lemma SafeStrTrimmed(s: string)
    requires IsTrimmed(s)
    ensures SafeStr(Str(s)) == s
  {
    TrimmedIsFixed(s);
  }

  /** `v.key`: `undefined` unless `v` is an object holding `key`. */
  function Get(v: Value, key: string): (r: Value)
    ensures !v.Obj? ==> r == Null
  {
    if v.Obj? && key in v.fields then v.fields[key] else Null
  }

  /** `a || b`. */
  function Or(a: Value, b: Value): (r: Value)
    ensures Truthy(a) ==> r == a
    ensures !Truthy(a) ==> r == b
  {
    if Truthy(a) then a else b
  }

  // ---- encodeURIComponent ----

  /** The characters `encodeURIComponent` leaves as they are. */
  predicate IsUnreserved(c: char) {
    ('A' <= c <= 'Z') || ('a' <= c <= 'z') || ('0' <= c <= '9')
    || c == '-' || c == '_' || c == '.' || c == '!' || c == '~' || c == '*'
    || c == '\'' || c == '(' || c == ')'
  }

  /** The UTF-8 encoding of one Unicode scalar value. */
  function Utf8(c: char): (r: seq<nat>)
    ensures 1 <= |r| <= 4
    ensures forall i :: 0 <= i < |r| ==> r[i] < 256
  {
    var n := c as int;
    if n < 0x80 then [n]
    else if n < 0x800 then [0xC0 + n / 64, 0x80 + n % 64]
    else if n < 0x10000 then [0xE0 + n / 4096, 0x80 + (n / 64) % 64, 0x80 + n % 64]
    else [0xF0 + n / 262144, 0x80 + (n / 4096) % 64, 0x80 + (n / 64) % 64, 0x80 + n % 64]
  }

  function HexUpper(d: nat): (r: char)
    requires d < 16
  {
    if d < 10 then ('0' as int + d) as char else ('A' as int + d - 10) as char
  }

  function PercentBytes(bs: seq<nat>): (r: string)
    requires forall i :: 0 <= i < |bs| ==> bs[i] < 256
    ensures |r| == 3 * |bs|
    ensures bs != [] ==> r[0] == '%'
  {
    if bs == [] then [] else ['%', HexUpper(bs[0] / 16), HexUpper(bs[0] % 16)] + PercentBytes(bs[1..])
  }

  function EncodeChar(c: char): (r: string)
    ensures IsUnreserved(c) ==> r == [c]
    ensures !IsUnreserved(c) ==> |r| >= 3 && r[0] == '%'
  {
    if IsUnreserved(c) then [c] else PercentBytes(Utf8(c))
  }

  /** `encodeURIComponent(s)`. */
  function EncodeURIComponent(s: string): (r: string)
    ensures |r| >= |s|
  {
    if s == [] then [] else EncodeChar(s[0]) + EncodeURIComponent(s[1..])
  }

  /** A string made of unreserved characters is encoded as itself. */
  lemma {:induction false} EncodeUnreservedIsIdentity(s: string)
    requires forall i :: 0 <= i < |s| ==> IsUnreserved(s[i])
    ensures EncodeURIComponent(s) == s
  {
    if s != [] {
      EncodeUnreservedIsIdentity(s[1..]);
    }
  }

  /** Every reserved character is replaced by a `%`-escape, so the
      encoding never starts with a reserved character. */
  lemma EncodeFirst(s: string)
    requires s != []
    ensures EncodeURIComponent(s)[0] == (if IsUnreserved(s[0]) then s[0] else '%')
  {
  }

  // ---- JSON.stringify of an array of strings ----

  function HexLower(d: nat): (r: char)
    requires d < 16
  {
    if d < 10 then ('0' as int + d) as char else ('a' as int + d - 10) as char
  }

  /** How `JSON.stringify` writes one character inside a string literal. */
  function JsonChar(c: char): (r: string)
    ensures r != []
    ensures c != '"' && c != '\\' && c as int >= 0x20 ==> r == [c]
    ensures c == '"' || c == '\\' || c as int < 0x20 ==> r[0] == '\\'
  {
    if c == '"' then "\\\""
    else if c == '\\' then "\\\\"
    else if c == '\U{8}' then "\\b"
    else if c == '\t' then "\\t"
    else if c == '\n' then "\\n"
    else if c == '\U{C}' then "\\f"
    else if c == '\r' then "\\r"
    else if c as int < 0x20 then "\\u00" + [HexLower(c as int / 16), HexLower(c as int % 16)]
    else [c]
  }

  function JsonChars(s: string): (r: string)
  {
    if s == [] then [] else JsonChar(s[0]) + JsonChars(s[1..])
  }

  /** A string literal holds no bare `"`: every `"` of the text is escaped. */
  lemma {:induction false} JsonCharsNoBareQuote(s: string)
    ensures forall i :: 0 <= i < |JsonChars(s)| && JsonChars(s)[i] == '"' ==> i > 0 && JsonChars(s)[i - 1] == '\\'
  {
    if s != [] {
      JsonCharsNoBareQuote(s[1..]);
      var h := JsonChar(s[0]);
      var t := JsonChars(s[1..]);
      assert JsonChars(s) == h + t;
      forall i | 0 <= i < |h + t| && (h + t)[i] == '"' ensures i > 0 && (h + t)[i - 1] == '\\' {
        if i < |h| {
          assert s[0] == '"';
          assert h == "\\\"";
        } else if i == |h| {
          assert false;
        } else {
          assert (h + t)[i - 1] == t[i - |h| - 1];
        }
      }
    }
  }

  /** The value of a lower-case hexadecimal digit. */
  function HexValue(c: char): (r: nat)
    ensures r < 16
  {
    if '0' <= c <= '9' then c as int - '0' as int
    else if 'a' <= c <= 'f' then c as int - 'a' as int + 10
    else 0
  }

  predicate IsHexLower(c: char) {
    ('0' <= c <= '9') || ('a' <= c <= 'f')
  }

  lemma HexRoundTrip(d: nat)
    requires d < 16
    ensures IsHexLower(HexLower(d)) && HexValue(HexLower(d)) == d
  {
  }

  /** What a one-letter escape `\e` inside a JSON string literal stands
      for, when `e` is one of the letters JSON allows there. */
  function ShortEscape(e: char): (r: Markup.Option<char>)
  {
    if e == '"' then Markup.Some('"')
    else if e == '\\' then Markup.Some('\\')
    else if e == '/' then Markup.Some('/')
    else if e == 'b' then Markup.Some('\U{8}')
    else if e == 't' then Markup.Some('\t')
    else if e == 'n' then Markup.Some('\n')
    else if e == 'f' then Markup.Some('\U{C}')
    else if e == 'r' then Markup.Some('\r')
    else Markup.None
  }

  function Cons(c: char, rest: Markup.Option<string>): (r: Markup.Option<string>)
  {
    if rest.Some? then Markup.Some([c] + rest.value) else Markup.None
  }

  /** Reads the inside of a JSON string literal back into its text, for
      the `\u00XY` escapes JSON.stringify writes; a bare `"`, a bare
      control character or a malformed escape is rejected. */
  function UnJson(t: string): (r: Markup.Option<string>)
    decreases |t|
  {
    if t == [] then Markup.Some([])
    else if t[0] == '"' || t[0] as int < 0x20 then Markup.None
    else if t[0] != '\\' then Cons(t[0], UnJson(t[1..]))
    else if |t| < 2 then Markup.None
    else if t[1] == 'u' then
      if |t| >= 6 && t[2] == '0' && t[3] == '0' && IsHexLower(t[4]) && IsHexLower(t[5])
      then Cons((HexValue(t[4]) * 16 + HexValue(t[5])) as char, UnJson(t[6..]))
      else Markup.None
    else if ShortEscape(t[1]).Some? then Cons(ShortEscape(t[1]).value, UnJson(t[2..]))
    else Markup.None
  }

  /** Reading back one written character, followed by any text. */
  lemma UnJsonChar(c: char, t: string)
    ensures UnJson(JsonChar(c) + t) == Cons(c, UnJson(t))
  {
    var w := JsonChar(c) + t;
    if c as int < 0x20 && c != '\U{8}' && c != '\t' && c != '\n' && c != '\U{C}' && c != '\r' {
      var hi := c as int / 16;
      var lo := c as int % 16;
      HexRoundTrip(hi);
      HexRoundTrip(lo);
      assert JsonChar(c) == "\\u00" + [HexLower(hi), HexLower(lo)];
      assert w[6..] == t;
    } else if c == '"' || c == '\\' || c as int < 0x20 {
      assert w[2..] == t;
    } else {
      assert w[1..] == t;
    }
  }

  /** Every `"` and every control character of the text is escaped, so
      reading the literal back gives the text again. */
  lemma {:induction false} UnJsonJson(s: string)
    ensures UnJson(JsonChars(s)) == Markup.Some(s)
  {
    if s != [] {
      UnJsonJson(s[1..]);
      UnJsonChar(s[0], JsonChars(s[1..]));
      assert [s[0]] + s[1..] == s;
    }
  }

  function JsonString(s: string): (r: string)
    ensures |r| >= 2 && r[0] == '"' && r[|r| - 1] == '"'
  {
    "\"" + JsonChars(s) + "\""
  }

  /** `JSON.stringify(tags)` of an array of strings, without indentation. */
  function JsonStringArray(ss: seq<string>): (r: string)
    ensures |r| >= 2 && r[0] == '[' && r[|r| - 1] == ']'
  {
    "[" + Join(seq(|ss|, i requires 0 <= i < |ss| => JsonString(ss[i])), ",") + "]"
  }
}
