/**
 * The decoded JSON tree (`serde_json::Value`), key lookup on it, and its
 * compact textual rendering (the `Display` of a value).
 */
module Json {
  import opened Wrappers
  import opened Numerals
  import opened Text

  /**
   * A decoded JSON value. `Int` holds the integers a decoder keeps exact
   * (from -2^63 up to 2^64 - 1); `Float` stands for any other number and
   * carries the text its `Display` prints. An object is its members in
   * iteration order, each key once.
   */
  datatype JsonValue =
    | Null
    | Bool(b: bool)
    | Int(i: int)
    | Float(text: string)
    | Str(s: string)
    | Arr(items: seq<JsonValue>)
    | Obj(members: seq<(string, JsonValue)>)

  /** `key` is the key of the member at index `i`. */
  predicate KeyAt(members: seq<(string, JsonValue)>, key: string, i: int) {
    0 <= i < |members| && members[i].0 == key
  }

  /** The value of the member named `key`, looked up among `members`. */
  function Lookup(members: seq<(string, JsonValue)>, key: string): (r: Option<JsonValue>)
    ensures r.None? <==> forall i :: 0 <= i < |members| ==> members[i].0 != key
    ensures r.Some? ==> exists i :: KeyAt(members, key, i) && members[i].1 == r.value
                                    && forall j :: 0 <= j < i ==> members[j].0 != key
  {
    if members == [] then None
    else if members[0].0 == key then (assert KeyAt(members, key, 0); Some(members[0].1))
    else
      var r := Lookup(members[1..], key);
      assert r.Some? ==> exists i :: KeyAt(members, key, i) && members[i].1 == r.value
                                     && forall j :: 0 <= j < i ==> members[j].0 != key by {
        if r.Some? {
          var i :| KeyAt(members[1..], key, i) && members[1..][i].1 == r.value
                   && forall j :: 0 <= j < i ==> members[1..][j].0 != key;
          assert KeyAt(members, key, i + 1);
          assert forall j :: 0 <= j < i + 1 ==> members[j].0 != key by {
            forall j | 0 <= j < i + 1 ensures members[j].0 != key {
              if j > 0 { assert members[j] == members[1..][j - 1]; }
            }
          }
        }
      }
      r
  }

  /** `value.get(key)`: a member of an object; nothing for any other value. */
  function Get(value: JsonValue, key: string): (r: Option<JsonValue>)
    ensures !value.Obj? ==> r.None?
    ensures value.Obj? ==> r == Lookup(value.members, key)
  {
    if value.Obj? then Lookup(value.members, key) else None
  }

  /** `.and_then(Value::as_str)`: the text of a string value, if it is one. */
  function AsStr(value: Option<JsonValue>): (r: Option<string>)
    ensures r.Some? <==> value.Some? && value.value.Str?
    ensures r.Some? ==> value.value == Str(r.value)
  {
    if value.Some? && value.value.Str? then Some(value.value.s) else None
  }

  // ----------------------------------------------------------- rendering

  /** The escape serde_json's compact writer uses for one character of a string. */
  function EscapeChar(c: char): string {
    if c == '"' then "\\\""
    else if c == '\\' then "\\\\"
    else if c == '\n' then "\\n"
    else if c == '\r' then "\\r"
    else if c == '\t' then "\\t"
    else if c as int == 0x08 then "\\b"
    else if c as int == 0x0C then "\\f"
    else if c as int < 0x20 then "\\u00" + [HexDigitChar(c as int / 16), HexDigitChar(c as int % 16)]
    else [c]
  }

  function Escape(s: string): string {
    if s == [] then "" else EscapeChar(s[0]) + Escape(s[1..])
  }

  /** A JSON string literal: the escaped text between double quotes. */
  function Quote(s: string): string {
    "\"" + Escape(s) + "\""
  }

  /** An integer's decimal numeral, after a minus sign when it is negative. */
  function RenderInt(i: int): (r: string)
    ensures i >= 0 ==> r == Decimal(i) && DecValue(r) == i
    ensures i < 0 ==> r == "-" + Decimal(-i) && r[1..] == Decimal(-i) && DecValue(r[1..]) == -i
  {
    if i < 0 then
      DecimalRoundTrip(-i);
      assert ("-" + Decimal(-i))[1..] == Decimal(-i);
      "-" + Decimal(-i)
    else
      DecimalRoundTrip(i);
      Decimal(i)
  }

  /**
   * The compact JSON text of a value, as `format!("{}", value)` prints it.
   * An integer is its decimal numeral, after a minus sign when negative.
   */
  function Render(v: JsonValue): (r: string)
    ensures v.Int? && v.i >= 0 ==> r == Decimal(v.i) && DecValue(r) == v.i
    ensures v.Int? && v.i < 0 ==> r == "-" + Decimal(-v.i) && r[1..] == Decimal(-v.i) && DecValue(r[1..]) == -v.i
    ensures v.Str? ==> |r| >= 2 && r[0] == '"' && r[|r| - 1] == '"'
    decreases v
  {
    match v
    case Null => "null"
    case Bool(b) => if b then "true" else "false"
    case Int(i) => RenderInt(i)
    case Float(text) => text
    case Str(s) => Quote(s)
    case Arr(items) =>
      "[" + Join(seq(|items|, k requires 0 <= k < |items| => Render(items[k])), ",") + "]"
    case Obj(members) =>
      "{" + Join(seq(|members|, k requires 0 <= k < |members| =>
                   Quote(members[k].0) + ":" + Render(members[k].1)), ",") + "}"
  }
}
