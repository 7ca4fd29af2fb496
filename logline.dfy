/**
 * One log record to one output line: the numeric formatter, the per-field
 * dispatch to the sub-structure rewriters, and the assembly of the line
 * from a decoded message cell, with its fallbacks.
 */
module LogLine {
  import opened Wrappers
  import opened Numerals
  import opened Text
  import opened Json
  import opened Rewriters

  /** What the JSON decoder made of a message cell. */
  datatype Decoded = Parsed(value: JsonValue) | DecodeFailed

  // ------------------------------------------------------ numeric formatter

  /** The fragment ` key=` that every per-field fragment starts with. */
  predicate StartsWithKey(fragment: string, key: string) {
    |key| + 2 <= |fragment| && fragment[..|key| + 2] == " " + key + "="
  }

  /** ` key=rendered` */
  function KeyValue(key: string, rendered: string): (r: string)
    ensures StartsWithKey(r, key) && r[|key| + 2..] == rendered
  {
    " " + key + "=" + rendered
  }

  /**
   * ` key=0x<hex>` for an integer that is a `u64` or an `i64` (a negative
   * one written as its 64-bit two's-complement pattern); ` key=<JSON text>`
   * for every other value, floats included.
   */
  function FormatValueAsHex(key: string, value: JsonValue): (r: string)
    ensures StartsWithKey(r, key)
  {
    if value.Int? && 0 <= value.i < U64_LIMIT then KeyValue(key, "0x" + Hex(value.i))
    else if value.Int? && I64_MIN <= value.i < 0 then KeyValue(key, "0x" + Hex(value.i + U64_LIMIT))
    else KeyValue(key, Render(value))
  }

  /**
   * An integer in the `i64`/`u64` range is written as the hex digits of its
   * value modulo 2^64 (its two's-complement bit pattern), at most 16 of
   * them, and reading those digits back gives that pattern.
   */
  lemma FormatValueAsHexInteger(key: string, n: int)
    requires I64_MIN <= n < U64_LIMIT
    ensures var bits := n % U64_LIMIT;
            && (n >= 0 ==> bits == n)
            && (n < 0 ==> bits == n + U64_LIMIT)
            && FormatValueAsHex(key, Int(n)) == KeyValue(key, "0x" + Hex(bits))
            && HexValue(Hex(bits)) == bits
            && |Hex(bits)| <= 16
  {
    var bits := n % U64_LIMIT;
    if n >= 0 {
      assert bits == n;
    } else {
      assert bits == n + U64_LIMIT;
    }
    HexRoundTrip(bits);
    HexWidthU64(bits);
  }

  /** Every value that is not such an integer is written as its JSON text. */
  lemma FormatValueAsHexOther(key: string, value: JsonValue)
    requires !(value.Int? && I64_MIN <= value.i < U64_LIMIT)
    ensures FormatValueAsHex(key, value) == KeyValue(key, Render(value))
  {
  }

  /** 255 is written `0xff`, and -1 as 2^64 - 1, the all-ones 64-bit pattern. */
  lemma FormatValueAsHexExamples()
    ensures FormatValueAsHex("count", Int(255)) == " count=0xff"
    ensures FormatValueAsHex("delta", Int(-1)) == KeyValue("delta", "0x" + Hex(0xffff_ffff_ffff_ffff))
  {
    FormatValueAsHexInteger("count", 255);
    FormatValueAsHexInteger("delta", -1);
    assert Hex(0xff) == "ff" by { HexAppendDigit(0xf, 15, 0xff); }
  }

  /** Appending a digit to a nonzero number's numeral multiplies by 16 and adds it. */
  lemma HexAppendDigit(n: nat, d: nat, m: nat)
    requires 0 < n && d < 16 && m == 16 * n + d
    ensures Hex(m) == Hex(n) + [HexDigitChar(d)]
  {
    assert m / 16 == n && m % 16 == d;
  }

  // ---------------------------------------------------------------- dispatch

  const EXIT_INFO_MARKER := "tdx_tdg_vp_enter_exit_info"
  const GUEST_STATE_MARKER := "TdxL2EnterGuestState"
  const SEGMENT_MARKER := "SegmentRegister"

  /** Which rendering a field gets. */
  datatype Rule = ExitInfoRule | GuestStateRule | SegmentRule | PlainRule

  /**
   * The rule for one field. A `raw_exit` or `gprs` string without its
   * marker gets the plain rendering and is never looked at for the
   * segment-register marker; only other keys are.
   */
  function RuleFor(key: string, value: JsonValue): (r: Rule)
    ensures r == ExitInfoRule <==> key == "raw_exit" && value.Str? && Contains(value.s, EXIT_INFO_MARKER)
    ensures r == GuestStateRule <==> key == "gprs" && value.Str? && Contains(value.s, GUEST_STATE_MARKER)
    ensures r == SegmentRule <==>
              key != "raw_exit" && key != "gprs" && value.Str? && Contains(value.s, SEGMENT_MARKER)
  {
    if key == "raw_exit" && value.Str? then
      if Contains(value.s, EXIT_INFO_MARKER) then ExitInfoRule else PlainRule
    else if key == "gprs" && value.Str? then
      if Contains(value.s, GUEST_STATE_MARKER) then GuestStateRule else PlainRule
    else if value.Str? && Contains(value.s, SEGMENT_MARKER) then SegmentRule
    else PlainRule
  }

  /** ` key="text"`: the text between quotes as it is, without JSON escaping. */
  function Quoted(key: string, text: string): string {
    KeyValue(key, "\"" + text + "\"")
  }

  /** The fragment one field contributes to the line. */
  function Fragment(key: string, value: JsonValue): (r: string)
    ensures StartsWithKey(r, key)
  {
    match RuleFor(key, value)
    case ExitInfoRule => Quoted(key, TransformTdxExitInfo(value.s))
    case GuestStateRule => Quoted(key, TransformTdxGuestState(value.s))
    case SegmentRule => Quoted(key, TransformSegmentRegister(value.s))
    case PlainRule => FormatValueAsHex(key, value)
  }

  /**
   * Every value no rule claims goes to the numeric formatter: a value that
   * is not a string under any key, and a string under any key but
   * `raw_exit` and `gprs` that holds no `SegmentRegister`.
   */
  lemma PlainFragment(key: string, value: JsonValue)
    requires !value.Str? || (key != "raw_exit" && key != "gprs" && !Contains(value.s, SEGMENT_MARKER))
    ensures Fragment(key, value) == FormatValueAsHex(key, value)
  {
  }

  /** A number under any key, such as `count`, is written in hex. */
  lemma PlainFragmentExample()
    ensures Fragment("count", Int(255)) == " count=0xff"
  {
    PlainFragment("count", Int(255));
    FormatValueAsHexExamples();
  }

  /**
   * A `raw_exit` string without the exit-info marker is rendered as a
   * plain JSON string, whatever else it contains.
   */
  lemma RawExitWithoutMarker(s: string)
    requires !Contains(s, EXIT_INFO_MARKER)
    ensures Fragment("raw_exit", Str(s)) == KeyValue("raw_exit", Quote(s))
  {
  }

  /**
   * A `gprs` string without the guest-state marker is rendered as a plain
   * JSON string, whatever else it contains.
   */
  lemma GprsWithoutMarker(s: string)
    requires !Contains(s, GUEST_STATE_MARKER)
    ensures Fragment("gprs", Str(s)) == KeyValue("gprs", Quote(s))
  {
  }

  /**
   * A string carrying its key's marker is rewritten and put between quotes
   * as it comes out of the rewriter, with no JSON escaping.
   */
  lemma MarkedStringFragments(key: string, s: string)
    ensures Contains(s, EXIT_INFO_MARKER) ==>
              Fragment("raw_exit", Str(s)) == KeyValue("raw_exit", "\"" + TransformTdxExitInfo(s) + "\"")
    ensures Contains(s, GUEST_STATE_MARKER) ==>
              Fragment("gprs", Str(s)) == KeyValue("gprs", "\"" + TransformTdxGuestState(s) + "\"")
    ensures key != "raw_exit" && key != "gprs" && Contains(s, SEGMENT_MARKER) ==>
              Fragment(key, Str(s)) == KeyValue(key, "\"" + TransformSegmentRegister(s) + "\"")
  {
  }

  // ---------------------------------------------------------- line shapes

  /** The four required top-level members of a record. */
  datatype Entry = Entry(timestamp: string, level: string, target: string, fields: JsonValue)

  /**
   * The record's timestamp, level and target, each a string, and its
   * fields, of any type; nothing if any of them is missing or mistyped.
   */
  function RequiredFields(json: JsonValue): (r: Option<Entry>)
    ensures r.Some? <==> AsStr(Get(json, "timestamp")).Some? && AsStr(Get(json, "level")).Some?
                         && AsStr(Get(json, "target")).Some? && Get(json, "fields").Some?
    ensures r.Some? ==> Get(json, "timestamp") == Some(Str(r.value.timestamp))
                        && Get(json, "level") == Some(Str(r.value.level))
                        && Get(json, "target") == Some(Str(r.value.target))
                        && Get(json, "fields") == Some(r.value.fields)
  {
    var timestamp := AsStr(Get(json, "timestamp"));
    var level := AsStr(Get(json, "level"));
    var target := AsStr(Get(json, "target"));
    var fields := Get(json, "fields");
    if timestamp.Some? && level.Some? && target.Some? && fields.Some?
    then Some(Entry(timestamp.value, level.value, target.value, fields.value))
    else None
  }

  /** `[timestamp][level][target] ` */
  function Header(e: Entry): string {
    "[" + e.timestamp + "][" + e.level + "][" + e.target + "] "
  }

  /** The members other than `message`, in their order. */
  function OtherFields(members: seq<(string, JsonValue)>): seq<(string, JsonValue)> {
    if members == [] then []
    else
      var last := members[|members| - 1];
      OtherFields(members[..|members| - 1]) + (if last.0 == "message" then [] else [last])
  }

  /** The fragment of each member, in order. */
  function Fragments(members: seq<(string, JsonValue)>): (r: seq<string>)
    ensures |r| == |members|
    ensures forall i :: 0 <= i < |members| ==> StartsWithKey(r[i], members[i].0)
  {
    seq(|members|, i requires 0 <= i < |members| => Fragment(members[i].0, members[i].1))
  }

  /** The three shapes of output line, and the suppressed row. */
  datatype Shape =
    | Suppressed
    | Fallback(text: string)
    | DefaultRendering(header: string, fields: JsonValue)
    | WithMessage(header: string, message: string, others: seq<(string, JsonValue)>)

  function Classify(messageField: string, decoded: Decoded): Shape {
    if messageField == [] then Suppressed
    else if decoded.DecodeFailed? then Fallback(messageField)
    else
      match RequiredFields(decoded.value)
      case None => Fallback(messageField)
      case Some(e) =>
        if !e.fields.Obj? then DefaultRendering(Header(e), e.fields)
        else
          match AsStr(Lookup(e.fields.members, "message"))
          case None => DefaultRendering(Header(e), e.fields)
          case Some(message) => WithMessage(Header(e), message, OtherFields(e.fields.members))
  }

  function Emit(shape: Shape): string {
    match shape
    case Suppressed => ""
    case Fallback(text) => text
    case DefaultRendering(header, fields) => header + Render(fields)
    case WithMessage(header, message, others) => header + message + Concat(Fragments(others))
  }

  /** The line produced for a message cell and what the decoder made of it. */
  function Line(messageField: string, decoded: Decoded): string {
    Emit(Classify(messageField, decoded))
  }

  // ------------------------------------------------------------- assembler

  /**
   * `process_message`: the line for one message cell. The members of the
   * fields object are visited in order and each one other than `message`
   * appends its fragment.
   */
  method ProcessMessage(messageField: string, decoded: Decoded) returns (output: string)
    ensures output == Line(messageField, decoded)
  {
    if messageField == [] {
      return "";
    }
    if decoded.DecodeFailed? {
      FallbackUnchanged(messageField, decoded);
      return messageField;
    }
    var json := decoded.value;
    var timestamp := AsStr(Get(json, "timestamp"));
    var level := AsStr(Get(json, "level"));
    var target := AsStr(Get(json, "target"));
    var fields := Get(json, "fields");
    if timestamp.None? || level.None? || target.None? || fields.None? {
      FallbackUnchanged(messageField, decoded);
      return messageField;
    }
    var e := Entry(timestamp.value, level.value, target.value, fields.value);
    assert RequiredFields(json) == Some(e);
    var header := "[" + timestamp.value + "][" + level.value + "][" + target.value + "] ";
    assert header == Header(e);
    output := header + Render(fields.value);
    if !fields.value.Obj? {
      DefaultRenderingLine(messageField, json, e);
      return;
    }
    var obj := fields.value.members;
    var message := AsStr(Lookup(obj, "message"));
    if message.None? {
      DefaultRenderingLine(messageField, json, e);
      return;
    }
    output := AppendFields(header + message.value, obj);
    MessageLine(messageField, json, e, message.value);
  }

  /**
   * The loop of `process_message` over the fields object: each member
   * other than `message` appends its fragment to `start`, in member order.
   */
  method AppendFields(start: string, obj: seq<(string, JsonValue)>) returns (output: string)
    ensures output == start + FieldsText(obj)
  {
    output := start;
    assert FieldsText(obj[..0]) == "" by {
      assert obj[..0] == [];
      assert Fragments([]) == [];
    }
    assert output + "" == output;
    for i := 0 to |obj|
      invariant output == start + FieldsText(obj[..i])
    {
      var (key, value) := obj[i];
      FieldsTextStep(start, obj, i);
      if key == "message" {
        continue;
      }
      if key == "raw_exit" && value.Str? {
        if Contains(value.s, EXIT_INFO_MARKER) {
          assert RuleFor(key, value) == ExitInfoRule;
          var transformed := TransformTdxExitInfo(value.s);
          output := output + Quoted(key, transformed);
          continue;
        }
        assert RuleFor(key, value) == PlainRule;
      } else if key == "gprs" && value.Str? {
        if Contains(value.s, GUEST_STATE_MARKER) {
          assert RuleFor(key, value) == GuestStateRule;
          var transformed := TransformTdxGuestState(value.s);
          output := output + Quoted(key, transformed);
          continue;
        }
        assert RuleFor(key, value) == PlainRule;
      } else if value.Str? && Contains(value.s, SEGMENT_MARKER) {
        assert RuleFor(key, value) == SegmentRule;
        var transformed := TransformSegmentRegister(value.s);
        output := output + Quoted(key, transformed);
        continue;
      } else {
        assert RuleFor(key, value) == PlainRule;
      }
      output := output + FormatValueAsHex(key, value);
    }
    assert obj[..|obj|] == obj;
  }

  /** The fragments of the members other than `message`, one after another. */
  function FieldsText(members: seq<(string, JsonValue)>): string {
    Concat(Fragments(OtherFields(members)))
  }

  /** One more member appends its fragment, unless it is `message`. */
  lemma FieldsTextStep(prefix: string, members: seq<(string, JsonValue)>, i: nat)
    requires i < |members|
    ensures members[i].0 == "message" ==>
              prefix + FieldsText(members[..i + 1]) == prefix + FieldsText(members[..i])
    ensures members[i].0 != "message" ==>
              prefix + FieldsText(members[..i + 1])
              == (prefix + FieldsText(members[..i])) + Fragment(members[i].0, members[i].1)
  {
    var front := members[..i];
    var m := members[i];
    assert members[..i + 1][..i] == front;
    assert OtherFields(members[..i + 1]) == OtherFields(front) + (if m.0 == "message" then [] else [m]);
    if m.0 != "message" {
      var others := OtherFields(front);
      var f := Fragment(m.0, m.1);
      assert Fragments(others + [m]) == Fragments(others) + [f];
      assert (Fragments(others) + [f])[..|others|] == Fragments(others);
      assert FieldsText(members[..i + 1]) == FieldsText(front) + f;
      AppendAssoc(prefix, FieldsText(front), f);
    } else {
      assert OtherFields(members[..i + 1]) == OtherFields(front);
    }
  }

  // ----------------------------------------------------------------- lemmas

  /** A row is suppressed exactly when its cell is empty. */
  lemma SuppressedIffEmpty(messageField: string, decoded: Decoded)
    ensures Line(messageField, decoded) == "" <==> messageField == ""
  {
  }

  /**
   * The cell comes out unchanged when it does not decode, or when the
   * timestamp, level or target is missing or not a string, or the fields
   * are missing.
   */
  lemma FallbackUnchanged(messageField: string, decoded: Decoded)
    requires messageField != ""
    requires decoded.DecodeFailed?
             || AsStr(Get(decoded.value, "timestamp")).None?
             || AsStr(Get(decoded.value, "level")).None?
             || AsStr(Get(decoded.value, "target")).None?
             || Get(decoded.value, "fields").None?
    ensures Line(messageField, decoded) == messageField
  {
  }

  /**
   * Fields that are not an object, or an object without a string
   * `message`, are written whole after the header, and nothing else.
   */
  lemma DefaultRenderingLine(messageField: string, json: JsonValue, e: Entry)
    requires messageField != ""
    requires RequiredFields(json) == Some(e)
    requires !e.fields.Obj? || AsStr(Lookup(e.fields.members, "message")).None?
    ensures Line(messageField, Parsed(json)) == Header(e) + Render(e.fields)
  {
  }

  /**
   * With a string `message`, the line is the header, the message, and
   * then exactly one fragment per other member, in member order, each
   * starting with ` key=`.
   */
  lemma MessageLine(messageField: string, json: JsonValue, e: Entry, message: string)
    requires messageField != ""
    requires RequiredFields(json) == Some(e) && e.fields.Obj?
    requires AsStr(Lookup(e.fields.members, "message")) == Some(message)
    ensures var others := OtherFields(e.fields.members);
            var fragments := Fragments(others);
            && Line(messageField, Parsed(json)) == Header(e) + message + Concat(fragments)
            && |fragments| == |others|
            && (forall i :: 0 <= i < |others| ==> StartsWithKey(fragments[i], others[i].0))
  {
    var shape := WithMessage(Header(e), message, OtherFields(e.fields.members));
    assert Classify(messageField, Parsed(json)) == shape;
    assert Line(messageField, Parsed(json)) == Emit(shape);
  }

  /** Taking the members other than `message` commutes with concatenation. */
  lemma {:induction false} OtherFieldsAppend(a: seq<(string, JsonValue)>, b: seq<(string, JsonValue)>)
    ensures OtherFields(a + b) == OtherFields(a) + OtherFields(b)
  {
    if b != [] {
      var last := b[|b| - 1];
      var front := b[..|b| - 1];
      assert (a + b)[..|a + b| - 1] == a + front;
      assert (a + b)[|a + b| - 1] == last;
      OtherFieldsAppend(a, front);
    } else {
      assert a + b == a;
    }
  }

  /** Exactly the members whose key is not `message` are kept. */
  lemma {:induction false} OtherFieldsMembers(members: seq<(string, JsonValue)>)
    ensures forall m :: m in OtherFields(members) <==> m in members && m.0 != "message"
  {
    if members != [] {
      var front := members[..|members| - 1];
      var last := members[|members| - 1];
      OtherFieldsMembers(front);
      assert members == front + [last];
    }
  }

  /** Members other than `message` are all kept. */
  lemma {:induction false} OtherFieldsWithoutMessage(members: seq<(string, JsonValue)>)
    requires forall i :: 0 <= i < |members| ==> members[i].0 != "message"
    ensures OtherFields(members) == members
  {
    if members != [] {
      var front := members[..|members| - 1];
      OtherFieldsWithoutMessage(front);
      assert front + [members[|members| - 1]] == members;
    }
  }
}
