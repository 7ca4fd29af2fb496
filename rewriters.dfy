/**
 * The three sub-structure rewriters of the formatter. Each one is a
 * regular-expression `replace_all` in the original; here every pattern is
 * matched by hand and `ReplaceAll` does what `Regex::replace_all` does: it
 * scans from the left, takes the leftmost match (and, among matches at the
 * same place, the one the pattern prefers), replaces it, and resumes
 * scanning after it, so matches never overlap and replaced text is never
 * rescanned. Decimal digits are the ASCII ones.
 */
module Rewriters {
  import opened Wrappers
  import opened Numerals
  import opened Text

  /** The shapes of regular expression the rewriters use. */
  datatype Pattern =
      /**
       * `(n1|n2|...|nk): (\d+)`, with a last alternative `r\d+` when
       * `numberedR` holds.
       */
    | NamedNumber(names: seq<string>, numberedR: bool)
      /** `\[([0-9, ]+)\]`. */
    | NumberList

  /** What one match captured. */
  datatype Match =
    | FieldMatch(name: string, digits: string)
    | ListMatch(items: string)

  /** The text a match covers. */
  function MatchText(m: Match): string {
    match m
    case FieldMatch(name, digits) => name + ": " + digits
    case ListMatch(items) => "[" + items + "]"
  }

  /** A register name `r` followed by decimal digits (the `r\d+` alternative). */
  predicate IsNumberedRegister(name: string) {
    |name| >= 2 && name[0] == 'r' && AllDigits(name[1..])
  }

  /** A character of the class `[0-9, ]`. */
  predicate IsListChar(c: char) {
    IsDigit(c) || c == ',' || c == ' '
  }

  /** `m` is a match of pattern `p` as its captures say. */
  predicate Fits(p: Pattern, m: Match) {
    match p
    case NamedNumber(names, numberedR) =>
      m.FieldMatch? && m.digits != [] && AllDigits(m.digits)
      && (m.name in names || (numberedR && IsNumberedRegister(m.name)))
    case NumberList =>
      m.ListMatch? && m.items != [] && forall i :: 0 <= i < |m.items| ==> IsListChar(m.items[i])
  }

  // ------------------------------------------------------------ matching

  /** The greedy `\d+`-style run at the front of `s` (possibly empty). */
  function LeadingDigits(s: string): (r: string)
    ensures |r| <= |s| && r == s[..|r|] && AllDigits(r)
    ensures |r| < |s| ==> !IsDigit(s[|r|])
  {
    if s != [] && IsDigit(s[0]) then [s[0]] + LeadingDigits(s[1..]) else []
  }

  /** The greedy `[0-9, ]+`-style run at the front of `s` (possibly empty). */
  function LeadingListChars(s: string): (r: string)
    ensures |r| <= |s| && r == s[..|r|]
    ensures forall i :: 0 <= i < |r| ==> IsListChar(r[i])
    ensures |r| < |s| ==> !IsListChar(s[|r|])
  {
    if s != [] && IsListChar(s[0]) then [s[0]] + LeadingListChars(s[1..]) else []
  }

  /** `: (\d+)` at the front of `s`: the digits, as many as there are. */
  function NumberAfterName(s: string): (r: Option<string>)
    ensures r.Some? ==> r.value != [] && AllDigits(r.value)
                        && 2 + |r.value| <= |s| && s[..2 + |r.value|] == ": " + r.value
  {
    if |s| >= 2 && s[..2] == ": " then
      var d := LeadingDigits(s[2..]);
      if d != [] then Some(d) else None
    else None
  }

  /** The first of the literal alternatives `names` that leads to a whole match. */
  function MatchLiteral(names: seq<string>, s: string): (r: Option<Match>)
    ensures r.Some? ==> r.value.FieldMatch? && r.value.name in names
                        && r.value.digits != [] && AllDigits(r.value.digits)
                        && |MatchText(r.value)| <= |s| && s[..|MatchText(r.value)|] == MatchText(r.value)
  {
    if names == [] then None
    else
      var name := names[0];
      var number := if name <= s then NumberAfterName(s[|name|..]) else None;
      if number.Some? then
        var m := FieldMatch(name, number.value);
        assert s[..|MatchText(m)|] == MatchText(m) by {
          assert s[|name|..][..2 + |number.value|] == ": " + number.value;
        }
        Some(m)
      else MatchLiteral(names[1..], s)
  }

  /** The alternative `r\d+` followed by `: (\d+)`. */
  function MatchNumberedRegister(s: string): (r: Option<Match>)
    ensures r.Some? ==> r.value.FieldMatch? && IsNumberedRegister(r.value.name)
                        && r.value.digits != [] && AllDigits(r.value.digits)
                        && |MatchText(r.value)| <= |s| && s[..|MatchText(r.value)|] == MatchText(r.value)
  {
    if s != [] && s[0] == 'r' then
      var index := LeadingDigits(s[1..]);
      var number := if index != [] then NumberAfterName(s[1 + |index|..]) else None;
      if number.Some? then
        var m := FieldMatch("r" + index, number.value);
        assert s[..|MatchText(m)|] == MatchText(m) by {
          assert s[1 + |index|..][..2 + |number.value|] == ": " + number.value;
          assert s[..1 + |index|] == "r" + index;
        }
        Some(m)
      else None
    else None
  }

  /**
   * The match the pattern prefers among those starting at the front of
   * `s`, if there is one. Alternatives are tried in the order written; a
   * `\d+` takes every digit there is (giving some back never helps, since
   * what follows it is not a digit).
   */
  function MatchAt(p: Pattern, s: string): (r: Option<Match>)
    ensures r.Some? ==> Fits(p, r.value)
    ensures r.Some? ==> 0 < |MatchText(r.value)| <= |s| && s[..|MatchText(r.value)|] == MatchText(r.value)
  {
    match p
    case NamedNumber(names, numberedR) =>
      var literal := MatchLiteral(names, s);
      if literal.Some? then literal
      else if numberedR then MatchNumberedRegister(s)
      else None
    case NumberList =>
      if s != [] && s[0] == '[' then
        var body := LeadingListChars(s[1..]);
        if body != [] && 1 + |body| < |s| && s[1 + |body|] == ']' then
          assert s[..2 + |body|] == "[" + body + "]";
          Some(ListMatch(body))
        else None
      else None
  }

  /** No match of `p` starts anywhere in `s`. */
  predicate NoMatch(p: Pattern, s: string) {
    forall i {:trigger MatchAt(p, s[i..])} :: 0 <= i < |s| ==> MatchAt(p, s[i..]).None?
  }

  // --------------------------------------------------------- replacement

  /** One element of a number list: its trimmed text, in hex when it is a `u64`. */
  function ConvertItem(element: string): string {
    var t := Trim(element);
    match ParseU64(t)
    case Some(n) => "0x" + Hex(n)
    case None => t
  }

  function ConvertItems(elements: seq<string>): (r: seq<string>)
    ensures |r| == |elements|
  {
    seq(|elements|, i requires 0 <= i < |elements| => ConvertItem(elements[i]))
  }

  /**
   * What a match is replaced by: a named number keeps its name and gets
   * its number in hex, or 0 when the digits overflow a `u64`; a number
   * list has each comma-separated element converted and is rejoined with
   * ", ".
   */
  function Replacement(m: Match): string {
    match m
    case FieldMatch(name, digits) => name + ": 0x" + Hex(ParseU64(digits).GetOr(0))
    case ListMatch(items) => "[" + Join(ConvertItems(Split(items, ',')), ", ") + "]"
  }

  /** `Regex::replace_all` with the replacements above. */
  function ReplaceAll(p: Pattern, s: string): string
    decreases |s|
  {
    if s == [] then ""
    else
      var found := MatchAt(p, s);
      if found.Some? then
        Replacement(found.value) + ReplaceAll(p, s[|MatchText(found.value)|..])
      else
        [s[0]] + ReplaceAll(p, s[1..])
  }

  // ----------------------------------------------------- the rewriters

  /** `(rax|rcx|rdx|rsi|rdi|r\d+): (\d+)` */
  const ExitInfoRegisters := NamedNumber(["rax", "rcx", "rdx", "rsi", "rdi"], true)
  /** `(rflags|rip|ssp|rvi|svi): (\d+)` */
  const GuestStateFields := NamedNumber(["rflags", "rip", "ssp", "rvi", "svi"], false)
  /** `(base|limit|selector|attributes): (\d+)` */
  const SegmentFields := NamedNumber(["base", "limit", "selector", "attributes"], false)

  /** Register values of a `tdx_tdg_vp_enter_exit_info` dump, in hex. */
  function TransformTdxExitInfo(text: string): (r: string)
    ensures NoMatch(ExitInfoRegisters, text) ==> r == text
  {
    ReplaceAllUnchanged(ExitInfoRegisters, text);
    ReplaceAll(ExitInfoRegisters, text)
  }

  /**
   * A `TdxL2EnterGuestState` dump: first every number list, then the
   * scalar fields, in hex.
   */
  function TransformTdxGuestState(text: string): (r: string)
    ensures NoMatch(NumberList, text) && NoMatch(GuestStateFields, text) ==> r == text
  {
    var lists := ReplaceAll(NumberList, text);
    ReplaceAllUnchanged(NumberList, text);
    ReplaceAllUnchanged(GuestStateFields, lists);
    ReplaceAll(GuestStateFields, lists)
  }

  /** The fields of a `SegmentRegister` dump, in hex. */
  function TransformSegmentRegister(text: string): (r: string)
    ensures NoMatch(SegmentFields, text) ==> r == text
  {
    ReplaceAllUnchanged(SegmentFields, text);
    ReplaceAll(SegmentFields, text)
  }

  // --------------------------------------------------------------- lemmas

  /** Text before the first match is copied through unchanged. */
  lemma {:induction false} ReplaceAllCopiesPrefix(p: Pattern, s: string, j: nat)
    requires j <= |s|
    requires forall i {:trigger MatchAt(p, s[i..])} :: 0 <= i < j ==> MatchAt(p, s[i..]).None?
    ensures ReplaceAll(p, s) == s[..j] + ReplaceAll(p, s[j..])
  {
    if j == 0 {
      assert s[..0] == [] && s[0..] == s;
    } else {
      var tail := ReplaceAll(p, s[j..]);
      calc {
        ReplaceAll(p, s);
        { ReplaceAllCopiesPrefix(p, s, j - 1); }
        s[..j - 1] + ReplaceAll(p, s[j - 1..]);
        { ReplaceAllSkip(p, s, j - 1); }
        s[..j - 1] + ([s[j - 1]] + tail);
        { AppendAssoc(s[..j - 1], [s[j - 1]], tail); }
        (s[..j - 1] + [s[j - 1]]) + tail;
        { assert s[..j - 1] + [s[j - 1]] == s[..j]; }
        s[..j] + tail;
      }
    }
  }

  /** Where no match starts, the character is copied and the scan moves on. */
  lemma ReplaceAllSkip(p: Pattern, s: string, k: nat)
    requires k < |s| && MatchAt(p, s[k..]).None?
    ensures ReplaceAll(p, s[k..]) == [s[k]] + ReplaceAll(p, s[k + 1..])
  {
    assert s[k..][1..] == s[k + 1..];
  }

  /** Text holding no match comes out unchanged. */
  lemma ReplaceAllUnchanged(p: Pattern, s: string)
    ensures NoMatch(p, s) ==> ReplaceAll(p, s) == s
  {
    if NoMatch(p, s) {
      ReplaceAllCopiesPrefix(p, s, |s|);
      assert s[|s|..] == [];
    }
  }

  /**
   * The leftmost match is replaced, the text before it is kept, and the
   * scan resumes right after it.
   */
  lemma ReplaceAllLeftmost(p: Pattern, s: string, j: nat, m: Match)
    requires j < |s|
    requires forall i {:trigger MatchAt(p, s[i..])} :: 0 <= i < j ==> MatchAt(p, s[i..]).None?
    requires MatchAt(p, s[j..]) == Some(m)
    ensures j + |MatchText(m)| <= |s|
    ensures ReplaceAll(p, s) == s[..j] + Replacement(m) + ReplaceAll(p, s[j + |MatchText(m)|..])
  {
    ReplaceAllCopiesPrefix(p, s, j);
    assert s[j..][|MatchText(m)|..] == s[j + |MatchText(m)|..];
  }

  /** Text without a colon holds no named number: those rewriters leave it alone. */
  lemma NoColonNoMatch(names: seq<string>, numberedR: bool, s: string)
    requires ':' !in s
    ensures NoMatch(NamedNumber(names, numberedR), s)
  {
    forall i | 0 <= i < |s| ensures MatchAt(NamedNumber(names, numberedR), s[i..]).None? {
      MatchNeedsColon(names, numberedR, s[i..]);
    }
  }

  /** A named number has a colon after its name. */
  lemma MatchNeedsColon(names: seq<string>, numberedR: bool, t: string)
    ensures MatchAt(NamedNumber(names, numberedR), t).Some? ==> ':' in t
  {
    var r := MatchAt(NamedNumber(names, numberedR), t);
    if r.Some? {
      var k := |r.value.name|;
      assert MatchText(r.value)[k] == ':';
      assert t[k] == ':';
    }
  }

  /** Text without '[' holds no number list: the list pass leaves it alone. */
  lemma NoBracketNoList(s: string)
    requires '[' !in s
    ensures NoMatch(NumberList, s)
  {
    forall i | 0 <= i < |s| ensures MatchAt(NumberList, s[i..]).None? {
      if MatchAt(NumberList, s[i..]).Some? {
        assert false;
      }
    }
  }

  /**
   * The scanner misses nothing: whenever some match of `p` starts at the
   * front of `s`, `MatchAt` finds one there.
   */
  lemma MatchAtComplete(p: Pattern, s: string, m: Match)
    requires Fits(p, m)
    requires |MatchText(m)| <= |s| && s[..|MatchText(m)|] == MatchText(m)
    ensures MatchAt(p, s).Some?
  {
    match p
    case NamedNumber(names, numberedR) =>
      NamedNumberComplete(names, numberedR, s, m.name, m.digits);
    case NumberList =>
      NumberListComplete(s, m.items);
  }

  /** A listed name, or `r` plus digits when allowed, then `: ` and a digit is found. */
  lemma NamedNumberComplete(names: seq<string>, numberedR: bool, s: string, name: string, digits: string)
    requires name in names || (numberedR && IsNumberedRegister(name))
    requires digits != [] && AllDigits(digits)
    requires |name + ": " + digits| <= |s| && s[..|name + ": " + digits|] == name + ": " + digits
    ensures MatchAt(NamedNumber(names, numberedR), s).Some?
  {
    var text := name + ": " + digits;
    var after := s[|name|..];
    assert s[..|name|] == name by {
      assert text[..|name|] == name;
    }
    assert |after| > 2 && after[..2] == ": " && IsDigit(after[2]) by {
      assert after[..2] == text[|name|..|name| + 2];
      assert after[2] == text[|name| + 2] == digits[0];
    }
    NumberAfterNameFound(after);
    if name in names {
      LiteralComplete(names, s, name);
    } else if MatchLiteral(names, s).None? {
      assert s[0] == 'r' by {
        assert s[0] == text[0];
      }
      assert s[1..] == name[1..] + after;
      LeadingDigitsExact(name[1..], after);
    }
  }

  /** `[`, then digits, commas and spaces, then `]` is found. */
  lemma NumberListComplete(s: string, items: string)
    requires items != [] && forall i :: 0 <= i < |items| ==> IsListChar(items[i])
    requires |"[" + items + "]"| <= |s| && s[..|"[" + items + "]"|] == "[" + items + "]"
    ensures MatchAt(NumberList, s).Some?
  {
    var text := "[" + items + "]";
    assert s[1..] == items + s[1 + |items|..] by {
      assert s[1..1 + |items|] == text[1..1 + |items|] == items;
    }
    assert s[0] == text[0] && s[1 + |items|] == text[1 + |items|];
    LeadingListExact(items, s[1 + |items|..]);
  }

  /**
   * A named number takes every digit after its colon: the matched text is
   * followed by a non-digit, or by nothing.
   */
  lemma MatchAtMaximal(names: seq<string>, numberedR: bool, s: string)
    requires MatchAt(NamedNumber(names, numberedR), s).Some?
    ensures var n := |MatchText(MatchAt(NamedNumber(names, numberedR), s).value)|;
            n == |s| || !IsDigit(s[n])
  {
    if MatchLiteral(names, s).Some? {
      LiteralMaximal(names, s);
    } else {
      NumberedRegisterMaximal(s);
    }
  }

  /** `: ` and a digit are all `NumberAfterName` needs. */
  lemma NumberAfterNameFound(t: string)
    requires |t| > 2 && t[..2] == ": " && IsDigit(t[2])
    ensures NumberAfterName(t).Some?
  {
    assert t[2..][0] == t[2];
  }

  /** A run of digits followed by a non-digit, or by nothing, is all `LeadingDigits` takes. */
  lemma {:induction false} LeadingDigitsExact(d: string, rest: string)
    requires AllDigits(d)
    requires rest == [] || !IsDigit(rest[0])
    ensures LeadingDigits(d + rest) == d
  {
    if d == [] {
      assert d + rest == rest;
    } else {
      assert (d + rest)[0] == d[0];
      assert (d + rest)[1..] == d[1..] + rest;
      LeadingDigitsExact(d[1..], rest);
      assert [d[0]] + d[1..] == d;
    }
  }

  /** The same for the characters of a number list. */
  lemma {:induction false} LeadingListExact(d: string, rest: string)
    requires forall i :: 0 <= i < |d| ==> IsListChar(d[i])
    requires rest == [] || !IsListChar(rest[0])
    ensures LeadingListChars(d + rest) == d
  {
    if d == [] {
      assert d + rest == rest;
    } else {
      assert (d + rest)[0] == d[0];
      assert (d + rest)[1..] == d[1..] + rest;
      LeadingListExact(d[1..], rest);
      assert [d[0]] + d[1..] == d;
    }
  }

  /** A listed name that leads to a whole match makes `MatchLiteral` succeed. */
  lemma {:induction false} LiteralComplete(names: seq<string>, s: string, name: string)
    requires name in names && name <= s && NumberAfterName(s[|name|..]).Some?
    ensures MatchLiteral(names, s).Some?
  {
    if names[0] != name {
      assert name in names[1..];
      LiteralComplete(names[1..], s, name);
    }
  }

  /** The digits `NumberAfterName` takes are followed by a non-digit, or by nothing. */
  lemma NumberAfterNameMaximal(t: string)
    requires NumberAfterName(t).Some?
    ensures var n := 2 + |NumberAfterName(t).value|;
            n == |t| || !IsDigit(t[n])
  {
    var d := NumberAfterName(t).value;
    if 2 + |d| < |t| {
      assert t[2 + |d|] == t[2..][|d|];
    }
  }

  lemma {:induction false} LiteralMaximal(names: seq<string>, s: string)
    requires MatchLiteral(names, s).Some?
    ensures var n := |MatchText(MatchLiteral(names, s).value)|;
            n == |s| || !IsDigit(s[n])
  {
    var name := names[0];
    if name <= s && NumberAfterName(s[|name|..]).Some? {
      var t := s[|name|..];
      NumberAfterNameMaximal(t);
      var n := |name| + 2 + |NumberAfterName(t).value|;
      if n < |s| {
        assert s[n] == t[n - |name|];
      }
    } else {
      LiteralMaximal(names[1..], s);
    }
  }

  lemma NumberedRegisterMaximal(s: string)
    requires MatchNumberedRegister(s).Some?
    ensures var n := |MatchText(MatchNumberedRegister(s).value)|;
            n == |s| || !IsDigit(s[n])
  {
    var index := LeadingDigits(s[1..]);
    var t := s[1 + |index|..];
    NumberAfterNameMaximal(t);
    var n := 1 + |index| + 2 + |NumberAfterName(t).value|;
    if n < |s| {
      assert s[n] == t[n - 1 - |index|];
    }
  }

  /**
   * A named number keeps its name, and the hex digits written for it
   * denote the value of its decimal digits, or 0 when that value does not
   * fit in a `u64`.
   */
  lemma FieldReplacementValue(name: string, digits: string)
    requires digits != [] && AllDigits(digits)
    ensures var out := Replacement(FieldMatch(name, digits));
            |name| + 4 < |out| && out[..|name| + 4] == name + ": 0x"
            && AllLowerHex(out[|name| + 4..])
            && HexValue(out[|name| + 4..]) == (if DecValue(digits) < U64_LIMIT then DecValue(digits) else 0)
            && out[|name| + 4..] == Hex(if DecValue(digits) < U64_LIMIT then DecValue(digits) else 0)
  {
    var n := ParseU64(digits).GetOr(0);
    var out := Replacement(FieldMatch(name, digits));
    assert out[|name| + 4..] == Hex(n);
    HexRoundTrip(n);
  }

  /**
   * A list element that trims to a `u64` becomes hex digits denoting the
   * same value; any other element becomes its trimmed text.
   */
  lemma ConvertItemValue(element: string)
    ensures ParseU64(Trim(element)).Some? ==>
              var out := ConvertItem(element);
              |out| > 2 && out[..2] == "0x" && AllLowerHex(out[2..])
              && HexValue(out[2..]) == ParseU64(Trim(element)).value
              && out[2..] == Hex(ParseU64(Trim(element)).value)
    ensures ParseU64(Trim(element)).None? ==> ConvertItem(element) == Trim(element)
  {
    var r := ParseU64(Trim(element));
    if r.Some? {
      assert ConvertItem(element)[2..] == Hex(r.value);
      HexRoundTrip(r.value);
    }
  }

  /**
   * The rewritten list is again a bracketed list with one element per
   * original element, in the same order: the converted elements joined by
   * exactly ", ", so element `i` after the first is a space and the
   * conversion of the original element `i`.
   */
  lemma ListReplacementElements(items: string)
    ensures var out := Replacement(ListMatch(items));
            var elements := Split(items, ',');
            |out| >= 2 && out[0] == '[' && out[|out| - 1] == ']'
            && var back := Split(out[1..|out| - 1], ',');
               |back| == |elements|
               && back[0] == ConvertItem(elements[0])
               && (forall i :: 1 <= i < |back| ==> back[i] == " " + ConvertItem(elements[i]))
               && (forall i :: 0 <= i < |back| ==> Trim(back[i]) == ConvertItem(elements[i]))
  {
    var elements := Split(items, ',');
    var converted := ConvertItems(elements);
    forall i | 0 <= i < |converted| ensures ',' !in converted[i] && IsTrimmed(converted[i]) {
      ConvertItemShape(elements[i]);
    }
    var out := Replacement(ListMatch(items));
    var inner := Join(converted, ", ");
    assert out == "[" + inner + "]";
    assert out[1..|out| - 1] == inner;
    SplitJoin(converted);
    var back := Split(inner, ',');
    forall i | 0 <= i < |back| ensures Trim(back[i]) == ConvertItem(elements[i]) {
      if i == 0 {
        TrimTrimmed(converted[0]);
      } else {
        TrimSpaced(converted[i]);
      }
    }
  }

  /** A converted element holds no comma and no whitespace at its ends. */
  lemma ConvertItemShape(element: string)
    requires ',' !in element
    ensures ',' !in ConvertItem(element) && IsTrimmed(ConvertItem(element))
  {
    var t := Trim(element);
    var i :| PaddedAt(element, t, i);
    match ParseU64(t)
    case Some(n) =>
      HexNumeralShape(Hex(n));
    case None =>
      forall k | 0 <= k < |t| ensures t[k] != ',' {
        assert t[k] == element[i + k];
      }
  }

  /** A `0x` numeral holds no comma and ends in a digit. */
  lemma HexNumeralShape(h: string)
    requires |h| >= 1 && AllLowerHex(h)
    ensures ',' !in "0x" + h && IsTrimmed("0x" + h)
  {
    var out := "0x" + h;
    forall k | 0 <= k < |out| ensures out[k] != ',' {
      if k >= 2 {
        assert out[k] == h[k - 2];
      }
    }
    assert out[|out| - 1] == h[|h| - 1];
  }

  /** A string without a comma splits into itself alone. */
  lemma {:induction false} SplitNoSeparator(a: string)
    requires ',' !in a
    ensures Split(a, ',') == [a]
  {
    if a != [] {
      SplitNoSeparator(a[1..]);
      assert [a[0]] + a[1..] == a;
    }
  }

  /** Splitting at the first comma: the part before it is the first piece. */
  lemma {:induction false} SplitFirstSeparator(a: string, rest: string)
    requires ',' !in a
    ensures Split(a + "," + rest, ',') == [a] + Split(rest, ',')
  {
    var s := a + "," + rest;
    if a == [] {
      assert s == [','] + rest;
      assert s[1..] == rest;
    } else {
      assert s[1..] == a[1..] + "," + rest;
      SplitFirstSeparator(a[1..], rest);
      assert [a[0]] + a[1..] == a;
    }
  }

  /**
   * Splitting a ", "-joined list of comma-free pieces at the commas gives
   * the pieces back, all but the first with the space in front.
   */
  lemma {:induction false} SplitJoin(xs: seq<string>)
    requires |xs| >= 1
    requires forall i :: 0 <= i < |xs| ==> ',' !in xs[i]
    ensures var back := Split(Join(xs, ", "), ',');
            |back| == |xs| && back[0] == xs[0]
            && forall i :: 1 <= i < |xs| ==> back[i] == " " + xs[i]
  {
    if |xs| == 1 {
      SplitNoSeparator(xs[0]);
    } else {
      var tail := Join(xs[1..], ", ");
      SplitJoin(xs[1..]);
      var rest := Split(tail, ',');
      JoinCons(xs);
      SplitFirstSeparator(xs[0], " " + tail);
      SplitNonSeparator(' ', tail);
      var back := Split(Join(xs, ", "), ',');
      assert back == [xs[0]] + ([" " + rest[0]] + rest[1..]);
      forall i | 1 <= i < |xs| ensures back[i] == " " + xs[i] {
        if i > 1 {
          assert back[i] == rest[i - 1];
          assert rest[i - 1] == " " + xs[1..][i - 1];
        }
      }
    }
  }

  /** The first piece of a ", "-join, then a comma, then the space and the rest. */
  lemma JoinCons(xs: seq<string>)
    requires |xs| >= 2
    ensures Join(xs, ", ") == xs[0] + "," + (" " + Join(xs[1..], ", "))
  {
    var a := xs[0];
    var tail := Join(xs[1..], ", ");
    assert "," + " " == ", ";
    calc {
      Join(xs, ", ");
      a + ", " + tail;
      { AppendAssoc(a, ", ", tail); }
      a + (", " + tail);
      { AppendAssoc(",", " ", tail); }
      a + ("," + (" " + tail));
      { AppendAssoc(a, ",", " " + tail); }
      a + "," + (" " + tail);
    }
  }

  /** A character other than the separator joins the first piece. */
  lemma SplitNonSeparator(c: char, t: string)
    requires c != ','
    ensures Split([c] + t, ',') == [[c] + Split(t, ',')[0]] + Split(t, ',')[1..]
  {
    assert ([c] + t)[1..] == t;
  }

  /** Trimming a space-prefixed trimmed string removes just the space. */
  lemma TrimSpaced(x: string)
    requires IsTrimmed(x)
    ensures Trim(" " + x) == x
  {
    assert (" " + x)[1..] == x;
    assert TrimStart(" " + x) == TrimStart(x);
    TrimTrimmed(x);
  }
}
