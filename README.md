# kusto-kmsg-extract, modelled in Dafny

`kusto-kmsg-extract` reads a CSV export of kernel-message records. Each
row's message cell holds one JSON-encoded log record, and the tool turns it
into one readable line:

```
[timestamp][level][target] message key=value key=value ...
```

Integers are written in hexadecimal. Three kinds of TDX diagnostic dump
have their decimal numbers rewritten in hex inside the string:

- `tdx_tdg_vp_enter_exit_info` register dumps under `raw_exit`;
- `TdxL2EnterGuestState` dumps under `gprs`, including their bracketed
  number lists;
- `SegmentRegister` dumps under any other key.

A cell that does not hold such a record is passed through unchanged, and
an empty cell is dropped.

This project models that per-cell transformation, from the decoded JSON
tree to the output line, and proves what each step promises. It has six
modules:

- `Wrappers` (wrappers.dfy): `Option`, whose `GetOr` is `unwrap_or`.
- `Numerals` (numerals.dfy): `str::parse::<u64>` and the `{:x}` hex
  rendering, each tied to the value a numeral denotes.
- `Text` (text.dfy): the `str` operations the tool relies on: `contains`,
  `split(',')`, `trim`, `join`.
- `Json` (json.dfy): the decoded tree, key lookup, and the compact
  rendering that `Display` prints for a value.
- `Rewriters` (rewriters.dfy): the three regular-expression rewriters,
  written as explicit left-to-right scanners with the semantics of
  `Regex::replace_all`.
  - Scanning is leftmost-first.
  - Alternatives are tried in the order they are written.
  - Matches do not overlap, and replaced text is never rescanned.
- `LogLine` (logline.dfy): the numeric formatter, the per-field dispatch,
  and `process_message`.
  - `ProcessMessage` is a method. It returns early where the source does,
    and calls `AppendFields` for the rest.
  - `AppendFields` is a method with the source's loop over the fields, a
    string accumulator, and `continue` in the special cases.
  - `ProcessMessage` is proved equal to the line specification `Line`. The
    lemmas about the output's shape are stated on `Line`.

## Model

| member | source | states |
|---|---|---|
| Wrappers.Option.GetOr | src/main.rs:23 | `unwrap_or` (also src/main.rs:51 and 64) gives the wrapped value when there is one, and the default otherwise |
| Numerals.ParseU64 | src/main.rs:23 | `parse::<u64>` fails on the empty string. For a nonempty run of digits, with or without one leading `+`, it succeeds exactly when the value is below 2^64, and then returns that value. Any other text fails |
| Numerals.ParseDecimal | src/main.rs:23 | `parse::<u64>` accepts the canonical decimal numeral of n exactly when n < 2^64, and returns n |
| Numerals.Hex | src/main.rs:24 | `{:x}` writes lower-case hex digits with no leading zero; zero is written "0" |
| Numerals.HexRoundTrip | src/main.rs:24 | reading the hex numeral back gives the number it was written for |
| Numerals.HexInjective | src/main.rs:24 | different numbers get different hex numerals |
| Numerals.HexWidth | src/main.rs:78-81 | a number below 16^k has at most k hex digits |
| Numerals.HexWidthU64 | src/main.rs:78-81 | a 64-bit value has at most 16 hex digits |
| Numerals.Decimal | src/main.rs:87 | the decimal numeral used when an integer is displayed is made of digits, with no leading zero; zero is written "0" |
| Numerals.DecimalRoundTrip | src/main.rs:117 | reading the decimal numeral back gives the number |
| Text.Contains | src/main.rs:142 | `contains` holds exactly when the text occurs at some index |
| Text.Join | src/main.rs:44 | no contract of its own. It is `join`; JoinSplit states it on any separator, and SplitJoin on the `", "` join of comma-free pieces |
| Text.Split | src/main.rs:38 | `split(',')` gives one more piece than there are commas, and no piece holds a comma |
| Text.JoinSplit | src/main.rs:38 | joining the pieces of a split with the separator gives back the string |
| Text.Trim | src/main.rs:39-41 | `trim` leaves a slice of its input with no whitespace at either end, and drops only whitespace around it |
| Text.TrimTrimmed | src/main.rs:39-41 | a string with no whitespace at its ends is its own trim |
| Json.Lookup | src/main.rs:104-107 | a key lookup fails exactly when no member has the key; otherwise it returns the value of the first member with that key |
| Json.Get | src/main.rs:105-108 | `get` on a value that is not an object finds nothing; on an object it is the key lookup |
| Json.Render | src/main.rs:87 | `Display` prints an integer as exactly its canonical decimal numeral `Decimal`, after a minus sign when negative, and reading the digits back gives the integer. A string prints between double quotes. Arrays, objects and the escaping of strings are written out but not proved about |
| Json.AsStr | src/main.rs:104-106 | `and_then(Value::as_str)` gives text exactly for a string value, and gives that string's text |
| Rewriters.MatchAt | src/main.rs:18 | a match found at the front of the text fits the pattern: a listed name or `r` plus digits, then `: ` and at least one digit; or `[` plus digits, commas and spaces, then `]`. The matched text is a nonempty prefix of the input |
| Rewriters.MatchAtComplete | src/main.rs:18 | whenever some match of the pattern starts at the front of the text, the matcher finds one there |
| Rewriters.MatchAtMaximal | src/main.rs:18 | `(\d+)` takes every digit there is: a named-number match is followed by a non-digit or by the end of the text |
| Rewriters.ReplaceAll | src/main.rs:20-26 | no contract of its own. It is `replace_all`'s scan, stated by ReplaceAllCopiesPrefix, ReplaceAllLeftmost and ReplaceAllUnchanged |
| Rewriters.Replacement | src/main.rs:21-25 | no contract of its own. It is the replacement closures (also src/main.rs:35-45 and 49-53). FieldReplacementValue fixes the text exactly: the name, `: 0x` and the `{:x}` numeral of the value. ListReplacementElements fixes the list exactly: brackets around the converted elements joined by `", "` |
| Rewriters.ConvertItem | src/main.rs:39-42 | no contract of its own. It is the per-element closure, stated by ConvertItemValue and ConvertItemShape |
| Rewriters.ReplaceAllCopiesPrefix | src/main.rs:20-26 | text before the first match is copied through unchanged |
| Rewriters.ReplaceAllLeftmost | src/main.rs:20-26 | the leftmost match is replaced, the text before it is kept, and scanning resumes right after the match |
| Rewriters.ReplaceAllUnchanged | src/main.rs:20-26 | text with no match anywhere comes out unchanged |
| Rewriters.NoColonNoMatch | src/main.rs:18 | text without a colon holds no `name: number` match |
| Rewriters.NoBracketNoList | src/main.rs:31 | text without `[` holds no number list |
| Rewriters.TransformTdxExitInfo | src/main.rs:17-27 | the exit-info rewriter returns text with no register match unchanged |
| Rewriters.TransformTdxGuestState | src/main.rs:30-55 | its body runs the list pass, then the field pass; its contract gives the no-match case: text with neither kind of match comes out unchanged |
| Rewriters.TransformSegmentRegister | src/main.rs:58-68 | the segment-register rewriter returns text with no field match unchanged |
| Rewriters.FieldReplacementValue | src/main.rs:21-25 | a matched `name: digits` becomes `name: 0x` followed by `Hex` of the decimal value, or of 0 when the value does not fit in a u64. So the digits are lower case, have no leading zero, and read back to that value |
| Rewriters.ConvertItemValue | src/main.rs:39-42 | a list element that trims to a u64 becomes `0x` plus `Hex` of that value, lower case with no leading zero and reading back to the value. Any other element becomes its trimmed text |
| Rewriters.ConvertItemShape | src/main.rs:39-42 | a converted element holds no comma and no whitespace at either end |
| Rewriters.ListReplacementElements | src/main.rs:36-45 | a rewritten list is bracketed and has one element per original element, in order. The first is the conversion of the first original element, and each later one is a space and the conversion of its original, so the separator is exactly `", "` |
| Rewriters.SplitJoin | src/main.rs:44 | splitting a `", "`-join of comma-free pieces on `,` gives back the first piece and the others with a space in front |
| LogLine.FormatValueAsHex | src/main.rs:71-89 | every formatted value starts with ` key=`. What follows is stated by FormatValueAsHexInteger for integers, and by FormatValueAsHexOther for every other value |
| LogLine.FormatValueAsHexOther | src/main.rs:82-87 | a value that is not an integer in the `i64`/`u64` range, floats included, is written as its `Render` text |
| LogLine.FormatValueAsHexInteger | src/main.rs:73-81 | an integer from -2^63 to 2^64 - 1 is written as `0x` plus the hex of its value mod 2^64. That is the value itself when non-negative, and its 64-bit two's-complement pattern when negative, in at most 16 digits |
| LogLine.FormatValueAsHexExamples | src/main.rs:71-89 | 255 is written `0xff`; -1 is written as the hex of 2^64 - 1 |
| LogLine.RuleFor | src/main.rs:140-165 | the exit-info rule applies exactly to a `raw_exit` string with its marker, and the guest-state rule exactly to a `gprs` string with its marker. The segment rule applies exactly to a string with its marker under any other key. The rules exclude one another |
| LogLine.Fragment | src/main.rs:139-169 | the fragment of one field starts with ` key=` for its key. What follows is stated by MarkedStringFragments, RawExitWithoutMarker, GprsWithoutMarker and PlainFragment |
| LogLine.PlainFragment | src/main.rs:166-169 | a value that is not a string, and an unmarked string under any key but `raw_exit` and `gprs`, gets the numeric formatter's fragment |
| LogLine.PlainFragmentExample | src/main.rs:166-169 | the integer 255 under `count` is written ` count=0xff` |
| LogLine.Fragments | src/main.rs:134-170 | each field fragment starts with ` key=` for its own key |
| LogLine.MarkedStringFragments | src/main.rs:140-165 | a marked string is rewritten and put between quotes with no JSON escaping |
| LogLine.RawExitWithoutMarker | src/main.rs:140-150 | a `raw_exit` string without its marker goes to the plain formatter as a JSON string. It is never tested for `SegmentRegister` |
| LogLine.GprsWithoutMarker | src/main.rs:151-160 | a `gprs` string without its marker goes to the plain formatter as a JSON string. It is never tested for `SegmentRegister` |
| LogLine.RequiredFields | src/main.rs:104-114 | the record is usable exactly when `timestamp`, `level` and `target` are strings and `fields` is present; the entry carries those values |
| LogLine.ProcessMessage | src/main.rs:92-173 | the method computes exactly `Line` for every cell and decoder outcome |
| LogLine.AppendFields | src/main.rs:133-170 | the field loop appends, in member order, the fragment of every member other than `message` |
| LogLine.FieldsTextStep | src/main.rs:134-170 | one more member appends its fragment, and a `message` member appends nothing |
| LogLine.Line | src/main.rs:92-173 | no contract of its own. It is the line specification, through `Classify` (which outcome) and `Emit` (what is written), that ProcessMessage is proved equal to. It is stated by SuppressedIffEmpty, FallbackUnchanged, DefaultRenderingLine and MessageLine |
| LogLine.SuppressedIffEmpty | src/main.rs:93-96 | the line is empty exactly when the cell is empty |
| LogLine.FallbackUnchanged | src/main.rs:98-114 | the cell comes out unchanged when it does not decode, when `timestamp`, `level` or `target` is missing or not a string, or when `fields` is missing |
| LogLine.DefaultRenderingLine | src/main.rs:116-128 | when the fields are not an object, or have no string `message`, the line is the header followed by the rendered fields, and nothing else |
| LogLine.MessageLine | src/main.rs:130-170 | otherwise the line is the header, then the message, then exactly one fragment per other member. The fragments are in member order and each starts with ` key=` |
| LogLine.OtherFieldsMembers | src/main.rs:135-137 | exactly the members whose key is not `message` get a fragment |
| LogLine.OtherFieldsAppend | src/main.rs:134-137 | skipping `message` works member by member, so it keeps the members' order |
| LogLine.OtherFieldsWithoutMessage | src/main.rs:134-137 | with no `message` member, every member gets a fragment |

## Left out

- `main` and `Args` (src/main.rs:9-14, 175-210) are not part of this model. They parse the command line, open the file, read the CSV, find the column and print each line. That is I/O over libraries that are not shown.
- JSON decoding (src/main.rs:99) is taken as done. The input is the decoded tree, or `DecodeFailed` when decoding fails.
- An object is a sequence of members in the order the decoder iterates them, each key once. The map type behind it (sorted or insertion-ordered) depends on crate features that are not shown. Duplicate keys, which the decoder collapses, are not modelled.
- `Render` writes JSON values in the compact form `Display` prints. Its string escaping follows the same writer, but no property of it is proved.
- Floats are not modelled. A `Float` value carries the text its display prints, and the formatter only passes that text on.
- `Int` holds the integers the decoder keeps exact (-2^63 to 2^64 - 1). `FormatValueAsHex` sends an `Int` outside that range to `Render`. The decoder never produces one.
- `\d` in the regular expressions also matches non-ASCII decimal digits, and the model matches ASCII digits only. This differs in two places:
  - In a value group `(\d+)`, the source takes such a digit into the number, fails to parse it and writes `0x0`. The model's digit run stops before it: `rax: 12٣` becomes `rax: 0xc٣` there, and a value that starts with such a digit is not matched at all.
  - In the register name `r\d+` (src/main.rs:18), the source matches such a digit and never parses it, so `r٣: 5` becomes `r٣: 0x5`. The model finds no match there and leaves the text unchanged.
- `ParseU64` accepts the leading `+` that `parse::<u64>` accepts. The matched text of the rewriters never holds one, so this case is not reached there.
- The regular-expression engine is not modelled. Each pattern has its own matcher, and `ReplaceAll` has `replace_all`'s scanning order.
- Rewriters.TransformTdxExitInfo, Rewriters.TransformTdxGuestState and Rewriters.TransformSegmentRegister: each one's own contract states only the no-match case. What happens to the text around and inside each match is stated by ReplaceAllLeftmost, ReplaceAllCopiesPrefix, FieldReplacementValue and ListReplacementElements on the shared scanner they call.
