/**
 * The string operations of Rust's `str` that the formatter relies on:
 * `contains`, `split(',')`, `trim`, and `join` on a list of strings.
 */
module Text {

  // ------------------------------------------------------------ contains

  /** `s` occurs in `t` starting at index `i`. */
  predicate OccursAt(t: string, s: string, i: int) {
    0 <= i && i + |s| <= |t| && t[i..i + |s|] == s
  }

  /** `t.contains(s)`, scanning from the left. */
  function Contains(t: string, s: string): (r: bool)
    ensures r <==> exists i :: OccursAt(t, s, i)
    decreases |t|
  {
    if |t| < |s| then false
    else if t[..|s|] == s then (assert OccursAt(t, s, 0); true)
    else
      var r := Contains(t[1..], s);
      assert r ==> exists i :: OccursAt(t, s, i) by {
        if r {
          var i :| OccursAt(t[1..], s, i);
          assert t[1..][i..i + |s|] == t[i + 1..i + 1 + |s|];
          assert OccursAt(t, s, i + 1);
        }
      }
      assert (exists i :: OccursAt(t, s, i)) ==> r by {
        if exists i :: OccursAt(t, s, i) {
          var i :| OccursAt(t, s, i);
          assert i != 0;
          assert t[1..][i - 1..i - 1 + |s|] == t[i..i + |s|];
          assert OccursAt(t[1..], s, i - 1);
        }
      }
      r
  }

  // -------------------------------------------------------- join, concat

  /** `xs.join(sep)`: the pieces with `sep` between neighbours. */
  function Join(xs: seq<string>, sep: string): string {
    if |xs| == 0 then ""
    else if |xs| == 1 then xs[0]
    else xs[0] + sep + Join(xs[1..], sep)
  }

  /** The pieces one after another, with nothing between them. */
  function Concat(xs: seq<string>): string {
    if xs == [] then "" else Concat(xs[..|xs| - 1]) + xs[|xs| - 1]
  }

  /** Concatenation regroups freely. */
  lemma AppendAssoc(a: string, b: string, c: string)
    ensures a + (b + c) == (a + b) + c
  {
  }

  // --------------------------------------------------------------- split

  /**
   * `s.split(sep)` for a one-character separator: the maximal pieces
   * between separators, including empty ones at either end, so always at
   * least one piece and one more piece than there are separators.
   */
  function Split(s: string, sep: char): (r: seq<string>)
    ensures |r| == multiset(s)[sep] + 1
    ensures forall i :: 0 <= i < |r| ==> sep !in r[i]
    decreases |s|
  {
    if s == [] then [""]
    else
      assert s == [s[0]] + s[1..];
      var rest := Split(s[1..], sep);
      if s[0] == sep then [""] + rest
      else [[s[0]] + rest[0]] + rest[1..]
  }

  /** Joining the pieces of a split with the separator restores the string. */
  lemma {:induction false} JoinSplit(s: string, sep: char)
    ensures Join(Split(s, sep), [sep]) == s
  {
    if s != [] {
      var rest := Split(s[1..], sep);
      var r := Split(s, sep);
      JoinSplit(s[1..], sep);
      assert s == [s[0]] + s[1..];
      if s[0] == sep {
        assert Join(r, [sep]) == [sep] + Join(rest, [sep]) by {
          assert r == [""] + rest;
          assert r[1..] == rest;
          assert "" + [sep] == [sep];
        }
      } else if |rest| == 1 {
        assert Join(r, [sep]) == [s[0]] + rest[0] by {
          assert r == [[s[0]] + rest[0]];
        }
      } else {
        var tail := Join(rest[1..], [sep]);
        calc {
          Join(r, [sep]);
          { assert r == [[s[0]] + rest[0]] + rest[1..]; assert r[1..] == rest[1..]; }
          [s[0]] + rest[0] + [sep] + tail;
          { AppendAssoc([s[0]], rest[0], [sep]); AppendAssoc([s[0]], rest[0] + [sep], tail); }
          [s[0]] + (rest[0] + [sep] + tail);
          [s[0]] + Join(rest, [sep]);
        }
      }
    }
  }

  // ---------------------------------------------------------------- trim

  /** `char::is_whitespace`: the Unicode White_Space property. */
  predicate IsWhitespace(c: char) {
    var n := c as int;
    (9 <= n <= 13) || n == 0x20 || n == 0x85 || n == 0xA0 || n == 0x1680
    || (0x2000 <= n <= 0x200A) || n == 0x2028 || n == 0x2029 || n == 0x202F
    || n == 0x205F || n == 0x3000
  }

  /** Neither end of `s` is whitespace. */
  predicate IsTrimmed(s: string) {
    s == [] || (!IsWhitespace(s[0]) && !IsWhitespace(s[|s| - 1]))
  }

  function TrimStart(s: string): (r: string)
    ensures |r| <= |s| && r == s[|s| - |r|..]
    ensures forall k :: 0 <= k < |s| - |r| ==> IsWhitespace(s[k])
    ensures r == [] || !IsWhitespace(r[0])
  {
    if s != [] && IsWhitespace(s[0]) then TrimStart(s[1..]) else s
  }

  function TrimEnd(s: string): (r: string)
    ensures |r| <= |s| && r == s[..|r|]
    ensures forall k :: |r| <= k < |s| ==> IsWhitespace(s[k])
    ensures r == [] || !IsWhitespace(r[|r| - 1])
  {
    if s != [] && IsWhitespace(s[|s| - 1]) then TrimEnd(s[..|s| - 1]) else s
  }

  /** `r` is the slice of `s` at `i`, and everything around it is whitespace. */
  predicate PaddedAt(s: string, r: string, i: int) {
    0 <= i <= |s| - |r| && r == s[i..i + |r|]
    && (forall k :: 0 <= k < i ==> IsWhitespace(s[k]))
    && (forall k :: i + |r| <= k < |s| ==> IsWhitespace(s[k]))
  }

  /**
   * `s.trim()`: the part of `s` left after dropping the whitespace at both
   * ends; only whitespace is dropped.
   */
  function Trim(s: string): (r: string)
    ensures IsTrimmed(r)
    ensures exists i :: PaddedAt(s, r, i)
  {
    var t := TrimStart(s);
    var r := TrimEnd(t);
    var i := |s| - |t|;
    assert IsTrimmed(r) by {
      if r != [] { assert r[0] == t[0]; }
    }
    assert PaddedAt(s, r, i) by {
      assert r == s[i..i + |r|];
      forall k | i + |r| <= k < |s| ensures IsWhitespace(s[k]) {
        assert s[k] == t[k - i];
      }
    }
    r
  }

  /** A string without whitespace at its ends is its own trim. */
  lemma TrimTrimmed(s: string)
    requires IsTrimmed(s)
    ensures Trim(s) == s
  {
    assert TrimStart(s) == s;
    assert TrimEnd(s) == s;
  }
}
