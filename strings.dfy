/**
 * The handful of Python `str` operations that the front-end relies on:
 * `strip()`, `lower()`, `startswith`, `endswith`, the `in` substring test
 * and `split(sep)`.  Only the ASCII behaviour is modelled.
 */
module Strings {

  /** Python's `str.isspace` on ASCII: space, \t \n \v \f \r and the separators \x1c-\x1f. */
  predicate IsSpace(c: char) {
    c == ' ' || ('\t' <= c <= '\r') || ('\U{1C}' <= c <= '\U{1F}')
  }

  predicate AllSpace(s: string) {
    forall k :: 0 <= k < |s| ==> IsSpace(s[k])
  }

  /** The number of whitespace characters at the start of `s`. */
  function LeadingSpace(s: string): (n: nat)
    ensures n <= |s|
  {
    if s != [] && IsSpace(s[0]) then 1 + LeadingSpace(s[1..]) else 0
  }

  /** `LeadingSpace` stops at the first character that is not whitespace. */
  lemma {:induction false} LeadingSpaceSpec(s: string)
    ensures var n := LeadingSpace(s);
            AllSpace(s[..n]) && (n < |s| ==> !IsSpace(s[n]))
  {
    if s != [] && IsSpace(s[0]) {
      LeadingSpaceSpec(s[1..]);
      var n := LeadingSpace(s);
      assert s[..n] == [s[0]] + s[1..][..n - 1];
    }
  }

  /** The index where the run of whitespace that ends `s` begins. */
  function TrailingStart(s: string): (n: nat)
    ensures n <= |s|
  {
    if s != [] && IsSpace(s[|s| - 1]) then TrailingStart(s[..|s| - 1]) else |s|
  }

  /** `TrailingStart` stops after the last character that is not whitespace. */
  lemma {:induction false} TrailingStartSpec(s: string)
    ensures var n := TrailingStart(s);
            AllSpace(s[n..]) && (0 < n ==> !IsSpace(s[n - 1]))
  {
    if s != [] && IsSpace(s[|s| - 1]) {
      var init := s[..|s| - 1];
      TrailingStartSpec(init);
      var n := TrailingStart(s);
      assert s[n..] == init[n..] + [s[|s| - 1]];
    }
  }

  /** `str.strip()`: `s` without its leading and trailing whitespace. */
  function Strip(s: string): (r: string)
    ensures |r| <= |s|
  {
    var i := LeadingSpace(s);
    if i == |s| then ""
    else
      LeadingSpaceSpec(s);
      TrailingStartSpec(s);
      assert i < TrailingStart(s);
      s[i..TrailingStart(s)]
  }

  /**
   * What `strip()` returns: `s` is a whitespace prefix, the result and a
   * whitespace suffix, and the result neither starts nor ends with
   * whitespace; it is empty exactly when `s` is all whitespace.
   */
  lemma StripSpec(s: string)
    ensures var r := Strip(s);
            && (r == "" <==> AllSpace(s))
            && (r != "" ==> !IsSpace(r[0]) && !IsSpace(r[|r| - 1]))
            && exists i | 0 <= i <= |s| - |r| ::
                 s == s[..i] + r + s[i + |r|..] && AllSpace(s[..i]) && AllSpace(s[i + |r|..])
  {
    var i := LeadingSpace(s);
    var j := TrailingStart(s);
    LeadingSpaceSpec(s);
    TrailingStartSpec(s);
    if i == |s| {
      assert s == s[..i] + "" + s[i..];
    } else {
      assert i < j;
      assert s == s[..i] + s[i..j] + s[j..];
      assert !AllSpace(s) by { assert !IsSpace(s[i]); }
    }
  }

  /** A suffix that neither starts nor ends with whitespace survives `strip()`. */
  lemma StripEndsWith(s: string, p: string)
    requires EndsWith(s, p) && p != ""
    requires !IsSpace(p[0]) && !IsSpace(p[|p| - 1])
    ensures EndsWith(Strip(s), p)
  {
    var n, m := |s|, |p|;
    assert s[n - m..] == p;
    assert s[n - m] == p[0] && s[n - 1] == p[m - 1];
    LeadingSpaceSpec(s);
    var i := LeadingSpace(s);
    assert i <= n - m by { assert !IsSpace(s[n - m]); }
    assert TrailingStart(s) == n;
    var t := Strip(s);
    assert t == s[i..n];
    assert t[|t| - m..] == s[n - m..];
  }

  /** `s.startswith(p)`. */
  predicate StartsWith(s: string, p: string) {
    |p| <= |s| && s[..|p|] == p
  }

  /** `s.endswith(p)`. */
  predicate EndsWith(s: string, p: string) {
    |p| <= |s| && s[|s| - |p|..] == p
  }

  /** `needle` occurs in `hay` starting at index `i`. */
  predicate OccursAt(hay: string, needle: string, i: nat) {
    i + |needle| <= |hay| && hay[i..i + |needle|] == needle
  }

  /** Python's substring test `needle in hay`. */
  predicate Contains(hay: string, needle: string) {
    exists i: nat | i <= |hay| :: OccursAt(hay, needle, i)
  }

  /** `str.lower()` on one ASCII character. */
  function LowerChar(c: char): char {
    if 'A' <= c <= 'Z' then (c as int + 32) as char else c
  }

  /** `str.lower()` on ASCII: every upper-case letter mapped to its lower-case form. */
  function Lower(s: string): (r: string)
    ensures |r| == |s|
    ensures forall k :: 0 <= k < |s| ==> r[k] == LowerChar(s[k])
  {
    seq(|s|, k requires 0 <= k < |s| => LowerChar(s[k]))
  }

  /** Lower-casing twice changes nothing more. */
  lemma LowerIdempotent(s: string)
    ensures Lower(Lower(s)) == Lower(s)
  {
  }

  /** `sep.join(parts)` for a one-character separator. */
  function Join(parts: seq<string>, sep: char): string {
    if |parts| == 0 then ""
    else if |parts| == 1 then parts[0]
    else parts[0] + [sep] + Join(parts[1..], sep)
  }

  /**
   * `s.split(sep)`: always at least one piece, no piece contains the
   * separator, and joining the pieces with it gives back `s`.
   */
  function Split(s: string, sep: char): (r: seq<string>)
    ensures |r| >= 1
    ensures forall k :: 0 <= k < |r| ==> sep !in r[k]
    ensures Join(r, sep) == s
  {
    if s == "" then [""]
    else
      var rest := Split(s[1..], sep);
      if s[0] == sep then
        assert s == [sep] + s[1..];
        [""] + rest
      else
        var r := [[s[0]] + rest[0]] + rest[1..];
        assert |rest| >= 2 ==> Join(rest, sep) == rest[0] + [sep] + Join(rest[1..], sep);
        assert r[1..] == rest[1..];
        assert s == [s[0]] + s[1..];
        r
  }

  /** Splitting undoes joining: pieces free of the separator come back unchanged. */
  lemma {:induction false} SplitJoin(parts: seq<string>, sep: char)
    requires |parts| >= 1
    requires forall k :: 0 <= k < |parts| ==> sep !in parts[k]
    ensures Split(Join(parts, sep), sep) == parts
    decreases |Join(parts, sep)|
  {
    var s := Join(parts, sep);
    if parts[0] == "" {
      if |parts| > 1 {
        assert s == [sep] + Join(parts[1..], sep);
        assert s[1..] == Join(parts[1..], sep);
        SplitJoin(parts[1..], sep);
        assert parts == [""] + parts[1..];
      }
    } else {
      var c, t := parts[0][0], parts[0][1..];
      assert parts[0] == [c] + t;
      var tail := [t] + parts[1..];
      assert tail[1..] == parts[1..];
      assert c != sep by { assert parts[0][0] == c; }
      assert s == [c] + Join(tail, sep);
      assert s[1..] == Join(tail, sep);
      forall k | 0 <= k < |tail| ensures sep !in tail[k] {
        if k == 0 {
          assert forall x :: x in t ==> x in parts[0];
        } else {
          assert tail[k] == parts[k];
        }
      }
      SplitJoin(tail, sep);
      assert parts == [[c] + t] + parts[1..];
    }
  }

  /** A string without the separator splits into itself alone. */
  lemma SplitSingle(s: string, sep: char)
    requires sep !in s
    ensures Split(s, sep) == [s]
  {
    SplitJoin([s], sep);
  }

  /** A string trimmed already is left alone by `strip()`. */
  lemma StripTrimmed(s: string)
    requires s == "" || (!IsSpace(s[0]) && !IsSpace(s[|s| - 1]))
    ensures Strip(s) == s
  {
    if s != "" {
      assert LeadingSpace(s) == 0;
      assert TrailingStart(s) == |s|;
      assert s[0..|s|] == s;
    }
  }

  /** `strip()` is idempotent. */
  lemma StripIdempotent(s: string)
    ensures Strip(Strip(s)) == Strip(s)
  {
    StripSpec(s);
    StripTrimmed(Strip(s));
  }
}
