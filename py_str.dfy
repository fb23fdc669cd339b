/**
 * The Python `str` built-ins the configuration loader relies on:
 * `isspace`, `strip`, `startswith`/`endswith` with one character,
 * `in` for one character, `split(c, 1)` and the slice `[1:-1]`. `Find`
 * is the first-occurrence search behind both `in` and `split(c, 1)`.
 */
module PyStr {
  import opened Wrappers

  /**
   * `c.isspace()`: exactly the code points Python classes as whitespace,
   * which are the ones `str.strip()` without arguments removes.
   */
  predicate IsSpace(c: char) {
    || ('\t' <= c <= '\r')              // tab, line feed, vertical tab, form feed, carriage return
    || ('\U{1C}' <= c <= '\U{1F}')      // file, group, record and unit separators
    || c == ' ' || c == '\U{85}' || c == '\U{A0}' || c == '\U{1680}'
    || ('\U{2000}' <= c <= '\U{200A}')
    || c == '\U{2028}' || c == '\U{2029}' || c == '\U{202F}' || c == '\U{205F}' || c == '\U{3000}'
  }

  ghost predicate AllSpace(s: string) {
    forall k | 0 <= k < |s| :: IsSpace(s[k])
  }

  /** `r` is what remains of `s` once its leading and trailing whitespace is cut off. */
  ghost predicate StrippedAt(s: string, i: nat, j: nat) {
    && i <= j <= |s|
    && AllSpace(s[..i])
    && AllSpace(s[j..])
    && (i < j ==> !IsSpace(s[i]) && !IsSpace(s[j - 1]))
  }

  /** Number of whitespace characters at the start of `s`. */
  function LeadingSpace(s: string): (n: nat)
    ensures n <= |s|
  {
    if |s| > 0 && IsSpace(s[0]) then 1 + LeadingSpace(s[1..]) else 0
  }

  /** `LeadingSpace` counts whitespace and stops at the first other character. */
  lemma {:induction false} LeadingSpaceSpec(s: string)
    ensures AllSpace(s[..LeadingSpace(s)])
    ensures LeadingSpace(s) < |s| ==> !IsSpace(s[LeadingSpace(s)])
  {
    if |s| > 0 && IsSpace(s[0]) {
      LeadingSpaceSpec(s[1..]);
      var m := LeadingSpace(s[1..]);
      assert s[..1 + m] == [s[0]] + s[1..][..m];
    }
  }

  /** Length of `s` without its trailing whitespace. */
  function TrailingStart(s: string): (n: nat)
    ensures n <= |s|
  {
    if |s| > 0 && IsSpace(s[|s| - 1]) then TrailingStart(s[..|s| - 1]) else |s|
  }

  /** `TrailingStart` keeps a last character that is not whitespace and drops only whitespace after it. */
  lemma {:induction false} TrailingStartSpec(s: string)
    ensures AllSpace(s[TrailingStart(s)..])
    ensures TrailingStart(s) > 0 ==> !IsSpace(s[TrailingStart(s) - 1])
  {
    if |s| > 0 && IsSpace(s[|s| - 1]) {
      TrailingStartSpec(s[..|s| - 1]);
      var m := TrailingStart(s[..|s| - 1]);
      assert s[m..] == s[..|s| - 1][m..] + [s[|s| - 1]];
    }
  }

  /** Where `strip` cuts `s`: the text kept is `s[b.0..b.1]`. */
  function StripBounds(s: string): (b: (nat, nat))
    ensures b.0 <= b.1 <= |s|
  {
    var i := LeadingSpace(s);
    (i, i + TrailingStart(s[i..]))
  }

  /** `s.strip()`: `s` with its leading and trailing whitespace removed. */
  function Strip(s: string): (r: string)
    ensures |r| <= |s|
  {
    var b := StripBounds(s);
    s[b.0..b.1]
  }

  /** `strip` cuts off only whitespace, and all of it: what is left is empty or starts and ends with other characters. */
  lemma StripSpec(s: string)
    ensures StrippedAt(s, StripBounds(s).0, StripBounds(s).1)
    ensures Strip(s) == [] || (!IsSpace(Strip(s)[0]) && !IsSpace(Strip(s)[|Strip(s)| - 1]))
  {
    var i := LeadingSpace(s);
    LeadingSpaceSpec(s);
    TrailingStartSpec(s[i..]);
    var j := TrailingStart(s[i..]);
    assert s[i + j..] == s[i..][j..];
  }

  /** A character that is not whitespace survives stripping. */
  lemma NonSpaceWithin(s: string, i: nat, j: nat, k: nat)
    requires StrippedAt(s, i, j) && k < |s| && !IsSpace(s[k])
    ensures i <= k < j
  {
  }

  /** Whitespace is cut off at one place only: any split of `s` of the stripped shape is the one `strip` makes. */
  lemma StripUnique(s: string, i: nat, j: nat)
    requires StrippedAt(s, i, j)
    ensures Strip(s) == s[i..j]
  {
    var b := StripBounds(s);
    StripSpec(s);
    if i < j {
      NonSpaceWithin(s, b.0, b.1, i);
      NonSpaceWithin(s, b.0, b.1, j - 1);
    }
    if b.0 < b.1 {
      NonSpaceWithin(s, i, j, b.0);
      NonSpaceWithin(s, i, j, b.1 - 1);
    }
  }

  /** Stripping an already stripped string changes nothing. */
  lemma StripIdempotent(s: string)
    ensures Strip(Strip(s)) == Strip(s)
  {
    var r := Strip(s);
    StripSpec(s);
    assert r[..0] == [] && r[|r|..] == [];
    StripUnique(r, 0, |r|);
  }

  /** Whitespace in front of `x` makes no difference to `strip`. */
  lemma StripLeadingSpace(sp: string, x: string)
    requires AllSpace(sp)
    ensures Strip(sp + x) == Strip(x)
  {
    var b := StripBounds(x);
    StripSpec(x);
    var s := sp + x;
    var n := |sp|;
    assert s[..n + b.0] == sp + x[..b.0];
    assert s[n + b.1..] == x[b.1..];
    assert s[n + b.0..n + b.1] == x[b.0..b.1];
    StripUnique(s, n + b.0, n + b.1);
  }

  /** Whitespace after `x` makes no difference to `strip`. */
  lemma StripTrailingSpace(x: string, sp: string)
    requires AllSpace(sp)
    ensures Strip(x + sp) == Strip(x)
  {
    var b := StripBounds(x);
    StripSpec(x);
    var s := x + sp;
    assert s[..b.0] == x[..b.0];
    assert s[b.1..] == x[b.1..] + sp;
    assert s[b.0..b.1] == x[b.0..b.1];
    StripUnique(s, b.0, b.1);
  }

  /** `strip` leaves nothing exactly when the string is all whitespace. */
  lemma StripEmpty(s: string)
    ensures Strip(s) == [] <==> AllSpace(s)
  {
    var b := StripBounds(s);
    StripSpec(s);
    if AllSpace(s) {
      assert s[..|s|] == s;
      StripUnique(s, |s|, |s|);
    }
    if b.0 == b.1 {
      assert s == s[..b.0] + s[b.1..];
    }
  }

  /** `strip` keeps every character that is not whitespace and adds none. */
  lemma StripKeeps(s: string, c: char)
    requires !IsSpace(c)
    ensures c in Strip(s) <==> c in s
  {
    var b := StripBounds(s);
    StripSpec(s);
    if c in s {
      var k :| 0 <= k < |s| && s[k] == c;
      NonSpaceWithin(s, b.0, b.1, k);
      assert Strip(s)[k - b.0] == c;
    }
  }

  /** The first character of `s` that is not whitespace is `c`. */
  ghost predicate FirstNonSpace(s: string, c: char) {
    exists i | 0 <= i < |s| :: AllSpace(s[..i]) && s[i] == c
  }

  /** What `strip` returns starts with `c` exactly when `c` is the first character of `s` that is not whitespace. */
  lemma StripStartsWith(s: string, c: char)
    requires !IsSpace(c)
    ensures StartsWith(Strip(s), c) <==> FirstNonSpace(s, c)
  {
    var b := StripBounds(s);
    StripSpec(s);
    if FirstNonSpace(s, c) {
      var i :| 0 <= i < |s| && AllSpace(s[..i]) && s[i] == c;
      NonSpaceWithin(s, b.0, b.1, i);
      StripUnique(s, i, b.1);
    }
    if StartsWith(Strip(s), c) {
      assert s[b.0] == c;
    }
  }

  /** `s.startswith(c)` for a one-character prefix. */
  predicate StartsWith(s: string, c: char) {
    |s| > 0 && s[0] == c
  }

  /** `startswith` compares the one-character prefix `s[:1]`, which is empty for an empty `s`. */
  lemma StartsWithPrefix(s: string, c: char)
    ensures StartsWith(s, c) <==> (if |s| == 0 then s else s[..1]) == [c]
  {
  }

  /** `s.endswith(c)` for a one-character suffix. */
  predicate EndsWith(s: string, c: char) {
    |s| > 0 && s[|s| - 1] == c
  }

  /** `endswith` compares the one-character suffix `s[-1:]`, which is empty for an empty `s`. */
  lemma EndsWithSuffix(s: string, c: char)
    ensures EndsWith(s, c) <==> (if |s| == 0 then s else s[|s| - 1..]) == [c]
  {
  }

  /** The search behind `c in s` and `s.split(c, 1)`: the index of the first `c` in `s`, or `None` when there is none. */
  function Find(s: string, c: char): (r: Option<nat>)
    ensures r.None? <==> c !in s
    ensures r.Some? ==> r.value < |s| && s[r.value] == c && c !in s[..r.value]
  {
    if |s| == 0 then None
    else if s[0] == c then Some(0)
    else match Find(s[1..], c)
      case None => None
      case Some(i) =>
        assert s[..i + 1] == [s[0]] + s[1..][..i];
        Some(i + 1)
  }

  /**
   * `s.split(c, 1)` on a string that holds `c`: the text before the first `c`
   * and the text after it, which may itself contain `c`.
   */
  function SplitFirst(s: string, c: char): (r: (string, string))
    requires c in s
    ensures s == r.0 + [c] + r.1
    ensures c !in r.0
  {
    var i := Find(s, c).value;
    assert s == s[..i] + [c] + s[i + 1..];
    (s[..i], s[i + 1..])
  }

  /** `find` answers the position of the first `c`, whichever that is. */
  lemma FindFirst(s: string, c: char, k: nat)
    requires k < |s| && s[k] == c && c !in s[..k]
    ensures Find(s, c) == Some(k)
  {
  }

  /** The two halves `split(c, 1)` returns are the only ones with no `c` in the first. */
  lemma SplitFirstUnique(s: string, c: char, pre: string, post: string)
    requires s == pre + [c] + post && c !in pre
    ensures c in s && SplitFirst(s, c) == (pre, post)
  {
    assert s[|pre|] == c && s[..|pre|] == pre;
    FindFirst(s, c, |pre|);
    assert s[|pre| + 1..] == post;
  }

  /** `s[1:-1]`: `s` without its first and last character; empty when `s` is shorter than two. */
  function Inner(s: string): (r: string)
    ensures |s| >= 2 ==> s == [s[0]] + r + [s[|s| - 1]]
    ensures |s| < 2 ==> r == []
  {
    if |s| >= 2 then s[1..|s| - 1] else []
  }
}
