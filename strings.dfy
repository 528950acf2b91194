/** The pieces of Go's `strings` package and of unanchored `regexp` matching
    that the updater relies on, over strings of Unicode scalar values. */
module Strings {
  import opened Errors

  /** `sub` occurs in `s` starting at position `k`. */
  predicate OccursAt(sub: string, s: string, k: nat) {
    k + |sub| <= |s| && s[k..k + |sub|] == sub
  }

  /** `sub` occurs somewhere in `s`. */
  ghost predicate IsSubstring(sub: string, s: string) {
    exists k: nat :: OccursAt(sub, s, k)
  }

  /** An unanchored regular expression made of literal characters (or led by
      `.*`) matches exactly when its literal text occurs in the subject. */
  function Contains(s: string, sub: string): (r: bool)
    ensures r <==> IsSubstring(sub, s)
    decreases |s|
  {
    if |sub| > |s| then false
    else if s[..|sub|] == sub then
      assert OccursAt(sub, s, 0);
      true
    else
      var r := Contains(s[1..], sub);
      assert IsSubstring(sub, s) ==> IsSubstring(sub, s[1..]) by {
        if IsSubstring(sub, s) {
          var k: nat :| OccursAt(sub, s, k);
          assert k != 0;
          assert s[1..][k - 1..k - 1 + |sub|] == sub;
          assert OccursAt(sub, s[1..], k - 1);
        }
      }
      assert IsSubstring(sub, s[1..]) ==> IsSubstring(sub, s) by {
        if IsSubstring(sub, s[1..]) {
          var k: nat :| OccursAt(sub, s[1..], k);
          assert s[k + 1..k + 1 + |sub|] == sub;
          assert OccursAt(sub, s, k + 1);
        }
      }
      r
  }

  /** Occurring in a suffix means occurring in the whole. */
  lemma SubstringOfSuffix(sub: string, prefix: string, s: string)
    requires IsSubstring(sub, s)
    ensures IsSubstring(sub, prefix + s)
  {
    var k: nat :| OccursAt(sub, s, k);
    assert (prefix + s)[|prefix| + k..|prefix| + k + |sub|] == s[k..k + |sub|];
    assert OccursAt(sub, prefix + s, |prefix| + k);
  }

  /** Position of the first occurrence of `c` in `s`. */
  function IndexOf(s: string, c: char): (r: Option<nat>)
    ensures r.None? <==> c !in s
    ensures r.Some? ==> r.value < |s| && s[r.value] == c && c !in s[..r.value]
  {
    if s == [] then None
    else if s[0] == c then Some(0)
    else
      match IndexOf(s[1..], c)
      case None => None
      case Some(k) =>
        assert s[..k + 1] == [s[0]] + s[1..][..k];
        Some(k + 1)
  }

  /** The first `c` after a stretch without `c` is found at the end of that stretch. */
  lemma {:induction false} IndexOfAfter(before: string, c: char, after: string)
    requires c !in before
    ensures IndexOf(before + [c] + after, c) == Some(|before|)
    decreases |before|
  {
    var s := before + [c] + after;
    if before != [] {
      assert s[0] == before[0];
      assert s[1..] == before[1..] + [c] + after;
      IndexOfAfter(before[1..], c, after);
    }
  }

  /** `strings.SplitN(s, "\n", 2)[0]`: the text before the first line feed,
      or all of `s` when it has none. */
  function FirstLine(s: string): (r: string)
    ensures r <= s && '\n' !in r
    ensures |r| < |s| ==> s[|r|] == '\n'
  {
    match IndexOf(s, '\n')
    case None => s
    case Some(k) => s[..k]
  }

  /** `strings.SplitN(line, ":", 2)[1]`: everything after the first colon;
      None where the source's index `[1]` would be out of range. */
  function AfterFirstColon(line: string): (r: Option<string>)
    ensures r.None? <==> ':' !in line
    ensures r.Some? ==>
      var k := |line| - |r.value| - 1;
      0 <= k && line[k] == ':' && ':' !in line[..k] && r.value == line[k + 1..]
  {
    match IndexOf(line, ':')
    case None => None
    case Some(k) => Some(line[k + 1..])
  }

  /** `unicode.IsSpace`: the Latin-1 white space characters and the other
      characters of Unicode's White_Space property. */
  predicate IsSpace(c: char) {
    c == '\t' || c == '\n' || c == '\U{000B}' || c == '\U{000C}' || c == '\r' || c == ' '
    || c == '\U{0085}' || c == '\U{00A0}' || c == '\U{1680}'
    || ('\U{2000}' <= c <= '\U{200A}')
    || c == '\U{2028}' || c == '\U{2029}' || c == '\U{202F}' || c == '\U{205F}' || c == '\U{3000}'
  }

  /** Neither end of `s` is white space. */
  predicate IsTrimmed(s: string) {
    s == [] || (!IsSpace(s[0]) && !IsSpace(s[|s| - 1]))
  }

  /** Every character of `s` at a position in `[lo, hi)` is white space. */
  predicate SpaceBetween(s: string, lo: nat, hi: nat) {
    hi <= |s| && forall k :: lo <= k < hi ==> IsSpace(s[k])
  }

  predicate AllSpace(s: string) {
    SpaceBetween(s, 0, |s|)
  }

  /** Where the text starts: the first position at or after `i` that is
      not white space, or the end of `s`. */
  function SkipLeading(s: string, i: nat): (n: nat)
    requires i <= |s|
    ensures i <= n <= |s| && SpaceBetween(s, i, n)
    ensures n == |s| || !IsSpace(s[n])
    decreases |s| - i
  {
    if i < |s| && IsSpace(s[i]) then SkipLeading(s, i + 1) else i
  }

  /** Where the text ends: going back from `j` to no further than `lo`,
      the position just after the last character that is not white space. */
  function SkipTrailing(s: string, lo: nat, j: nat): (n: nat)
    requires lo <= j <= |s|
    ensures lo <= n <= j && SpaceBetween(s, n, j)
    ensures n == lo || !IsSpace(s[n - 1])
    decreases j
  {
    if j > lo && IsSpace(s[j - 1]) then SkipTrailing(s, lo, j - 1) else j
  }

  /** `r` is `s[i..]` cut short, with only white space before and after it. */
  predicate PaddedAt(s: string, i: nat, r: string) {
    i + |r| <= |s| && r == s[i..i + |r|] && SpaceBetween(s, 0, i) && SpaceBetween(s, i + |r|, |s|)
  }

  /** `strings.TrimSpace`: `s` without its leading and trailing white space. */
  function TrimSpace(s: string): (r: string)
    ensures IsTrimmed(r)
    ensures exists i: nat :: PaddedAt(s, i, r)
  {
    var i := SkipLeading(s, 0);
    var j := SkipTrailing(s, i, |s|);
    assert PaddedAt(s, i, s[i..j]);
    s[i..j]
  }

  /** Trimming adds no character. */
  lemma TrimSpaceSubset(s: string, c: char)
    requires c !in s
    ensures c !in TrimSpace(s)
  {
    var r := TrimSpace(s);
    var i: nat :| PaddedAt(s, i, r);
    assert forall j :: 0 <= j < |r| ==> r[j] == s[i + j];
  }

  /** Leading white space ends at the first character that is not white space. */
  lemma {:induction false} SkipLeadingStopsAt(s: string, i: nat, n: nat)
    requires i <= n <= |s| && SpaceBetween(s, i, n)
    requires n == |s| || !IsSpace(s[n])
    ensures SkipLeading(s, i) == n
    decreases n - i
  {
    if i < n {
      SkipLeadingStopsAt(s, i + 1, n);
    }
  }

  /** Trailing white space starts just after the last character that is not white space. */
  lemma {:induction false} SkipTrailingStopsAt(s: string, lo: nat, j: nat, n: nat)
    requires lo <= n <= j <= |s| && SpaceBetween(s, n, j)
    requires n == lo || !IsSpace(s[n - 1])
    ensures SkipTrailing(s, lo, j) == n
    decreases j
  {
    if n < j {
      SkipTrailingStopsAt(s, lo, j - 1, n);
    }
  }

  /** TrimSpace undoes white-space padding on both sides of a trimmed text. */
  lemma TrimSpacePadding(left: string, s: string, right: string)
    requires AllSpace(left) && AllSpace(right)
    requires IsTrimmed(s)
    ensures TrimSpace(left + s + right) == s
  {
    var all := left + s + right;
    var i := |left|;
    var j := |left| + |s|;
    assert forall k :: 0 <= k < i ==> all[k] == left[k];
    assert forall k :: i <= k < j ==> all[k] == s[k - i];
    assert forall k :: j <= k < |all| ==> all[k] == right[k - j];
    if s == [] {
      SkipLeadingStopsAt(all, 0, |all|);
      SkipTrailingStopsAt(all, |all|, |all|, |all|);
    } else {
      SkipLeadingStopsAt(all, 0, i);
      SkipTrailingStopsAt(all, i, |all|, j);
    }
    assert all[i..j] == s;
  }
}
