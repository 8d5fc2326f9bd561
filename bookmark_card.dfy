/**
 * The bookmark row and the one piece of logic in the card that renders it:
 * the normalisation of `created_at` into a UTC string ending in `Z`
 * (app/components/BookmarkCard.tsx, line 19): a trailing numeric offset is
 * replaced by nothing, then a trailing `Z` is replaced by nothing, then `Z`
 * is appended.
 *
 * Each `replace` is modelled as JavaScript runs it for a regular expression
 * without the `g` flag: the leftmost match is searched for, position by
 * position, and only that match is replaced. The `$` anchor, without the `m`
 * flag, holds only at the end of the input. A second, suffix-based definition
 * (`DropOffset`, `DropZ`) serves as the reference the search is proved against.
 */
module BookmarkCard {
  import opened Wrappers

  /** A row of the `bookmarks` table as the client receives it. */
  datatype BookmarkItem = BookmarkItem(
    id: string,
    title: string,
    url: string,
    userId: string,
    createdAt: string)

  // ---------------------------------------------------------------------------
  // The two patterns, and `replace` with a non-global regular expression

  /** The two regular expressions of line 19. */
  datatype Pattern =
    | OffsetAtEnd  // a sign, two digits, optionally `:` and two more digits, then the end
    | ZAtEnd       // `Z`, then the end

  predicate IsDigit(c: char) { '0' <= c <= '9' }

  predicate IsSign(c: char) { c == '+' || c == '-' }

  /** Where a match of `p` starting at position `i` ends, if there is one.
      For the offset pattern the optional `:\d{2}` group is greedy, so it is
      tried first; if `$` fails after it, the matcher backtracks and tries `$`
      without the group. */
  function MatchEnd(p: Pattern, s: string, i: nat): (e: Option<nat>)
    requires i <= |s|
    ensures e.Some? ==> i < e.value <= |s|
  {
    match p
    case OffsetAtEnd =>
      if i + 3 <= |s| && IsSign(s[i]) && IsDigit(s[i + 1]) && IsDigit(s[i + 2]) then
        if i + 6 <= |s| && s[i + 3] == ':' && IsDigit(s[i + 4]) && IsDigit(s[i + 5]) && i + 6 == |s| then
          Some(i + 6)
        else if i + 3 == |s| then
          Some(i + 3)
        else
          None
      else
        None
    case ZAtEnd =>
      if i < |s| && s[i] == 'Z' && i + 1 == |s| then Some(i + 1) else None
  }

  /** The leftmost match of `p` at or after position `from`, as (start, end). */
  function Search(p: Pattern, s: string, from: nat): (m: Option<(nat, nat)>)
    requires from <= |s|
    ensures m.Some? ==> from <= m.value.0 < m.value.1 <= |s|
    ensures m.Some? ==> MatchEnd(p, s, m.value.0) == Some(m.value.1)
    decreases |s| - from
  {
    match MatchEnd(p, s, from)
    case Some(e) => Some((from, e))
    case None => if from == |s| then None else Search(p, s, from + 1)
  }

  /** `s.replace(p, replacement)` for a regular expression without the `g` flag
      and a replacement string without `$` patterns. */
  function ReplaceFirst(p: Pattern, s: string, replacement: string): (r: string)
    ensures Search(p, s, 0).None? ==> r == s
    ensures Search(p, s, 0).Some? ==>
      var (i, e) := Search(p, s, 0).value;
      s[..i] <= r && |r| == |s| - (e - i) + |replacement|
  {
    match Search(p, s, 0)
    case None => s
    case Some((i, e)) => s[..i] + replacement + s[e..]
  }

  /** Line 19: the normalised timestamp handed to `new Date`. */
  function ToUtc(createdAt: string): (r: string)
    ensures |r| > 0 && r[|r| - 1] == 'Z'
  {
    ReplaceFirst(ZAtEnd, ReplaceFirst(OffsetAtEnd, createdAt, ""), "") + "Z"
  }

  // ---------------------------------------------------------------------------
  // The reference definition: suffixes

  /** `s` ends with a numeric offset `±HH:MM`, the time-numoffset of section 5.6 of RFC 3339. */
  predicate EndsWithLongOffset(s: string) {
    && |s| >= 6
    && IsSign(s[|s| - 6]) && IsDigit(s[|s| - 5]) && IsDigit(s[|s| - 4])
    && s[|s| - 3] == ':' && IsDigit(s[|s| - 2]) && IsDigit(s[|s| - 1])
  }

  /** `s` ends with an hours-only offset `±HH`. */
  predicate EndsWithShortOffset(s: string) {
    |s| >= 3 && IsSign(s[|s| - 3]) && IsDigit(s[|s| - 2]) && IsDigit(s[|s| - 1])
  }

  predicate EndsWithOffset(s: string) {
    EndsWithLongOffset(s) || EndsWithShortOffset(s)
  }

  predicate EndsWithZ(s: string) {
    |s| > 0 && s[|s| - 1] == 'Z'
  }

  /** The length of the trailing offset (0 when there is none). The two forms
      cannot both be present: the long one has `:` where the short one needs a sign. */
  function OffsetLength(s: string): (n: nat)
    ensures n <= |s|
  {
    if EndsWithLongOffset(s) then 6 else if EndsWithShortOffset(s) then 3 else 0
  }

  /** `s` without its trailing offset. */
  function DropOffset(s: string): string {
    s[..|s| - OffsetLength(s)]
  }

  /** `s` without its trailing `Z`. */
  function DropZ(s: string): string {
    if EndsWithZ(s) then s[..|s| - 1] else s
  }

  // ---------------------------------------------------------------------------
  // The search agrees with the reference

  /** The search finds the leftmost match: no position before the one it
      returns matches, and when it finds nothing, no position at all matches. */
  lemma {:induction false} SearchLeftmost(p: Pattern, s: string, from: nat)
    requires from <= |s|
    ensures Search(p, s, from).Some? ==>
      forall i :: from <= i < Search(p, s, from).value.0 ==> MatchEnd(p, s, i).None?
    ensures Search(p, s, from).None? ==>
      forall i :: from <= i <= |s| ==> MatchEnd(p, s, i).None?
    decreases |s| - from
  {
    if MatchEnd(p, s, from).None? && from < |s| {
      SearchLeftmost(p, s, from + 1);
    }
  }

  /** Positions without a match are skipped: the search from `from` finds what
      the search from `k` finds. */
  lemma {:induction false} SearchSkips(p: Pattern, s: string, from: nat, k: nat)
    requires from <= k <= |s|
    requires forall i :: from <= i < k ==> MatchEnd(p, s, i).None?
    ensures Search(p, s, from) == Search(p, s, k)
    decreases k - from
  {
    if from < k {
      SearchSkips(p, s, from + 1, k);
    }
  }

  /** The first replace of line 19 removes exactly the trailing offset, and
      nothing when there is none. */
  lemma StripOffset(s: string)
    ensures ReplaceFirst(OffsetAtEnd, s, "") == DropOffset(s)
  {
    var n := OffsetLength(s);
    forall i | 0 <= i <= |s| && i != |s| - n
      ensures MatchEnd(OffsetAtEnd, s, i).None?
    {
    }
    if n == 0 {
      SearchSkips(OffsetAtEnd, s, 0, |s|);
    } else {
      SearchSkips(OffsetAtEnd, s, 0, |s| - n);
      assert Search(OffsetAtEnd, s, 0) == Some((|s| - n, |s|));
    }
  }

  /** The second replace of line 19 removes exactly one trailing `Z`, and
      nothing when there is none. */
  lemma StripZ(s: string)
    ensures ReplaceFirst(ZAtEnd, s, "") == DropZ(s)
  {
    forall i | 0 <= i < |s| && i != |s| - 1
      ensures MatchEnd(ZAtEnd, s, i).None?
    {
    }
    if EndsWithZ(s) {
      SearchSkips(ZAtEnd, s, 0, |s| - 1);
      assert Search(ZAtEnd, s, 0) == Some((|s| - 1, |s|));
    } else {
      SearchSkips(ZAtEnd, s, 0, |s|);
    }
  }

  /** Line 19 is: drop the trailing offset, then the trailing `Z`, then add `Z`. */
  lemma ToUtcByReference(s: string)
    ensures ToUtc(s) == DropZ(DropOffset(s)) + "Z"
  {
    StripOffset(s);
    StripZ(DropOffset(s));
  }

  // ---------------------------------------------------------------------------
  // What line 19 promises

  /** The result always ends with `Z`, and what precedes it is a prefix of the
      input that is at most seven characters shorter: one offset of at most six
      characters and one `Z` are removed, no more. */
  lemma ToUtcIsPrefixAndZ(s: string)
    ensures EndsWithZ(ToUtc(s))
    ensures ToUtc(s)[..|ToUtc(s)| - 1] <= s
    ensures |s| - 7 <= |ToUtc(s)| - 1 <= |s|
  {
    ToUtcByReference(s);
    var d := DropOffset(s);
    assert DropZ(d) <= d <= s;
    assert ToUtc(s)[..|ToUtc(s)| - 1] == DropZ(d);
  }

  /** A timestamp already ending in `Z` is returned unchanged. */
  lemma ToUtcKeepsZ(s: string)
    requires EndsWithZ(s)
    ensures ToUtc(s) == s
  {
    ToUtcByReference(s);
    assert OffsetLength(s) == 0;
    assert s[..|s| - 1] + "Z" == s;
  }

  /** A timestamp ending in `+HH`, `-HH` or `±HH:MM` has exactly that suffix
      replaced by `Z` (`…+05:30` becomes `…Z`); when the part before the offset
      already ends in `Z`, that `Z` is the one the result ends with. */
  lemma ToUtcReplacesOffset(s: string)
    requires EndsWithOffset(s)
    ensures var kept := s[..|s| - OffsetLength(s)];
            ToUtc(s) == if EndsWithZ(kept) then kept else kept + "Z"
  {
    ToUtcByReference(s);
    var kept := s[..|s| - OffsetLength(s)];
    if EndsWithZ(kept) {
      assert kept[..|kept| - 1] + "Z" == kept;
    }
  }

  /** A timestamp with neither a trailing offset nor a trailing `Z` gets `Z`
      appended and is otherwise unchanged. */
  lemma ToUtcAppendsZ(s: string)
    requires !EndsWithOffset(s) && !EndsWithZ(s)
    ensures ToUtc(s) == s + "Z"
  {
    ToUtcByReference(s);
    assert DropOffset(s) == s;
  }

  /** Normalising twice is normalising once. */
  lemma ToUtcIdempotent(s: string)
    ensures ToUtc(ToUtc(s)) == ToUtc(s)
  {
    ToUtcIsPrefixAndZ(s);
    ToUtcKeepsZ(ToUtc(s));
  }
}
