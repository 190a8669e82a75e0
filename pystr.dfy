/** Python string operations that the extraction engine relies on:
    `str.strip()`, `str.strip(chars)` and `str.replace(old, new)`. */
module PyStr {

  /** The characters for which Python's `str.isspace()` is true, which is
      what `str.strip()` without arguments removes. */
  const Whitespace: set<char> := {
    ' ', '\t', '\n', '\r', '\U{000B}', '\U{000C}',
    '\U{001C}', '\U{001D}', '\U{001E}', '\U{001F}', '\U{0085}', '\U{00A0}',
    '\U{1680}', '\U{2000}', '\U{2001}', '\U{2002}', '\U{2003}', '\U{2004}',
    '\U{2005}', '\U{2006}', '\U{2007}', '\U{2008}', '\U{2009}', '\U{200A}',
    '\U{2028}', '\U{2029}', '\U{202F}', '\U{205F}', '\U{3000}'
  }

  /** The number of leading characters of `s` that belong to `cs`. */
  function LeadIn(s: string, cs: set<char>): (k: nat)
    ensures k <= |s|
    ensures forall j :: 0 <= j < k ==> s[j] in cs
    ensures k < |s| ==> s[k] !in cs
  {
    if s != [] && s[0] in cs then 1 + LeadIn(s[1..], cs) else 0
  }

  /** The number of trailing characters of `s` that belong to `cs`. */
  function TrailIn(s: string, cs: set<char>): (k: nat)
    ensures k <= |s|
    ensures forall j :: |s| - k <= j < |s| ==> s[j] in cs
    ensures k < |s| ==> s[|s| - k - 1] !in cs
  {
    if s != [] && s[|s| - 1] in cs then 1 + TrailIn(s[..|s| - 1], cs) else 0
  }

  /** Where `s.strip(chars)` cuts `s`: the kept part is `s[i..j]`. */
  function StripBounds(s: string, cs: set<char>): (b: (nat, nat))
    ensures b.0 <= b.1 <= |s|
  {
    var i := LeadIn(s, cs);
    (i, |s| - TrailIn(s[i..], cs))
  }

  /** Python's `s.strip(chars)`: `s` without the characters of `cs` at either end. */
  function StripChars(s: string, cs: set<char>): string {
    var b := StripBounds(s, cs);
    s[b.0..b.1]
  }

  /** Python's `s.strip()`. */
  function Strip(s: string): string {
    StripChars(s, Whitespace)
  }

  /** The result of `StripChars` is the middle of `s`: only characters of `cs`
      were cut, only at the two ends, and none is left at either end. */
  lemma StripCharsIsMiddle(s: string, cs: set<char>)
    ensures var b := StripBounds(s, cs);
            (forall j :: 0 <= j < b.0 ==> s[j] in cs) &&
            (forall j :: b.1 <= j < |s| ==> s[j] in cs) &&
            (b.0 < b.1 ==> s[b.0] !in cs && s[b.1 - 1] !in cs)
  {
    var i := LeadIn(s, cs);
    var t := s[i..];
    var k := TrailIn(t, cs);
    forall j | |s| - k <= j < |s|
      ensures s[j] in cs
    {
      assert s[j] == t[j - i];
    }
    if i < |s| - k {
      assert s[|s| - k - 1] == t[|t| - k - 1];
    }
  }

  /** Stripping twice removes nothing more. */
  lemma StripCharsIdempotent(s: string, cs: set<char>)
    ensures StripChars(StripChars(s, cs), cs) == StripChars(s, cs)
  {
    StripCharsIsMiddle(s, cs);
    NoOuterCharsStripsNothing(StripChars(s, cs), cs);
  }

  /** A string with no character of `cs` at either end is left unchanged. */
  lemma NoOuterCharsStripsNothing(s: string, cs: set<char>)
    requires s != [] ==> s[0] !in cs && s[|s| - 1] !in cs
    ensures StripChars(s, cs) == s
  {
  }

  /** Concatenation regrouped, stated once so that proofs over long
      concatenations can name the step. */
  lemma Regroup(a: string, b: string, c: string)
    ensures a + b + c == a + (b + c)
  {
  }

  /** Python's `s.replace(old, new)`: every non-overlapping occurrence of
      `old`, found left to right, becomes `new`; an empty `old` matches at
      every position, before each character and at the end. */
  function Replace(s: string, pat: string, rep: string): string {
    if pat == [] then InsertEverywhere(s, rep) else ReplaceFrom(s, pat, rep)
  }

  /** `new` before every character of `s` and once more at the end. */
  function InsertEverywhere(s: string, rep: string): string {
    if s == [] then rep else rep + [s[0]] + InsertEverywhere(s[1..], rep)
  }

  /** The left-to-right scan of `str.replace` for a non-empty `old`. */
  function ReplaceFrom(s: string, pat: string, rep: string): string
    requires pat != []
  {
    if |s| < |pat| then s
    else if s[..|pat|] == pat then rep + ReplaceFrom(s[|pat|..], pat, rep)
    else [s[0]] + ReplaceFrom(s[1..], pat, rep)
  }

  /** `old` occurs in `s` (Python's `old in s`). */
  predicate Occurs(s: string, pat: string) {
    exists i | 0 <= i <= |s| - |pat| :: OccursAt(s, pat, i)
  }

  predicate OccursAt(s: string, pat: string, i: int) {
    0 <= i <= |s| - |pat| && s[i..i + |pat|] == pat
  }

  /** Replacing a non-empty string that does not occur changes nothing. */
  lemma {:induction false} ReplaceAbsent(s: string, pat: string, rep: string)
    requires pat != [] && !Occurs(s, pat)
    ensures Replace(s, pat, rep) == s
  {
    if |s| >= |pat| {
      assert s[0..|pat|] == s[..|pat|];
      assert !OccursAt(s, pat, 0);
      assert !Occurs(s[1..], pat) by {
        forall i | 0 <= i <= |s[1..]| - |pat|
          ensures !OccursAt(s[1..], pat, i)
        {
          assert s[1..][i..i + |pat|] == s[i + 1..i + 1 + |pat|];
          assert !OccursAt(s, pat, i + 1);
        }
      }
      ReplaceAbsent(s[1..], pat, rep);
      assert ReplaceFrom(s, pat, rep) == [s[0]] + ReplaceFrom(s[1..], pat, rep);
      assert [s[0]] + s[1..] == s;
    }
  }

  /** The scan of `str.replace` from the left: when the first occurrence of
      a non-empty `old` in `s` begins right after `x`, the result is `x`,
      then `new`, then the replacement in what follows that occurrence.
      With `ReplaceAbsent` for the rest, this fixes the result: every
      non-overlapping occurrence, found left to right, becomes `new`. */
  lemma {:induction false} ReplaceFirst(x: string, pat: string, y: string, rep: string)
    requires pat != []
    requires forall i :: 0 <= i < |x| ==> !OccursAt(x + pat + y, pat, i)
    ensures Replace(x + pat + y, pat, rep) == x + rep + Replace(y, pat, rep)
  {
    var s := x + pat + y;
    if x == [] {
      assert s == pat + y && s[..|pat|] == pat && s[|pat|..] == y;
    } else {
      assert !OccursAt(s, pat, 0);
      assert s[0..|pat|] == s[..|pat|];
      var s' := x[1..] + pat + y;
      assert s[1..] == s';
      NoEarlierOccurrence(s, pat, |x|);
      ReplaceFirst(x[1..], pat, y, rep);
      assert ReplaceFrom(s, pat, rep) == [s[0]] + ReplaceFrom(s', pat, rep);
      calc {
        [s[0]] + (x[1..] + rep + Replace(y, pat, rep));
        { assert [s[0]] + x[1..] == x; }
        x + rep + Replace(y, pat, rep);
      }
    }
  }

  /** No occurrence before position `n` of `s` means none before `n - 1`
      of `s[1..]`. */
  lemma NoEarlierOccurrence(s: string, pat: string, n: nat)
    requires 0 < n <= |s|
    requires forall i :: 0 <= i < n ==> !OccursAt(s, pat, i)
    ensures forall i :: 0 <= i < n - 1 ==> !OccursAt(s[1..], pat, i)
  {
    forall i | 0 <= i < n - 1
      ensures !OccursAt(s[1..], pat, i)
    {
      assert !OccursAt(s, pat, i + 1);
      if 0 <= i <= |s[1..]| - |pat| {
        assert s[1..][i..i + |pat|] == s[i + 1..i + 1 + |pat|];
      }
    }
  }

  /** Replacing a string by itself changes nothing, for an empty `old` too. */
  lemma {:induction false} ReplaceBySelf(s: string, pat: string)
    ensures Replace(s, pat, pat) == s
  {
    if pat == [] {
      InsertNothing(s);
    } else {
      ReplaceFromBySelf(s, pat);
    }
  }

  lemma {:induction false} InsertNothing(s: string)
    ensures InsertEverywhere(s, []) == s
  {
    if s != [] {
      InsertNothing(s[1..]);
    }
  }

  lemma {:induction false} ReplaceFromBySelf(s: string, pat: string)
    requires pat != []
    ensures ReplaceFrom(s, pat, pat) == s
    decreases |s|
  {
    if |s| >= |pat| {
      if s[..|pat|] == pat {
        ReplaceFromBySelf(s[|pat|..], pat);
      } else {
        ReplaceFromBySelf(s[1..], pat);
      }
    }
  }

  /** Where `old` occurs, the replacement does change the string as long as
      `new` is longer than `old` (as `<strike>name</strike>` is longer than
      `name`): each occurrence adds `|rep| - |pat|` characters. */
  lemma {:induction false} ReplaceGrows(s: string, pat: string, rep: string)
    requires pat != [] && |rep| > |pat| && Occurs(s, pat)
    ensures |Replace(s, pat, rep)| > |s|
  {
    ReplaceFromGrows(s, pat, rep);
  }

  lemma {:induction false} ReplaceFromNotShorter(s: string, pat: string, rep: string)
    requires pat != [] && |rep| >= |pat|
    ensures |ReplaceFrom(s, pat, rep)| >= |s|
    decreases |s|
  {
    if |s| >= |pat| {
      if s[..|pat|] == pat {
        ReplaceFromNotShorter(s[|pat|..], pat, rep);
      } else {
        ReplaceFromNotShorter(s[1..], pat, rep);
      }
    }
  }

  lemma {:induction false} ReplaceFromGrows(s: string, pat: string, rep: string)
    requires pat != [] && |rep| > |pat| && Occurs(s, pat)
    ensures |ReplaceFrom(s, pat, rep)| > |s|
    decreases |s|
  {
    var i :| 0 <= i <= |s| - |pat| && OccursAt(s, pat, i);
    assert s[i..i + |pat|] == pat;
    if s[..|pat|] == pat {
      ReplaceFromNotShorter(s[|pat|..], pat, rep);
    } else {
      assert i > 0 by { assert s[0..|pat|] == s[..|pat|]; }
      assert s[1..][i - 1..i - 1 + |pat|] == s[i..i + |pat|];
      assert OccursAt(s[1..], pat, i - 1);
      ReplaceFromGrows(s[1..], pat, rep);
    }
  }
}
