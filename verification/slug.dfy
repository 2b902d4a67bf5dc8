/** `generateSlug`, shared verbatim by the movies and the categories
    services: lower-case, trim, drop every character outside `[a-z0-9\s-]`,
    turn each run of white space into one hyphen, then squeeze each run of
    hyphens into one. */
module Slug {
  import opened Text

  predicate IsSlugChar(c: char) {
    ('a' <= c <= 'z') || ('0' <= c <= '9') || c == '-'
  }

  /** No two hyphens are adjacent in `s`. */
  predicate NoDoubleHyphen(s: string) {
    forall i :: 0 <= i < |s| - 1 ==> !(s[i] == '-' && s[i + 1] == '-')
  }

  /** The shape every generated slug has: only `[a-z0-9-]`, no `--`. */
  predicate IsSlug(s: string) {
    && (forall i :: 0 <= i < |s| ==> IsSlugChar(s[i]))
    && NoDoubleHyphen(s)
  }

  /** The characters the first `replace` keeps: `[a-z0-9\s-]`. */
  predicate Kept(c: char) {
    IsSlugChar(c) || IsSpace(c)
  }

  /** The characters of `s` that satisfy `p`, in their order in `s`. */
  function Filter(s: string, p: char -> bool): (r: string)
    ensures forall i :: 0 <= i < |r| ==> p(r[i])
    ensures (forall i :: 0 <= i < |s| ==> p(s[i])) ==> r == s
  {
    if |s| == 0 then ""
    else if p(s[0]) then [s[0]] + Filter(s[1..], p)
    else Filter(s[1..], p)
  }

  /** `Filter` keeps each character satisfying `p` as often as it occurs
      and drops every other one. */
  lemma {:induction false} FilterCounts(s: string, p: char -> bool, c: char)
    ensures multiset(Filter(s, p))[c] == if p(c) then multiset(s)[c] else 0
    decreases |s|
  {
    if |s| > 0 {
      assert s == [s[0]] + s[1..];
      FilterCounts(s[1..], p, c);
    }
  }

  /** Filtering works piece by piece: the kept characters of `a + b` are
      those of `a` followed by those of `b`. */
  lemma {:induction false} FilterAppend(a: string, b: string, p: char -> bool)
    ensures Filter(a + b, p) == Filter(a, p) + Filter(b, p)
    decreases |a|
  {
    if |a| > 0 {
      assert (a + b)[0] == a[0] && (a + b)[1..] == a[1..] + b;
      FilterAppend(a[1..], b, p);
    } else {
      assert a + b == b;
    }
  }

  /** `replace(/[^a-z0-9\s-]/g, '')`. */
  function KeepSlugChars(s: string): (r: string)
    ensures forall i :: 0 <= i < |r| ==> Kept(r[i])
    ensures (forall i :: 0 <= i < |s| ==> Kept(s[i])) ==> r == s
  {
    Filter(s, Kept)
  }

  /** Every character of `[a-z0-9\s-]` is kept as often as it occurs, and
      every other character is dropped. */
  lemma KeepSlugCharsCounts(s: string, c: char)
    ensures multiset(KeepSlugChars(s))[c] == if Kept(c) then multiset(s)[c] else 0
  {
    FilterCounts(s, Kept, c);
  }

  /** The kept characters stay in their input order: the filter of `a + b`
      is the filter of `a` followed by the filter of `b`. */
  lemma KeepSlugCharsAppend(a: string, b: string)
    ensures KeepSlugChars(a + b) == KeepSlugChars(a) + KeepSlugChars(b)
  {
    FilterAppend(a, b, Kept);
  }

  /** `s` without its leading occurrences of `c`. */
  function DropLeading(s: string, c: char): (r: string)
    ensures |r| <= |s| && r == s[|s| - |r|..]
    ensures |r| == 0 || r[0] != c
    ensures |s| == 0 || s[0] != c ==> r == s
  {
    if |s| > 0 && s[0] == c then DropLeading(s[1..], c) else s
  }

  /** `s` without its leading white space. */
  function DropLeadingSpace(s: string): (r: string)
    ensures |r| <= |s| && r == s[|s| - |r|..]
    ensures |r| == 0 || !IsSpace(r[0])
  {
    if |s| > 0 && IsSpace(s[0]) then DropLeadingSpace(s[1..]) else s
  }

  /** `replace(/\s+/g, '-')`: each maximal run of white space becomes one
      hyphen; no white space survives, and every other character of the
      result comes from `s`. */
  function SpaceRunsToHyphen(s: string): (r: string)
    ensures forall i :: 0 <= i < |r| ==> r[i] == '-' || (r[i] in s && !IsSpace(r[i]))
    ensures (forall i :: 0 <= i < |s| ==> !IsSpace(s[i])) ==> r == s
    decreases |s|
  {
    if |s| == 0 then ""
    else if IsSpace(s[0]) then
      var rest := DropLeadingSpace(s[1..]);
      var tail := SpaceRunsToHyphen(rest);
      assert rest == s[|s| - |rest|..];
      ConsHyphenOrFrom('-', tail, s, |s| - |rest|);
      "-" + tail
    else
      var tail := SpaceRunsToHyphen(s[1..]);
      ConsHyphenOrFrom(s[0], tail, s, 1);
      [s[0]] + tail
  }

  /** A hyphen or a non-space character of `s`, followed by characters
      that are hyphens or non-space characters of a suffix of `s`. */
  lemma ConsHyphenOrFrom(c: char, t: string, s: string, k: int)
    requires 0 <= k <= |s|
    requires c == '-' || (c in s && !IsSpace(c))
    requires forall i :: 0 <= i < |t| ==> t[i] == '-' || (t[i] in s[k..] && !IsSpace(t[i]))
    ensures forall i :: 0 <= i < |[c] + t| ==>
      ([c] + t)[i] == '-' || (([c] + t)[i] in s && !IsSpace(([c] + t)[i]))
  {
    forall i | 0 < i < |[c] + t|
      ensures ([c] + t)[i] == '-' || (([c] + t)[i] in s && !IsSpace(([c] + t)[i]))
    {
      assert ([c] + t)[i] == t[i - 1];
      if t[i - 1] != '-' {
        var j :| 0 <= j < |s[k..]| && s[k..][j] == t[i - 1];
        assert s[k..][j] == s[k + j];
      }
    }
  }

  /** Prepending `c` to a string without `--` keeps it without `--`, as long
      as a hyphen is not placed in front of a hyphen. */
  lemma ConsNoDoubleHyphen(c: char, t: string)
    requires NoDoubleHyphen(t)
    requires c != '-' || |t| == 0 || t[0] != '-'
    ensures NoDoubleHyphen([c] + t)
  {
    var u := [c] + t;
    forall i | 0 <= i < |u| - 1
      ensures !(u[i] == '-' && u[i + 1] == '-')
    {
      if i > 0 {
        assert u[i] == t[i - 1] && u[i + 1] == t[i];
      }
    }
  }

  /** `replace(/-+/g, '-')`: each maximal run of hyphens becomes one
      hyphen. The result starts with a hyphen exactly when `s` does, holds
      only characters of `s`, and has no two adjacent hyphens. */
  function CollapseHyphens(s: string): (r: string)
    ensures |r| == 0 <==> |s| == 0
    ensures |r| > 0 ==> (r[0] == '-' <==> s[0] == '-')
    ensures forall i :: 0 <= i < |r| ==> r[i] in s
    ensures NoDoubleHyphen(r)
    decreases |s|
  {
    if |s| == 0 then ""
    else if s[0] == '-' then
      var rest := DropLeading(s[1..], '-');
      var tail := CollapseHyphens(rest);
      ConsNoDoubleHyphen('-', tail);
      assert rest == s[|s| - |rest|..];
      SuffixCharsIn(s, |s| - |rest|, tail);
      ConsCharsIn('-', tail, s);
      "-" + tail
    else
      var tail := CollapseHyphens(s[1..]);
      ConsNoDoubleHyphen(s[0], tail);
      SuffixCharsIn(s, 1, tail);
      ConsCharsIn(s[0], tail, s);
      [s[0]] + tail
  }

  /** Characters drawn from a suffix of `s` are characters of `s`. */
  lemma SuffixCharsIn(s: string, k: int, t: string)
    requires 0 <= k <= |s|
    requires forall i :: 0 <= i < |t| ==> t[i] in s[k..]
    ensures forall i :: 0 <= i < |t| ==> t[i] in s
  {
    forall i | 0 <= i < |t|
      ensures t[i] in s
    {
      var j :| 0 <= j < |s[k..]| && s[k..][j] == t[i];
      assert s[k..][j] == s[k + j];
    }
  }

  /** Prepending a character of `s` to characters of `s`. */
  lemma ConsCharsIn(c: char, t: string, s: string)
    requires c in s
    requires forall i :: 0 <= i < |t| ==> t[i] in s
    ensures forall i :: 0 <= i < |[c] + t| ==> ([c] + t)[i] in s
  {
    forall i | 0 < i < |[c] + t|
      ensures ([c] + t)[i] in s
    {
      assert ([c] + t)[i] == t[i - 1];
    }
  }

  /** A string without adjacent hyphens is left alone by `CollapseHyphens`. */
  lemma {:induction false} CollapseHyphensFixes(s: string)
    requires NoDoubleHyphen(s)
    ensures CollapseHyphens(s) == s
    decreases |s|
  {
    if |s| > 0 {
      assert NoDoubleHyphen(s[1..]) by {
        forall i | 0 <= i < |s[1..]| - 1
          ensures !(s[1..][i] == '-' && s[1..][i + 1] == '-')
        {
          assert s[1..][i] == s[i + 1] && s[1..][i + 1] == s[i + 2];
        }
      }
      CollapseHyphensFixes(s[1..]);
      if s[0] == '-' {
        assert |s| == 1 || s[1] != '-';
        assert DropLeading(s[1..], '-') == s[1..];
      }
    }
  }

  predicate IsHyphen(c: char) {
    c == '-'
  }

  /** Reference reading of "each maximal run of characters satisfying `p`
      becomes one hyphen": scanning left to right, a `p`-character writes a
      hyphen unless the previous character was also a `p`-character (then it
      writes nothing), and every other character is copied. `afterRun` says
      whether the character before `s` satisfied `p`. */
  function SquashRuns(s: string, p: char -> bool, afterRun: bool): string
  {
    if |s| == 0 then ""
    else if p(s[0]) then (if afterRun then "" else "-") + SquashRuns(s[1..], p, true)
    else [s[0]] + SquashRuns(s[1..], p, false)
  }

  /** Inside a run of white space, skipping the rest of the run changes
      nothing. */
  lemma {:induction false} SquashAfterSpaceRun(t: string)
    ensures SquashRuns(t, IsSpace, true) == SquashRuns(DropLeadingSpace(t), IsSpace, false)
    decreases |t|
  {
    if |t| > 0 && IsSpace(t[0]) {
      SquashAfterSpaceRun(t[1..]);
    }
  }

  /** Inside a run of hyphens, skipping the rest of the run changes
      nothing. */
  lemma {:induction false} SquashAfterHyphenRun(t: string)
    ensures SquashRuns(t, IsHyphen, true) == SquashRuns(DropLeading(t, '-'), IsHyphen, false)
    decreases |t|
  {
    if |t| > 0 && IsHyphen(t[0]) {
      SquashAfterHyphenRun(t[1..]);
    }
  }

  /** `SpaceRunsToHyphen` agrees with the reference reading: each maximal
      run of white space becomes exactly one hyphen, and every other
      character is kept, in order. */
  lemma {:induction false} SpaceRunsToHyphenSquashes(s: string)
    ensures SpaceRunsToHyphen(s) == SquashRuns(s, IsSpace, false)
    decreases |s|
  {
    if |s| > 0 {
      if IsSpace(s[0]) {
        SpaceRunsToHyphenSquashes(DropLeadingSpace(s[1..]));
        SquashAfterSpaceRun(s[1..]);
      } else {
        SpaceRunsToHyphenSquashes(s[1..]);
      }
    }
  }

  /** `CollapseHyphens` agrees with the reference reading: each maximal run
      of hyphens becomes exactly one hyphen, and every other character is
      kept, in order. */
  lemma {:induction false} CollapseHyphensSquashes(s: string)
    ensures CollapseHyphens(s) == SquashRuns(s, IsHyphen, false)
    decreases |s|
  {
    if |s| > 0 {
      if s[0] == '-' {
        CollapseHyphensSquashes(DropLeading(s[1..], '-'));
        SquashAfterHyphenRun(s[1..]);
      } else {
        CollapseHyphensSquashes(s[1..]);
      }
    }
  }

  /** Replacing white-space runs in kept characters leaves only slug
      characters. */
  lemma SpaceRunsToHyphenSlugChars(kept: string)
    requires forall i :: 0 <= i < |kept| ==> Kept(kept[i])
    ensures forall i :: 0 <= i < |SpaceRunsToHyphen(kept)| ==> IsSlugChar(SpaceRunsToHyphen(kept)[i])
  {
    var h := SpaceRunsToHyphen(kept);
    forall i | 0 <= i < |h|
      ensures IsSlugChar(h[i])
    {
      if h[i] != '-' {
        var j :| 0 <= j < |kept| && kept[j] == h[i];
        assert Kept(kept[j]);
      }
    }
  }

  /** Collapsing hyphens in slug characters leaves only slug characters. */
  lemma CollapseHyphensSlugChars(h: string)
    requires forall i :: 0 <= i < |h| ==> IsSlugChar(h[i])
    ensures forall i :: 0 <= i < |CollapseHyphens(h)| ==> IsSlugChar(CollapseHyphens(h)[i])
  {
    var r := CollapseHyphens(h);
    forall i | 0 <= i < |r|
      ensures IsSlugChar(r[i])
    {
      var j :| 0 <= j < |h| && h[j] == r[i];
    }
  }

  /** `generateSlug`. */
  function GenerateSlug(text: string): (r: string)
    ensures IsSlug(r)
  {
    var kept := KeepSlugChars(Trim(Lower(text)));
    SpaceRunsToHyphenSlugChars(kept);
    CollapseHyphensSlugChars(SpaceRunsToHyphen(kept));
    CollapseHyphens(SpaceRunsToHyphen(kept))
  }

  /** Lower-casing leaves slug characters alone. */
  lemma {:induction false} LowerFixesSlugChars(s: string)
    requires forall i :: 0 <= i < |s| ==> IsSlugChar(s[i])
    ensures Lower(s) == s
  {
    if |s| > 0 {
      LowerFixesSlugChars(s[1..]);
      assert LowerChar(s[0]) == [s[0]];
    }
  }

  lemma SlugCharNotSpace(c: char)
    requires IsSlugChar(c)
    ensures !IsSpace(c) && Kept(c)
  {
  }

  /** A slug is its own slug: `GenerateSlug` leaves its outputs unchanged. */
  lemma SlugIsFixpoint(s: string)
    requires IsSlug(s)
    ensures GenerateSlug(s) == s
  {
    LowerFixesSlugChars(s);
    forall i | 0 <= i < |s|
      ensures !IsSpace(s[i]) && Kept(s[i])
    {
      SlugCharNotSpace(s[i]);
    }
    TrimNoSpace(s);
    assert Trim(Lower(s)) == s;
    assert KeepSlugChars(s) == s;
    assert SpaceRunsToHyphen(s) == s;
    CollapseHyphensFixes(s);
  }

  /** `generateSlug` is idempotent. */
  lemma GenerateSlugIdempotent(text: string)
    ensures GenerateSlug(GenerateSlug(text)) == GenerateSlug(text)
  {
    SlugIsFixpoint(GenerateSlug(text));
  }
}
