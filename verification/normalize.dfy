/** `normalizeCategories`: the category names of a movie request reduced to
    distinct slugs. Each name is trimmed; blank names and names whose slug is
    empty are skipped; the first name that yields a slug is the one kept for
    it, and slugs appear in the order they first occur. */
module Normalize {
  import opened Text
  import opened Slug

  /** The slug a raw category name contributes, "" when the loop skips it
      (the trimmed name is blank, or its slug is empty). */
  function KeyOf(item: string): (k: string)
    ensures k != "" ==> Trim(item) != "" && k == GenerateSlug(Trim(item)) && IsSlug(k)
    ensures k == "" ==> Trim(item) == "" || GenerateSlug(Trim(item)) == ""
  {
    var name := Trim(item);
    if name == "" then "" else GenerateSlug(name)
  }

  /** `f` applied to every element of `xs`, in order. */
  function MapSeq(f: string -> string, xs: seq<string>): (ys: seq<string>)
    ensures |ys| == |xs|
  {
    if |xs| == 0 then [] else MapSeq(f, xs[..|xs| - 1]) + [f(xs[|xs| - 1])]
  }

  lemma {:induction false} MapSeqAt(f: string -> string, xs: seq<string>, i: int)
    requires 0 <= i < |xs|
    ensures MapSeq(f, xs)[i] == f(xs[i])
  {
    var n := |xs| - 1;
    if i < n {
      MapSeqAt(f, xs[..n], i);
    }
  }

  lemma MapSeqSnoc(f: string -> string, xs: seq<string>, i: int)
    requires 0 <= i < |xs|
    ensures MapSeq(f, xs[..i + 1]) == MapSeq(f, xs[..i]) + [f(xs[i])]
  {
    assert xs[..i + 1][..i] == xs[..i];
  }

  /** The key of every item, in order. */
  function Keys(items: seq<string>): seq<string> {
    MapSeq(KeyOf, items)
  }

  /** The trimmed name of every item, in order. */
  function Names(items: seq<string>): seq<string> {
    MapSeq(Trim, items)
  }

  /** Entry `i` carries a key that no earlier entry carries. */
  predicate FirstOfKey(ks: seq<string>, i: int)
    requires 0 <= i < |ks|
  {
    ks[i] != "" && ks[i] !in ks[..i]
  }

  /** Keep, in order, the pair (key, name) of every entry that is the first
      with its non-empty key. */
  function Dedup(ks: seq<string>, ns: seq<string>): seq<(string, string)>
    requires |ks| == |ns|
  {
    if |ks| == 0 then []
    else
      var n := |ks| - 1;
      Dedup(ks[..n], ns[..n]) + (if FirstOfKey(ks, n) then [(ks[n], ns[n])] else [])
  }

  /** The reference result of `normalizeCategories`. */
  function Normalized(items: seq<string>): seq<(string, string)> {
    Dedup(Keys(items), Names(items))
  }

  /** The non-empty keys among `ks`. */
  function Seen(ks: seq<string>): set<string> {
    set x | x in ks && x != ""
  }

  /** Adding one entry to the input of `Dedup` adds it to the result
      exactly when its key is non-empty and not seen before. */
  lemma DedupSnoc(ks: seq<string>, ns: seq<string>, k: string, n: string)
    requires |ks| == |ns|
    ensures Dedup(ks + [k], ns + [n])
            == Dedup(ks, ns) + (if k != "" && k !in Seen(ks) then [(k, n)] else [])
  {
    var ks1 := ks + [k];
    assert ks1[..|ks|] == ks;
    assert (ns + [n])[..|ns|] == ns;
    assert FirstOfKey(ks1, |ks|) <==> k != "" && k !in ks;
  }

  lemma SeenSnoc(ks: seq<string>, k: string)
    ensures Seen(ks + [k]) == Seen(ks) + (if k != "" then {k} else {})
  {
    forall x
      ensures x in Seen(ks + [k]) <==> x in Seen(ks) || (x == k && k != "")
    {
      assert x in ks + [k] <==> x in ks || x == k;
    }
  }

  /** One step of the loop: how the reference result and the set of seen
      keys grow when item `i` is added. */
  lemma NormalizedStep(items: seq<string>, i: int)
    requires 0 <= i < |items|
    ensures Normalized(items[..i + 1]) == Normalized(items[..i])
      + (if KeyOf(items[i]) != "" && KeyOf(items[i]) !in Seen(Keys(items[..i]))
         then [(KeyOf(items[i]), Trim(items[i]))] else [])
    ensures Seen(Keys(items[..i + 1]))
      == Seen(Keys(items[..i])) + (if KeyOf(items[i]) != "" then {KeyOf(items[i])} else {})
  {
    MapSeqSnoc(KeyOf, items, i);
    MapSeqSnoc(Trim, items, i);
    DedupSnoc(Keys(items[..i]), Names(items[..i]), KeyOf(items[i]), Trim(items[i]));
    SeenSnoc(Keys(items[..i]), KeyOf(items[i]));
  }

  /** `normalizeCategories` as the source writes it: one pass that keeps a
      map from slug to the first name seen for it. */
  method NormalizeCategories(items: seq<string>) returns (r: seq<(string, string)>)
    ensures r == Normalized(items)
  {
    var seen: set<string> := {};
    r := [];
    for i := 0 to |items|
      invariant r == Normalized(items[..i])
      invariant seen == Seen(Keys(items[..i]))
    {
      NormalizedStep(items, i);
      var name := Trim(items[i]);
      if name != "" {
        var slug := GenerateSlug(name);
        if slug != "" {
          if slug !in seen {
            r := r + [(slug, name)];
          }
          seen := seen + {slug};
        }
      }
    }
    assert items[..|items|] == items;
  }

  /** Every entry of the result is the (key, name) of an entry that is the
      first with its key. */
  lemma {:induction false} DedupSound(ks: seq<string>, ns: seq<string>)
    requires |ks| == |ns|
    ensures forall e :: e in Dedup(ks, ns) ==>
      exists i :: 0 <= i < |ks| && FirstOfKey(ks, i) && e == (ks[i], ns[i])
  {
    if |ks| > 0 {
      var n := |ks| - 1;
      DedupSound(ks[..n], ns[..n]);
      forall e | e in Dedup(ks, ns)
        ensures exists i :: 0 <= i < |ks| && FirstOfKey(ks, i) && e == (ks[i], ns[i])
      {
        if e in Dedup(ks[..n], ns[..n]) {
          var i :| 0 <= i < n && FirstOfKey(ks[..n], i) && e == (ks[..n][i], ns[..n][i]);
          assert ks[..n][..i] == ks[..i];
        }
      }
    }
  }

  /** Every non-empty key occurs in the result. */
  lemma {:induction false} DedupComplete(ks: seq<string>, ns: seq<string>)
    requires |ks| == |ns|
    ensures forall i :: 0 <= i < |ks| && ks[i] != "" ==> exists e :: e in Dedup(ks, ns) && e.0 == ks[i]
  {
    if |ks| > 0 {
      var n := |ks| - 1;
      DedupComplete(ks[..n], ns[..n]);
      var r := Dedup(ks, ns);
      assert forall e :: e in Dedup(ks[..n], ns[..n]) ==> e in r;
      forall i | 0 <= i < |ks| && ks[i] != ""
        ensures exists e :: e in r && e.0 == ks[i]
      {
        if i < n {
          assert ks[..n][i] == ks[i];
        } else if FirstOfKey(ks, n) {
          assert (ks[n], ns[n]) in r;
        } else {
          var j :| 0 <= j < n && ks[..n][j] == ks[n];
          assert ks[..n][j] == ks[j];
        }
      }
    }
  }

  /** No two entries of `r` share a key, and no key is empty. */
  predicate DistinctKeys(r: seq<(string, string)>) {
    && (forall a :: 0 <= a < |r| ==> r[a].0 != "")
    && (forall a, b :: 0 <= a < b < |r| ==> r[a].0 != r[b].0)
  }

  /** The keys of the result are distinct and non-empty. */
  lemma {:induction false} DedupDistinct(ks: seq<string>, ns: seq<string>)
    requires |ks| == |ns|
    ensures DistinctKeys(Dedup(ks, ns))
  {
    if |ks| > 0 {
      var n := |ks| - 1;
      DedupDistinct(ks[..n], ns[..n]);
      var p := Dedup(ks[..n], ns[..n]);
      var r := Dedup(ks, ns);
      if FirstOfKey(ks, n) {
        DedupSound(ks[..n], ns[..n]);
        forall a | 0 <= a < |p|
          ensures p[a].0 != ks[n]
        {
          assert p[a] in p;
          var i :| 0 <= i < n && FirstOfKey(ks[..n], i) && p[a] == (ks[..n][i], ns[..n][i]);
          assert ks[..n][i] == ks[i] && ks[i] in ks[..n];
        }
        assert r == p + [(ks[n], ns[n])];
        forall a, b | 0 <= a < b < |r|
          ensures r[a].0 != r[b].0
        {
          assert r[a] == p[a];
          if b < |p| {
            assert r[b] == p[b];
          }
        }
        forall a | 0 <= a < |r|
          ensures r[a].0 != ""
        {
          if a < |p| {
            assert r[a] == p[a];
          }
        }
      } else {
        assert r == p;
      }
    }
  }

  /** The keys and names `Normalized` works on, entry by entry. */
  lemma KeysNamesAt(items: seq<string>)
    ensures forall i :: 0 <= i < |items| ==> Keys(items)[i] == KeyOf(items[i])
    ensures forall i :: 0 <= i < |items| ==> Names(items)[i] == Trim(items[i])
  {
    forall i | 0 <= i < |items|
      ensures Keys(items)[i] == KeyOf(items[i]) && Names(items)[i] == Trim(items[i])
    {
      MapSeqAt(KeyOf, items, i);
      MapSeqAt(Trim, items, i);
    }
  }

  /** The result of `normalizeCategories` has distinct, non-empty slugs. */
  lemma NormalizedDistinct(items: seq<string>)
    ensures DistinctKeys(Normalized(items))
  {
    DedupDistinct(Keys(items), Names(items));
  }

  /** Each entry of the result is the slug and trimmed name of the first item
      that produced that slug; the slug has the slug shape and the name is
      trimmed and not blank. */
  lemma NormalizedSound(items: seq<string>)
    ensures forall e :: e in Normalized(items) ==>
      exists i :: 0 <= i < |items| && e == (KeyOf(items[i]), Trim(items[i])) && FirstOfKey(Keys(items), i)
    ensures forall e :: e in Normalized(items) ==> IsSlug(e.0) && e.1 != "" && IsTrimmed(e.1)
  {
    DedupSound(Keys(items), Names(items));
    KeysNamesAt(items);
  }

  /** Every item the loop does not skip has its slug in the result. */
  lemma NormalizedComplete(items: seq<string>)
    ensures forall i :: 0 <= i < |items| && KeyOf(items[i]) != "" ==>
      exists e :: e in Normalized(items) && e.0 == KeyOf(items[i])
  {
    DedupComplete(Keys(items), Names(items));
    KeysNamesAt(items);
  }
}
