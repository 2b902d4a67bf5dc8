/** Table keys. Every table is keyed by an autoincrement integer id; a new
    row gets a key larger than every key in use. */
module Ids {

  /** A set with no elements is the empty set. Choosing an element of a
      non-empty set (`var y :| y in s`) goes through this fact. */
  lemma NoElementMeansEmpty(s: set<int>)
    ensures (forall y :: y !in s) ==> s == {}
  {
    if forall y :: y !in s {
      assert forall y :: y in s <==> y in {};
    }
  }

  lemma {:induction false} MaxExists(s: set<int>)
    requires s != {}
    ensures exists m :: m in s && forall x :: x in s ==> x <= m
    decreases s
  {
    NoElementMeansEmpty(s);
    var y :| y in s;
    var rest := s - {y};
    if rest == {} {
      assert s == rest + {y};
    } else {
      MaxExists(rest);
      var k :| k in rest && forall x :: x in rest ==> x <= k;
      var top := if y > k then y else k;
      forall x | x in s
        ensures x <= top
      {
        if x != y { assert x in rest; }
      }
      assert top in s;
    }
  }

  lemma {:induction false} MinExists(s: set<int>)
    requires s != {}
    ensures exists m :: m in s && forall x :: x in s ==> m <= x
    decreases s
  {
    NoElementMeansEmpty(s);
    var y :| y in s;
    var rest := s - {y};
    if rest == {} {
      assert s == rest + {y};
    } else {
      MinExists(rest);
      var k :| k in rest && forall x :: x in rest ==> k <= x;
      var bottom := if y < k then y else k;
      forall x | x in s
        ensures bottom <= x
      {
        if x != y { assert x in rest; }
      }
      assert bottom in s;
    }
  }

  /** The largest element of a non-empty finite set. */
  function Max(s: set<int>): (m: int)
    requires s != {}
    ensures m in s && forall x :: x in s ==> x <= m
  {
    MaxExists(s);
    var m :| m in s && forall x :: x in s ==> x <= m; m
  }

  /** The smallest element of a non-empty finite set: the row a `findFirst`
      without `orderBy` is taken to return. */
  function Min(s: set<int>): (m: int)
    requires s != {}
    ensures m in s && forall x :: x in s ==> m <= x
  {
    MinExists(s);
    var m :| m in s && forall x :: x in s ==> m <= x; m
  }

  /** The key the next insert into a table with keys `keys` receives: one more
      than the largest key in use, and at least 1. */
  function FreshId(keys: set<int>): (k: int)
    ensures k !in keys && k >= 1
    ensures forall x :: x in keys ==> x < k
  {
    if keys == {} then 1 else var m := Max(keys); if m >= 1 then m + 1 else 1
  }
}
