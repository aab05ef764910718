/** Finite sets as sequences: the order a map or a set is visited in. */
module Listings {

  /** Each key once, in some order. */
  ghost predicate Lists<T(!new)>(order: seq<T>, keys: set<T>) {
    && (forall k :: k in order <==> k in keys)
    && (forall i, j :: 0 <= i < j < |order| ==> order[i] != order[j])
  }

  /** Collects the keys of a map in the order it is visited in, whatever that is. */
  method Gather<T(!new, ==)>(keys: set<T>) returns (order: seq<T>)
    ensures Lists(order, keys)
  {
    order := [];
    var pending := keys;
    while pending != {}
      invariant pending <= keys
      invariant Lists(order, keys - pending)
      decreases |pending|
    {
      var key :| key in pending;
      pending := pending - {key};
      order := order + [key];
    }
  }

  ghost function ListOf<T(!new)>(keys: set<T>): (order: seq<T>)
    ensures Lists(order, keys)
    decreases |keys|
  {
    if keys == {} then []
    else
      var k :| k in keys;
      ListOf(keys - {k}) + [k]
  }

  lemma {:induction false} ListingLength<T(!new)>(order: seq<T>, keys: set<T>)
    requires Lists(order, keys)
    ensures |order| == |keys|
  {
    if order == [] {
      assert keys == {};
    } else {
      var last := order[|order| - 1];
      var front := order[..|order| - 1];
      assert order == front + [last];
      forall k
        ensures k in front <==> k in keys - {last}
      {
        if k in front {
          assert k in order;
        }
      }
      ListingLength(front, keys - {last});
    }
  }

  lemma {:induction false} ImageIsNoLarger<X(!new), Y(!new)>(domain: set<X>, image: set<Y>, f: X -> Y)
    requires forall y :: y in image ==> exists x :: x in domain && f(x) == y
    ensures |image| <= |domain|
  {
    if image != {} {
      var y :| y in image;
      var x :| x in domain && f(x) == y;
      ImageIsNoLarger(domain - {x}, image - {y}, f);
    }
  }

  lemma {:induction false} SubsetIsNoLarger<T(!new)>(a: set<T>, b: set<T>)
    requires a <= b
    ensures |a| <= |b|
  {
    if a != {} {
      var x :| x in a;
      SubsetIsNoLarger(a - {x}, b - {x});
    }
  }

  lemma {:induction false} DistinctByCount<T(!new)>(s: seq<T>)
    requires forall i, j :: 0 <= i < j < |s| ==> s[i] != s[j]
    ensures forall x :: multiset(s)[x] <= 1
  {
    if s != [] {
      var front := s[..|s| - 1];
      DistinctByCount(front);
      assert s == front + [s[|s| - 1]];
      assert s[|s| - 1] !in multiset(front);
    }
  }

  lemma {:induction false} CountByDistinct<T(!new)>(s: seq<T>)
    requires forall x :: multiset(s)[x] <= 1
    ensures forall i, j :: 0 <= i < j < |s| ==> s[i] != s[j]
  {
    if s != [] {
      var front, last := s[..|s| - 1], s[|s| - 1];
      assert s == front + [last];
      assert multiset(s) == multiset(front) + multiset{last};
      forall x
        ensures multiset(front)[x] <= 1
      {
        assert multiset(s)[x] <= 1;
      }
      CountByDistinct(front);
      assert last !in multiset(front) by {
        assert multiset(s)[last] <= 1;
      }
      forall i | 0 <= i < |front|
        ensures front[i] != last
      {
        assert front[i] in multiset(front);
      }
    }
  }
}
