/** Small facts about Dafny's own collections, and ranging over a Go map. */
module Collections {

  /** A set in some order, as ranging over a Go map gives it. */
  ghost predicate Enumerates<T(!new)>(order: seq<T>, members: set<T>) {
    && (forall i, j :: 0 <= i < j < |order| ==> order[i] != order[j])
    && (forall x :: x in order <==> x in members)
  }

  method Enumerate<T(!new, ==)>(members: set<T>) returns (order: seq<T>)
    ensures Enumerates(order, members)
  {
    order := [];
    var rest := members;
    while rest != {}
      invariant rest <= members && Enumerates(order, members - rest)
    {
      var x :| x in rest;
      order, rest := order + [x], rest - {x};
    }
  }

  lemma Pick<T>(s: set<T>) returns (x: T)
    requires s != {}
    ensures x in s
  {
    x :| x in s;
  }

  lemma SameMap<K(!new), V>(a: map<K, V>, b: map<K, V>)
    requires forall k :: k in a <==> k in b
    requires forall k :: k in a ==> a[k] == b[k]
    ensures a == b
  {
    assert a.Keys == b.Keys;
  }

  lemma ConcatAssoc<T>(a: seq<T>, b: seq<T>, c: seq<T>)
    ensures a + b + c == a + (b + c)
  {
  }
}
