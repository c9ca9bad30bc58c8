/** Listing keys, all at once or page by page. */
module Paging {
  import opened Text

  predicate LexLt(a: string, b: string) {
    LexLe(a, b) && a != b
  }

  /** `DataStore.List`: the pairs whose key has the prefix. */
  function ListPrefix(data: map<string, string>, prefix: string): map<string, string> {
    map k | k in data && HasPrefix(k, prefix) :: data[k]
  }

  // ----- Sorting a set of keys -----

  predicate StrictlySorted(keys: seq<string>) {
    forall i, j :: 0 <= i < j < |keys| ==> LexLt(keys[i], keys[j])
  }

  ghost predicate IsLeast(keys: set<string>, m: string) {
    m in keys && forall k :: k in keys ==> LexLe(m, k)
  }

  lemma {:induction false} LeastExists(keys: set<string>)
    requires keys != {}
    ensures exists m :: IsLeast(keys, m)
    decreases |keys|
  {
    var x :| x in keys;
    if keys == {x} {
      LexReflexive(x);
      assert IsLeast(keys, x);
    } else {
      var rest := keys - {x};
      assert rest != {};
      LeastExists(rest);
      var m :| IsLeast(rest, m);
      LexTotal(x, m);
      LexReflexive(x);
      var least := if LexLe(x, m) then x else m;
      forall k | k in keys ensures LexLe(least, k) {
        if k != x && LexLe(x, m) {
          LexTransitive(x, m, k);
        }
      }
      assert IsLeast(keys, least);
    }
  }

  ghost function Least(keys: set<string>): (m: string)
    requires keys != {}
    ensures IsLeast(keys, m)
  {
    LeastExists(keys);
    var m :| IsLeast(keys, m);
    m
  }

  /** The keys in ascending order. */
  ghost function SortedKeys(keys: set<string>): seq<string>
    decreases |keys|
  {
    if keys == {} then [] else [Least(keys)] + SortedKeys(keys - {Least(keys)})
  }

  lemma {:induction false} SortedKeysSorts(keys: set<string>)
    ensures StrictlySorted(SortedKeys(keys))
    ensures (set k | k in SortedKeys(keys)) == keys
    ensures |SortedKeys(keys)| == |keys|
    decreases |keys|
  {
    if keys != {} {
      var m := Least(keys);
      var tail := SortedKeys(keys - {m});
      SortedKeysSorts(keys - {m});
      assert forall k :: k in tail <==> k in keys - {m};
      forall i, j | 0 <= i < j < |tail| + 1
        ensures LexLt(([m] + tail)[i], ([m] + tail)[j])
      {
        assert tail[j - 1] in tail;
        assert i > 0 ==> LexLt(tail[i - 1], tail[j - 1]);
      }
      assert forall k :: k in keys <==> k == m || k in tail;
    }
  }

  /** A strictly ascending listing of a set is the only one. */
  lemma {:induction false} SortedUnique(a: seq<string>, keys: set<string>)
    requires StrictlySorted(a) && (set k | k in a) == keys
    ensures a == SortedKeys(keys)
    decreases |a|
  {
    if a == [] {
      assert keys == {};
    } else {
      assert a[0] in keys;
      var m := Least(keys);
      assert m in a;
      var i :| 0 <= i < |a| && a[i] == m;
      if i > 0 {
        assert LexLt(a[0], a[i]);
        LexAntisymmetric(a[0], m);
      }
      var tail := a[1..];
      forall k ensures k in tail <==> k in keys - {m} {
        if k in keys - {m} {
          var j :| 0 <= j < |a| && a[j] == k;
          assert tail[j - 1] == k;
        }
      }
      forall i, j | 0 <= i < j < |tail| ensures LexLt(tail[i], tail[j]) {
        assert LexLt(a[i + 1], a[j + 1]);
      }
      SortedUnique(tail, keys - {m});
    }
  }

  // ----- One page -----

  function Candidates(data: map<string, string>, prefix: string, keyAfter: string): set<string> {
    set k | k in data && HasPrefix(k, prefix) && LexLe(keyAfter, k)
  }

  function Restrict(data: map<string, string>, keys: seq<string>): map<string, string> {
    map k | k in data && k in keys :: data[k]
  }

  datatype Page = Page(pairs: map<string, string>, nextKey: string)

  /** `DataStore.ListPaged`: the first `limit` candidates in order and the key after them. */
  ghost function PageOf(data: map<string, string>, prefix: string, limit: int, keyAfter: string): Page {
    FirstOf(data, SortedKeys(Candidates(data, prefix, keyAfter)), limit)
  }

  function FirstOf(data: map<string, string>, keys: seq<string>, limit: int): Page {
    if limit > 0 && |keys| > limit
    then Page(Restrict(data, keys[..limit]), keys[limit])
    else Page(Restrict(data, keys), "")
  }

  /** What a page holds, said without sorting: the candidates below the cursor it returns. */
  ghost predicate IsPage(data: map<string, string>, prefix: string, limit: int, keyAfter: string, p: Page) {
    var all := Candidates(data, prefix, keyAfter);
    && (forall k :: k in p.pairs ==> k in data && p.pairs[k] == data[k])
    && if limit > 0 && |all| > limit then
         && p.nextKey in all
         && |p.pairs| == limit
         && (forall k :: k in p.pairs <==> k in all && LexLt(k, p.nextKey))
       else
         p.nextKey == "" && p.pairs.Keys == all
  }

  lemma PageMeaning(data: map<string, string>, prefix: string, limit: int, keyAfter: string)
    ensures IsPage(data, prefix, limit, keyAfter, PageOf(data, prefix, limit, keyAfter))
  {
    var all := Candidates(data, prefix, keyAfter);
    SortedKeysSorts(all);
    FirstOfIsPage(data, prefix, limit, keyAfter, SortedKeys(all));
  }

  lemma FirstOfIsPage(data: map<string, string>, prefix: string, limit: int, keyAfter: string, keys: seq<string>)
    requires StrictlySorted(keys) && (set k | k in keys) == Candidates(data, prefix, keyAfter)
    requires |keys| == |Candidates(data, prefix, keyAfter)|
    ensures IsPage(data, prefix, limit, keyAfter, FirstOf(data, keys, limit))
  {
    var all, p := Candidates(data, prefix, keyAfter), FirstOf(data, keys, limit);
    assert forall k :: k in keys <==> k in all;
    if limit > 0 && |keys| > limit {
      TakenAreBelow(keys, limit);
      DistinctCount(keys[..limit]);
      assert p.pairs.Keys == set k | k in keys[..limit];
    } else {
      assert p.pairs.Keys == all;
    }
  }

  lemma TakenAreBelow(keys: seq<string>, n: nat)
    requires StrictlySorted(keys) && n < |keys|
    ensures forall k :: k in keys[..n] <==> k in keys && LexLt(k, keys[n])
  {
    forall k ensures k in keys[..n] <==> k in keys && LexLt(k, keys[n]) {
      if k in keys[..n] {
        var i :| 0 <= i < n && keys[..n][i] == k;
        assert LexLt(keys[i], keys[n]);
      } else if k in keys && LexLt(k, keys[n]) {
        var i :| 0 <= i < |keys| && keys[i] == k;
        if i > n {
          assert LexLt(keys[n], keys[i]);
          LexAntisymmetric(k, keys[n]);
        }
      }
    }
  }

  lemma {:induction false} DistinctCount(a: seq<string>)
    requires StrictlySorted(a)
    ensures |set k | k in a| == |a|
  {
    SortedUnique(a, set k | k in a);
    SortedKeysSorts(set k | k in a);
  }

  /** A page is what `IsPage` says and nothing else is. */
  lemma PageUnique(data: map<string, string>, prefix: string, limit: int, keyAfter: string, p: Page, q: Page)
    requires IsPage(data, prefix, limit, keyAfter, p) && IsPage(data, prefix, limit, keyAfter, q)
    ensures p == q
  {
    if limit > 0 && |Candidates(data, prefix, keyAfter)| > limit {
      LexTotal(p.nextKey, q.nextKey);
      if LexLe(p.nextKey, q.nextKey) {
        SameCursor(Candidates(data, prefix, keyAfter), p, q);
      } else {
        SameCursor(Candidates(data, prefix, keyAfter), q, p);
      }
    }
    assert p.pairs.Keys == q.pairs.Keys;
    assert p.pairs == q.pairs;
  }

  lemma SameCursor(all: set<string>, p: Page, q: Page)
    requires p.nextKey in all && q.nextKey in all && |p.pairs| == |q.pairs| && LexLe(p.nextKey, q.nextKey)
    requires forall k :: k in p.pairs <==> k in all && LexLt(k, p.nextKey)
    requires forall k :: k in q.pairs <==> k in all && LexLt(k, q.nextKey)
    ensures p.nextKey == q.nextKey
  {
    forall k | k in p.pairs.Keys ensures k in q.pairs.Keys {
      LexTransitive(k, p.nextKey, q.nextKey);
      if k == q.nextKey {
        LexAntisymmetric(p.nextKey, q.nextKey);
      }
    }
    EqualBySize(p.pairs.Keys, q.pairs.Keys);
    assert p.nextKey !in p.pairs.Keys;
  }

  lemma EqualBySize(a: set<string>, b: set<string>)
    requires a <= b && |a| == |b|
    ensures a == b
  {
    assert |b - a| == |b| - |a|;
  }

  /** The end of a listing is unambiguous: a cursor is never the empty string. */
  lemma CursorNotEmpty(data: map<string, string>, prefix: string, limit: int, keyAfter: string, p: Page)
    requires IsPage(data, prefix, limit, keyAfter, p)
    ensures p.nextKey == "" <==> limit <= 0 || |Candidates(data, prefix, keyAfter)| <= limit
  {
    assert |p.pairs| == |p.pairs.Keys|;
    assert forall k: string :: !LexLt(k, "");
  }

  // ----- Pages in plain terms -----

  ghost predicate BeginsWith(key: string, prefix: string) {
    |prefix| <= |key| && key[..|prefix|] == prefix
  }

  /** `a` is a proper beginning of `b`, or has the lower character where they first differ. */
  ghost predicate Before(a: string, b: string) {
    (a <= b && a != b) || FirstDifferenceLower(a, b)
  }

  lemma BeforeIff(a: string, b: string)
    ensures LexLt(a, b) <==> Before(a, b)
    ensures LexLe(a, b) <==> a == b || Before(a, b)
  {
    LexIff(a, b);
    if FirstDifferenceLower(a, b) {
      var i :| 0 <= i < |a| && i < |b| && a[..i] == b[..i] && a[i] < b[i];
      assert a != b;
    }
  }

  lemma ListReadsAs(data: map<string, string>, prefix: string, key: string)
    ensures key in ListPrefix(data, prefix) <==> key in data && BeginsWith(key, prefix)
    ensures key in ListPrefix(data, prefix) ==> ListPrefix(data, prefix)[key] == data[key]
  {
  }

  /** A page has the keys that begin with the prefix, are not before `keyAfter`, and come before the key
      after the page, `limit` of them; and all of them when there is no key after it. */
  lemma PageReadsAs(data: map<string, string>, prefix: string, limit: int, keyAfter: string, p: Page, key: string)
    requires IsPage(data, prefix, limit, keyAfter, p)
    ensures key in p.pairs
       <==> && key in data && BeginsWith(key, prefix) && (key == keyAfter || Before(keyAfter, key))
            && (p.nextKey == "" || Before(key, p.nextKey))
    ensures key in p.pairs ==> p.pairs[key] == data[key]
    ensures p.nextKey != "" ==> p.nextKey in data && BeginsWith(p.nextKey, prefix) && |p.pairs| == limit
    ensures p.nextKey == "" && limit > 0 ==> |p.pairs| <= limit
  {
    BeforeIff(keyAfter, key);
    BeforeIff(key, p.nextKey);
    CursorNotEmpty(data, prefix, limit, keyAfter, p);
    assert |p.pairs| == |p.pairs.Keys|;
  }

  // ----- A chain of pages over a store that changes between them -----

  /** The cursor page `i` starts from. */
  function Cursor(pages: seq<Page>, i: nat): string
    requires i <= |pages|
  {
    if i == 0 then "" else pages[i - 1].nextKey
  }

  /** `pages[i]` is read from `stores[i]`; a client goes on exactly while the cursor is not empty. */
  ghost predicate IsChain(stores: seq<map<string, string>>, prefix: string, limit: int, pages: seq<Page>) {
    && limit > 0 && |pages| == |stores|
    && (forall i :: 0 <= i < |pages| ==> PageRead(stores, prefix, limit, pages, i))
    && (forall i :: 0 < i < |pages| ==> Cursor(pages, i) != "")
  }

  ghost predicate PageRead(stores: seq<map<string, string>>, prefix: string, limit: int, pages: seq<Page>, i: nat)
    requires i < |pages| == |stores|
  {
    IsPage(stores[i], prefix, limit, Cursor(pages, i), pages[i])
  }

  /** The keys of page `i` lie from its cursor up to, not including, the next one. */
  lemma PageBounds(stores: seq<map<string, string>>, prefix: string, limit: int, pages: seq<Page>, i: nat)
    requires IsChain(stores, prefix, limit, pages) && i < |pages|
    ensures var c, next := Cursor(pages, i), Cursor(pages, i + 1);
            && (next != "" ==> LexLe(c, next))
            && (forall k :: k in pages[i].pairs ==> LexLe(c, k) && (next != "" ==> LexLt(k, next)))
  {
    assert PageRead(stores, prefix, limit, pages, i);
    CursorNotEmpty(stores[i], prefix, limit, Cursor(pages, i), pages[i]);
  }

  lemma {:induction false} CursorsAscend(stores: seq<map<string, string>>, prefix: string, limit: int,
                                         pages: seq<Page>, i: nat, j: nat)
    requires IsChain(stores, prefix, limit, pages) && i <= j < |stores|
    ensures LexLe(Cursor(pages, i), Cursor(pages, j))
    decreases j
  {
    if i == j {
      LexReflexive(Cursor(pages, i));
    } else {
      CursorsAscend(stores, prefix, limit, pages, i, j - 1);
      PageBounds(stores, prefix, limit, pages, j - 1);
      LexTransitive(Cursor(pages, i), Cursor(pages, j - 1), Cursor(pages, j));
    }
  }

  /** Whatever is written between pages, no key is returned by two of them. */
  lemma NoKeyTwice(stores: seq<map<string, string>>, prefix: string, limit: int, pages: seq<Page>, i: nat, j: nat)
    requires IsChain(stores, prefix, limit, pages) && i < j < |stores|
    ensures pages[i].pairs.Keys !! pages[j].pairs.Keys
  {
    CursorsAscend(stores, prefix, limit, pages, i + 1, j);
    PageBounds(stores, prefix, limit, pages, i);
    PageBounds(stores, prefix, limit, pages, j);
    var next := Cursor(pages, i + 1);
    forall k | k in pages[i].pairs && k in pages[j].pairs ensures false {
      LexTransitive(next, Cursor(pages, j), k);
      LexAntisymmetric(k, next);
    }
  }

  /** A candidate that is not on the page is still ahead of its cursor. */
  /** Whatever is written between pages, their keys come in order: each key of a page before each key of
      every later page. */
  lemma PagesAscend(stores: seq<map<string, string>>, prefix: string, limit: int, pages: seq<Page>,
                    i: nat, j: nat, a: string, b: string)
    requires IsChain(stores, prefix, limit, pages) && i < j < |pages| && a in pages[i].pairs && b in pages[j].pairs
    ensures Before(a, b)
  {
    PageBounds(stores, prefix, limit, pages, i);
    PageBounds(stores, prefix, limit, pages, j);
    CursorsAscend(stores, prefix, limit, pages, i + 1, j);
    LexTransitive(a, Cursor(pages, i + 1), Cursor(pages, j));
    LexTransitive(a, Cursor(pages, j), b);
    LexTransitive(Cursor(pages, i + 1), Cursor(pages, j), b);
    if a == b {
      LexAntisymmetric(a, Cursor(pages, i + 1));
    }
    BeforeIff(a, b);
  }

  lemma NotOnPage(data: map<string, string>, prefix: string, limit: int, c: string, p: Page, key: string)
    requires IsPage(data, prefix, limit, c, p) && key in Candidates(data, prefix, c) && key !in p.pairs
    ensures p.nextKey != "" && LexLe(p.nextKey, key)
  {
    CursorNotEmpty(data, prefix, limit, c, p);
    LexTotal(key, p.nextKey);
    LexReflexive(key);
  }

  /** A matching key that is there at every read is on some page of the part already read, or still ahead. */
  lemma {:induction false} ReturnedOrAhead(stores: seq<map<string, string>>, prefix: string, limit: int,
                                           pages: seq<Page>,
                                           key: string, n: nat)
      returns (i: nat)
    requires IsChain(stores, prefix, limit, pages) && n <= |stores|
    requires HasPrefix(key, prefix) && forall j :: 0 <= j < n ==> key in stores[j]
    ensures i <= n
    ensures i < n ==> key in pages[i].pairs
    ensures i == n ==> LexLe(Cursor(pages, n), key) && (n > 0 ==> Cursor(pages, n) != "")
  {
    if n == 0 {
      return 0;
    }
    i := ReturnedOrAhead(stores, prefix, limit, pages, key, n - 1);
    if i == n - 1 && key !in pages[n - 1].pairs {
      assert PageRead(stores, prefix, limit, pages, n - 1);
      NotOnPage(stores[n - 1], prefix, limit, Cursor(pages, n - 1), pages[n - 1], key);
      i := n;
    }
  }

  /** The key is on page `i` and on no other. */
  ghost predicate OnlyPage(pages: seq<Page>, key: string, i: nat) {
    && i < |pages| && key in pages[i].pairs
    && forall j :: 0 <= j < |pages| && key in pages[j].pairs ==> j == i
  }

  /** When the chain has ended, every matching key present throughout was returned by exactly one page. */
  lemma EveryLastingKeyOnce(stores: seq<map<string, string>>, prefix: string, limit: int, pages: seq<Page>, key: string)
    requires IsChain(stores, prefix, limit, pages) && |stores| > 0 && Cursor(pages, |pages|) == ""
    requires HasPrefix(key, prefix) && forall j :: 0 <= j < |stores| ==> key in stores[j]
    ensures exists i :: OnlyPage(pages, key, i)
  {
    var i := ReturnedOrAhead(stores, prefix, limit, pages, key, |stores|);
    forall j | 0 <= j < |pages| && key in pages[j].pairs ensures j == i {
      if i < j {
        NoKeyTwice(stores, prefix, limit, pages, i, j);
      } else if j < i {
        NoKeyTwice(stores, prefix, limit, pages, j, i);
      }
    }
    assert OnlyPage(pages, key, i);
  }

  // ----- The same chain over a store that stays put -----

  /** max(1, ceil(n / limit)). */
  function PageCount(n: nat, limit: int): nat
    requires limit > 0
  {
    if n == 0 then 1 else (n + limit - 1) / limit
  }

  ghost predicate Still(stores: seq<map<string, string>>, data: map<string, string>) {
    forall i :: 0 <= i < |stores| ==> stores[i] == data
  }

  /** A full page takes its keys off the candidates and leaves those from its cursor on. */
  lemma LeftAfterPage(data: map<string, string>, prefix: string, limit: int, c: string, p: Page)
    requires IsPage(data, prefix, limit, c, p) && p.nextKey != ""
    ensures |Candidates(data, prefix, p.nextKey)| == |Candidates(data, prefix, c)| - limit
  {
    CursorNotEmpty(data, prefix, limit, c, p);
    var all, rest := Candidates(data, prefix, c), Candidates(data, prefix, p.nextKey);
    forall k ensures k in rest <==> k in all - p.pairs.Keys {
      if k in rest {
        LexTransitive(c, p.nextKey, k);
        if LexLt(k, p.nextKey) {
          LexAntisymmetric(k, p.nextKey);
        }
      }
      if k in all && k !in p.pairs {
        LexTotal(k, p.nextKey);
        LexReflexive(k);
      }
    }
    assert rest == all - p.pairs.Keys;
    assert p.pairs.Keys <= all;
  }

  lemma {:induction false} LeftAfter(stores: seq<map<string, string>>, data: map<string, string>, prefix: string,
                                     limit: int,
                                     pages: seq<Page>, i: nat)
    requires IsChain(stores, prefix, limit, pages) && Still(stores, data) && i < |stores|
    ensures |Candidates(data, prefix, Cursor(pages, i))| == |Candidates(data, prefix, "")| - i * limit
  {
    if i > 0 {
      LeftAfter(stores, data, prefix, limit, pages, i - 1);
      assert PageRead(stores, prefix, limit, pages, i - 1) && Cursor(pages, i) != "";
      LeftAfterPage(data, prefix, limit, Cursor(pages, i - 1), pages[i - 1]);
      assert i * limit == (i - 1) * limit + limit;
    }
  }

  lemma EndsIff(stores: seq<map<string, string>>, data: map<string, string>, prefix: string, limit: int,
                pages: seq<Page>, i: nat)
    requires IsChain(stores, prefix, limit, pages) && Still(stores, data) && i < |stores|
    ensures Cursor(pages, i + 1) == "" <==> |Candidates(data, prefix, Cursor(pages, i))| <= limit
  {
    assert PageRead(stores, prefix, limit, pages, i);
    CursorNotEmpty(data, prefix, limit, Cursor(pages, i), pages[i]);
  }

  /** On a fixed store the chain ends after max(1, ceil(n / limit)) pages. */
  lemma ChainLength(stores: seq<map<string, string>>, data: map<string, string>, prefix: string, limit: int,
                    pages: seq<Page>)
    requires IsChain(stores, prefix, limit, pages) && Still(stores, data) && |stores| > 0
    ensures Cursor(pages, |pages|) == "" <==> |pages| == PageCount(|Candidates(data, prefix, "")|, limit)
  {
    var n, last := |Candidates(data, prefix, "")|, |pages| - 1;
    LeftAfter(stores, data, prefix, limit, pages, last);
    EndsIff(stores, data, prefix, limit, pages, last);
    if last > 0 {
      LeftAfter(stores, data, prefix, limit, pages, last - 1);
      EndsIff(stores, data, prefix, limit, pages, last - 1);
      assert Cursor(pages, last) != "";
    }
    PageCountBounds(n, limit, last);
  }

  /** And its pages together are the plain listing. */
  lemma ChainIsList(stores: seq<map<string, string>>, data: map<string, string>, prefix: string, limit: int,
                    pages: seq<Page>, key: string)
    requires IsChain(stores, prefix, limit, pages) && Still(stores, data) && |stores| > 0
    requires Cursor(pages, |pages|) == ""
    ensures key in ListPrefix(data, prefix) <==> exists i :: OnlyPage(pages, key, i)
    ensures forall i: nat :: OnlyPage(pages, key, i) ==> key in data && pages[i].pairs[key] == data[key]
  {
    if key in ListPrefix(data, prefix) {
      EveryLastingKeyOnce(stores, prefix, limit, pages, key);
    }
    forall i: nat | OnlyPage(pages, key, i)
      ensures key in ListPrefix(data, prefix) && pages[i].pairs[key] == data[key]
    {
      assert PageRead(stores, prefix, limit, pages, i);
      OnPage(data, prefix, limit, Cursor(pages, i), pages[i], key);
    }
  }

  lemma OnPage(data: map<string, string>, prefix: string, limit: int, c: string, p: Page, key: string)
    requires IsPage(data, prefix, limit, c, p) && key in p.pairs
    ensures key in ListPrefix(data, prefix) && p.pairs[key] == data[key]
  {
    assert key in Candidates(data, prefix, c);
  }

  lemma PageCountBounds(n: nat, limit: int, last: nat)
    requires limit > 0 && (last > 0 ==> n - (last - 1) * limit > limit)
    ensures n - last * limit <= limit <==> last + 1 == PageCount(n, limit)
  {
    if n > 0 {
      assert last > 0 ==> (last - 1) * limit + limit == last * limit;
      CeilIs(n, limit, last + 1);
      assert (last + 1) * limit == last * limit + limit;
    }
  }

  /** `q` is ceil(n / limit) exactly when q multiples reach n and one fewer does not. */
  lemma CeilIs(n: int, limit: int, q: int)
    requires 0 < n && 0 < limit && (q - 1) * limit < n
    ensures n <= q * limit <==> q == (n + limit - 1) / limit
  {
    var c := (n + limit - 1) / limit;
    assert n + limit - 1 == c * limit + (n + limit - 1) % limit;
    assert c * limit <= n + limit - 1 < c * limit + limit;
    assert (q - 1) * limit == q * limit - limit;
    if q < c {
      MulMonotone(q, c - 1, limit);
      assert (c - 1) * limit == c * limit - limit;
    }
    if c < q {
      MulMonotone(c, q - 1, limit);
    }
  }

  lemma MulMonotone(a: int, b: int, c: int)
    requires a <= b && 0 < c
    ensures a * c <= b * c
  {
  }
}
