/** The bounded least-recently-used cache of lru_cache.hpp. */
module LruCache {

  datatype Lookup<+T> = Miss | Hit(value: T)

  /** One list node. `id` is the node's identity: what an iterator into the list denotes. */
  datatype Node<K, V> = Node(id: nat, key: K, value: V)

  function KeysOf<K, V>(items: seq<Node<K, V>>): (ks: seq<K>)
    ensures |ks| == |items| && forall i :: 0 <= i < |items| ==> ks[i] == items[i].key
  {
    seq(|items|, i requires 0 <= i < |items| => items[i].key)
  }

  predicate Distinct<T(==)>(s: seq<T>) { forall i, j :: 0 <= i < j < |s| ==> s[i] != s[j] }

  // ---------- Reference: the most recent distinct keys ----------

  function Without<T(==)>(s: seq<T>, x: T): seq<T> {
    if s == [] then [] else Without(s[..|s| - 1], x) + (if s[|s| - 1] == x then [] else [s[|s| - 1]])
  }

  function Take<T>(s: seq<T>, n: nat): seq<T> { if |s| <= n then s else s[..n] }

  /** The distinct keys of a history of touches, newest first. */
  function Recent<T(==)>(touches: seq<T>): seq<T> {
    if touches == [] then []
    else
      var last := touches[|touches| - 1];
      [last] + Without(Recent(touches[..|touches| - 1]), last)
  }

  lemma {:induction false} WithoutAbsent<T>(s: seq<T>, x: T)
    requires x !in s
    ensures Without(s, x) == s
  {
    if s != [] {
      WithoutAbsent(s[..|s| - 1], x);
    }
  }

  lemma {:induction false} WithoutConcat<T>(s: seq<T>, t: seq<T>, x: T)
    ensures Without(s + t, x) == Without(s, x) + Without(t, x)
    decreases |t|
  {
    if t == [] {
      assert s + t == s;
    } else {
      WithoutConcat(s, t[..|t| - 1], x);
      assert (s + t)[..|s + t| - 1] == s + t[..|t| - 1];
    }
  }

  /** Removing the one occurrence of x at place i closes the gap. */
  lemma WithoutAt<T>(s: seq<T>, i: nat)
    requires i < |s| && Distinct(s)
    ensures Without(s, s[i]) == s[..i] + s[i + 1..]
  {
    hide Without, Distinct;
    var x, a, b := s[i], s[..i], s[i + 1..];
    OnlyAt(s, i);
    WithoutConcat(a + [x], b, x);
    WithoutConcat(a, [x], x);
    WithoutOne(x);
    WithoutAbsent(a, x);
    WithoutAbsent(b, x);
  }

  lemma OnlyAt<T>(s: seq<T>, i: nat)
    requires i < |s| && Distinct(s)
    ensures s == s[..i] + [s[i]] + s[i + 1..] && s[i] !in s[..i] && s[i] !in s[i + 1..]
  {
  }

  lemma WithoutOne<T>(x: T)
    ensures Without([x], x) == []
  {
    assert [x][..0] == [];
  }

  lemma {:induction false} WithoutDistinct<T>(s: seq<T>, x: T)
    requires Distinct(s)
    ensures Distinct(Without(s, x)) && x !in Without(s, x)
    ensures forall y :: y in Without(s, x) ==> y in s
  {
    if s != [] {
      WithoutDistinct(s[..|s| - 1], x);
      assert s[|s| - 1] !in s[..|s| - 1];
    }
  }

  lemma {:induction false} RecentDistinct<T>(touches: seq<T>)
    ensures Distinct(Recent(touches))
  {
    if touches != [] {
      var init, last := touches[..|touches| - 1], touches[|touches| - 1];
      RecentDistinct(init);
      WithoutDistinct(Recent(init), last);
    }
  }

  /** Touching a key in the bounded list is touching it in the full history. */
  lemma TouchBounded<T>(r: seq<T>, n: nat, x: T)
    requires Distinct(r)
    ensures Take([x] + Without(Take(r, n), x), n) == Take([x] + Without(r, x), n)
  {
    hide Without;
    if |r| > n {
      var a, b := r[..n], r[n..];
      assert r == a + b;
      WithoutConcat(a, b, x);
      if x in a {
        var i :| 0 <= i < |a| && a[i] == x;
        WithoutAt(a, i);
        assert x !in b;
        WithoutAbsent(b, x);
      } else {
        WithoutAbsent(a, x);
        TakeLonger([x] + a, Without(b, x), n);
      }
    }
  }

  lemma TakeLonger<T>(a: seq<T>, b: seq<T>, n: nat)
    requires n <= |a|
    ensures Take(a + b, n) == Take(a, n)
  {
  }

  // ---------- The cache ----------

  function PlaceOf<K, V>(items: seq<Node<K, V>>, id: nat): (i: nat)
    requires exists i :: 0 <= i < |items| && items[i].id == id
    ensures i < |items| && items[i].id == id
  {
    if items[0].id == id then 0 else 1 + PlaceOf(items[1..], id)
  }

  predicate HasKey<K(==), V>(items: seq<Node<K, V>>, key: K) {
    exists i :: 0 <= i < |items| && items[i].key == key
  }

  /** The list and the index agree: same keys, each once, each key leading to its node. */
  ghost predicate Linked<K(!new), V>(items: seq<Node<K, V>>, index: map<K, nat>, nextId: nat) {
    && (forall i, j :: 0 <= i < j < |items| ==> items[i].key != items[j].key)
    && (forall i, j :: 0 <= i < j < |items| ==> items[i].id != items[j].id)
    && (forall i :: 0 <= i < |items| ==> items[i].id < nextId)
    && (forall i :: 0 <= i < |items| ==> items[i].key in index && index[items[i].key] == items[i].id)
    && (forall k :: k in index ==> HasKey(items, k))
  }

  /** The nodes of all other keys, in order. */
  function Others<K(==), V>(items: seq<Node<K, V>>, key: K): (r: seq<Node<K, V>>)
    ensures |r| <= |items|
  {
    if items == [] then []
    else
      var init, last := items[..|items| - 1], items[|items| - 1];
      if last.key == key then Others(init, key) else Others(init, key) + [last]
  }

  lemma {:induction false} OthersIn<K, V>(items: seq<Node<K, V>>, key: K, n: Node<K, V>)
    requires n in Others(items, key)
    ensures n in items && n.key != key
  {
    var init, last := items[..|items| - 1], items[|items| - 1];
    if n in Others(init, key) {
      OthersIn(init, key, n);
    }
  }

  lemma OthersAllIn<K, V>(items: seq<Node<K, V>>, key: K)
    ensures forall n :: n in Others(items, key) ==> n in items && n.key != key
  {
    hide Others;
    forall n | n in Others(items, key)
      ensures n in items && n.key != key
    {
      OthersIn(items, key, n);
    }
  }

  lemma {:induction false} OthersKeys<K, V>(items: seq<Node<K, V>>, key: K)
    ensures KeysOf(Others(items, key)) == Without(KeysOf(items), key)
  {
    if items != [] {
      OthersKeys(items[..|items| - 1], key);
      assert KeysOf(items)[..|items| - 1] == KeysOf(items[..|items| - 1]);
    }
  }

  lemma {:induction false} OthersAbsent<K, V>(s: seq<Node<K, V>>, key: K)
    requires forall i :: 0 <= i < |s| ==> s[i].key != key
    ensures Others(s, key) == s
  {
    if s != [] {
      var init, last := s[..|s| - 1], s[|s| - 1];
      OthersAbsent(init, key);
      assert Others(s, key) == init + [last];
    }
  }

  /** Taking one node out of a list of distinct keys closes the gap. */
  lemma {:induction false} OthersAt<K, V>(s: seq<Node<K, V>>, i: nat)
    requires i < |s| && forall a, b :: 0 <= a < b < |s| ==> s[a].key != s[b].key
    ensures Others(s, s[i].key) == s[..i] + s[i + 1..]
    decreases |s|
  {
    hide Others;
    var n := |s| - 1;
    var init := s[..n];
    OthersLast(s, s[i].key);
    if i == n {
      OthersAbsent(init, s[i].key);
      assert s[i + 1..] == [] && s[..i] == init && s[..i] + [] == s[..i];
    } else {
      OthersAt(init, i);
      GapAtEnd(s, i);
    }
  }

  lemma OthersLast<K, V>(s: seq<Node<K, V>>, key: K)
    requires s != []
    ensures var init, last := s[..|s| - 1], s[|s| - 1];
            Others(s, key) == if last.key == key then Others(init, key) else Others(init, key) + [last]
  {
  }

  lemma GapAtEnd<T>(s: seq<T>, i: nat)
    requires i < |s| - 1
    ensures var init := s[..|s| - 1]; (init[..i] + init[i + 1..]) + [s[|s| - 1]] == s[..i] + s[i + 1..]
  {
  }

  lemma {:induction false} OthersLinked<K(!new), V>(items: seq<Node<K, V>>, index: map<K, nat>, nextId: nat, key: K)
    requires Linked(items, index, nextId)
    ensures Linked(Others(items, key), index - {key}, nextId)
  {
    hide Linked;
    if items != [] {
      var init, last := items[..|items| - 1], items[|items| - 1];
      PopLinked(items, index, nextId);
      OthersLinked(init, index - {last.key}, nextId, key);
      if last.key == key {
        assert index - {last.key} - {key} == index - {key};
      } else {
        var r := Others(init, key);
        forall n | n in r
          ensures n in init
        {
          OthersIn(init, key, n);
        }
        LastNode(items, index, nextId);
        PushBackLinked(r, index - {last.key} - {key}, nextId, last, items);
        assert (index - {last.key} - {key})[last.key := last.id] == index - {key};
      }
    } else {
      LinkedEmpty<K, V>(index, nextId, key);
    }
  }

  lemma LastNode<K(!new), V>(items: seq<Node<K, V>>, index: map<K, nat>, nextId: nat)
    requires Linked(items, index, nextId) && items != []
    ensures var last := items[|items| - 1];
            && last.key in index && index[last.key] == last.id < nextId
            && forall i :: 0 <= i < |items| - 1 ==> items[i].id != last.id
  {
    hide HasKey;
  }

  lemma LinkedEmpty<K(!new), V>(index: map<K, nat>, nextId: nat, key: K)
    requires Linked<K, V>([], index, nextId)
    ensures Linked<K, V>([], index - {key}, nextId)
  {
    assert index - {key} == index;
  }

  lemma PushBackLinked<K(!new), V>(r: seq<Node<K, V>>, index: map<K, nat>, nextId: nat, last: Node<K, V>,
                         items: seq<Node<K, V>>)
    requires Linked(r, index, nextId) && last.key !in index && last.id < nextId
    requires items != [] && items[|items| - 1] == last
    requires forall i :: 0 <= i < |items| - 1 ==> items[i].id != last.id
    requires forall n :: n in r ==> n in items[..|items| - 1]
    ensures Linked(r + [last], index[last.key := last.id], nextId)
  {
    var r' := r + [last];
    forall k | k in index[last.key := last.id]
      ensures HasKey(r', k)
    {
      if k == last.key {
        assert r'[|r|].key == k;
      } else {
        var i :| 0 <= i < |r| && r[i].key == k;
        assert r'[i].key == k;
      }
    }
    assert forall i :: 0 <= i < |r| ==> r[i] in r;
  }

  lemma PopLinked<K(!new), V>(items: seq<Node<K, V>>, index: map<K, nat>, nextId: nat)
    requires Linked(items, index, nextId) && items != []
    ensures Linked(items[..|items| - 1], index - {items[|items| - 1].key}, nextId)
  {
    var n := |items| - 1;
    forall k | k in index - {items[n].key}
      ensures HasKey(items[..n], k)
    {
      var i :| 0 <= i < |items| && items[i].key == k;
      assert items[..n][i].key == k;
    }
  }

  lemma PushFrontLinked<K(!new), V>(r: seq<Node<K, V>>, index: map<K, nat>, nextId: nat, front: Node<K, V>)
    requires Linked(r, index, nextId) && front.key !in index && front.id < nextId
    requires forall i :: 0 <= i < |r| ==> r[i].id != front.id
    ensures Linked([front] + r, index[front.key := front.id], nextId)
  {
    var r' := [front] + r;
    forall k | k in index[front.key := front.id]
      ensures HasKey(r', k)
    {
      if k == front.key {
        assert r'[0].key == k;
      } else {
        var i :| 0 <= i < |r| && r[i].key == k;
        assert r'[i + 1].key == k;
      }
    }
  }

  /** Moving node i to the front, perhaps with a new value. */
  lemma MoveFront<K(!new), V>(items: seq<Node<K, V>>, index: map<K, nat>, nextId: nat, i: nat, v: V)
    requires Linked(items, index, nextId) && i < |items|
    ensures var items' := [items[i].(value := v)] + items[..i] + items[i + 1..];
            items' == [items[i].(value := v)] + Others(items, items[i].key) && Linked(items', index, nextId)
  {
    hide Others, Linked;
    var key, front := items[i].key, items[i].(value := v);
    LinkedFacts(items, index, nextId);
    OthersAt(items, i);
    var r := items[..i] + items[i + 1..];
    assert [front] + items[..i] + items[i + 1..] == [front] + r;
    OthersLinked(items, index, nextId, key);
    PushFrontLinked(r, index - {key}, nextId, front);
    assert (index - {key})[key := front.id] == index;
  }

  lemma FrontKeys<K, V>(front: Node<K, V>, items: seq<Node<K, V>>)
    ensures KeysOf([front] + Others(items, front.key)) == [front.key] + Without(KeysOf(items), front.key)
  {
    hide Others, Without;
    OthersKeys(items, front.key);
  }

  /** A new node at the front, and the oldest dropped if that is one too many. */
  lemma InsertFront<K(!new), V>(items: seq<Node<K, V>>, index: map<K, nat>, nextId: nat, key: K, value: V,
                      capacity: nat)
    requires Linked(items, index, nextId) && key !in index && |items| <= capacity
    ensures var items1 := [Node(nextId, key, value)] + items;
            var index1 := index[key := nextId];
            if |items1| > capacity
            then Linked(items1[..|items1| - 1], index1 - {items1[|items1| - 1].key}, nextId + 1)
            else Linked(items1, index1, nextId + 1)
  {
    hide Linked;
    LinkedFacts(items, index, nextId);
    var front := Node(nextId, key, value);
    LinkedGrows(items, index, nextId);
    PushFrontLinked(items, index, nextId + 1, front);
    PopLinked([front] + items, index[key := nextId], nextId + 1);
  }

  lemma LinkedFacts<K(!new), V>(items: seq<Node<K, V>>, index: map<K, nat>, nextId: nat)
    requires Linked(items, index, nextId)
    ensures forall i, j :: 0 <= i < j < |items| ==> items[i].key != items[j].key && items[i].id != items[j].id
    ensures forall i :: 0 <= i < |items| ==> items[i].key in index && index[items[i].key] == items[i].id < nextId
    ensures forall k :: k in index ==> exists i :: 0 <= i < |items| && items[i].id == index[k] && items[i].key == k
    ensures forall k :: k in index <==> HasKey(items, k)
  {
    forall k | k in index
      ensures exists i :: 0 <= i < |items| && items[i].id == index[k] && items[i].key == k
    {
      assert HasKey(items, k);
      var i :| 0 <= i < |items| && items[i].key == k;
    }
  }

  class Cache<K(==,!new), V> {
    const capacity: nat
    var items: seq<Node<K, V>>      // front = most recently used
    var index: map<K, nat>          // key -> the node holding it
    var nextId: nat
    ghost var touches: seq<K>       // every put and every get that hit, in order
    ghost var erased: bool          // whether erase was ever called

    /** List and index name the same keys, each once, within capacity; and as long as nothing
        was erased, the list is the `capacity` most recently touched distinct keys. */
    ghost predicate Valid()
      reads this
    {
      && |items| <= capacity
      && Linked(items, index, nextId)
      && (!erased ==> KeysOf(items) == Take(Recent(touches), capacity))
    }

    constructor (capacity: nat)
      ensures Valid() && items == [] && this.capacity == capacity && touches == [] && !erased
    {
      this.capacity := capacity;
      items, index, nextId := [], map[], 0;
      touches, erased := [], false;
    }

    method Get(key: K) returns (r: Lookup<V>)
      requires Valid()
      modifies this
      ensures Valid() && erased == old(erased)
      ensures r.Hit? <==> HasKey(old(items), key)
      ensures r.Miss? ==> items == old(items) && touches == old(touches)
      ensures r.Hit? ==> touches == old(touches) + [key]
      ensures r.Hit? ==> exists n :: n in old(items) && n.key == key && n.value == r.value
                                  && items == [n] + Others(old(items), key)
    {
      hide Linked, Others, Without, Recent, PlaceOf, HasKey;
      KnownKey(items, index, nextId, key);
      if key !in index {
        return Miss;
      }
      NodeOf(items, index, nextId, key);
      var i := PlaceOf(items, index[key]);
      NodeKey(items, index, nextId, i, key);
      var n := items[i];
      MoveFront(items, index, nextId, i, n.value);
      FrontKeys(n, items);
      items := [n] + items[..i] + items[i + 1..];
      Touch(key);
      return Hit(n.value);
    }

    /** Bookkeeping of the reference history. */
    ghost method Touch(key: K)
      requires |items| <= capacity && Linked(items, index, nextId)
      requires exists before ::
        (!erased ==> before == Take(Recent(touches), capacity))
          && KeysOf(items) == Take([key] + Without(before, key), capacity)
      modifies this`touches
      ensures Valid() && touches == old(touches) + [key]
    {
      hide Linked, Without;
      RecentDistinct(touches);
      TouchBounded(Recent(touches), capacity, key);
      touches := touches + [key];
      assert touches[..|touches| - 1] == old(touches);
    }

    method Put(key: K, value: V)
      requires Valid()
      modifies this
      ensures Valid() && erased == old(erased) && touches == old(touches) + [key]
      ensures exists id :: items == Take([Node(id, key, value)] + Others(old(items), key), capacity)
    {
      hide Linked, Others, Without, Recent, PlaceOf;
      if key in index {
        NodeOf(items, index, nextId, key);
        var i := PlaceOf(items, index[key]);
        NodeKey(items, index, nextId, i, key);
        var n := items[i].(value := value);
        MoveFront(items, index, nextId, i, value);
        FrontKeys(n, items);
        items := [n] + items[..i] + items[i + 1..];
        Touch(key);
        assert items == Take([Node(n.id, key, value)] + Others(old(items), key), capacity);
      } else {
        Insert(key, value);
      }
    }

    method Insert(key: K, value: V)
      requires Valid() && key !in index
      modifies this
      ensures Valid() && erased == old(erased) && touches == old(touches) + [key]
      ensures items == Take([Node(old(nextId), key, value)] + Others(old(items), key), capacity)
    {
      hide Linked, Others, Without, Recent;
      AbsentKey(items, index, nextId, key);
      OthersAbsent(items, key);
      var front := Node(nextId, key, value);
      FrontKeys(front, items);
      InsertFront(items, index, nextId, key, value, capacity);
      items, index, nextId := [front] + items, index[key := nextId], nextId + 1;
      ghost var all := items;
      if |items| > capacity {
        index := index - {items[|items| - 1].key};
        items := items[..|items| - 1];
      }
      KeysTaken(all, items, capacity);
      Touch(key);
    }

    method Erase(key: K)
      requires Valid()
      modifies this
      ensures Valid() && items == Others(old(items), key)
      ensures touches == old(touches)
    {
      hide Linked, Others, Recent, PlaceOf;
      erased := true;
      OthersLinked(items, index, nextId, key);
      if key !in index {
        AbsentKey(items, index, nextId, key);
        OthersAbsent(items, key);
        return;
      }
      NodeOf(items, index, nextId, key);
      var i := PlaceOf(items, index[key]);
      TakeOut(items, index, nextId, i, key);
      items := items[..i] + items[i + 1..];
      index := index - {key};
    }
  }

  lemma AbsentKey<K(!new), V>(items: seq<Node<K, V>>, index: map<K, nat>, nextId: nat, key: K)
    requires Linked(items, index, nextId) && key !in index
    ensures forall i :: 0 <= i < |items| ==> items[i].key != key
  {
    hide HasKey;
  }

  lemma NodeOf<K(!new), V>(items: seq<Node<K, V>>, index: map<K, nat>, nextId: nat, key: K)
    requires Linked(items, index, nextId) && key in index
    ensures exists i :: 0 <= i < |items| && items[i].id == index[key]
  {
    var i :| 0 <= i < |items| && items[i].key == key;
  }

  lemma KnownKey<K(!new), V>(items: seq<Node<K, V>>, index: map<K, nat>, nextId: nat, key: K)
    requires Linked(items, index, nextId)
    ensures key in index <==> HasKey(items, key)
  {
  }

  lemma NodeKey<K(!new), V>(items: seq<Node<K, V>>, index: map<K, nat>, nextId: nat, i: nat, key: K)
    requires Linked(items, index, nextId) && key in index && i < |items| && items[i].id == index[key]
    ensures items[i].key == key
  {
    var j :| 0 <= j < |items| && items[j].key == key;
    assert items[j].id == items[i].id;
  }

  lemma TakeOut<K(!new), V>(items: seq<Node<K, V>>, index: map<K, nat>, nextId: nat, i: nat, key: K)
    requires Linked(items, index, nextId) && key in index && i < |items| && items[i].id == index[key]
    ensures Others(items, key) == items[..i] + items[i + 1..]
  {
    hide Others, Linked;
    LinkedFacts(items, index, nextId);
    OthersAt(items, i);
  }

  lemma KeysTaken<K, V>(all: seq<Node<K, V>>, items: seq<Node<K, V>>, n: nat)
    requires items == Take(all, n)
    ensures KeysOf(items) == Take(KeysOf(all), n)
  {
  }

  lemma LinkedGrows<K(!new), V>(items: seq<Node<K, V>>, index: map<K, nat>, nextId: nat)
    requires Linked(items, index, nextId)
    ensures Linked(items, index, nextId + 1)
  {
    hide HasKey;
  }
}
