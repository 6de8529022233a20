/**
 The storage shape shared by every in-memory repository: a map from id to
 record plus the list of ids in creation order. `list` walks the order and
 looks each id up, `create` appends, `update` replaces in place and `delete`
 drops the id from both the map and the order.
 */
module Stores {
  import opened Common

  datatype Store<T> = Store(items: map<Id, T>, order: seq<Id>)

  /** The store invariant: `order` lists every stored id exactly once. */
  ghost predicate Valid<T>(s: Store<T>) {
    && NoDup(s.order)
    && (forall i :: 0 <= i < |s.order| ==> s.order[i] in s.items)
    && (forall id :: id in s.items ==> id in s.order)
  }

  /** A repository as constructed: nothing stored. */
  function Empty<T>(): (s: Store<T>)
    ensures Valid(s)
    ensures List(s) == []
  {
    Store(map[], [])
  }

  /** The records under `order`, skipping ids that have no record (`map(get).filter(Boolean)`). */
  function Values<T>(items: map<Id, T>, order: seq<Id>): (r: seq<T>)
    ensures |r| <= |order|
  {
    if |order| == 0 then []
    else (if order[0] in items then [items[order[0]]] else []) + Values(items, order[1..])
  }

  /** All stored records in creation order. */
  function List<T>(s: Store<T>): seq<T> {
    Values(s.items, s.order)
  }

  /** The record stored under `id`, if any. */
  function Get<T>(s: Store<T>, id: Id): Option<T> {
    if id in s.items then Some(s.items[id]) else None
  }

  /** Position of `x` in `xs`. */
  function IndexOf<T(==)>(xs: seq<T>, x: T): (k: nat)
    requires x in xs
    ensures k < |xs| && xs[k] == x
  {
    if xs[0] == x then 0 else 1 + IndexOf(xs[1..], x)
  }

  /** When every listed id has a record, the listing is exactly those records, position by position. */
  lemma {:induction false} ValuesAt<T>(items: map<Id, T>, order: seq<Id>)
    requires forall i :: 0 <= i < |order| ==> order[i] in items
    ensures |Values(items, order)| == |order|
    ensures forall i :: 0 <= i < |order| ==> Values(items, order)[i] == items[order[i]]
  {
    if |order| > 0 {
      ValuesAt(items, order[1..]);
      assert forall i :: 1 <= i < |order| ==> order[1..][i - 1] == order[i];
    }
  }

  /** Listing distributes over a split of the order. */
  lemma {:induction false} ValuesConcat<T>(items: map<Id, T>, a: seq<Id>, b: seq<Id>)
    ensures Values(items, a + b) == Values(items, a) + Values(items, b)
  {
    if |a| == 0 {
      assert a + b == b;
    } else {
      assert (a + b)[0] == a[0];
      assert (a + b)[1..] == a[1..] + b;
      ValuesConcat(items, a[1..], b);
    }
  }

  /** Listing only looks at the records of the listed ids. */
  lemma {:induction false} ValuesAgree<T>(m: map<Id, T>, m': map<Id, T>, order: seq<Id>)
    requires forall i :: 0 <= i < |order| ==> (order[i] in m <==> order[i] in m')
    requires forall i :: 0 <= i < |order| && order[i] in m ==> m[order[i]] == m'[order[i]]
    ensures Values(m, order) == Values(m', order)
  {
    if |order| > 0 {
      assert forall i :: 1 <= i < |order| ==> order[1..][i - 1] == order[i];
      ValuesAgree(m, m', order[1..]);
    }
  }

  /** Stores `v` under a fresh `id` and appends `id` to the order. */
  function Insert<T>(s: Store<T>, id: Id, v: T): (r: Store<T>)
    requires id !in s.items
    ensures Valid(s) ==> Valid(r) && List(r) == List(s) + [v]
    ensures Get(r, id) == Some(v)
    ensures forall k :: k != id ==> Get(r, k) == Get(s, k)
  {
    InsertAppends(s, id, v);
    Store(s.items[id := v], s.order + [id])
  }

  lemma InsertAppends<T>(s: Store<T>, id: Id, v: T)
    requires id !in s.items
    ensures var r := Store(s.items[id := v], s.order + [id]);
      Valid(s) ==> Valid(r) && List(r) == List(s) + [v]
  {
    if Valid(s) {
      var m := s.items[id := v];
      assert id !in s.order;
      ValuesConcat(m, s.order, [id]);
      ValuesAgree(s.items, m, s.order);
      assert Values(m, [id]) == [v];
    }
  }

  /** Replaces the record under an existing `id`; the order is untouched. */
  function Put<T>(s: Store<T>, id: Id, v: T): (r: Store<T>)
    requires id in s.items
    ensures r.order == s.order
    ensures Valid(s) ==> Valid(r)
    ensures Get(r, id) == Some(v)
    ensures forall k :: k != id ==> Get(r, k) == Get(s, k)
  {
    Store(s.items[id := v], s.order)
  }

  /** Replacing a record keeps the list's length and changes only the replaced position. */
  lemma PutReplacesInList<T>(s: Store<T>, id: Id, v: T)
    requires Valid(s)
    requires id in s.items
    ensures |List(Put(s, id, v))| == |List(s)|
    ensures forall i :: 0 <= i < |List(s)| ==>
      List(Put(s, id, v))[i] == if s.order[i] == id then v else List(s)[i]
  {
    ValuesAt(s.items, s.order);
    ValuesAt(s.items[id := v], s.order);
  }

  /** Drops `id` from the map and from the order. */
  function Remove<T>(s: Store<T>, id: Id): (r: Store<T>)
    ensures r.order == Filter(s.order, Other(id))
    ensures Valid(s) ==> Valid(r)
    ensures Get(r, id) == None
    ensures forall k :: k != id ==> Get(r, k) == Get(s, k)
  {
    RemoveKeepsValid(s, id);
    Store(s.items - {id}, Filter(s.order, Other(id)))
  }

  lemma RemoveKeepsValid<T>(s: Store<T>, id: Id)
    ensures Valid(s) ==> Valid(Store(s.items - {id}, Filter(s.order, Other(id))))
  {
    if Valid(s) {
      var kept := Filter(s.order, Other(id));
      FilterKeepsNoDup(s.order, Other(id));
      FilterMembers(s.order, Other(id));
      forall i | 0 <= i < |kept| ensures kept[i] in s.items - {id} {
        assert Other(id)(kept[i]);
      }
      forall k | k in s.items - {id} ensures k in kept {
        var j := IndexOf(s.order, k);
        assert Other(id)(s.order[j]);
      }
    }
  }

  /** Every stored record is listed. */
  lemma ListHoldsEveryRecord<T>(s: Store<T>)
    requires Valid(s)
    ensures forall id :: id in s.items ==> s.items[id] in List(s)
  {
    ValuesAt(s.items, s.order);
    forall id | id in s.items ensures s.items[id] in List(s) {
      var k := IndexOf(s.order, id);
      assert List(s)[k] == s.items[id];
    }
  }

  /** Every listed record is stored, under the id at the same position of the order. */
  lemma ListHoldsOnlyRecords<T>(s: Store<T>)
    requires Valid(s)
    ensures |List(s)| == |s.order|
    ensures forall i :: 0 <= i < |s.order| ==> s.order[i] in s.items && List(s)[i] == s.items[s.order[i]]
  {
    ValuesAt(s.items, s.order);
  }

  /** A stored record is listed at the position of its id in the order. */
  lemma ListedAt<T>(s: Store<T>, id: Id)
    requires Valid(s)
    requires id in s.items
    ensures IndexOf(s.order, id) < |List(s)|
    ensures List(s)[IndexOf(s.order, id)] == s.items[id]
  {
    ValuesAt(s.items, s.order);
  }

  /** In a valid store the first listed record is the one under the first id of the order. */
  lemma FirstListed<T>(s: Store<T>)
    requires |s.order| > 0
    ensures Valid(s) ==> |List(s)| > 0 && List(s)[0] == s.items[s.order[0]]
  {
    if Valid(s) {
      ListHoldsOnlyRecords(s);
    }
  }

  /** Listing with one id cut out of the order lists the same records with that one cut out. */
  lemma ValuesCut<T>(items: map<Id, T>, pre: seq<Id>, id: Id, post: seq<Id>)
    requires id in items && id !in pre && id !in post
    requires forall i :: 0 <= i < |pre| ==> pre[i] in items
    ensures var l := Values(items, pre + [id] + post);
      |pre| < |l| && Values(items - {id}, pre + post) == l[..|pre|] + l[|pre| + 1..]
  {
    var m := items - {id};
    ValuesConcat(m, pre, post);
    ValuesAgree(items, m, pre);
    ValuesAgree(items, m, post);
    ValuesConcat(items, pre + [id], post);
    ValuesConcat(items, pre, [id]);
    ValuesAt(items, pre);
    var a, b := Values(items, pre), Values(items, post);
    assert Values(items, [id]) == [items[id]];
    var l := Values(items, pre + [id] + post);
    assert l == a + [items[id]] + b;
    assert l[..|pre|] == a;
    assert l[|pre| + 1..] == b;
  }

  /** An element of a duplicate-free sequence occurs neither before nor after its own position. */
  lemma NoDupSplit<T>(xs: seq<T>, k: nat)
    requires NoDup(xs)
    requires k < |xs|
    ensures xs[k] !in xs[..k] && xs[k] !in xs[k + 1..]
  {
    var pre, post := xs[..k], xs[k + 1..];
    forall i | 0 <= i < |pre| ensures pre[i] != xs[k] {
      assert pre[i] == xs[i];
    }
    forall i | 0 <= i < |post| ensures post[i] != xs[k] {
      assert post[i] == xs[k + 1 + i];
    }
  }

  /** Deleting an id cuts exactly its record out of the list; the others keep their relative order. */
  lemma RemoveCutsOutOfList<T>(s: Store<T>, id: Id)
    requires Valid(s)
    requires id in s.items
    ensures IndexOf(s.order, id) < |List(s)|
    ensures var k := IndexOf(s.order, id);
      List(Remove(s, id)) == List(s)[..k] + List(s)[k + 1..]
  {
    var k := IndexOf(s.order, id);
    RemovedAt(s.items, s.order, k);
  }

  /** Dropping the id at position `k` from map and order lists the same records with position `k` cut out. */
  lemma RemovedAt<T>(items: map<Id, T>, order: seq<Id>, k: nat)
    requires NoDup(order)
    requires k < |order|
    requires forall i :: 0 <= i < |order| ==> order[i] in items
    ensures k < |Values(items, order)|
    ensures Values(items - {order[k]}, Filter(order, Other(order[k]))) ==
      Values(items, order)[..k] + Values(items, order)[k + 1..]
  {
    FilterOtherCutsOut(order, k);
    NoDupSplit(order, k);
    CutAt(items, order, k);
  }

  /** Listing with the id at position `k` cut out of the order and its record dropped. */
  lemma CutAt<T>(items: map<Id, T>, order: seq<Id>, k: nat)
    requires k < |order|
    requires order[k] in items
    requires order[k] !in order[..k] && order[k] !in order[k + 1..]
    requires forall i :: 0 <= i < k ==> order[i] in items
    ensures k < |Values(items, order)|
    ensures Values(items - {order[k]}, order[..k] + order[k + 1..]) ==
      Values(items, order)[..k] + Values(items, order)[k + 1..]
  {
    var pre, post := order[..k], order[k + 1..];
    assert order == pre + [order[k]] + post;
    assert forall i :: 0 <= i < |pre| ==> pre[i] == order[i];
    ValuesCut(items, pre, order[k], post);
  }
}
