/**
 Shared vocabulary of the model: identifiers, timestamps, the optional value
 that stands for JavaScript's `undefined`, and order-preserving filtering of
 sequences (the `Array.prototype.filter` every store and report uses).
 */
module Common {

  /** Record identifiers are generated UUIDs, so an identifier is never empty. */
  type Id = s: string | s != "" witness "id"

  /** An instant (an ISO-8601 string in the source) as an integer timestamp. */
  type Timestamp = int

  /** A value that may be absent (`undefined` in the source). */
  datatype Option<+T> = None | Some(value: T) {

    /** The carried value, or `default` when absent (the `??` operator). */
    function GetOr(default: T): T {
      match this
      case Some(v) => v
      case None => default
    }

    /** This value when present, otherwise `other` (a spread that keeps unsupplied fields). */
    function Or(other: Option<T>): Option<T> {
      if Some? then this else other
    }
  }

  /** After a partial update, a field holds the supplied value, or its old value when none was supplied. */
  ghost predicate Overlaid<T>(supplied: Option<T>, was: T, now: T) {
    match supplied
    case Some(v) => now == v
    case None => now == was
  }

  /** The same for an optional field: a supplied value is stored as present. */
  ghost predicate OverlaidOptional<T>(supplied: Option<T>, was: Option<T>, now: Option<T>) {
    match supplied
    case Some(v) => now == Some(v)
    case None => now == was
  }

  /** A repository state after an operation, with the value the operation returns. */
  datatype Step<S, R> = Step(repo: S, result: R)

  /** No element occurs twice. */
  ghost predicate NoDup<T>(xs: seq<T>) {
    forall i, j :: 0 <= i < j < |xs| ==> xs[i] != xs[j]
  }

  /** The elements of `xs` that satisfy `keep`, in their original order. */
  function Filter<T>(xs: seq<T>, keep: T -> bool): (r: seq<T>)
    ensures |r| <= |xs|
    ensures forall i :: 0 <= i < |r| ==> keep(r[i])
  {
    if |xs| == 0 then []
    else (if keep(xs[0]) then [xs[0]] else []) + Filter(xs[1..], keep)
  }

  /** Filtering keeps exactly the elements that satisfy the predicate. */
  lemma {:induction false} FilterMembers<T>(xs: seq<T>, keep: T -> bool)
    ensures forall i :: 0 <= i < |Filter(xs, keep)| ==> Filter(xs, keep)[i] in xs
    ensures forall i :: 0 <= i < |xs| && keep(xs[i]) ==> xs[i] in Filter(xs, keep)
  {
    if |xs| > 0 {
      FilterMembers(xs[1..], keep);
      assert forall i :: 1 <= i < |xs| ==> xs[1..][i - 1] == xs[i];
    }
  }

  /** How many elements of `xs` satisfy `keep`. */
  function Count<T>(xs: seq<T>, keep: T -> bool): nat {
    |Filter(xs, keep)|
  }

  /** The predicate "the key of the element is `k`". */
  function KeyIs<T, K(==)>(key: T -> K, k: K): T -> bool {
    x => key(x) == k
  }

  /** The predicate "the key of the element is not `k`". */
  function KeyIsNot<T, K(==)>(key: T -> K, k: K): T -> bool {
    x => key(x) != k
  }

  /** The first element that satisfies `keep` (`Array.prototype.find`). */
  function Find<T>(xs: seq<T>, keep: T -> bool): (r: Option<T>)
    ensures r.None? <==> forall i :: 0 <= i < |xs| ==> !keep(xs[i])
    ensures r.Some? ==> exists i :: 0 <= i < |xs| && xs[i] == r.value && keep(xs[i]) && forall j :: 0 <= j < i ==> !keep(xs[j])
  {
    if |xs| == 0 then None
    else if keep(xs[0]) then Some(xs[0])
    else
      var r := Find(xs[1..], keep);
      assert forall i :: 1 <= i < |xs| ==> xs[1..][i - 1] == xs[i];
      assert r.Some? ==> exists i :: 0 <= i < |xs| && xs[i] == r.value && keep(xs[i]) && forall j :: 0 <= j < i ==> !keep(xs[j]) by {
        if r.Some? {
          var i :| 0 <= i < |xs[1..]| && xs[1..][i] == r.value && keep(xs[1..][i]) && forall j :: 0 <= j < i ==> !keep(xs[1..][j]);
          assert xs[i + 1] == r.value;
          forall j | 0 <= j < i + 1 ensures !keep(xs[j]) {
            if j > 0 {
              assert xs[j] == xs[1..][j - 1];
            }
          }
        }
      }
      r
  }

  /** The predicate "differs from `x`". */
  function Other<T(==)>(x: T): T -> bool {
    y => y != x
  }

  /** A sequence that extends `before + [e]` extends `before`, and its part after `before` starts with `e`. */
  lemma ExtendsPastOne<T>(before: seq<T>, e: T, after: seq<T>)
    requires |after| > |before|
    requires after[..|before| + 1] == before + [e]
    ensures after[..|before|] == before
    ensures after[|before|..] == [e] + after[|before| + 1..]
  {
    assert after[..|before|] == after[..|before| + 1][..|before|];
    assert after[|before|] == after[..|before| + 1][|before|];
  }

  /** Filtering distributes over concatenation. */
  lemma {:induction false} FilterConcat<T>(a: seq<T>, b: seq<T>, keep: T -> bool)
    ensures Filter(a + b, keep) == Filter(a, keep) + Filter(b, keep)
  {
    if |a| == 0 {
      assert a + b == b;
    } else {
      assert (a + b)[1..] == a[1..] + b;
      FilterConcat(a[1..], b, keep);
    }
  }

  /** Filtering keeps every element exactly when every element satisfies the predicate. */
  lemma {:induction false} FilterKeepsAll<T>(xs: seq<T>, keep: T -> bool)
    ensures Filter(xs, keep) == xs <==> forall i :: 0 <= i < |xs| ==> keep(xs[i])
    ensures |Filter(xs, keep)| == |xs| <==> forall i :: 0 <= i < |xs| ==> keep(xs[i])
  {
    if |xs| > 0 {
      FilterKeepsAll(xs[1..], keep);
      if keep(xs[0]) {
        assert forall i :: 1 <= i < |xs| ==> xs[1..][i - 1] == xs[i];
      } else {
        assert |Filter(xs, keep)| < |xs|;
      }
    }
  }

  /** Filtering keeps nothing exactly when no element satisfies the predicate. */
  lemma {:induction false} FilterNone<T>(xs: seq<T>, keep: T -> bool)
    ensures Filter(xs, keep) == [] <==> forall i :: 0 <= i < |xs| ==> !keep(xs[i])
  {
    if |xs| > 0 {
      FilterNone(xs[1..], keep);
      assert forall i :: 1 <= i < |xs| ==> xs[1..][i - 1] == xs[i];
    }
  }

  /** Filtering with a predicate implied by a second one, then by the second, is filtering by the second. */
  lemma {:induction false} FilterNarrow<T>(xs: seq<T>, wide: T -> bool, narrow: T -> bool)
    requires forall x :: x in xs && narrow(x) ==> wide(x)
    ensures Filter(Filter(xs, wide), narrow) == Filter(xs, narrow)
  {
    if |xs| > 0 {
      assert forall x :: x in xs[1..] ==> x in xs;
      FilterNarrow(xs[1..], wide, narrow);
      FilterConcat(if wide(xs[0]) then [xs[0]] else [], Filter(xs[1..], wide), narrow);
    }
  }

  /**
   Dropping every element with key `k` leaves none with that key and keeps,
   in order, all elements with any other key (a cascading delete).
   */
  lemma DroppingKey<T, K>(xs: seq<T>, key: T -> K, k: K)
    ensures Filter(Filter(xs, KeyIsNot(key, k)), KeyIs(key, k)) == []
    ensures forall j :: j != k ==> Filter(Filter(xs, KeyIsNot(key, k)), KeyIs(key, j)) == Filter(xs, KeyIs(key, j))
  {
    FilterNone(Filter(xs, KeyIsNot(key, k)), KeyIs(key, k));
    forall j | j != k ensures Filter(Filter(xs, KeyIsNot(key, k)), KeyIs(key, j)) == Filter(xs, KeyIs(key, j)) {
      FilterNarrow(xs, KeyIsNot(key, k), KeyIs(key, j));
    }
  }

  /** Two predicates no element satisfies together count at most the whole sequence. */
  lemma {:induction false} CountDisjoint<T>(xs: seq<T>, p: T -> bool, q: T -> bool)
    requires forall x :: x in xs ==> !(p(x) && q(x))
    ensures Count(xs, p) + Count(xs, q) <= |xs|
  {
    if |xs| > 0 {
      assert forall x :: x in xs[1..] ==> x in xs;
      CountDisjoint(xs[1..], p, q);
    }
  }

  /** Filtering a sequence without duplicates gives a sequence without duplicates. */
  lemma {:induction false} FilterKeepsNoDup<T>(xs: seq<T>, keep: T -> bool)
    ensures NoDup(xs) ==> NoDup(Filter(xs, keep))
  {
    if |xs| > 0 && NoDup(xs) {
      var rest := xs[1..];
      NoDupTail(xs);
      FilterKeepsNoDup(rest, keep);
      FilterMembers(rest, keep);
      var f := Filter(rest, keep);
      forall j | 0 <= j < |f| ensures f[j] != xs[0] {
        var k :| 0 <= k < |rest| && rest[k] == f[j];
        assert rest[k] == xs[k + 1];
      }
    }
  }

  /** Removing a value that does not occur changes nothing. */
  lemma {:induction false} FilterOtherAbsent<T>(ys: seq<T>, x: T)
    requires x !in ys
    ensures Filter(ys, Other(x)) == ys
  {
    assert forall i :: 0 <= i < |ys| ==> Other(x)(ys[i]);
    FilterKeepsAll(ys, Other(x));
  }

  /** Removing an element that occurs exactly once cuts it out and keeps the rest in order. */
  lemma {:induction false} FilterOtherCutsOut<T>(xs: seq<T>, k: nat)
    requires k < |xs|
    requires NoDup(xs)
    ensures Filter(xs, Other(xs[k])) == xs[..k] + xs[k + 1..]
  {
    var x, pre, post := xs[k], xs[..k], xs[k + 1..];
    var keep := Other(x);
    assert xs == pre + [x] + post;
    assert x !in pre by {
      forall i | 0 <= i < |pre| ensures pre[i] != x {
        assert pre[i] == xs[i];
      }
    }
    assert x !in post by {
      forall i | 0 <= i < |post| ensures post[i] != x {
        assert post[i] == xs[k + 1 + i];
      }
    }
    FilterOtherAbsent(pre, x);
    FilterOtherAbsent(post, x);
    assert Filter([x], keep) == [] by {
      assert [x][1..] == [];
    }
    FilterConcat(pre + [x], post, keep);
    FilterConcat(pre, [x], keep);
  }

  /** The tail of a sequence without duplicates has no duplicates and does not hold the head. */
  lemma NoDupTail<T>(xs: seq<T>)
    requires NoDup(xs)
    requires |xs| > 0
    ensures NoDup(xs[1..])
    ensures xs[0] !in xs[1..]
  {
    var rest := xs[1..];
    forall i, j | 0 <= i < j < |rest| ensures rest[i] != rest[j] {
      assert rest[i] == xs[i + 1] && rest[j] == xs[j + 1];
    }
    forall j | 0 <= j < |rest| ensures rest[j] != xs[0] {
      assert rest[j] == xs[j + 1];
    }
  }

  /** Two sequences without duplicates and without a common element concatenate to one without duplicates. */
  lemma NoDupConcat<T>(a: seq<T>, b: seq<T>)
    requires NoDup(a) && NoDup(b)
    requires forall x :: x in a ==> x !in b
    ensures NoDup(a + b)
  {
    var ab := a + b;
    forall i, j | 0 <= i < j < |ab| ensures ab[i] != ab[j] {
      if j < |a| {
        assert ab[i] == a[i] && ab[j] == a[j];
      } else if i < |a| {
        assert ab[i] == a[i] && ab[j] == b[j - |a|];
        assert a[i] in a && b[j - |a|] in b;
      } else {
        assert ab[i] == b[i - |a|] && ab[j] == b[j - |a|];
      }
    }
  }

  /** A sequence without duplicates has as many distinct elements as it is long. */
  lemma {:induction false} NoDupCard<T>(xs: seq<T>)
    requires NoDup(xs)
    ensures |set x | x in xs| == |xs|
  {
    if |xs| > 0 {
      var rest := xs[1..];
      NoDupTail(xs);
      NoDupCard(rest);
      assert xs == [xs[0]] + rest;
      assert (set x | x in xs) == {xs[0]} + (set x | x in rest);
    }
  }
}
