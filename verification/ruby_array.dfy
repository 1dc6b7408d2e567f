/** The parts of Ruby's core Array behaviour that the presenters rely on:
    nil as `Option`, `Array#[]` with an Integer index, `flatten`, `uniq`
    (with and without a block), `Array#-` and the order-keeping
    subsequence relation that `select`, `uniq` and `combination` produce. */
module RubyArray {

  /** Ruby's `nil` or a value. */
  datatype Option<+T> = None | Some(value: T)

  /** `a[i]` for an Integer `i`: negative indices count from the end and
      an index outside the array yields nil instead of raising. */
  function At<T>(a: seq<T>, i: int): (r: Option<T>)
    ensures r.Some? <==> -|a| <= i < |a|
    ensures 0 <= i < |a| ==> r == Some(a[i])
    ensures -|a| <= i < 0 ==> r == Some(a[|a| + i])
    ensures r.Some? ==> r.value in a
  {
    if 0 <= i < |a| then Some(a[i])
    else if -|a| <= i < 0 then Some(a[|a| + i])
    else None
  }

  /** No element occurs twice. */
  predicate Distinct<T(==,!new)>(s: seq<T>) {
    forall i, j :: 0 <= i < j < |s| ==> s[i] != s[j]
  }

  /** A list without repeats has as many elements as it has distinct values. */
  lemma {:induction false} DistinctCard<T(!new)>(s: seq<T>)
    requires Distinct(s)
    ensures |set x | x in s| == |s|
    decreases |s|
  {
    if |s| > 0 {
      DistinctCard(s[1..]);
      assert (set x | x in s) == {s[0]} + (set x | x in s[1..]);
      assert s[0] !in s[1..];
    }
  }

  /** `c` is `s` with some elements deleted and the rest kept in order. */
  predicate IsSubseq<T(==,!new)>(c: seq<T>, s: seq<T>)
    decreases |s|
  {
    if |c| == 0 then true
    else if |s| == 0 then false
    else (c[0] == s[0] && IsSubseq(c[1..], s[1..])) || IsSubseq(c, s[1..])
  }

  lemma {:induction false} SubseqElements<T(!new)>(c: seq<T>, s: seq<T>)
    requires IsSubseq(c, s)
    ensures forall x :: x in c ==> x in s
    decreases |s|
  {
    if |c| == 0 {
    } else if c[0] == s[0] && IsSubseq(c[1..], s[1..]) {
      SubseqElements(c[1..], s[1..]);
      forall x | x in c ensures x in s {
        if x != c[0] {
          assert x in c[1..];
        }
      }
    } else {
      SubseqElements(c, s[1..]);
    }
  }

  lemma {:induction false} SubseqLength<T(!new)>(c: seq<T>, s: seq<T>)
    requires IsSubseq(c, s)
    ensures |c| <= |s|
    decreases |s|
  {
    if |c| == 0 {
    } else if c[0] == s[0] && IsSubseq(c[1..], s[1..]) {
      SubseqLength(c[1..], s[1..]);
    } else {
      SubseqLength(c, s[1..]);
    }
  }

  /** A subsequence of a list without repeats has no repeats. */
  lemma {:induction false} SubseqDistinct<T(!new)>(c: seq<T>, s: seq<T>)
    requires IsSubseq(c, s) && Distinct(s)
    ensures Distinct(c)
    decreases |s|
  {
    if |c| == 0 {
    } else if c[0] == s[0] && IsSubseq(c[1..], s[1..]) {
      SubseqDistinct(c[1..], s[1..]);
      SubseqElements(c[1..], s[1..]);
      forall i, j | 0 <= i < j < |c| ensures c[i] != c[j] {
        if i == 0 {
          assert c[j] in s[1..];
          assert c[j] == c[1..][j - 1];
        } else {
          assert c[i] == c[1..][i - 1] && c[j] == c[1..][j - 1];
        }
      }
    } else {
      SubseqDistinct(c, s[1..]);
    }
  }

  lemma {:induction false} SubseqOfTail<T(!new)>(c: seq<T>, s: seq<T>)
    requires |s| > 0 && IsSubseq(c, s[1..])
    ensures IsSubseq(c, s)
  {
  }

  lemma {:induction false} SubseqCons<T(!new)>(s: seq<T>, d: seq<T>)
    requires |s| > 0 && IsSubseq(d, s[1..])
    ensures IsSubseq([s[0]] + d, s)
  {
    assert ([s[0]] + d)[1..] == d;
  }

  /** Subsequence of a subsequence. */
  lemma {:induction false} SubseqTrans<T(!new)>(a: seq<T>, b: seq<T>, c: seq<T>)
    requires IsSubseq(a, b) && IsSubseq(b, c)
    ensures IsSubseq(a, c)
    decreases |c|
  {
    if |a| > 0 {
      if b[0] == c[0] && IsSubseq(b[1..], c[1..]) {
        if a[0] == b[0] && IsSubseq(a[1..], b[1..]) {
          SubseqTrans(a[1..], b[1..], c[1..]);
        } else {
          SubseqTrans(a, b[1..], c[1..]);
        }
      } else {
        SubseqTrans(a, b, c[1..]);
      }
    }
  }

  /** A single element of `s` is a subsequence of it. */
  lemma {:induction false} SubseqSingleton<T(!new)>(s: seq<T>, j: nat)
    requires j < |s|
    ensures IsSubseq([s[j]], s)
    decreases j
  {
    if j > 0 {
      SubseqSingleton(s[1..], j - 1);
      SubseqOfTail([s[j]], s);
    } else {
      assert [s[0]][1..] == [];
    }
  }

  /** Two elements of `s`, taken in index order, form a subsequence of it. */
  lemma {:induction false} SubseqPair<T(!new)>(s: seq<T>, i: nat, j: nat)
    requires i < j < |s|
    ensures IsSubseq([s[i], s[j]], s)
    decreases i
  {
    if i > 0 {
      SubseqPair(s[1..], i - 1, j - 1);
      SubseqOfTail([s[i], s[j]], s);
    } else {
      SubseqSingleton(s[1..], j - 1);
      SubseqCons(s, [s[j]]);
      assert [s[0]] + [s[j]] == [s[i], s[j]];
    }
  }

  /** A subsequence of a list with strictly increasing keys has strictly
      increasing keys. */
  lemma {:induction false} SubseqIncreasing<T(!new)>(c: seq<T>, s: seq<T>, key: T -> int)
    requires IsSubseq(c, s)
    requires forall i, j :: 0 <= i < j < |s| ==> key(s[i]) < key(s[j])
    ensures forall p, q :: 0 <= p < q < |c| ==> key(c[p]) < key(c[q])
    decreases |s|
  {
    if |c| == 0 {
    } else if c[0] == s[0] && IsSubseq(c[1..], s[1..]) {
      SubseqIncreasing(c[1..], s[1..], key);
      SubseqElements(c[1..], s[1..]);
      forall p, q | 0 <= p < q < |c| ensures key(c[p]) < key(c[q]) {
        assert c[q] == c[1..][q - 1];
        if p == 0 {
          assert c[q] in s[1..];
          var j :| 0 <= j < |s[1..]| && s[1..][j] == c[q];
          assert s[j + 1] == c[q];
        } else {
          assert c[p] == c[1..][p - 1];
        }
      }
    } else {
      SubseqIncreasing(c, s[1..], key);
    }
  }

  /** `Array#flatten` applied to a list of lists (one level). */
  function Flatten<T(==,!new)>(ss: seq<seq<T>>): (r: seq<T>)
    ensures forall x :: x in r <==> exists i :: 0 <= i < |ss| && x in ss[i]
  {
    if |ss| == 0 then []
    else
      var rest := Flatten(ss[1..]);
      assert forall i :: 0 <= i < |ss| - 1 ==> ss[1..][i] == ss[i + 1];
      ss[0] + rest
  }

  /** Total length of a list of lists. */
  function TotalLength<T>(ss: seq<seq<T>>): nat {
    if |ss| == 0 then 0 else |ss[0]| + TotalLength(ss[1..])
  }

  /** Flattening one list more appends it. */
  lemma {:induction false} FlattenSnoc<T(!new)>(ss: seq<seq<T>>, t: seq<T>)
    ensures Flatten(ss + [t]) == Flatten(ss) + t
    ensures TotalLength(ss + [t]) == TotalLength(ss) + |t|
    decreases |ss|
  {
    if |ss| == 0 {
      assert ss + [t] == [t];
      assert [t][1..] == [];
    } else {
      assert (ss + [t])[1..] == ss[1..] + [t];
      FlattenSnoc(ss[1..], t);
    }
  }

  /** Flattening keeps every element: the result is as long as all parts together. */
  lemma {:induction false} FlattenLength<T(!new)>(ss: seq<seq<T>>)
    ensures |Flatten(ss)| == TotalLength(ss)
    decreases |ss|
  {
    if |ss| > 0 {
      FlattenLength(ss[1..]);
    }
  }

  /** `s.map { |x| f(x) }`. */
  function Map<A, B>(f: A -> B, s: seq<A>): (r: seq<B>)
    ensures |r| == |s|
    ensures forall i :: 0 <= i < |s| ==> r[i] == f(s[i])
  {
    seq(|s|, i requires 0 <= i < |s| => f(s[i]))
  }

  /** Mapping a list with a first element maps that element first. */
  lemma MapCons<A, B>(f: A -> B, h: A, t: seq<A>)
    ensures Map(f, [h] + t) == [f(h)] + Map(f, t)
  {
  }

  /** The keys `key` assigns to the elements of `s`. */
  function KeysOf<T(==,!new), K(==)>(s: seq<T>, key: T -> K): set<K> {
    set x | x in s :: key(x)
  }

  /** The position of the first element of `s` whose key is `k`. */
  function FirstKeyIndex<T(==,!new), K(==)>(s: seq<T>, key: T -> K, k: K): (r: nat)
    requires k in KeysOf(s, key)
    ensures r < |s| && key(s[r]) == k
    ensures forall j :: 0 <= j < r ==> key(s[j]) != k
  {
    if key(s[0]) == k then 0
    else
      assert k in KeysOf(s[1..], key) by {
        var x :| x in s && key(x) == k;
        assert x != s[0];
        assert x in s[1..];
      }
      var r := 1 + FirstKeyIndex(s[1..], key, k);
      assert forall j :: 0 < j < r ==> s[j] == s[1..][j - 1];
      r
  }

  /** The first element of `s` whose key is `k`. */
  function FirstWithKey<T(==,!new), K(==)>(s: seq<T>, key: T -> K, k: K): (r: T)
    requires k in KeysOf(s, key)
    ensures r in s && key(r) == k
  {
    if key(s[0]) == k then s[0]
    else
      assert k in KeysOf(s[1..], key) by {
        var x :| x in s && key(x) == k;
        assert x != s[0];
        assert x in s[1..];
      }
      FirstWithKey(s[1..], key, k)
  }

  /** The position of the first occurrence of `x` in `s`. */
  function FirstIndex<T(==)>(s: seq<T>, x: T): (r: nat)
    requires x in s
    ensures r < |s| && s[r] == x
    ensures x !in s[..r]
  {
    if s[0] == x then 0
    else
      var r := 1 + FirstIndex(s[1..], x);
      assert s[..r] == [s[0]] + s[1..][..r - 1];
      r
  }

  /** Keying by the element itself, the first key position is the first
      occurrence. */
  lemma {:induction false} FirstIndexByIdentity<T(!new)>(s: seq<T>, id: T -> T, x: T)
    requires forall y :: id(y) == y
    requires x in s
    ensures x in KeysOf(s, id)
    ensures FirstKeyIndex(s, id, x) == FirstIndex(s, x)
    decreases |s|
  {
    assert id(x) == x;
    if s[0] != x {
      assert x in s[1..];
      FirstIndexByIdentity(s[1..], id, x);
    }
  }

  /** The left-to-right scan behind `uniq { |x| key }`: an element is
      kept when no earlier element (nor anything in `seen`) had its key. */
  function UniqFrom<T(==,!new), K(==)>(s: seq<T>, key: T -> K, seen: set<K>): (r: seq<T>)
    ensures IsSubseq(r, s)
    ensures forall i, j :: 0 <= i < j < |r| ==> key(r[i]) != key(r[j])
    ensures forall x :: x in r ==> key(x) !in seen
    ensures KeysOf(r, key) == KeysOf(s, key) - seen
    ensures forall x :: x in r ==> key(x) in KeysOf(s, key) && x == FirstWithKey(s, key, key(x))
  {
    if |s| == 0 then []
    else
      var k := key(s[0]);
      var tailKeys := KeysOf(s[1..], key);
      assert KeysOf(s, key) == {k} + tailKeys by {
        assert forall x :: x in s <==> x == s[0] || x in s[1..];
      }
      if k in seen then
        var r := UniqFrom(s[1..], key, seen);
        SubseqOfTail(r, s);
        r
      else
        var rest := UniqFrom(s[1..], key, seen + {k});
        var r := [s[0]] + rest;
        assert r[1..] == rest;
        assert KeysOf(r, key) == {k} + KeysOf(rest, key) by {
          assert forall x :: x in r <==> x == s[0] || x in rest;
        }
        assert forall i, j :: 0 <= i < j < |r| ==> key(r[i]) != key(r[j]) by {
          forall i, j | 0 <= i < j < |r| ensures key(r[i]) != key(r[j]) {
            assert r[j] == rest[j - 1];
            if i > 0 {
              assert r[i] == rest[i - 1];
            }
          }
        }
        r
  }

  /** Past a first element with another key, key positions shift by one. */
  lemma FirstKeyIndexTail<T(!new), K>(s: seq<T>, key: T -> K, k: K)
    requires |s| > 0 && key(s[0]) != k && k in KeysOf(s[1..], key)
    ensures k in KeysOf(s, key)
    ensures FirstKeyIndex(s, key, k) == 1 + FirstKeyIndex(s[1..], key, k)
  {
    var x :| x in s[1..] && key(x) == k;
    assert x in s;
  }

  /** The keys of `r` occur in `s`, and in `r` they come in the order in
      which they first occur in `s`. */
  predicate KeyOrder<T(==,!new), K(==)>(r: seq<T>, s: seq<T>, key: T -> K) {
    forall i, j :: 0 <= i < j < |r| ==> KeyBefore(s, key, r[i], r[j])
  }

  /** The key of `a` first occurs in `s` before the key of `b` does. */
  predicate KeyBefore<T(==,!new), K(==)>(s: seq<T>, key: T -> K, a: T, b: T) {
    key(a) in KeysOf(s, key) && key(b) in KeysOf(s, key)
    && FirstKeyIndex(s, key, key(a)) < FirstKeyIndex(s, key, key(b))
  }

  /** The scan keeps its elements in the order their keys first occur. */
  lemma {:induction false} UniqFromOrder<T(!new), K>(s: seq<T>, key: T -> K, seen: set<K>)
    ensures KeyOrder(UniqFrom(s, key, seen), s, key)
    decreases |s|
  {
    if |s| > 0 {
      var k := key(s[0]);
      var seen' := if k in seen then seen else seen + {k};
      var rest := UniqFrom(s[1..], key, seen');
      UniqFromOrder(s[1..], key, seen');
      forall x | x in rest ensures key(x) != k && key(x) in KeysOf(s[1..], key) {
        assert key(x) !in seen';
      }
      if k in seen {
        KeyOrderTail(s, key, rest);
      } else {
        KeyOrderCons(s, key, rest);
      }
    }
  }

  /** Key order in the tail of `s` carries over to `s` for lists that avoid
      the key of its first element. */
  lemma KeyOrderTail<T(!new), K>(s: seq<T>, key: T -> K, rest: seq<T>)
    requires |s| > 0 && KeyOrder(rest, s[1..], key)
    requires forall x :: x in rest ==> key(x) != key(s[0]) && key(x) in KeysOf(s[1..], key)
    ensures KeyOrder(rest, s, key)
  {
    forall i, j | 0 <= i < j < |rest| ensures KeyBefore(s, key, rest[i], rest[j]) {
      assert KeyBefore(s[1..], key, rest[i], rest[j]);
      FirstKeyIndexTail(s, key, key(rest[i]));
      FirstKeyIndexTail(s, key, key(rest[j]));
    }
  }

  /** ... and survives putting the first element of `s` in front. */
  lemma KeyOrderCons<T(!new), K>(s: seq<T>, key: T -> K, rest: seq<T>)
    requires |s| > 0 && KeyOrder(rest, s[1..], key)
    requires forall x :: x in rest ==> key(x) != key(s[0]) && key(x) in KeysOf(s[1..], key)
    ensures KeyOrder([s[0]] + rest, s, key)
  {
    var r := [s[0]] + rest;
    KeyOrderTail(s, key, rest);
    assert s[0] in s;
    forall i, j | 0 <= i < j < |r| ensures KeyBefore(s, key, r[i], r[j]) {
      assert r[j] == rest[j - 1];
      if i > 0 {
        assert r[i] == rest[i - 1];
        assert KeyBefore(s, key, rest[i - 1], rest[j - 1]);
      } else {
        FirstKeyIndexTail(s, key, key(r[j]));
      }
    }
  }

  /** `uniq { |x| key }`: the first element of every key, ordered by where
      that key first occurs. */
  function UniqBy<T(==,!new), K(==)>(s: seq<T>, key: T -> K): (r: seq<T>)
    ensures IsSubseq(r, s)
    ensures forall i, j :: 0 <= i < j < |r| ==> key(r[i]) != key(r[j])
    ensures KeysOf(r, key) == KeysOf(s, key)
    ensures forall x :: x in r ==> key(x) in KeysOf(s, key) && x == FirstWithKey(s, key, key(x))
    ensures forall i, j {:trigger FirstKeyIndex(s, key, key(r[i])), FirstKeyIndex(s, key, key(r[j]))} ::
      0 <= i < j < |r| ==> FirstKeyIndex(s, key, key(r[i])) < FirstKeyIndex(s, key, key(r[j]))
  {
    UniqFromOrder(s, key, {});
    UniqFrom(s, key, {})
  }

  /** Plain `uniq`: drops every repeat of an earlier element, keeping the
      rest in the order of their first occurrence. */
  function Uniq<T(==,!new)>(s: seq<T>): (r: seq<T>)
    ensures IsSubseq(r, s)
    ensures Distinct(r)
    ensures forall x :: x in r <==> x in s
    ensures forall i, j {:trigger FirstIndex(s, r[i]), FirstIndex(s, r[j])} ::
      0 <= i < j < |r| ==> FirstIndex(s, r[i]) < FirstIndex(s, r[j])
  {
    var id := (x: T) => x;
    UniqByIdentity(s, id);
    UniqByIdentityOrder(s, id);
    UniqBy(s, id)
  }

  /** `uniq` keyed by the element itself keeps each element once. */
  lemma UniqByIdentity<T(!new)>(s: seq<T>, id: T -> T)
    requires forall y :: id(y) == y
    ensures var r := UniqBy(s, id);
      IsSubseq(r, s) && Distinct(r) && forall x :: x in r <==> x in s
  {
    var r := UniqBy(s, id);
    assert forall x :: x in s ==> x in KeysOf(s, id);
    assert forall x :: x in KeysOf(r, id) ==> x in r;
    SubseqElements(r, s);
  }

  /** `uniq` keyed by the element itself orders the kept elements by their
      first occurrence. */
  lemma UniqByIdentityOrder<T(!new)>(s: seq<T>, id: T -> T)
    requires forall y :: id(y) == y
    ensures var r := UniqBy(s, id);
      forall i, j {:trigger FirstIndex(s, r[i]), FirstIndex(s, r[j])} ::
        0 <= i < j < |r| ==> r[i] in s && r[j] in s && FirstIndex(s, r[i]) < FirstIndex(s, r[j])
  {
    var r := UniqBy(s, id);
    forall i, j | 0 <= i < j < |r| ensures r[i] in s && r[j] in s && FirstIndex(s, r[i]) < FirstIndex(s, r[j]) {
      SubseqElements(r, s);
      FirstIndexByIdentity(s, id, r[i]);
      FirstIndexByIdentity(s, id, r[j]);
    }
  }

  /** `a - b`: the elements of `a` that do not occur in `b`, in order and
      with their repeats. */
  function Difference<T(==,!new)>(a: seq<T>, b: seq<T>): (r: seq<T>)
    ensures IsSubseq(r, a)
    ensures forall x :: x in r <==> x in a && x !in b
    ensures forall x :: multiset(r)[x] == if x in b then 0 else multiset(a)[x]
  {
    if |a| == 0 then []
    else
      var rest := Difference(a[1..], b);
      assert multiset(a) == multiset{a[0]} + multiset(a[1..]) by {
        assert a == [a[0]] + a[1..];
      }
      if a[0] in b then
        SubseqOfTail(rest, a);
        rest
      else
        assert ([a[0]] + rest)[1..] == rest;
        [a[0]] + rest
  }
}
