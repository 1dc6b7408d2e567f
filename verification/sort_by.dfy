/** Ruby's `Enumerable#sort_by` with a real-valued key. Ruby's sort is not
    stable, so the only promise is an ascending permutation of the input. */
module SortBy {
  import opened RubyArray

  /** Keys never decrease along `s`. */
  predicate SortedBy<T>(s: seq<T>, key: T -> real) {
    forall i, j :: 0 <= i < j < |s| ==> key(s[i]) <= key(s[j])
  }

  /** Places `x` in the ascending list `s`. */
  function Insert<T(==)>(x: T, s: seq<T>, key: T -> real): (r: seq<T>)
    requires SortedBy(s, key)
    ensures SortedBy(r, key)
    ensures multiset(r) == multiset(s) + multiset{x}
  {
    if |s| == 0 then [x]
    else if key(x) <= key(s[0]) then
      HeadBelowAll(x, s, key);
      [x] + s
    else
      var rest := Insert(x, s[1..], key);
      assert s == [s[0]] + s[1..];
      assert forall y :: y in rest ==> key(s[0]) <= key(y) by {
        forall y | y in rest ensures key(s[0]) <= key(y) {
          assert y in multiset(rest);
          if y != x {
            assert y in multiset(s[1..]);
            var j :| 0 <= j < |s[1..]| && s[1..][j] == y;
            assert s[j + 1] == y;
          }
        }
      }
      HeadBelowAll(s[0], rest, key);
      [s[0]] + rest
  }

  /** An ascending list stays ascending behind an element no larger than
      any of its own. */
  lemma HeadBelowAll<T>(h: T, rest: seq<T>, key: T -> real)
    requires SortedBy(rest, key)
    requires forall y :: y in rest ==> key(h) <= key(y)
    ensures SortedBy([h] + rest, key)
  {
    var r := [h] + rest;
    forall i, j | 0 <= i < j < |r| ensures key(r[i]) <= key(r[j]) {
      assert r[j] == rest[j - 1];
      if i > 0 {
        assert r[i] == rest[i - 1];
      }
    }
  }

  /** `s.sort_by { |x| key(x) }`: the elements of `s`, ascending by key. */
  function Sort<T(==)>(s: seq<T>, key: T -> real): (r: seq<T>)
    ensures SortedBy(r, key)
    ensures multiset(r) == multiset(s)
  {
    if |s| == 0 then []
    else
      assert s == [s[0]] + s[1..];
      Insert(s[0], Sort(s[1..], key), key)
  }

  /** Inserting `x` adds one `f(x)` to the mapped list, wherever it lands. */
  lemma {:induction false} InsertMapped<T, U>(x: T, s: seq<T>, key: T -> real, f: T -> U)
    requires SortedBy(s, key)
    ensures multiset(Map(f, Insert(x, s, key))) == multiset(Map(f, s)) + multiset{f(x)}
    decreases |s|
  {
    MapCons(f, x, s);
    if |s| > 0 && key(x) > key(s[0]) {
      var rest := Insert(x, s[1..], key);
      InsertMapped(x, s[1..], key, f);
      MapCons(f, s[0], rest);
      MapCons(f, s[0], s[1..]);
      assert s == [s[0]] + s[1..];
    }
  }

  /** Sorting rearranges any mapping of the list: the images of `Sort(s)`
      are the images of `s`, counted with multiplicity. */
  lemma {:induction false} SortMapped<T, U>(s: seq<T>, key: T -> real, f: T -> U)
    ensures multiset(Map(f, Sort(s, key))) == multiset(Map(f, s))
    decreases |s|
  {
    if |s| > 0 {
      SortMapped(s[1..], key, f);
      InsertMapped(s[0], Sort(s[1..], key), key, f);
      MapCons(f, s[0], s[1..]);
      assert s == [s[0]] + s[1..];
    }
  }
}
