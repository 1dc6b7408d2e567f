/** Ruby's `Array#combination(k)` and the binomial counts that size it. */
module Combination {
  import opened RubyArray

  /** The binomial coefficient C(n, k), by Pascal's rule. */
  function Binom(n: nat, k: nat): nat {
    if k == 0 then 1
    else if n == 0 then 0
    else Binom(n - 1, k - 1) + Binom(n - 1, k)
  }

  /** C(n, 1) + C(n, 2) + ... + C(n, limit); nothing when `limit < 1`. */
  function SumBinom(n: nat, limit: int): nat
    decreases if limit < 0 then 0 else limit
  {
    if limit < 1 then 0 else SumBinom(n, limit - 1) + Binom(n, limit)
  }

  /** There is no way to choose more elements than there are. */
  lemma {:induction false} BinomAboveN(n: nat, k: nat)
    requires k > n
    ensures Binom(n, k) == 0
  {
    if n > 0 {
      BinomAboveN(n - 1, k - 1);
      BinomAboveN(n - 1, k);
    }
  }

  lemma {:induction false} BinomOne(n: nat)
    ensures Binom(n, 1) == n
  {
    if n > 0 {
      BinomOne(n - 1);
    }
  }

  /** The number of unordered pairs out of n: n(n-1)/2. */
  lemma {:induction false} BinomTwo(n: nat)
    ensures Binom(n, 2) == n * (n - 1) / 2
  {
    if n > 0 {
      BinomTwo(n - 1);
      BinomOne(n - 1);
      assert n * (n - 1) == (n - 1) * (n - 2) + 2 * (n - 1);
    }
  }

  /** Once `limit` reaches n, larger sizes add no combinations. */
  lemma {:induction false} SumBinomSaturates(n: nat, limit: int)
    requires limit >= n
    ensures SumBinom(n, limit) == SumBinom(n, n)
    decreases limit
  {
    if limit > n {
      BinomAboveN(n, limit);
      SumBinomSaturates(n, limit - 1);
    }
  }

  /** Puts `x` in front of every list of `cs`. */
  function PrependAll<T>(x: T, cs: seq<seq<T>>): (r: seq<seq<T>>)
    ensures |r| == |cs|
    ensures forall i :: 0 <= i < |r| ==> r[i] == [x] + cs[i]
  {
    seq(|cs|, i requires 0 <= i < |cs| => [x] + cs[i])
  }

  /** `s.combination(k)`: the k-element subsequences of `s` in Ruby's
      order, those that take `s[0]` first and then those that skip it. */
  function Combinations<T(==,!new)>(s: seq<T>, k: nat): (r: seq<seq<T>>)
    ensures |r| == Binom(|s|, k)
    decreases |s|
  {
    if k == 0 then [[]]
    else if |s| == 0 then []
    else PrependAll(s[0], Combinations(s[1..], k - 1)) + Combinations(s[1..], k)
  }

  /** `combination(k)` of a non-empty list: the combinations that take its
      first element, then those that skip it. */
  lemma CombinationsSplit<T(!new)>(s: seq<T>, k: nat)
    requires |s| > 0 && k > 0
    ensures Combinations(s, k)
         == PrependAll(s[0], Combinations(s[1..], k - 1)) + Combinations(s[1..], k)
  {
  }

  /** Putting `x` in front of a member of `cs` gives a member of `PrependAll(x, cs)`. */
  lemma InPrependAll<T>(x: T, cs: seq<seq<T>>, d: seq<T>)
    requires d in cs
    ensures [x] + d in PrependAll(x, cs)
  {
    var i :| 0 <= i < |cs| && cs[i] == d;
    assert PrependAll(x, cs)[i] == [x] + d;
  }

  /** A member of `PrependAll(x, cs)` is `x` in front of a member of `cs`. */
  lemma FromPrependAll<T>(x: T, cs: seq<seq<T>>, c: seq<T>) returns (d: seq<T>)
    requires c in PrependAll(x, cs)
    ensures d in cs && c == [x] + d
  {
    var i :| 0 <= i < |cs| && PrependAll(x, cs)[i] == c;
    d := cs[i];
  }

  /** Every combination has k elements taken from `s` in order. */
  lemma {:induction false} CombinationsSound<T(!new)>(s: seq<T>, k: nat, c: seq<T>)
    requires c in Combinations(s, k)
    ensures |c| == k && IsSubseq(c, s)
    decreases |s|
  {
    if k > 0 {
      assert |s| > 0;
      var shorter := Combinations(s[1..], k - 1);
      var withHead := PrependAll(s[0], shorter);
      CombinationsSplit(s, k);
      if c in withHead {
        assert |c| == k && IsSubseq(c, s) by {
          var d := FromPrependAll(s[0], shorter, c);
          CombinationsSound(s[1..], k - 1, d);
          SubseqCons(s, d);
        }
      } else {
        assert |c| == k && IsSubseq(c, s) by {
          assert c in Combinations(s[1..], k);
          CombinationsSound(s[1..], k, c);
          SubseqOfTail(c, s);
        }
      }
    }
  }

  /** Every k-element subsequence of `s` is one of `s.combination(k)`. */
  lemma {:induction false} CombinationsComplete<T(!new)>(s: seq<T>, c: seq<T>)
    requires IsSubseq(c, s)
    ensures c in Combinations(s, |c|)
    decreases |s|
  {
    if |c| > 0 {
      assert |s| > 0;
      var k := |c|;
      CombinationsSplit(s, k);
      if c[0] == s[0] && IsSubseq(c[1..], s[1..]) {
        assert c in PrependAll(s[0], Combinations(s[1..], k - 1)) by {
          CombinationsComplete(s[1..], c[1..]);
          InPrependAll(s[0], Combinations(s[1..], k - 1), c[1..]);
          assert [s[0]] + c[1..] == c;
        }
      } else {
        assert c in Combinations(s[1..], k) by {
          assert IsSubseq(c, s[1..]);
          CombinationsComplete(s[1..], c);
        }
      }
    }
  }

  /** Membership in `s.combination(k)`, both directions. */
  lemma CombinationsMembership<T(!new)>(s: seq<T>, k: nat, c: seq<T>)
    ensures c in Combinations(s, k) <==> |c| == k && IsSubseq(c, s)
  {
    if |c| == k && IsSubseq(c, s) {
      CombinationsComplete(s, c);
    }
    if c in Combinations(s, k) {
      CombinationsSound(s, k, c);
    }
  }

  /** From a list without repeats, no combination is produced twice. */
  lemma {:induction false} CombinationsDistinct<T(!new)>(s: seq<T>, k: nat)
    requires Distinct(s)
    ensures Distinct(Combinations(s, k))
    decreases |s|
  {
    if k > 0 && |s| > 0 {
      var t := s[1..];
      assert forall i :: 0 <= i < |t| ==> t[i] == s[i + 1];
      CombinationsDistinct(t, k - 1);
      CombinationsDistinct(t, k);
      var shorter := Combinations(t, k - 1);
      var a := PrependAll(s[0], shorter);
      var b := Combinations(t, k);
      assert Combinations(s, k) == a + b;
      forall i, j | 0 <= i < j < |a + b| ensures (a + b)[i] != (a + b)[j] {
        if j < |a| {
          assert a[i][1..] == shorter[i] && a[j][1..] == shorter[j];
        } else if i >= |a| {
          assert (a + b)[i] == b[i - |a|] && (a + b)[j] == b[j - |a|];
        } else {
          var c := b[j - |a|];
          CombinationsSound(t, k, c);
          SubseqElements(c, t);
          assert c[0] in t;
          assert (a + b)[i][0] == s[0];
        }
      }
    }
  }
}
