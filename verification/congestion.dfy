/** `GUI::Congestion`: the congestion-reduction search and the table-selection
    state machine that applies a ranked option to the live network.

    The search filters the near-miss lines the electrical model proposes,
    drops repeated site pairs, tries every set of up to `edge_limit` of them
    on the network, and ranks the sets by a score of the loss and
    the total length. The selection machine attaches the lines of the chosen
    row to the live network, detaching the previously chosen row first. */
module Congestion {
  import opened RubyArray
  import opened Combination
  import opened SortBy
  import opened Grid

  /** One row of the table: how many lines, their total length and the loss
      with them attached (both rounded to two places), and the lines. */
  datatype Row = Row(edges: nat, length: real, txLoss: real, candidates: seq<Edge>)

  /** The arithmetic the search cannot see into: the electrical model run by
      `reset!`, the ranking formula `l ** 1.35 + l * length`, and `round(2)`. */
  datatype Numerics = Numerics(lossOf: LossModel, score: (real, real) -> real, round2: real -> real)

  /** The presenter's three attributes: the applied row (nil when none),
      the lines it added, and the ranked rows shown in the table. */
  datatype Presenter = Presenter(current: Option<Row>, added: seq<Edge>, potential: seq<Row>)

  /** The presenter together with the live network it mutates. */
  datatype Live = Live(p: Presenter, net: Network)

  /** The exceptions the Ruby code can raise. */
  datatype RubyError = TypeError | NoMethodError

  /** A call either returns or raises; either way it leaves a state behind. */
  datatype Outcome = Returned(s: Live) | Raised(error: RubyError, s: Live)

  /** `Congestion.new(app)`: nothing applied, no rows. */
  const Initial: Presenter := Presenter(None, [], [])

  // ---------------------------------------------------------------------
  // The search (`reduce_congestion`)
  // ---------------------------------------------------------------------

  /** `cs.sum(&:length)`: never negative when no length is. */
  function SumLength(cs: seq<Edge>): (r: real)
    ensures (forall e :: e in cs ==> e.length >= 0.0) ==> r >= 0.0
  {
    if |cs| == 0 then 0.0 else cs[0].length + SumLength(cs[1..])
  }

  /** The total length of two lists laid end to end is the sum of theirs. */
  lemma {:induction false} SumLengthAppend(a: seq<Edge>, b: seq<Edge>)
    ensures SumLength(a + b) == SumLength(a) + SumLength(b)
    decreases |a|
  {
    if |a| > 0 {
      assert (a + b)[1..] == a[1..] + b;
      SumLengthAppend(a[1..], b);
    } else {
      assert a + b == b;
    }
  }

  /** The total length does not depend on the order of the lines. */
  lemma {:induction false} SumLengthPermutation(a: seq<Edge>, b: seq<Edge>)
    requires multiset(a) == multiset(b)
    ensures SumLength(a) == SumLength(b)
    decreases |a|
  {
    if |a| == 0 {
      assert |b| == |multiset(b)| == 0;
    } else {
      assert a[0] in multiset(b);
      var j :| 0 <= j < |b| && b[j] == a[0];
      var rest := b[..j] + b[j + 1..];
      assert b == b[..j] + ([b[j]] + b[j + 1..]);
      assert a == [a[0]] + a[1..];
      assert multiset(b) == multiset(b[..j]) + multiset{b[j]} + multiset(b[j + 1..]);
      assert multiset(a) == multiset{a[0]} + multiset(a[1..]);
      assert multiset(rest) == multiset(b[..j]) + multiset(b[j + 1..]);
      assert multiset(a[1..]) == multiset(a) - multiset{a[0]};
      assert multiset(rest) == multiset(b) - multiset{b[j]};
      SumLengthPermutation(a[1..], rest);
      SumLengthAppend(b[..j], b[j + 1..]);
      SumLengthAppend(b[..j], [b[j]] + b[j + 1..]);
      assert ([b[j]] + b[j + 1..])[1..] == b[j + 1..];
    }
  }

  /** The hard ceiling: near-miss lines strictly shorter than half the scale. */
  function ShortEnough(nearMiss: seq<Edge>, scale: real): (r: seq<Edge>)
    ensures IsSubseq(r, nearMiss)
    ensures forall e :: e in r <==> e in nearMiss && e.length < 0.5 * scale
    ensures forall e :: multiset(r)[e] == if e.length < 0.5 * scale then multiset(nearMiss)[e] else 0
  {
    if |nearMiss| == 0 then []
    else
      var rest := ShortEnough(nearMiss[1..], scale);
      assert multiset(nearMiss) == multiset{nearMiss[0]} + multiset(nearMiss[1..]) by {
        assert nearMiss == [nearMiss[0]] + nearMiss[1..];
      }
      if nearMiss[0].length < 0.5 * scale then
        SubseqCons(nearMiss, rest);
        assert multiset([nearMiss[0]] + rest) == multiset{nearMiss[0]} + multiset(rest);
        [nearMiss[0]] + rest
      else
        SubseqOfTail(rest, nearMiss);
        rest
  }

  /** The candidate pool: the short near-miss lines with the first line of
      every unordered pair of sites kept. */
  function Candidates(nearMiss: seq<Edge>, scale: real): (r: seq<Edge>)
    ensures forall e :: e in r ==> e in nearMiss && e.length < 0.5 * scale
    ensures forall i, j :: 0 <= i < j < |r| ==> PairKey(r[i]) != PairKey(r[j])
    ensures forall e :: e in nearMiss && e.length < 0.5 * scale ==> PairKey(e) in KeysOf(r, PairKey)
  {
    var short := ShortEnough(nearMiss, scale);
    var r := UniqBy(short, PairKey);
    SubseqElements(r, short);
    assert forall e :: e in nearMiss && e.length < 0.5 * scale ==> PairKey(e) in KeysOf(short, PairKey);
    r
  }

  /** What the pool holds: short near-miss lines, in input order, no two
      joining the same pair of sites, every short pair represented, for
      each pair the first short line that joins it, and the pairs in the
      order their first short lines come. */
  lemma CandidatesPool(nearMiss: seq<Edge>, scale: real)
    ensures var short := ShortEnough(nearMiss, scale); var c := Candidates(nearMiss, scale);
      && IsSubseq(c, nearMiss)
      && (forall i, j {:trigger FirstKeyIndex(short, PairKey, PairKey(c[i])), FirstKeyIndex(short, PairKey, PairKey(c[j]))} ::
            0 <= i < j < |c| ==> FirstKeyIndex(short, PairKey, PairKey(c[i])) < FirstKeyIndex(short, PairKey, PairKey(c[j])))
      && (forall e :: e in c ==> e in nearMiss && e.length < 0.5 * scale)
      && (forall i, j :: 0 <= i < j < |c| ==> PairKey(c[i]) != PairKey(c[j]))
      && Distinct(c)
      && (forall e :: e in nearMiss && e.length < 0.5 * scale ==> PairKey(e) in KeysOf(c, PairKey))
      && (forall e :: e in c ==> PairKey(e) in KeysOf(short, PairKey) && e == FirstWithKey(short, PairKey, PairKey(e)))
  {
    var short := ShortEnough(nearMiss, scale);
    var c := Candidates(nearMiss, scale);
    SubseqTrans(c, short, nearMiss);
    SubseqElements(c, short);
    forall e | e in nearMiss && e.length < 0.5 * scale ensures PairKey(e) in KeysOf(c, PairKey) {
      assert e in short;
      assert PairKey(e) in KeysOf(short, PairKey);
    }
  }

  /** A line exactly as long as the ceiling is dropped; a shorter one kept. */
  lemma CeilingIsStrict(e: Edge, scale: real)
    ensures e.length == 0.5 * scale ==> Candidates([e], scale) == []
    ensures e.length < 0.5 * scale ==> Candidates([e], scale) == [e]
  {
    var short := ShortEnough([e], scale);
    if e.length < 0.5 * scale {
      assert e in short;
      SubseqLength(short, [e]);
      assert short == [e];
      var c := Candidates([e], scale);
      assert PairKey(e) in KeysOf(short, PairKey);
      assert PairKey(e) in KeysOf(c, PairKey);
      SubseqLength(c, short);
      assert c == [e];
    } else {
      assert e !in short;
      SubseqElements(short, [e]);
      assert short == [];
      SubseqLength(Candidates([e], scale), short);
    }
  }

  /** A line and its reverse (A, B) and (B, A) collapse to the first one. */
  lemma ReversedPairCollapses(e1: Edge, e2: Edge, scale: real)
    requires e1.from == e2.to && e1.to == e2.from
    requires e1.length < 0.5 * scale && e2.length < 0.5 * scale
    ensures Candidates([e1, e2], scale) == [e1]
  {
    var short := ShortEnough([e1, e2], scale);
    assert ShortEnough([e1, e2][1..], scale) == [e2] by {
      assert [e1, e2][1..] == [e2];
      var t := ShortEnough([e2], scale);
      assert e2 in t;
      SubseqLength(t, [e2]);
    }
    assert short == [e1, e2];
    assert PairKey(e1) == PairKey(e2);
    var c := Candidates([e1, e2], scale);
    assert UniqFrom([e1, e2], PairKey, {}) == [e1] + UniqFrom([e2], PairKey, {PairKey(e1)});
    assert [e1, e2][1..] == [e2];
    assert UniqFrom([e2], PairKey, {PairKey(e1)}) == UniqFrom([e2][1..], PairKey, {PairKey(e1)});
  }

  /** `(1..n).map { |i| cands.combination(i).to_a }`: one list per size. */
  function BySize(cands: seq<Edge>, n: nat): (r: seq<seq<seq<Edge>>>)
    ensures |r| == n
    ensures forall i :: 0 <= i < n ==> r[i] == Combinations(cands, i + 1)
  {
    if n == 0 then []
    else BySize(cands, n - 1) + [Combinations(cands, n)]
  }

  /** `(1..edge_limit).map { |i| candidates.combination(i).to_a }.flatten(1)`:
      the sets of one line first, then of two, up to `edgeLimit`; there are
      C(m,1) + ... + C(m,edgeLimit) of them for a pool of m. */
  function Trials(cands: seq<Edge>, edgeLimit: int): (r: seq<seq<Edge>>)
    ensures |r| == SumBinom(|cands|, edgeLimit)
  {
    var n := if edgeLimit < 0 then 0 else edgeLimit;
    FlattenLength(BySize(cands, n));
    BySizeTotal(cands, n);
    Flatten(BySize(cands, n))
  }

  /** The size lists together hold C(m,1) + ... + C(m,n) sets. */
  lemma {:induction false} BySizeTotal(cands: seq<Edge>, n: nat)
    ensures TotalLength(BySize(cands, n)) == SumBinom(|cands|, n)
  {
    if n > 0 {
      BySizeTotal(cands, n - 1);
      FlattenSnoc(BySize(cands, n - 1), Combinations(cands, n));
    }
  }

  /** Three candidates and a limit of two give 3 + 3 = 6 trials. */
  lemma TrialsCountExample(cands: seq<Edge>)
    requires |cands| == 3
    ensures |Trials(cands, 2)| == 6
  {
    BinomOne(3);
    BinomTwo(3);
  }

  /** A trial is a non-empty selection of at most `edgeLimit` candidates in
      pool order, and every such selection is a trial. */
  lemma TrialsMembership(cands: seq<Edge>, edgeLimit: int, t: seq<Edge>)
    ensures t in Trials(cands, edgeLimit) <==> 1 <= |t| <= edgeLimit && IsSubseq(t, cands)
  {
    if t in Trials(cands, edgeLimit) {
      TrialIsShortSubseq(cands, edgeLimit, t);
    }
    if 1 <= |t| <= edgeLimit && IsSubseq(t, cands) {
      ShortSubseqIsTrial(cands, edgeLimit, t);
    }
  }

  /** Every trial is a non-empty, order-keeping pick of at most `edgeLimit`
      candidates. */
  lemma TrialIsShortSubseq(cands: seq<Edge>, edgeLimit: int, t: seq<Edge>)
    requires t in Trials(cands, edgeLimit)
    ensures 1 <= |t| <= edgeLimit && IsSubseq(t, cands)
  {
    var n := if edgeLimit < 0 then 0 else edgeLimit;
    var ss := BySize(cands, n);
    var i :| 0 <= i < n && t in ss[i];
    CombinationsSound(cands, i + 1, t);
  }

  /** Every such pick is a trial. */
  lemma ShortSubseqIsTrial(cands: seq<Edge>, edgeLimit: int, t: seq<Edge>)
    requires 1 <= |t| <= edgeLimit && IsSubseq(t, cands)
    ensures t in Trials(cands, edgeLimit)
  {
    var ss := BySize(cands, edgeLimit);
    CombinationsComplete(cands, t);
    assert t in ss[|t| - 1];
  }

  /** From a pool without repeats, no trial repeats a line. */
  lemma TrialsHaveNoRepeats(cands: seq<Edge>, edgeLimit: int, t: seq<Edge>)
    requires Distinct(cands)
    requires t in Trials(cands, edgeLimit)
    ensures Distinct(t) && 1 <= |t| <= edgeLimit
  {
    TrialsMembership(cands, edgeLimit, t);
    SubseqDistinct(t, cands);
  }

  /** No trials exactly when the pool is empty or the limit is below one. */
  lemma NoTrials(cands: seq<Edge>, edgeLimit: int)
    ensures |Trials(cands, edgeLimit)| == 0 <==> |cands| == 0 || edgeLimit < 1
  {
    if |cands| > 0 && edgeLimit >= 1 {
      SubseqSingleton(cands, 0);
      TrialsMembership(cands, edgeLimit, [cands[0]]);
    }
    if |Trials(cands, edgeLimit)| > 0 {
      var t := Trials(cands, edgeLimit)[0];
      TrialsMembership(cands, edgeLimit, t);
      SubseqLength(t, cands);
    }
  }

  /** The loss the network would have with the lines `cs` attached too. */
  function TrialLoss(net: Network, cs: seq<Edge>, lossOf: LossModel): real {
    lossOf(net.active + Elems(cs))
  }

  /** One trial on the network it is given: attach its lines, `reset!`,
      detach them. The loss read afterwards is the one `reset!` computed. */
  function RunTrial(net: Network, cs: seq<Edge>, lossOf: LossModel): (r: (real, Network))
    ensures r.0 == TrialLoss(net, cs, lossOf)
    ensures r.1.active == net.active <==> net.active !! Elems(cs)
  {
    var reset := Reset(Network(AttachAll(net.active, cs), net.loss), lossOf);
    var after := Network(DetachAll(reset.active, cs), reset.loss);
    AttachDetachRoundTrip(net.active, cs);
    (after.loss, after)
  }

  /** Every line of every trial is detached in `net`. */
  predicate AllDetached(net: Network, trials: seq<seq<Edge>>) {
    forall k :: 0 <= k < |trials| ==> net.active !! Elems(trials[k])
  }

  /** The trials run one after another on one network, each seeing what
      the one before it left, as in a single-threaded run or a worker that
      runs several trials on its copy of the grid. When their lines start
      detached, every trial sees the network as it was. */
  function Evaluate(net: Network, trials: seq<seq<Edge>>, lossOf: LossModel): (r: seq<real>)
    ensures |r| == |trials|
    ensures AllDetached(net, trials) ==>
      forall k :: 0 <= k < |r| ==> r[k] == TrialLoss(net, trials[k], lossOf)
    decreases |trials|
  {
    if |trials| == 0 then []
    else
      var (loss, after) := RunTrial(net, trials[0], lossOf);
      var rest := Evaluate(after, trials[1..], lossOf);
      assert AllDetached(net, trials) ==> after.active == net.active && AllDetached(after, trials[1..]);
      [loss] + rest
  }

  /** A trial and the loss measured for it: one entry of `trials.zip results`. */
  datatype Trial = Trial(candidates: seq<Edge>, loss: real)

  /** `l ** 1.35 + l * cs.sum(&:length)`. */
  function Score(t: Trial, num: Numerics): real {
    num.score(t.loss, SumLength(t.candidates))
  }

  /** The score sees a trial's lines only through their total length, so
      two trials with the same loss and the same lines in any order score
      alike. */
  lemma ScoreIgnoresLineOrder(t: Trial, u: Trial, num: Numerics)
    requires t.loss == u.loss && multiset(t.candidates) == multiset(u.candidates)
    ensures Score(t, num) == Score(u, num)
  {
    SumLengthPermutation(t.candidates, u.candidates);
  }

  function Zip(trials: seq<seq<Edge>>, losses: seq<real>): (r: seq<Trial>)
    requires |trials| == |losses|
    ensures |r| == |trials|
    ensures forall k :: 0 <= k < |r| ==> r[k] == Trial(trials[k], losses[k])
  {
    seq(|trials|, k requires 0 <= k < |trials| => Trial(trials[k], losses[k]))
  }

  /** `Row.new cs.size, cs.sum(&:length).round(2), l.round(2), cs`. */
  function ToRow(t: Trial, num: Numerics): (r: Row)
    ensures r.candidates == t.candidates && r.edges == |r.candidates|
    ensures r.length == num.round2(SumLength(r.candidates)) && r.txLoss == num.round2(t.loss)
  {
    Row(|t.candidates|, num.round2(SumLength(t.candidates)), num.round2(t.loss), t.candidates)
  }

  /** `trials.zip(results).sort_by { |cs, l| score }`. */
  function Ranked(net: Network, trials: seq<seq<Edge>>, num: Numerics): (r: seq<Trial>)
    ensures |r| == |trials|
  {
    var zipped := Zip(trials, Evaluate(net, trials, num.lossOf));
    var r := Sort(zipped, (t: Trial) => Score(t, num));
    assert |multiset(r)| == |multiset(zipped)|;
    r
  }

  /** `reduce_congestion(edge_limit)`: `scale` is `area.avg / 12` and
      `nearMiss` holds the lines the electrical model proposes within
      `0.75 * scale`. Only the table changes; the applied row and its lines
      are left as they were, and the network is not returned: the model
      leaves the live network as a parallel run leaves the main process's
      grid. */
  function ReduceCongestion(p: Presenter, net: Network, nearMiss: seq<Edge>, scale: real,
                            edgeLimit: int, num: Numerics): (r: Presenter)
    ensures r.current == p.current && r.added == p.added
    ensures |r.potential| == |Trials(Candidates(nearMiss, scale), edgeLimit)|
  {
    var trials := Trials(Candidates(nearMiss, scale), edgeLimit);
    if |trials| > 0 then
      p.(potential := Map((t: Trial) => ToRow(t, num), Ranked(net, trials, num)))
    else
      p.(potential := [])
  }

  /** The score a set of lines earns on the network `net`. */
  function TrialScore(net: Network, cs: seq<Edge>, num: Numerics): real {
    num.score(TrialLoss(net, cs, num.lossOf), SumLength(cs))
  }

  /** Ranking lists every trial once, with the loss its lines cause,
      ascending by score. */
  lemma RankedTrials(net: Network, trials: seq<seq<Edge>>, num: Numerics)
    requires AllDetached(net, trials)
    ensures var ranked := Ranked(net, trials, num);
      && multiset(Map((t: Trial) => t.candidates, ranked)) == multiset(trials)
      && (forall k :: 0 <= k < |ranked| ==>
            ranked[k].loss == TrialLoss(net, ranked[k].candidates, num.lossOf))
      && (forall i, j :: 0 <= i < j < |ranked| ==>
            TrialScore(net, ranked[i].candidates, num) <= TrialScore(net, ranked[j].candidates, num))
  {
    RankedIsPermutation(net, trials, num);
    RankedLosses(net, trials, num);
    RankedAscending(net, trials, num);
  }

  /** Sorting the scored trials neither drops nor repeats one. */
  lemma RankedIsPermutation(net: Network, trials: seq<seq<Edge>>, num: Numerics)
    ensures multiset(Map((t: Trial) => t.candidates, Ranked(net, trials, num))) == multiset(trials)
  {
    var zipped := Zip(trials, Evaluate(net, trials, num.lossOf));
    var key := (t: Trial) => Score(t, num);
    var cand := (t: Trial) => t.candidates;
    SortMapped(zipped, key, cand);
    assert Map(cand, zipped) == trials;
  }

  /** Each ranked trial carries the loss measured with its lines attached. */
  lemma RankedLosses(net: Network, trials: seq<seq<Edge>>, num: Numerics)
    requires AllDetached(net, trials)
    ensures var ranked := Ranked(net, trials, num);
      forall k :: 0 <= k < |ranked| ==>
        ranked[k].loss == TrialLoss(net, ranked[k].candidates, num.lossOf)
  {
    var zipped := Zip(trials, Evaluate(net, trials, num.lossOf));
    var ranked := Ranked(net, trials, num);
    assert ranked == Sort(zipped, (t: Trial) => Score(t, num));
    forall k | 0 <= k < |ranked|
      ensures ranked[k].loss == TrialLoss(net, ranked[k].candidates, num.lossOf)
    {
      assert ranked[k] in multiset(zipped);
    }
  }

  /** The ranked trials ascend by score. */
  lemma RankedAscending(net: Network, trials: seq<seq<Edge>>, num: Numerics)
    requires AllDetached(net, trials)
    ensures var ranked := Ranked(net, trials, num);
      forall i, j :: 0 <= i < j < |ranked| ==>
        TrialScore(net, ranked[i].candidates, num) <= TrialScore(net, ranked[j].candidates, num)
  {
    var zipped := Zip(trials, Evaluate(net, trials, num.lossOf));
    var key := (t: Trial) => Score(t, num);
    var ranked := Ranked(net, trials, num);
    assert ranked == Sort(zipped, key);
    RankedLosses(net, trials, num);
    forall i, j | 0 <= i < j < |ranked|
      ensures TrialScore(net, ranked[i].candidates, num) <= TrialScore(net, ranked[j].candidates, num)
    {
      assert key(ranked[i]) <= key(ranked[j]);
    }
  }

  /** The table lists every trial once, ascending by its score, each row
      recording its size, rounded length and rounded loss. This holds when
      the near-miss lines are not attached, which is what the electrical
      model's near-miss search returns. */
  lemma ReduceCongestionRanks(p: Presenter, net: Network, nearMiss: seq<Edge>, scale: real,
                              edgeLimit: int, num: Numerics)
    requires forall e :: e in nearMiss ==> e !in net.active
    ensures var trials := Trials(Candidates(nearMiss, scale), edgeLimit);
      var rows := ReduceCongestion(p, net, nearMiss, scale, edgeLimit, num).potential;
      && multiset(Map((r: Row) => r.candidates, rows)) == multiset(trials)
      && (forall i :: 0 <= i < |rows| ==>
            && rows[i].edges == |rows[i].candidates|
            && rows[i].length == num.round2(SumLength(rows[i].candidates))
            && rows[i].txLoss == num.round2(TrialLoss(net, rows[i].candidates, num.lossOf)))
      && (forall i, j :: 0 <= i < j < |rows| ==>
            TrialScore(net, rows[i].candidates, num) <= TrialScore(net, rows[j].candidates, num))
  {
    var trials := Trials(Candidates(nearMiss, scale), edgeLimit);
    if |trials| > 0 {
      TrialsDetached(net, nearMiss, scale, edgeLimit);
      TableRanks(net, trials, num);
    }
  }

  /** The table built from detached trials lists each once, ascending by
      score, each row recording its size, rounded length and rounded loss. */
  lemma TableRanks(net: Network, trials: seq<seq<Edge>>, num: Numerics)
    requires AllDetached(net, trials)
    ensures var rows := Map((t: Trial) => ToRow(t, num), Ranked(net, trials, num));
      && multiset(Map((r: Row) => r.candidates, rows)) == multiset(trials)
      && (forall i :: 0 <= i < |rows| ==>
            && rows[i].edges == |rows[i].candidates|
            && rows[i].length == num.round2(SumLength(rows[i].candidates))
            && rows[i].txLoss == num.round2(TrialLoss(net, rows[i].candidates, num.lossOf)))
      && (forall i, j :: 0 <= i < j < |rows| ==>
            TrialScore(net, rows[i].candidates, num) <= TrialScore(net, rows[j].candidates, num))
  {
    var ranked := Ranked(net, trials, num);
    var rows := Map((t: Trial) => ToRow(t, num), ranked);
    RankedTrials(net, trials, num);
    assert Map((r: Row) => r.candidates, rows) == Map((t: Trial) => t.candidates, ranked);
  }

  /** Trials drawn from detached near-miss lines are detached. */
  lemma TrialsDetached(net: Network, nearMiss: seq<Edge>, scale: real, edgeLimit: int)
    requires forall e :: e in nearMiss ==> e !in net.active
    ensures AllDetached(net, Trials(Candidates(nearMiss, scale), edgeLimit))
  {
    var cands := Candidates(nearMiss, scale);
    var trials := Trials(cands, edgeLimit);
    assert forall e :: e in cands ==> e !in net.active by {
      CandidatesPool(nearMiss, scale);
    }
    forall k | 0 <= k < |trials| ensures net.active !! Elems(trials[k]) {
      TrialIsShortSubseq(cands, edgeLimit, trials[k]);
      SubseqElements(trials[k], cands);
    }
  }

  /** The table is empty exactly when there is nothing to try. */
  lemma EmptyTableWhenNoTrials(p: Presenter, net: Network, nearMiss: seq<Edge>, scale: real,
                               edgeLimit: int, num: Numerics)
    ensures ReduceCongestion(p, net, nearMiss, scale, edgeLimit, num).potential == []
        <==> |Candidates(nearMiss, scale)| == 0 || edgeLimit < 1
  {
    NoTrials(Candidates(nearMiss, scale), edgeLimit);
  }

  // ---------------------------------------------------------------------
  // The selection state machine (`select_reduction_option`, `refresh!`)
  // ---------------------------------------------------------------------

  /** The lines of the applied row, if any. */
  function AppliedLines(p: Presenter): set<Edge> {
    if p.current.Some? then Elems(p.current.value.candidates) else {}
  }

  /** `select_reduction_option(selection)`, `selection` being the table's
      row index or nil. A `Row` is compared by content, as `Struct#==` does;
      an index outside the table reads as nil. */
  function Select(s: Live, selection: Option<int>, lossOf: LossModel): (r: Outcome)
    ensures r.s.p.potential == s.p.potential
    // Nothing to do: nothing applied and nothing chosen, or the chosen row
    // equals the applied one (also when both read as nil).
    ensures (s.p.current.None? && selection.None?)
         || (selection.Some? && s.p.current == At(s.p.potential, selection.value))
        ==> r == Returned(s)
    // Choosing a row detaches the applied row's lines, attaches the new
    // row's lines and recomputes the loss.
    ensures selection.Some? && At(s.p.potential, selection.value).Some?
         && s.p.current != At(s.p.potential, selection.value)
        ==> var row := At(s.p.potential, selection.value).value;
            && r.Returned?
            && r.s.p.current == Some(row)
            && r.s.p.added == row.candidates
            && r.s.net.active == (s.net.active - AppliedLines(s.p)) + Elems(row.candidates)
            && r.s.net.loss == lossOf(r.s.net.active)
    // Choosing nothing while a row is applied detaches it.
    ensures selection.None? && s.p.current.Some?
        ==> && r.Returned?
            && r.s.p.current.None?
            && r.s.p.added == []
            && r.s.net.active == s.net.active - AppliedLines(s.p)
            && r.s.net.loss == lossOf(r.s.net.active)
    // An index past the table while a row is applied: the old lines are
    // already detached when `nil.candidates` raises.
    ensures selection.Some? && At(s.p.potential, selection.value).None? && s.p.current.Some?
        ==> && r.Raised? && r.error == NoMethodError
            && r.s.p.current.None?
            && r.s.p.added == s.p.added
            && r.s.net.active == s.net.active - AppliedLines(s.p)
            && r.s.net.loss == s.net.loss
  {
    var cur := s.p.current;
    if cur.None? && selection.None? then Returned(s)
    else if selection.Some? && cur == At(s.p.potential, selection.value) then Returned(s)
    else
      var active := if cur.Some? then DetachAll(s.net.active, cur.value.candidates) else s.net.active;
      if selection.None? then
        Returned(Live(s.p.(current := None, added := []), Reset(Network(active, s.net.loss), lossOf)))
      else
        match At(s.p.potential, selection.value)
        case None =>
          Raised(NoMethodError, Live(s.p.(current := None), Network(active, s.net.loss)))
        case Some(row) =>
          var attached := Network(AttachAll(active, row.candidates), s.net.loss);
          Returned(Live(s.p.(current := Some(row), added := row.candidates), Reset(attached, lossOf)))
  }

  /** The live network is `base` plus exactly the applied row's lines, which
      `added_edges` lists, and no row of the table touches `base`. */
  predicate Exclusive(s: Live, base: set<Edge>) {
    && (forall i :: 0 <= i < |s.p.potential| ==> base !! Elems(s.p.potential[i].candidates))
    && base !! AppliedLines(s.p)
    && s.net.active == base + AppliedLines(s.p)
    && s.p.added == (if s.p.current.Some? then s.p.current.value.candidates else [])
  }

  /** A fresh presenter on a network applies nothing, so the network is its
      own baseline. */
  lemma InitialIsExclusive(net: Network)
    ensures Exclusive(Live(Initial, net), net.active)
  {
  }

  /** Rebuilding the table from near-miss lines outside `base` keeps the
      network at `base` plus the applied row's lines. */
  lemma ReduceKeepsExclusive(s: Live, base: set<Edge>, nearMiss: seq<Edge>, scale: real,
                             edgeLimit: int, num: Numerics)
    requires Exclusive(s, base)
    requires forall e :: e in nearMiss ==> e !in base
    ensures Exclusive(Live(ReduceCongestion(s.p, s.net, nearMiss, scale, edgeLimit, num), s.net), base)
  {
    RowsAvoid(s.p, s.net, nearMiss, scale, edgeLimit, num, base);
  }

  /** No row of a rebuilt table touches a set the near-miss lines avoid. */
  lemma RowsAvoid(p: Presenter, net: Network, nearMiss: seq<Edge>, scale: real, edgeLimit: int,
                  num: Numerics, base: set<Edge>)
    requires forall e :: e in nearMiss ==> e !in base
    ensures var rows := ReduceCongestion(p, net, nearMiss, scale, edgeLimit, num).potential;
      forall i :: 0 <= i < |rows| ==> base !! Elems(rows[i].candidates)
  {
    var rows := ReduceCongestion(p, net, nearMiss, scale, edgeLimit, num).potential;
    forall i | 0 <= i < |rows| ensures base !! Elems(rows[i].candidates) {
      RowLinesAreNearMiss(p, net, nearMiss, scale, edgeLimit, num, i);
    }
  }

  /** Every line of a rebuilt table's row is a near-miss line. */
  lemma RowLinesAreNearMiss(p: Presenter, net: Network, nearMiss: seq<Edge>, scale: real, edgeLimit: int,
                            num: Numerics, i: nat)
    requires i < |ReduceCongestion(p, net, nearMiss, scale, edgeLimit, num).potential|
    ensures var row := ReduceCongestion(p, net, nearMiss, scale, edgeLimit, num).potential[i];
      forall e :: e in row.candidates ==> e in nearMiss
  {
    var cands := Candidates(nearMiss, scale);
    var t := ReduceCongestion(p, net, nearMiss, scale, edgeLimit, num).potential[i].candidates;
    RowFromTrial(p, net, nearMiss, scale, edgeLimit, num, i);
    TrialIsShortSubseq(cands, edgeLimit, t);
    SubseqElements(t, cands);
    CandidatesPool(nearMiss, scale);
  }

  /** Every row of a rebuilt table holds the lines of one trial. */
  lemma RowFromTrial(p: Presenter, net: Network, nearMiss: seq<Edge>, scale: real, edgeLimit: int,
                     num: Numerics, i: nat)
    requires i < |Trials(Candidates(nearMiss, scale), edgeLimit)|
    ensures ReduceCongestion(p, net, nearMiss, scale, edgeLimit, num).potential[i].candidates in Trials(Candidates(nearMiss, scale), edgeLimit)
  {
    var trials := Trials(Candidates(nearMiss, scale), edgeLimit);
    var ranked := Ranked(net, trials, num);
    var cand := (t: Trial) => t.candidates;
    RankedIsPermutation(net, trials, num);
    assert Map(cand, ranked)[i] in multiset(Map(cand, ranked));
  }

  /** Selecting a row of the table, or nothing, keeps the network at `base`
      plus the lines of the row now applied. */
  lemma SelectKeepsExclusive(s: Live, base: set<Edge>, selection: Option<int>, lossOf: LossModel)
    requires Exclusive(s, base)
    requires selection.None? || At(s.p.potential, selection.value).Some?
    ensures Select(s, selection, lossOf).Returned?
    ensures Exclusive(Select(s, selection, lossOf).s, base)
    ensures Select(s, selection, lossOf).s.p.current
         == (if selection.None? then None else At(s.p.potential, selection.value))
  {
    if selection.Some? {
      var row := At(s.p.potential, selection.value).value;
      var i :| 0 <= i < |s.p.potential| && s.p.potential[i] == row;
      assert base !! Elems(row.candidates);
    }
  }

  /** Selecting row i and then row j leaves exactly row j's lines on top of
      `base`, whatever row i held. The loss is fresh afterwards only if it
      was fresh before: when row i is already applied and j is i, neither
      selection calls `reset!`. */
  lemma SelectionIsExclusive(s: Live, base: set<Edge>, i: int, j: int, lossOf: LossModel)
    requires Exclusive(s, base) && s.net.loss == lossOf(s.net.active)
    requires 0 <= i < |s.p.potential| && 0 <= j < |s.p.potential|
    ensures var s1 := Select(s, Some(i), lossOf).s;
      var s2 := Select(s1, Some(j), lossOf).s;
      && s2.net.active == base + Elems(s.p.potential[j].candidates)
      && s2.p.added == s.p.potential[j].candidates
      && s2.net.loss == lossOf(s2.net.active)
  {
    SelectKeepsExclusive(s, base, Some(i), lossOf);
    var s1 := Select(s, Some(i), lossOf).s;
    SelectKeepsExclusive(s1, base, Some(j), lossOf);
  }

  /** `refresh!` as written: line 23 indexes `potential_edges` with the
      applied `Row` itself, which Ruby rejects with a TypeError before
      anything changes; with nothing applied it clears the presenter. */
  function RefreshAsWritten(s: Live): (r: Outcome)
    ensures s.p.current.Some? ==> r.Raised? && r.error == TypeError && r.s == s
    ensures s.p.current.None? ==> r.Returned? && r.s.p == Initial && r.s.net == s.net
  {
    if s.p.current.Some? then Raised(TypeError, s)
    else Returned(Live(Initial, s.net))
  }

  /** As written, every refresh after a successful selection raises and
      leaves the selected row's lines attached to the network. */
  lemma RefreshAfterSelectRaises(s: Live, base: set<Edge>, i: int, lossOf: LossModel)
    requires Exclusive(s, base)
    requires 0 <= i < |s.p.potential|
    ensures var t := Select(s, Some(i), lossOf);
      && t.Returned?
      && RefreshAsWritten(t.s).Raised?
      && RefreshAsWritten(t.s).error == TypeError
      && Elems(s.p.potential[i].candidates) <= RefreshAsWritten(t.s).s.net.active
  {
    SelectKeepsExclusive(s, base, Some(i), lossOf);
  }

  /** `refresh!` as intended: detach the applied row's lines, then forget
      the applied row, the added lines and the table. */
  function Refresh(s: Live): (r: Live)
    ensures r.p == Initial
    ensures r.net.active == s.net.active - AppliedLines(s.p)
    ensures r.net.loss == s.net.loss
  {
    var active := if s.p.current.Some? then DetachAll(s.net.active, s.p.current.value.candidates)
                  else s.net.active;
    Live(Initial, Network(active, s.net.loss))
  }

  /** The intended refresh returns the network to its baseline. */
  lemma RefreshRestoresBase(s: Live, base: set<Edge>)
    requires Exclusive(s, base)
    ensures Refresh(s).net.active == base
    ensures Exclusive(Refresh(s), base)
  {
  }
}
