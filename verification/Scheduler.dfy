/**
 * The choice of a strategy for a client that asks for work (source/WorkSender.cpp): every strategy has a share in
 * percent, and the first one that has sent less than its share of the total is taken. Requests overlap: a unit is
 * recorded later than its strategy was chosen. The doubles of the original are reals here.
 */
module Scheduler {

  function Sum(xs: seq<real>): real {
    if |xs| == 0 then 0.0 else Sum(xs[..|xs| - 1]) + xs[|xs| - 1]
  }

  /** What a strategy with p percent should have sent out of total. */
  function Share(p: real, total: real): real {
    total * p * 0.01
  }

  /** Work of n of the largest units. */
  function Units(n: nat, largest: real): real {
    n as real * largest
  }

  /** Index of the first strategy from i on that is behind its share; 0 when there is none. */
  function FirstBehind(percents: seq<real>, sent: seq<real>, total: real, i: nat): nat
    requires |percents| == |sent| && i <= |sent|
    decreases |sent| - i
  {
    if i == |sent| then 0
    else if sent[i] < Share(percents[i], total) then i
    else FirstBehind(percents, sent, total, i + 1)
  }

  class Strategies {
    const percents: seq<real>
    const workSent: array<real>
    var totalWorkSent: real

    ghost predicate Valid()
      reads this
    {
      workSent.Length == |percents| > 0
    }

    constructor (shares: seq<real>)
      requires |shares| > 0
      ensures Valid() && percents == shares && fresh(workSent) && totalWorkSent == 0.0
      ensures workSent[..] == seq(|shares|, i => 0.0)
    {
      percents, totalWorkSent := shares, 0.0;
      workSent := new real[|shares|](_ => 0.0);
      new;
      assert workSent[..] == seq(|shares|, i => 0.0);
    }

    /** Walks the list of strategies; falls back to the first one. */
    method Choose() returns (i: nat)
      requires Valid()
      ensures i == FirstBehind(percents, workSent[..], totalWorkSent, 0) && i < |percents|
    {
      i := 0;
      while i < workSent.Length && !(workSent[i] < Share(percents[i], totalWorkSent))
        invariant i <= workSent.Length
        invariant FirstBehind(percents, workSent[..], totalWorkSent, 0)
               == FirstBehind(percents, workSent[..], totalWorkSent, i)
        decreases workSent.Length - i
      {
        i := i + 1;
      }
      if i == workSent.Length {
        i := 0;
      }
    }

    /** A unit of work w has been sent with strategy i. */
    method Record(i: nat, w: real)
      requires Valid() && i < |percents|
      modifies this`totalWorkSent, workSent
      ensures Valid() && totalWorkSent == old(totalWorkSent) + w
      ensures workSent[..] == old(workSent[..])[i := old(workSent[i]) + w]
    {
      workSent[i] := workSent[i] + w;
      totalWorkSent := totalWorkSent + w;
    }
  }

  // ---------------------------------------------------------------- shares that add up to a hundred

  function Times(x: real, ratio: real): real {
    x * ratio
  }

  function Scaled(xs: seq<real>, ratio: real): seq<real> {
    seq(|xs|, i requires 0 <= i < |xs| => Times(xs[i], ratio))
  }

  lemma {:induction false} ScaledSum(xs: seq<real>, ratio: real)
    ensures Sum(Scaled(xs, ratio)) == Times(Sum(xs), ratio)
  {
    if |xs| > 0 {
      var n := |xs| - 1;
      ScaledSum(xs[..n], ratio);
      assert Scaled(xs, ratio)[..n] == Scaled(xs[..n], ratio);
      TimesDistributes(Sum(xs[..n]), xs[n], ratio);
      hide Times;
    }
  }

  lemma TimesDistributes(a: real, b: real, ratio: real)
    ensures Times(a + b, ratio) == Times(a, ratio) + Times(b, ratio)
  {
  }

  /** The configured percents are scaled when they do not add up; with a sum of zero there is nothing to scale. */
  method ScaleToHundred(percents: array<real>)
    requires Sum(percents[..]) != 0.0
    modifies percents
    ensures Sum(percents[..]) == 100.0
    ensures percents[..] == Scaled(old(percents[..]), 100.0 / old(Sum(percents[..])))
  {
    hide Times;
    ghost var before := percents[..];
    var total := 0.0;
    for i := 0 to percents.Length
      invariant total == Sum(before[..i]) && percents[..] == before
    {
      assert before[..i + 1][..i] == before[..i];
      total := total + percents[i];
    }
    assert before[..percents.Length] == before;
    RatioScales(before, total, 100.0 / total);
    if total != 100.0 {
      var ratio := 100.0 / total;
      for i := 0 to percents.Length
        invariant forall j :: 0 <= j < i ==> percents[j] == Times(before[j], ratio)
        invariant forall j :: i <= j < percents.Length ==> percents[j] == before[j]
      {
        percents[i] := Times(percents[i], ratio);
      }
      assert percents[..] == Scaled(before, ratio);
    }
  }

  lemma RatioScales(xs: seq<real>, total: real, ratio: real)
    requires total == Sum(xs) && total != 0.0 && ratio == 100.0 / total
    ensures Sum(Scaled(xs, ratio)) == 100.0
    ensures total == 100.0 ==> Scaled(xs, ratio) == xs
  {
    ScaledSum(xs, ratio);
    if total == 100.0 {
      assert ratio == 1.0;
      assert forall i :: 0 <= i < |xs| ==> Times(xs[i], ratio) == xs[i];
    }
  }

  // ---------------------------------------------------------------- overlapping requests

  /** What has been sent, and the strategies of the requests between choice and record. */
  datatype State = State(sent: seq<real>, total: real, open: seq<nat>)

  datatype Action = Choose | Record(request: nat, work: real) | GiveUp(request: nat)

  /** No unit is larger than largest, and no more than limit requests are open at once. */
  datatype Bounds = Bounds(percents: seq<real>, largest: real, limit: nat)

  predicate ValidBounds(b: Bounds) {
    && |b.percents| > 0 && b.largest >= 0.0
    && (forall i :: 0 <= i < |b.percents| ==> b.percents[i] >= 0.0)
    && Sum(b.percents) == 100.0
  }

  function Remove(xs: seq<nat>, i: nat): seq<nat>
    requires i < |xs|
  {
    xs[..i] + xs[i + 1..]
  }

  predicate Enabled(a: Action, b: Bounds, s: State) {
    && |s.sent| == |b.percents| > 0
    && match a
       case Choose => |s.open| < b.limit
       case Record(r, w) => r < |s.open| && s.open[r] < |s.sent| && 0.0 < w <= b.largest
       case GiveUp(r) => r < |s.open|
  }

  function Do(a: Action, b: Bounds, s: State): State
    requires Enabled(a, b, s)
  {
    match a
    case Choose => s.(open := s.open + [FirstBehind(b.percents, s.sent, s.total, 0)])
    case Record(r, w) =>
      var i := s.open[r];
      State(s.sent[i := s.sent[i] + w], s.total + w, Remove(s.open, r))
    case GiveUp(r) => s.(open := Remove(s.open, r))
  }

  function Opened(open: seq<nat>, i: nat): nat {
    multiset(open)[i]
  }

  /**
   * The strategy, with everything its open requests can still add, is not ahead of its share by more than the bound.
   */
  predicate NotAhead(b: Bounds, s: State, i: nat)
    requires i < |s.sent| == |b.percents|
  {
    s.sent[i] + Units(Opened(s.open, i), b.largest) <= Share(b.percents[i], s.total) + Units(b.limit, b.largest)
  }

  ghost predicate Invariant(b: Bounds, s: State) {
    && |s.sent| == |b.percents| && |s.open| <= b.limit && s.total >= 0.0
    && (forall r :: 0 <= r < |s.open| ==> s.open[r] < |s.sent|)
    && Sum(s.sent) == s.total
    && forall i :: 0 <= i < |s.sent| ==> NotAhead(b, s, i)
  }

  // ---------------------------------------------------------------- sums and shares

  function Shares(percents: seq<real>, total: real): seq<real> {
    seq(|percents|, i requires 0 <= i < |percents| => Share(percents[i], total))
  }

  lemma {:induction false} SharesSum(percents: seq<real>, total: real)
    ensures Sum(Shares(percents, total)) == Share(Sum(percents), total)
  {
    if |percents| > 0 {
      var n := |percents| - 1;
      SharesSum(percents[..n], total);
      assert Shares(percents, total)[..n] == Shares(percents[..n], total);
      hide Share;
      Distribute(Sum(percents[..n]), percents[n], total);
    }
  }

  lemma Distribute(a: real, b: real, t: real)
    ensures Share(a + b, t) == Share(a, t) + Share(b, t)
  {
  }

  lemma FullShare(total: real)
    ensures Share(100.0, total) == total
  {
  }

  lemma {:induction false} SumUpdate(xs: seq<real>, i: nat, v: real)
    requires i < |xs|
    ensures Sum(xs[i := v]) == Sum(xs) - xs[i] + v
  {
    var n := |xs| - 1;
    if i == n {
      assert xs[i := v][..n] == xs[..n];
    } else {
      SumUpdate(xs[..n], i, v);
      assert xs[i := v][..n] == xs[..n][i := v];
    }
  }

  /** A sum of terms that are nowhere smaller is larger by at least the gap at any one place. */
  lemma {:induction false} SumDominates(xs: seq<real>, ys: seq<real>, i: nat)
    requires i < |xs| == |ys| && forall j :: 0 <= j < |xs| ==> xs[j] >= ys[j]
    ensures Sum(xs) - Sum(ys) >= xs[i] - ys[i]
  {
    var n := |xs| - 1;
    if i == n {
      SumsOrdered(xs[..n], ys[..n]);
    } else {
      SumDominates(xs[..n], ys[..n], i);
    }
  }

  lemma {:induction false} SumsOrdered(xs: seq<real>, ys: seq<real>)
    requires |xs| == |ys| && forall j :: 0 <= j < |xs| ==> xs[j] >= ys[j]
    ensures Sum(xs) >= Sum(ys)
  {
    if |xs| > 0 {
      SumsOrdered(xs[..|xs| - 1], ys[..|xs| - 1]);
    }
  }

  /** What FirstBehind finds, said without recursion. */
  lemma {:induction false} FirstBehindFinds(percents: seq<real>, sent: seq<real>, total: real, i: nat)
    requires |percents| == |sent| && i <= |sent| && |sent| > 0
    ensures
      var f := FirstBehind(percents, sent, total, i);
      && f < |sent|
      && ((i <= f && sent[f] < Share(percents[f], total)
           && forall j :: i <= j < f ==> sent[j] >= Share(percents[j], total))
          || (f == 0 && forall j :: i <= j < |sent| ==> sent[j] >= Share(percents[j], total)))
    decreases |sent| - i
  {
    if i < |sent| {
      hide Share;
      FirstBehindFinds(percents, sent, total, i + 1);
    }
  }

  /** The chosen strategy has not sent more than its share, not even when the first one is taken for want of another. */
  lemma ChosenNotAhead(b: Bounds, s: State)
    requires ValidBounds(b) && Invariant(b, s)
    ensures
      var i := FirstBehind(b.percents, s.sent, s.total, 0);
      i < |s.sent| && s.sent[i] <= Share(b.percents[i], s.total)
  {
    hide Share, Units;
    var i := FirstBehind(b.percents, s.sent, s.total, 0);
    FirstBehindFinds(b.percents, s.sent, s.total, 0);
    if forall j :: 0 <= j < |s.sent| ==> s.sent[j] >= Share(b.percents[j], s.total) {
      SharesSum(b.percents, s.total);
      FullShare(s.total);
      SumDominates(s.sent, Shares(b.percents, s.total), 0);
    }
  }

  // ---------------------------------------------------------------- every step keeps the bound

  lemma OpenedAfterRemove(open: seq<nat>, r: nat, i: nat)
    requires r < |open|
    ensures Opened(open, i) == Opened(Remove(open, r), i) + (if open[r] == i then 1 else 0)
    ensures forall q :: 0 <= q < |Remove(open, r)| ==> Remove(open, r)[q] in open
  {
    assert open == open[..r] + ([open[r]] + open[r + 1..]);
    assert multiset(open) == multiset(open[..r]) + multiset([open[r]]) + multiset(open[r + 1..]);
    assert multiset(Remove(open, r)) == multiset(open[..r]) + multiset(open[r + 1..]);
  }

  lemma OpenedAtMost(open: seq<nat>, i: nat)
    ensures Opened(open, i) <= |open|
  {
    assert multiset(open)[i] <= |multiset(open)|;
  }

  lemma Scale(a: nat, b: nat, w: real)
    requires a <= b && w >= 0.0
    ensures 0.0 <= Units(a, w) <= Units(b, w)
  {
  }

  lemma ShareGrows(p: real, total: real, w: real)
    requires p >= 0.0 && w >= 0.0
    ensures Share(p, total + w) >= Share(p, total)
  {
    assert p * (total + w) == p * total + p * w;
  }

  lemma ChooseKeepsBound(b: Bounds, s: State, i: nat)
    requires ValidBounds(b) && Invariant(b, s) && Enabled(Choose, b, s) && i < |s.sent|
    ensures NotAhead(b, Do(Choose, b, s), i)
  {
    hide Share, Units;
    assert NotAhead(b, s, i);
    var s' := Do(Choose, b, s);
    var c := FirstBehind(b.percents, s.sent, s.total, 0);
    ChosenNotAhead(b, s);
    assert multiset(s'.open) == multiset(s.open) + multiset([c]);
    if i == c {
      OpenedAtMost(s'.open, i);
      Scale(Opened(s'.open, i), b.limit, b.largest);
    }
  }

  lemma RecordKeepsBound(b: Bounds, s: State, r: nat, w: real, i: nat)
    requires ValidBounds(b) && Invariant(b, s) && Enabled(Record(r, w), b, s) && i < |s.sent|
    ensures NotAhead(b, Do(Record(r, w), b, s), i)
  {
    hide Share, Units;
    assert NotAhead(b, s, i);
    OpenedAfterRemove(s.open, r, i);
    ShareGrows(b.percents[i], s.total, w);
    OneUnitLess(Opened(s.open, i), b.largest);
  }

  lemma OneUnitLess(k: nat, w: real)
    ensures k > 0 ==> Units(k - 1, w) == Units(k, w) - w
    ensures Units(0, w) == 0.0
  {
  }

  lemma GiveUpKeepsBound(b: Bounds, s: State, r: nat, i: nat)
    requires ValidBounds(b) && Invariant(b, s) && Enabled(GiveUp(r), b, s) && i < |s.sent|
    ensures NotAhead(b, Do(GiveUp(r), b, s), i)
  {
    hide Share, Units;
    assert NotAhead(b, s, i);
    OpenedAfterRemove(s.open, r, i);
    Scale(Opened(Remove(s.open, r), i), Opened(s.open, i), b.largest);
  }

  lemma StepKeepsInvariant(a: Action, b: Bounds, s: State)
    requires ValidBounds(b) && Invariant(b, s) && Enabled(a, b, s)
    ensures Invariant(b, Do(a, b, s))
  {
    var s' := Do(a, b, s);
    hide NotAhead, ValidBounds;
    forall i | 0 <= i < |s.sent|
      ensures |s'.sent| == |s.sent| && NotAhead(b, s', i)
    {
      match a
      case Choose => ChooseKeepsBound(b, s, i);
      case Record(r, w) => RecordKeepsBound(b, s, r, w, i);
      case GiveUp(r) => GiveUpKeepsBound(b, s, r, i);
    }
    match a
    case Choose =>
      FirstBehindFinds(b.percents, s.sent, s.total, 0);
    case Record(r, w) =>
      SumUpdate(s.sent, s.open[r], s.sent[s.open[r]] + w);
      OpenedAfterRemove(s.open, r, 0);
    case GiveUp(r) =>
      OpenedAfterRemove(s.open, r, 0);
  }

  // ---------------------------------------------------------------- every run

  predicate CanRun(b: Bounds, s: State, run: seq<Action>)
    decreases |run|
  {
    |run| == 0 || (Enabled(run[0], b, s) && CanRun(b, Do(run[0], b, s), run[1..]))
  }

  function Run(b: Bounds, s: State, run: seq<Action>): State
    requires CanRun(b, s, run)
    decreases |run|
  {
    if |run| == 0 then s else Run(b, Do(run[0], b, s), run[1..])
  }

  function Fresh(b: Bounds): State {
    State(seq(|b.percents|, i => 0.0), 0.0, [])
  }

  lemma {:induction false} ZeroSum(n: nat)
    ensures Sum(seq(n, i => 0.0)) == 0.0
  {
    if n > 0 {
      ZeroSum(n - 1);
      assert seq(n, i => 0.0)[..n - 1] == seq(n - 1, i => 0.0);
    }
  }

  lemma FreshHolds(b: Bounds)
    requires ValidBounds(b)
    ensures Invariant(b, Fresh(b))
  {
    ZeroSum(|b.percents|);
    Scale(0, b.limit, b.largest);
  }

  lemma {:induction false} RunKeepsInvariant(b: Bounds, s: State, run: seq<Action>)
    requires ValidBounds(b) && Invariant(b, s) && CanRun(b, s, run)
    ensures Invariant(b, Run(b, s, run))
    decreases |run|
  {
    if |run| > 0 {
      hide Invariant, ValidBounds, Enabled, Do;
      StepKeepsInvariant(run[0], b, s);
      RunKeepsInvariant(b, Do(run[0], b, s), run[1..]);
    }
  }

  /** What the other strategies may be ahead together bounds how far one may be behind. */
  lemma {:induction false} OthersBound(xs: seq<real>, ys: seq<real>, i: nat, slack: real)
    requires i < |xs| == |ys| && forall j :: 0 <= j < |xs| && j != i ==> xs[j] <= ys[j] + slack
    ensures Sum(xs) - xs[i] <= Sum(ys) - ys[i] + Units(|xs| - 1, slack)
  {
    hide Units;
    var n := |xs| - 1;
    if i == n {
      AllBound(xs[..n], ys[..n], slack);
    } else {
      OthersBound(xs[..n], ys[..n], i, slack);
      OneUnitLess(n, slack);
    }
  }

  lemma {:induction false} AllBound(xs: seq<real>, ys: seq<real>, slack: real)
    requires |xs| == |ys| && forall j :: 0 <= j < |xs| ==> xs[j] <= ys[j] + slack
    ensures Sum(xs) <= Sum(ys) + Units(|xs|, slack)
  {
    hide Units;
    OneUnitLess(|xs|, slack);
    if |xs| > 0 {
      AllBound(xs[..|xs| - 1], ys[..|xs| - 1], slack);
    }
  }

  /**
   * In every reachable state each strategy has sent its share of the total, give or take the units that overlapping
   * requests can add: above by at most limit * largest, below by at most that much for each other strategy.
   */
  lemma SharesDriftBounded(b: Bounds, run: seq<Action>, i: nat)
    requires ValidBounds(b) && CanRun(b, Fresh(b), run) && i < |b.percents|
    ensures
      var s := Run(b, Fresh(b), run);
      var slack := Units(b.limit, b.largest);
      && |s.sent| == |b.percents| && Sum(s.sent) == s.total
      && s.sent[i] <= Share(b.percents[i], s.total) + slack
      && s.sent[i] >= Share(b.percents[i], s.total) - Units(|b.percents| - 1, slack)
  {
    hide Share, Units;
    FreshHolds(b);
    RunKeepsInvariant(b, Fresh(b), run);
    var s := Run(b, Fresh(b), run);
    var slack := Units(b.limit, b.largest);
    forall j | 0 <= j < |s.sent|
      ensures s.sent[j] <= Shares(b.percents, s.total)[j] + slack
    {
      assert NotAhead(b, s, j);
      Scale(0, Opened(s.open, j), b.largest);
    }
    SharesSum(b.percents, s.total);
    FullShare(s.total);
    OthersBound(s.sent, Shares(b.percents, s.total), i, slack);
  }
}
