/** The shared core of the patch-choice foraging model: the boundary clamp, the
    expected-survival formula, the per-state choice of the best patch, and the
    step-by-step specification of the backward induction that both engine
    variants (backward.py and the earlier patch.py) carry out in place.

    Energy reserves are integer states; the fitness arrays F0 and F1 and the
    decision array D are indexed by state 0 .. xMax. */
module Foraging {

  /** One foraging option: energy spent per timestep, probability of being
      taken by a predator, probability of finding food, and energy gained when
      food is found. */
  datatype Patch = Patch(cost: int, predProb: real, foodProb: real, increment: int)

  /** The bounds every caller of the engine sets up: the critical reserve is a
      valid array index strictly below the capacity. */
  predicate ValidBounds(xCrit: int, xMax: int) {
    0 <= xCrit < xMax
  }

  predicate IsProbability(p: real) {
    0.0 <= p <= 1.0
  }

  predicate ProbabilisticPatches(ps: seq<Patch>) {
    forall i :: 0 <= i < |ps| ==> IsProbability(ps[i].predProb) && IsProbability(ps[i].foodProb)
  }

  predicate AllProbabilities(s: seq<real>) {
    forall i :: 0 <= i < |s| ==> IsProbability(s[i])
  }

  predicate NonDecreasing(s: seq<real>) {
    forall i, j :: 0 <= i <= j < |s| ==> s[i] <= s[j]
  }

  // ---------------------------------------------------------------------------
  // chop and compute_v
  // ---------------------------------------------------------------------------

  /** chop: the reserve an organism is left with after a transition. Below the
      critical level it is dead (state 0); above the capacity the excess is lost.
      The source tests "above the capacity" after "below critical", so when both
      hold the capacity wins; that needs xCrit > xMax and never arises here. */
  function Chop(x: int, xCrit: int, xMax: int): (r: int)
    ensures xCrit < xMax ==>
      && (x < xCrit ==> r == 0)
      && (x > xMax ==> r == xMax)
      && (xCrit <= x <= xMax ==> r == x)
    ensures 0 <= xCrit <= xMax ==> 0 <= r <= xMax && (r == 0 || xCrit <= r)
  {
    if x > xMax then xMax
    else if xCrit <= x then x
    else 0
  }

  /** Larger reserves before the clamp never give a smaller state after it. */
  lemma ChopMonotone(x: int, x': int, xCrit: int, xMax: int)
    requires 0 <= xCrit <= xMax && x <= x'
    ensures Chop(x, xCrit, xMax) <= Chop(x', xCrit, xMax)
  {
  }

  lemma ScaleMonotone(c: real, p: real, q: real)
    requires 0.0 <= c && p <= q
    ensures c * p <= c * q
  {
  }

  lemma ScaleBounded(c: real, p: real)
    requires 0.0 <= c && 0.0 <= p <= 1.0
    ensures 0.0 <= c * p <= c
  {
    ScaleMonotone(c, 0.0, p);
    ScaleMonotone(c, p, 1.0);
  }

  /** The survival formula of compute_v: escape the predator (1 - b), then
      either find food (l) and go on with fitness `fed`, or not (1 - l) and go
      on with fitness `unfed`. Certain predation leaves no chance of survival,
      and when both outcomes lead to the same fitness, finding food does not
      matter. */
  function Survival(b: real, l: real, fed: real, unfed: real): (r: real)
    ensures b == 1.0 ==> r == 0.0
    ensures fed == unfed ==> r == (1.0 - b) * fed
  {
    (1.0 - b) * (l * fed + (1.0 - l) * unfed)
  }

  /** The survival formula maps probabilities to a probability. */
  lemma SurvivalIsProbability(b: real, l: real, fed: real, unfed: real)
    ensures IsProbability(b) && IsProbability(l) && IsProbability(fed) && IsProbability(unfed)
      ==> IsProbability(Survival(b, l, fed, unfed))
  {
    if IsProbability(b) && IsProbability(l) && IsProbability(fed) && IsProbability(unfed) {
      var miss, escape := 1.0 - l, 1.0 - b;
      ScaleBounded(l, fed);
      ScaleBounded(miss, unfed);
      var fedPart, unfedPart := l * fed, miss * unfed;
      assert 0.0 <= fedPart <= l && 0.0 <= unfedPart <= miss;
      assert 0.0 <= fedPart + unfedPart <= 1.0;
      ScaleBounded(escape, fedPart + unfedPart);
      assert Survival(b, l, fed, unfed) == escape * (fedPart + unfedPart);
    }
  }

  /** Averaging over finding food or not is monotone in both outcomes. */
  lemma MixMonotone(l: real, fed: real, unfed: real, fed': real, unfed': real)
    requires IsProbability(l) && fed <= fed' && unfed <= unfed'
    ensures l * fed + (1.0 - l) * unfed <= l * fed' + (1.0 - l) * unfed'
  {
    ScaleMonotone(l, fed, fed');
    ScaleMonotone(1.0 - l, unfed, unfed');
    var fedPart, fedPart' := l * fed, l * fed';
    var unfedPart, unfedPart' := (1.0 - l) * unfed, (1.0 - l) * unfed';
    assert fedPart <= fedPart';
    assert unfedPart <= unfedPart';
  }

  /** The survival formula is monotone in both continuation fitnesses. */
  lemma SurvivalMonotone(b: real, l: real, fed: real, unfed: real, fed': real, unfed': real)
    requires IsProbability(b) && IsProbability(l) && fed <= fed' && unfed <= unfed'
    ensures Survival(b, l, fed, unfed) <= Survival(b, l, fed', unfed')
  {
    MixMonotone(l, fed, unfed, fed', unfed');
    ScaleMonotone(1.0 - b, l * fed + (1.0 - l) * unfed, l * fed' + (1.0 - l) * unfed');
  }

  /** compute_v: probability of surviving this timestep's predation and then the
      rest of the horizon, averaged over finding food (reserve x - a + y) and
      not finding it (reserve x - a), each clamped by chop. */
  function ComputeV(x: int, a: int, b: real, l: real, y: int, xCrit: int, xMax: int, f1: seq<real>): (v: real)
    requires ValidBounds(xCrit, xMax) && |f1| == xMax + 1
    ensures IsProbability(b) && IsProbability(l) && AllProbabilities(f1) ==> IsProbability(v)
  {
    var fed := f1[Chop(x - a + y, xCrit, xMax)];
    var unfed := f1[Chop(x - a, xCrit, xMax)];
    SurvivalIsProbability(b, l, fed, unfed);
    Survival(b, l, fed, unfed)
  }

  /** Greater energy reserves give at least the same survival value for a
      fixed patch, provided the next-step fitness is non-decreasing. */
  lemma ComputeVMonotone(x: int, x': int, a: int, b: real, l: real, y: int, xCrit: int, xMax: int, f1: seq<real>)
    requires ValidBounds(xCrit, xMax) && |f1| == xMax + 1
    requires NonDecreasing(f1) && IsProbability(b) && IsProbability(l) && x <= x'
    ensures ComputeV(x, a, b, l, y, xCrit, xMax, f1) <= ComputeV(x', a, b, l, y, xCrit, xMax, f1)
  {
    ChopMonotone(x - a + y, x' - a + y, xCrit, xMax);
    ChopMonotone(x - a, x' - a, xCrit, xMax);
    SurvivalMonotone(b, l, f1[Chop(x - a + y, xCrit, xMax)], f1[Chop(x - a, xCrit, xMax)],
                     f1[Chop(x' - a + y, xCrit, xMax)], f1[Chop(x' - a, xCrit, xMax)]);
  }

  // ---------------------------------------------------------------------------
  // The per-state patch loop
  // ---------------------------------------------------------------------------

  /** The survival value of every patch, in registry order, for state x. */
  function Values(x: int, ps: seq<Patch>, xCrit: int, xMax: int, f1: seq<real>): (vs: seq<real>)
    requires ValidBounds(xCrit, xMax) && |f1| == xMax + 1
    ensures |vs| == |ps|
  {
    seq(|ps|, i requires 0 <= i < |ps| =>
      ComputeV(x, ps[i].cost, ps[i].predProb, ps[i].foodProb, ps[i].increment, xCrit, xMax, f1))
  }

  /** The state of the patch loop, whose running maximum starts at 0: either no
      patch has beaten it (Keep: the state's F0 and D entries are left as they
      were), or patch `index` holds the maximum `value` so far. */
  datatype Choice = Keep | Take(value: real, index: nat)

  /** The running maximum `vm`. */
  function Gain(c: Choice): real {
    if c.Take? then c.value else 0.0
  }

  /** What F0[x] holds once the loop is over, given what it held before. */
  function Settle(c: Choice, kept: real): real {
    if c.Take? then c.value else kept
  }

  /** What D[x] holds once the loop is over: the winning patch's position plus
      `offset` (0 in backward.py, 1 in patch.py, which numbers patches from 1). */
  function Record(c: Choice, kept: int, offset: int): int {
    if c.Take? then c.index + offset else kept
  }

  /** The loop over the first k patches with the strict test `v > vm`, the
      running maximum starting at 0: a patch it takes is one of the first k,
      with its own value, and that value is above 0. */
  function Scan(vs: seq<real>, k: nat): (c: Choice)
    requires k <= |vs|
    ensures c.Take? ==> c.index < k && c.value == vs[c.index] && 0.0 < c.value
  {
    if k == 0 then Keep
    else
      var c := Scan(vs, k - 1);
      if vs[k - 1] > Gain(c) then Take(vs[k - 1], k - 1) else c
  }

  /** The loop keeps the old entries exactly when no value is above 0;
      otherwise it takes the largest value, attained first at `index`. */
  lemma {:induction false} ScanFindsFirstMaximum(vs: seq<real>, k: nat)
    requires k <= |vs|
    ensures Scan(vs, k).Keep? <==> forall j :: 0 <= j < k ==> vs[j] <= 0.0
    ensures Scan(vs, k).Take? ==>
      && Scan(vs, k).index < k && vs[Scan(vs, k).index] == Scan(vs, k).value && 0.0 < Scan(vs, k).value
      && (forall j :: 0 <= j < k ==> vs[j] <= Scan(vs, k).value)
      && (forall j :: 0 <= j < Scan(vs, k).index ==> vs[j] < Scan(vs, k).value)
  {
    if k > 0 {
      ScanFindsFirstMaximum(vs, k - 1);
    }
  }

  /** The choice made for state x against next-step fitness f1. */
  function Pick(x: int, ps: seq<Patch>, xCrit: int, xMax: int, f1: seq<real>): Choice
    requires ValidBounds(xCrit, xMax) && |f1| == xMax + 1
  {
    Scan(Values(x, ps, xCrit, xMax, f1), |ps|)
  }

  /** If every value of one list is at most the matching value of another, the
      running maximum over any prefix of the first is at most that of the
      second, and never below 0. */
  lemma {:induction false} GainMonotone(vs: seq<real>, ws: seq<real>, k: nat)
    requires k <= |vs| == |ws| && forall i :: 0 <= i < |vs| ==> vs[i] <= ws[i]
    ensures 0.0 <= Gain(Scan(vs, k)) <= Gain(Scan(ws, k))
  {
    if k > 0 {
      GainMonotone(vs, ws, k - 1);
    }
  }

  // ---------------------------------------------------------------------------
  // One timestep and the whole backward run
  // ---------------------------------------------------------------------------

  /** The three arrays of the engine. */
  datatype Tables = Tables(f0: seq<real>, f1: seq<real>, d: seq<int>)

  predicate Shaped(s: Tables, xMax: int) {
    |s.f0| == xMax + 1 && |s.f1| == xMax + 1 && |s.d| == xMax + 1
  }

  /** The dead states 0 .. xCrit hold fitness 0 and decision 0 in all three arrays. */
  predicate DeadStatesZero(s: Tables, xCrit: int, xMax: int)
    requires Shaped(s, xMax) && 0 <= xCrit <= xMax
  {
    forall x :: 0 <= x <= xCrit ==> s.f0[x] == 0.0 && s.f1[x] == 0.0 && s.d[x] == 0
  }

  /** init_f: F0 and D all 0; F1 is 1 exactly on the living states xCrit < x. */
  function Initial(xCrit: int, xMax: int): (s: Tables)
    requires ValidBounds(xCrit, xMax)
    ensures Shaped(s, xMax)
  {
    Tables(seq(xMax + 1, _ => 0.0),
           seq(xMax + 1, x => if xCrit < x then 1.0 else 0.0),
           seq(xMax + 1, _ => 0))
  }

  /** The terminal condition: every state starts with fitness 0 and decision
      0, and the fitness one step later is 1 exactly on the living states. */
  lemma InitialValues(xCrit: int, xMax: int, x: int)
    requires ValidBounds(xCrit, xMax) && 0 <= x <= xMax
    ensures Initial(xCrit, xMax).f0[x] == 0.0 && Initial(xCrit, xMax).d[x] == 0
    ensures Initial(xCrit, xMax).f1[x] == 1.0 <==> xCrit < x
    ensures Initial(xCrit, xMax).f1[x] == 0.0 <==> x <= xCrit
  {
  }

  /** The patch loop of one timestep over every living state, as the source
      writes it: F0[x] and D[x] change only when some patch scores above 0. */
  function Decide(xCrit: int, xMax: int, ps: seq<Patch>, s: Tables, offset: int): (r: Tables)
    requires ValidBounds(xCrit, xMax) && Shaped(s, xMax)
    ensures Shaped(r, xMax) && r.f1 == s.f1
    ensures forall x :: 0 <= x <= xCrit ==> r.f0[x] == s.f0[x] && r.d[x] == s.d[x]
  {
    Tables(seq(xMax + 1, x requires 0 <= x <= xMax => DecidedFitness(x, xCrit, xMax, ps, s)),
           s.f1,
           seq(xMax + 1, x requires 0 <= x <= xMax => DecidedPatch(x, xCrit, xMax, ps, s, offset)))
  }

  /** F0[x] after the patch loop of one timestep. */
  function DecidedFitness(x: int, xCrit: int, xMax: int, ps: seq<Patch>, s: Tables): real
    requires ValidBounds(xCrit, xMax) && Shaped(s, xMax) && 0 <= x <= xMax
  {
    if xCrit < x then Settle(Pick(x, ps, xCrit, xMax, s.f1), s.f0[x]) else s.f0[x]
  }

  /** D[x] after the patch loop of one timestep. */
  function DecidedPatch(x: int, xCrit: int, xMax: int, ps: seq<Patch>, s: Tables, offset: int): int
    requires ValidBounds(xCrit, xMax) && Shaped(s, xMax) && 0 <= x <= xMax
  {
    if xCrit < x then Record(Pick(x, ps, xCrit, xMax, s.f1), s.d[x], offset) else s.d[x]
  }

  /** A whole timestep: the patch loop, then F1 := F0. */
  function Update(xCrit: int, xMax: int, ps: seq<Patch>, s: Tables, offset: int): (r: Tables)
    requires ValidBounds(xCrit, xMax) && Shaped(s, xMax)
    ensures Shaped(r, xMax) && r.f1 == r.f0
  {
    var c := Decide(xCrit, xMax, ps, s, offset);
    Tables(c.f0, c.f0, c.d)
  }

  /** The arrays after n timesteps of backward induction. */
  function Run(n: nat, xCrit: int, xMax: int, ps: seq<Patch>, offset: int): (s: Tables)
    requires ValidBounds(xCrit, xMax)
    ensures Shaped(s, xMax)
    ensures n > 0 ==> s.f1 == s.f0
  {
    if n == 0 then Initial(xCrit, xMax)
    else Update(xCrit, xMax, ps, Run(n - 1, xCrit, xMax, ps, offset), offset)
  }

  /** What the patch loop does to a living state x: when some patch scores
      above 0, F0[x] becomes the largest score and D[x] names (plus `offset`)
      the lowest-indexed patch reaching it; otherwise both keep their old
      values. States at or below xCrit are never touched. */
  lemma DecideChoosesFirstMaximum(xCrit: int, xMax: int, ps: seq<Patch>, s: Tables, offset: int, x: int)
    requires ValidBounds(xCrit, xMax) && Shaped(s, xMax) && 0 <= x <= xMax
    ensures var r := Decide(xCrit, xMax, ps, s, offset);
      var vs := Values(x, ps, xCrit, xMax, s.f1);
      && ((x <= xCrit || forall j :: 0 <= j < |ps| ==> vs[j] <= 0.0) ==> r.f0[x] == s.f0[x] && r.d[x] == s.d[x])
      && (xCrit < x && (exists j :: 0 <= j < |ps| && vs[j] > 0.0) ==>
            var i := r.d[x] - offset;
            && 0 <= i < |ps|
            && r.f0[x] == vs[i] > 0.0
            && (forall j :: 0 <= j < |ps| ==> vs[j] <= vs[i])
            && (forall j :: 0 <= j < i ==> vs[j] < vs[i]))
  {
    ScanFindsFirstMaximum(Values(x, ps, xCrit, xMax, s.f1), |ps|);
  }

  /** Invariants of the run: after the first timestep F1 equals F0, and the
      dead states 0 .. xCrit keep fitness 0 and decision 0 throughout. */
  lemma {:induction false} RunInvariants(n: nat, xCrit: int, xMax: int, ps: seq<Patch>, offset: int)
    requires ValidBounds(xCrit, xMax)
    ensures n > 0 ==> Run(n, xCrit, xMax, ps, offset).f1 == Run(n, xCrit, xMax, ps, offset).f0
    ensures DeadStatesZero(Run(n, xCrit, xMax, ps, offset), xCrit, xMax)
  {
    if n > 0 {
      RunInvariants(n - 1, xCrit, xMax, ps, offset);
    }
  }

  /** Every fitness value the run computes is a probability when every patch's
      probabilities are. */
  lemma {:induction false} RunIsProbability(n: nat, xCrit: int, xMax: int, ps: seq<Patch>, offset: int)
    requires ValidBounds(xCrit, xMax) && ProbabilisticPatches(ps)
    ensures AllProbabilities(Run(n, xCrit, xMax, ps, offset).f0)
    ensures AllProbabilities(Run(n, xCrit, xMax, ps, offset).f1)
  {
    if n > 0 {
      RunIsProbability(n - 1, xCrit, xMax, ps, offset);
      var s := Run(n - 1, xCrit, xMax, ps, offset);
      var r := Decide(xCrit, xMax, ps, s, offset);
      forall x | 0 <= x <= xMax
        ensures IsProbability(r.f0[x])
      {
        if xCrit < x {
          var vs := Values(x, ps, xCrit, xMax, s.f1);
          assert forall j :: 0 <= j < |vs| ==> IsProbability(vs[j]);
          ScanFindsFirstMaximum(vs, |ps|);
        }
      }
    }
  }

  /** Every entry of D is either the initial 0 or the number of a patch
      (its position plus `offset`). */
  lemma {:induction false} RunChoiceInRange(n: nat, xCrit: int, xMax: int, ps: seq<Patch>, offset: int)
    requires ValidBounds(xCrit, xMax)
    ensures forall x :: 0 <= x <= xMax ==>
      Run(n, xCrit, xMax, ps, offset).d[x] == 0 || offset <= Run(n, xCrit, xMax, ps, offset).d[x] < offset + |ps|
  {
    if n > 0 {
      RunChoiceInRange(n - 1, xCrit, xMax, ps, offset);
      var s := Run(n - 1, xCrit, xMax, ps, offset);
      var r := Decide(xCrit, xMax, ps, s, offset);
      forall x | 0 <= x <= xMax
        ensures r.d[x] == 0 || offset <= r.d[x] < offset + |ps|
      {
        assert s.d[x] == 0 || offset <= s.d[x] < offset + |ps|;
        if xCrit < x {
          var c := Pick(x, ps, xCrit, xMax, s.f1);
          assert r.d[x] == Record(c, s.d[x], offset);
          if c.Take? {
            ScanFindsFirstMaximum(Values(x, ps, xCrit, xMax, s.f1), |ps|);
            assert c.index < |ps|;
          }
        } else {
          assert r.d[x] == s.d[x];
        }
      }
    }
  }

  // ---------------------------------------------------------------------------
  // The intended timestep: F0[x] := vm after the patch loop
  // ---------------------------------------------------------------------------

  /** The timestep with the running maximum stored unconditionally, so that a
      state where no patch gives a positive survival value scores 0 instead of
      keeping the previous timestep's value. */
  function IntendedUpdate(xCrit: int, xMax: int, ps: seq<Patch>, s: Tables, offset: int): (r: Tables)
    requires ValidBounds(xCrit, xMax) && Shaped(s, xMax)
    ensures Shaped(r, xMax) && r.f1 == r.f0
    ensures forall x :: 0 <= x <= xCrit ==> r.f0[x] == s.f0[x]
  {
    var f0 := seq(xMax + 1, x requires 0 <= x <= xMax =>
      if xCrit < x then Gain(Pick(x, ps, xCrit, xMax, s.f1)) else s.f0[x]);
    Tables(f0, f0, Decide(xCrit, xMax, ps, s, offset).d)
  }

  /** The arrays after n intended timesteps. */
  function IntendedRun(n: nat, xCrit: int, xMax: int, ps: seq<Patch>, offset: int): (s: Tables)
    requires ValidBounds(xCrit, xMax)
    ensures Shaped(s, xMax)
    ensures n > 0 ==> s.f1 == s.f0
  {
    if n == 0 then Initial(xCrit, xMax)
    else IntendedUpdate(xCrit, xMax, ps, IntendedRun(n - 1, xCrit, xMax, ps, offset), offset)
  }

  /** One intended timestep keeps fitness non-decreasing in the state: a
      higher living state scores at least as much on every patch, so its
      running maximum is at least as large. */
  lemma IntendedStepMonotone(xCrit: int, xMax: int, ps: seq<Patch>, s: Tables, offset: int, x: int, x': int)
    requires ValidBounds(xCrit, xMax) && Shaped(s, xMax) && ProbabilisticPatches(ps)
    requires NonDecreasing(s.f1) && DeadStatesZero(s, xCrit, xMax)
    requires 0 <= x <= x' <= xMax
    ensures IntendedUpdate(xCrit, xMax, ps, s, offset).f0[x] <= IntendedUpdate(xCrit, xMax, ps, s, offset).f0[x']
  {
    var vs' := Values(x', ps, xCrit, xMax, s.f1);
    if xCrit < x {
      var vs := Values(x, ps, xCrit, xMax, s.f1);
      forall i | 0 <= i < |ps|
        ensures vs[i] <= vs'[i]
      {
        ComputeVMonotone(x, x', ps[i].cost, ps[i].predProb, ps[i].foodProb, ps[i].increment, xCrit, xMax, s.f1);
      }
      GainMonotone(vs, vs', |ps|);
    } else if xCrit < x' {
      GainMonotone(vs', vs', |ps|);
    }
  }

  /** One intended timestep keeps both fitness arrays non-decreasing and the
      dead states at 0. */
  lemma IntendedUpdateMonotone(xCrit: int, xMax: int, ps: seq<Patch>, s: Tables, offset: int)
    requires ValidBounds(xCrit, xMax) && Shaped(s, xMax) && ProbabilisticPatches(ps)
    requires NonDecreasing(s.f1) && DeadStatesZero(s, xCrit, xMax)
    ensures NonDecreasing(IntendedUpdate(xCrit, xMax, ps, s, offset).f0)
    ensures NonDecreasing(IntendedUpdate(xCrit, xMax, ps, s, offset).f1)
    ensures DeadStatesZero(IntendedUpdate(xCrit, xMax, ps, s, offset), xCrit, xMax)
  {
    var r := IntendedUpdate(xCrit, xMax, ps, s, offset);
    forall x, x' | 0 <= x <= x' <= xMax
      ensures r.f0[x] <= r.f0[x']
    {
      IntendedStepMonotone(xCrit, xMax, ps, s, offset, x, x');
    }
  }

  /** The terminal condition is non-decreasing in the state and zero on the
      dead states. */
  lemma InitialMonotone(xCrit: int, xMax: int)
    requires ValidBounds(xCrit, xMax)
    ensures NonDecreasing(Initial(xCrit, xMax).f0) && NonDecreasing(Initial(xCrit, xMax).f1)
    ensures DeadStatesZero(Initial(xCrit, xMax), xCrit, xMax)
  {
    forall x, x' | 0 <= x <= x' <= xMax
      ensures Initial(xCrit, xMax).f1[x] <= Initial(xCrit, xMax).f1[x']
    {
      InitialValues(xCrit, xMax, x);
      InitialValues(xCrit, xMax, x');
    }
    forall x | 0 <= x <= xMax
      ensures Initial(xCrit, xMax).f0[x] == 0.0
    {
      InitialValues(xCrit, xMax, x);
    }
  }

  /** With the intended timestep, greater energy reserves never give lower
      fitness, at every timestep, and dead states stay at 0. */
  lemma {:induction false} IntendedRunMonotone(n: nat, xCrit: int, xMax: int, ps: seq<Patch>, offset: int)
    requires ValidBounds(xCrit, xMax) && ProbabilisticPatches(ps)
    ensures NonDecreasing(IntendedRun(n, xCrit, xMax, ps, offset).f0)
    ensures NonDecreasing(IntendedRun(n, xCrit, xMax, ps, offset).f1)
    ensures DeadStatesZero(IntendedRun(n, xCrit, xMax, ps, offset), xCrit, xMax)
  {
    if n == 0 {
      InitialMonotone(xCrit, xMax);
    } else {
      IntendedRunMonotone(n - 1, xCrit, xMax, ps, offset);
      IntendedUpdateMonotone(xCrit, xMax, ps, IntendedRun(n - 1, xCrit, xMax, ps, offset), offset);
    }
  }

  /** The choice for a living state in the example below: the only patch
      scores half the next-step fitness of one state lower. */
  lemma ExamplePick(x: int, f1: seq<real>)
    requires |f1| == 4 && 1 <= x <= 3
    ensures Pick(x, [Patch(1, 0.5, 0.0, 0)], 0, 3, f1) ==
      if 0.5 * f1[x - 1] > 0.0 then Take(0.5 * f1[x - 1], 0) else Keep
  {
    var ps := [Patch(1, 0.5, 0.0, 0)];
    assert Chop(x - 1, 0, 3) == x - 1;
    var unfed := f1[x - 1];
    assert Survival(0.5, 0.0, unfed, unfed) == 0.5 * unfed;
    var vs := Values(x, ps, 0, 3, f1);
    assert vs == [0.5 * unfed];
    assert Scan(vs, 0) == Keep;
  }

  /** The stale write shown on a concrete run: one patch (cost 1, predation
      0.5, no food), xCrit = 0, xMax = 3. After two timesteps state 2 is certain
      to starve, yet F0[2] keeps the 0.5 of the previous timestep and exceeds
      F0[3] = 0.25; the intended timestep gives F0[2] = 0. */
  lemma StaleFitnessExample()
    ensures Run(2, 0, 3, [Patch(1, 0.5, 0.0, 0)], 0).f0 == [0.0, 0.0, 0.5, 0.25]
    ensures !NonDecreasing(Run(2, 0, 3, [Patch(1, 0.5, 0.0, 0)], 0).f0)
    ensures IntendedRun(2, 0, 3, [Patch(1, 0.5, 0.0, 0)], 0).f0 == [0.0, 0.0, 0.0, 0.25]
  {
    var ps := [Patch(1, 0.5, 0.0, 0)];
    var s0 := Run(0, 0, 3, ps, 0);
    assert s0.f0 == [0.0, 0.0, 0.0, 0.0];
    assert s0.f1 == [0.0, 1.0, 1.0, 1.0];
    ExamplePick(1, s0.f1);
    ExamplePick(2, s0.f1);
    ExamplePick(3, s0.f1);
    var s1 := Run(1, 0, 3, ps, 0);
    assert s1.f0 == [0.0, 0.0, 0.5, 0.5];
    assert s1.f1 == s1.f0;
    ExamplePick(1, s1.f1);
    ExamplePick(2, s1.f1);
    ExamplePick(3, s1.f1);
    var s2 := Run(2, 0, 3, ps, 0);
    assert s2.f0 == [0.0, 0.0, 0.5, 0.25];
    assert s2.f0[2] > s2.f0[3];
    var i1 := IntendedRun(1, 0, 3, ps, 0);
    assert i1 == s1;
    var i2 := IntendedRun(2, 0, 3, ps, 0);
    assert i2.f0 == [0.0, 0.0, 0.0, 0.25];
  }

  // ---------------------------------------------------------------------------
  // init_f
  // ---------------------------------------------------------------------------

  /** init_f: three fresh arrays over states 0 .. xMax, F1 set to 1 on the
      living states. */
  method InitF(xCrit: int, xMax: int) returns (F0: array<real>, F1: array<real>, D: array<int>)
    requires ValidBounds(xCrit, xMax)
    ensures fresh(F0) && fresh(F1) && fresh(D) && F0 != F1
    ensures Tables(F0[..], F1[..], D[..]) == Initial(xCrit, xMax)
  {
    F0 := new real[xMax + 1](_ => 0.0);
    F1 := new real[xMax + 1](_ => 0.0);
    D := new int[xMax + 1](_ => 0);
    for x := xCrit to xMax + 1
      invariant forall y :: 0 <= y <= xMax ==> F0[y] == 0.0 && D[y] == 0
      invariant forall y :: 0 <= y <= xMax ==> F1[y] == if xCrit < y < x then 1.0 else 0.0
    {
      if x > xCrit {
        F1[x] := 1.0;
      }
    }
  }
}
