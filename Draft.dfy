/** patch.py: the earlier, self-contained draft of the same engine. Its chop,
    compute_v and init_f are those of Foraging; it differs in numbering the
    patches in D from 1, in counting t down from n_timesteps to 1 with a
    `while` loop, and in building its patch records with new_patch. */
module Draft {
  import opened Foraging

  // ---------------------------------------------------------------------------
  // Patch records
  // ---------------------------------------------------------------------------

  /** A patch record of the draft: the four parameters of the engine plus an
      expected gain that is stored and never read. */
  datatype DraftPatch = DraftPatch(cost: int, predProb: real, foodProb: real, increment: int, expected: real)

  /** new_patch: a record holding exactly its five arguments. */
  function NewPatch(cost: int, predProb: real, foodProb: real, increment: int, expected: real): (p: DraftPatch)
    ensures p.cost == cost && p.predProb == predProb && p.foodProb == foodProb
    ensures p.increment == increment && p.expected == expected
  {
    DraftPatch(cost, predProb, foodProb, increment, expected)
  }

  /** The parameters the engine reads from a draft patch. */
  function Engine(p: DraftPatch): Patch {
    Patch(p.cost, p.predProb, p.foodProb, p.increment)
  }

  function Engines(ps: seq<DraftPatch>): (r: seq<Patch>)
    ensures |r| == |ps| && forall i :: 0 <= i < |ps| ==> r[i] == Engine(ps[i])
  {
    seq(|ps|, i requires 0 <= i < |ps| => Engine(ps[i]))
  }

  // ---------------------------------------------------------------------------
  // process_timestep
  // ---------------------------------------------------------------------------

  /** The patch loop of process_timestep for one living state x: like max_v's,
      but D[x] records the position of the winning patch plus 1. */
  method PatchLoop(x: int, xCrit: int, xMax: int, patches: seq<DraftPatch>, F0: array<real>, F1: array<real>, D: array<int>)
    requires ValidBounds(xCrit, xMax) && xCrit < x <= xMax
    requires F0.Length == xMax + 1 && F1.Length == xMax + 1 && D.Length == xMax + 1
    requires F0 != F1
    modifies F0, D
    ensures F0[..] == old(F0[..])[x := Settle(Pick(x, Engines(patches), xCrit, xMax, F1[..]), old(F0[x]))]
    ensures D[..] == old(D[..])[x := Record(Pick(x, Engines(patches), xCrit, xMax, F1[..]), old(D[x]), 1)]
  {
    ghost var ps := Engines(patches);
    ghost var vs := Values(x, ps, xCrit, xMax, F1[..]);
    ghost var f0, d := F0[..], D[..];
    var vm := 0.0;
    for i := 0 to |patches|
      invariant vm == Gain(Scan(vs, i))
      invariant F0[x] == Settle(Scan(vs, i), f0[x]) && D[x] == Record(Scan(vs, i), d[x], 1)
      invariant forall y :: 0 <= y <= xMax && y != x ==> F0[y] == f0[y] && D[y] == d[y]
    {
      var p := patches[i];
      var v := ComputeV(x, p.cost, p.predProb, p.foodProb, p.increment, xCrit, xMax, F1[..]);
      if v > vm {
        vm := v;
        F0[x] := v;
        D[x] := i + 1;
      }
    }
    assert F0[..] == f0[x := F0[x]] && D[..] == d[x := D[x]];
  }

  /** process_timestep: the patch loop over every living state, then F1 := F0
      element by element; returns t - 1. */
  method ProcessTimestep(t: int, xCrit: int, xMax: int, patches: seq<DraftPatch>,
                         F0: array<real>, F1: array<real>, D: array<int>) returns (t': int)
    requires ValidBounds(xCrit, xMax)
    requires F0.Length == xMax + 1 && F1.Length == xMax + 1 && D.Length == xMax + 1
    requires F0 != F1
    modifies F0, F1, D
    ensures t' == t - 1
    ensures Tables(F0[..], F1[..], D[..]) ==
      Update(xCrit, xMax, Engines(patches), old(Tables(F0[..], F1[..], D[..])), 1)
  {
    ghost var s := Tables(F0[..], F1[..], D[..]);
    for x := xCrit + 1 to xMax + 1
      invariant F1[..] == s.f1
      invariant forall y :: 0 <= y <= xMax ==>
        F0[y] == if y < x then DecidedFitness(y, xCrit, xMax, Engines(patches), s) else s.f0[y]
      invariant forall y :: 0 <= y <= xMax ==>
        D[y] == if y < x then DecidedPatch(y, xCrit, xMax, Engines(patches), s, 1) else s.d[y]
    {
      PatchLoop(x, xCrit, xMax, patches, F0, F1, D);
    }
    ghost var r := Decide(xCrit, xMax, Engines(patches), s, 1);
    assert F0[..] == r.f0 && D[..] == r.d;
    for x := 0 to xMax + 1
      invariant F0[..] == r.f0 && D[..] == r.d
      invariant forall y :: 0 <= y < x ==> F1[y] == F0[y]
      modifies F1
    {
      F1[x] := F0[x];
    }
    assert F1[..] == F0[..];
    t' := t - 1;
  }

  // ---------------------------------------------------------------------------
  // run_simulation
  // ---------------------------------------------------------------------------

  /** The patches run_simulation builds from its parameter lists: three
      patches whose predation and food probabilities are all probabilities. */
  function Registry(): (ps: seq<DraftPatch>)
    ensures |ps| == 3 && ProbabilisticPatches(Engines(ps))
  {
    [DraftPatch(1, 0.0, 0.0, 0, 0.0), DraftPatch(1, 0.004, 0.4, 3, 1.2), DraftPatch(1, 0.02, 0.6, 5, 3.3)]
  }

  /** run_simulation: the fixed scenario (20 timesteps, xCrit 3, xMax 10, the
      three patches of Registry), t counted down from 20 by process_timestep
      until it reaches 0. The arrays returned are those of 20 backward steps,
      process_timestep was called exactly 20 times, F1 ends equal to F0, every
      fitness is a probability and the dead states 0 .. 3 hold 0. */
  method RunSimulation() returns (F0: array<real>, F1: array<real>, ghost patches: seq<DraftPatch>, ghost calls: nat)
    ensures patches == Registry()
    ensures F0[..] == Run(20, 3, 10, Engines(patches), 1).f0
    ensures F1[..] == Run(20, 3, 10, Engines(patches), 1).f1
    ensures calls == 20
    ensures F1[..] == F0[..] && AllProbabilities(F0[..])
    ensures forall x :: 0 <= x <= 3 ==> F0[x] == 0.0
  {
    var nTimesteps := 20;
    var xCrit := 3;
    var xMax := 10;
    var cost := [1, 1, 1];
    var predProb := [0.0, 0.004, 0.020];
    var foodProb := [0.0, 0.4, 0.6];
    var increment := [0, 3, 5];
    var expected := [0.0, 1.2, 3.3];

    var registry := [];
    for i := 0 to 3
      invariant |registry| == i
      invariant forall j :: 0 <= j < i ==>
        registry[j] == DraftPatch(cost[j], predProb[j], foodProb[j], increment[j], expected[j])
    {
      registry := registry + [NewPatch(cost[i], predProb[i], foodProb[i], increment[i], expected[i])];
    }
    assert registry == Registry();
    patches := registry;

    var D;
    F0, F1, D := InitF(xCrit, xMax);
    var t := nTimesteps;
    calls := 0;
    while t > 0
      invariant 0 <= t <= nTimesteps && calls == nTimesteps - t
      invariant F0.Length == xMax + 1 && F1.Length == xMax + 1 && D.Length == xMax + 1 && F0 != F1
      invariant Tables(F0[..], F1[..], D[..]) == Run(calls, xCrit, xMax, Engines(patches), 1)
    {
      t := ProcessTimestep(t, xCrit, xMax, registry, F0, F1, D);
      calls := calls + 1;
    }
    RunInvariants(calls, xCrit, xMax, Engines(patches), 1);
    RunIsProbability(calls, xCrit, xMax, Engines(patches), 1);
  }
}
