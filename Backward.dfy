/** backward.py: the backward-induction engine that fills the decision table
    ("landscape") one timestep at a time, from the last timestep down to 0.
    Patch indices in D are 0-based. */
module Backward {
  import opened Foraging

  // ---------------------------------------------------------------------------
  // get_patches
  // ---------------------------------------------------------------------------

  /** get_patches: one patch per position of the four parameter lists, as many
      as the shortest list has (zip stops at the shortest). */
  function GetPatches(cost: seq<int>, predProb: seq<real>, foodProb: seq<real>, increment: seq<int>): (ps: seq<Patch>)
    ensures |ps| <= |cost| && |ps| <= |predProb| && |ps| <= |foodProb| && |ps| <= |increment|
    ensures |ps| == |cost| || |ps| == |predProb| || |ps| == |foodProb| || |ps| == |increment|
    ensures forall i :: 0 <= i < |ps| ==> ps[i] == Patch(cost[i], predProb[i], foodProb[i], increment[i])
  {
    if cost == [] || predProb == [] || foodProb == [] || increment == [] then
      []
    else
      var p := Patch(cost[0], predProb[0], foodProb[0], increment[0]);
      [p] + GetPatches(cost[1..], predProb[1..], foodProb[1..], increment[1..])
  }

  // ---------------------------------------------------------------------------
  // max_v
  // ---------------------------------------------------------------------------

  /** max_v: for every living state, try the patches in order and keep the
      first strictly largest survival value above 0 in F0[x] and its index in
      D[x]. F1 is only read. */
  method MaxV(xCrit: int, xMax: int, patches: seq<Patch>, F0: array<real>, F1: array<real>, D: array<int>)
    requires ValidBounds(xCrit, xMax)
    requires F0.Length == xMax + 1 && F1.Length == xMax + 1 && D.Length == xMax + 1
    requires F0 != F1
    modifies F0, D
    ensures Tables(F0[..], F1[..], D[..]) == Decide(xCrit, xMax, patches, old(Tables(F0[..], F1[..], D[..])), 0)
  {
    ghost var s := Tables(F0[..], F1[..], D[..]);
    for x := xCrit + 1 to xMax + 1
      invariant F1[..] == s.f1
      invariant forall y :: 0 <= y <= xMax ==> F0[y] == if y < x then DecidedFitness(y, xCrit, xMax, patches, s) else s.f0[y]
      invariant forall y :: 0 <= y <= xMax ==> D[y] == if y < x then DecidedPatch(y, xCrit, xMax, patches, s, 0) else s.d[y]
    {
      PatchLoop(x, xCrit, xMax, patches, F0, F1, D);
    }
    ghost var r := Decide(xCrit, xMax, patches, s, 0);
    assert F0[..] == r.f0 && D[..] == r.d;
  }

  /** The body of max_v for one living state x: every patch in registry order,
      keeping the running maximum `vm` (from 0, strict `>`) and writing F0[x]
      and D[x] whenever it rises. */
  method PatchLoop(x: int, xCrit: int, xMax: int, patches: seq<Patch>, F0: array<real>, F1: array<real>, D: array<int>)
    requires ValidBounds(xCrit, xMax) && xCrit < x <= xMax
    requires F0.Length == xMax + 1 && F1.Length == xMax + 1 && D.Length == xMax + 1
    requires F0 != F1
    modifies F0, D
    ensures F0[..] == old(F0[..])[x := Settle(Pick(x, patches, xCrit, xMax, F1[..]), old(F0[x]))]
    ensures D[..] == old(D[..])[x := Record(Pick(x, patches, xCrit, xMax, F1[..]), old(D[x]), 0)]
  {
    ghost var vs := Values(x, patches, xCrit, xMax, F1[..]);
    ghost var f0, d := F0[..], D[..];
    var vm := 0.0;
    for i := 0 to |patches|
      invariant vm == Gain(Scan(vs, i))
      invariant F0[x] == Settle(Scan(vs, i), f0[x]) && D[x] == Record(Scan(vs, i), d[x], 0)
      invariant forall y :: 0 <= y <= xMax && y != x ==> F0[y] == f0[y] && D[y] == d[y]
    {
      var p := patches[i];
      var v := ComputeV(x, p.cost, p.predProb, p.foodProb, p.increment, xCrit, xMax, F1[..]);
      if v > vm {
        vm := v;
        F0[x] := v;
        D[x] := i;
      }
    }
    assert F0[..] == f0[x := F0[x]] && D[..] == d[x := D[x]];
  }

  // ---------------------------------------------------------------------------
  // The decision table and log_vals
  // ---------------------------------------------------------------------------

  /** One record of the decision table: timestep, state, fitness now (F0),
      fitness one timestep later (F1) and the chosen patch. */
  datatype Row = Row(t: int, state: int, fitnessNow: real, fitnessNext: real, patch: int)

  /** The all-zero record the table starts out with. */
  const Blank := Row(0, 0, 0.0, 0.0, 0)

  lemma MulMonotone(a: int, b: int, c: nat)
    requires a <= b
    ensures a * c <= b * c
  {
  }

  /** The number of records in t blocks of w records, t * w, built up block
      by block. */
  function Blocks(t: nat, w: nat): nat
  {
    if t == 0 then 0 else Blocks(t - 1, w) + w
  }

  lemma {:induction false} BlocksIsProduct(t: nat, w: nat)
    ensures Blocks(t, w) == t * w
  {
    if t > 0 {
      BlocksIsProduct(t - 1, w);
    }
  }

  /** A later block starts after an earlier one ends. */
  lemma {:induction false} BlocksMonotone(t: nat, t': nat, w: nat)
    requires t < t'
    ensures Blocks(t, w) + w <= Blocks(t', w)
  {
    if t + 1 < t' {
      BlocksMonotone(t, t' - 1, w);
    }
  }

  /** Position of the record for timestep t and state x + 1 (log_vals writes
      it at t * xMax + x): each timestep owns a block of xMax consecutive
      records. */
  function Slot(t: nat, x: int, xMax: nat): int
  {
    Blocks(t, xMax) + x
  }

  /** Position of the record for timestep t and state x + 1 in a table of n
      timesteps: it lies inside the block of timestep t, and the block lies
      inside the table. */
  function RowIndex(t: nat, x: int, xMax: nat, n: nat): (idx: int)
    requires t < n && 0 <= x < xMax
    ensures Blocks(t, xMax) <= idx < Blocks(t, xMax) + xMax <= Blocks(n, xMax)
  {
    BlocksMonotone(t, n, xMax);
    Slot(t, x, xMax)
  }

  /** Blocks of different timesteps do not overlap. */
  lemma BlocksDisjoint(t: nat, t': nat, x: int, xMax: nat, n: nat)
    requires t < t' < n && 0 <= x < xMax
    ensures Blocks(t, xMax) + xMax <= RowIndex(t', x, xMax, n)
  {
    BlocksMonotone(t, t', xMax);
  }

  /** Lookup by (t, state) is well defined: the record's position gives back
      its timestep and state. */
  lemma RowIndexDecodes(t: nat, x: int, xMax: nat, n: nat)
    requires t < n && 0 <= x < xMax
    ensures RowIndex(t, x, xMax, n) / xMax == t && RowIndex(t, x, xMax, n) % xMax == x
  {
    BlocksIsProduct(t, xMax);
    var idx := RowIndex(t, x, xMax, n);
    var q, m := idx / xMax, idx % xMax;
    assert idx == t * xMax + x;
    assert idx == q * xMax + m;
    if q < t {
      MulMonotone(q + 1, t, xMax);
      assert false;
    } else if q > t {
      MulMonotone(t + 1, q, xMax);
      assert false;
    }
  }

  lemma PositiveWidth(n: nat, xMax: nat)
    requires 0 < n * xMax
    ensures 0 < xMax
  {
  }

  /** Every position of a table of n timesteps is the position of a (t, x)
      pair, so the table has exactly one record per timestep and state. */
  lemma RowIndexCovers(idx: int, n: nat, xMax: nat)
    requires 0 <= idx < n * xMax
    ensures 0 < xMax && 0 <= idx / xMax < n && 0 <= idx % xMax < xMax
    ensures RowIndex(idx / xMax, idx % xMax, xMax, n) == idx
  {
    PositiveWidth(n, xMax);
    var q, m := idx / xMax, idx % xMax;
    assert idx == q * xMax + m;
    if n <= q {
      MulMonotone(n, q, xMax);
      assert false;
    }
    BlocksIsProduct(q, xMax);
  }

  /** log_vals: write the records of timestep t into its block, one per state
      1 .. xMax, leaving every other record as it was. */
  method LogVals(t: int, xCrit: int, xMax: int, F0: array<real>, F1: array<real>, D: array<int>, landscape: array<Row>)
    requires 0 <= t && 0 <= xMax
    requires F0.Length == xMax + 1 && F1.Length == xMax + 1 && D.Length == xMax + 1
    requires Blocks(t, xMax) + xMax <= landscape.Length
    modifies landscape
    ensures forall x :: 0 <= x < xMax ==>
      landscape[Slot(t, x, xMax)] == Row(t, x + 1, F0[x + 1], F1[x + 1], D[x + 1])
    ensures forall idx :: 0 <= idx < landscape.Length && !(Blocks(t, xMax) <= idx < Blocks(t, xMax) + xMax) ==>
      landscape[idx] == old(landscape[idx])
  {
    for x := 0 to xMax
      invariant forall x' :: 0 <= x' < x ==>
        landscape[Slot(t, x', xMax)] == Row(t, x' + 1, F0[x' + 1], F1[x' + 1], D[x' + 1])
      invariant forall idx :: 0 <= idx < landscape.Length && !(Blocks(t, xMax) <= idx < Blocks(t, xMax) + x) ==>
        landscape[idx] == old(landscape[idx])
    {
      var idx := Slot(t, x, xMax);
      landscape[idx] := Row(t, x + 1, F0[x + 1], F1[x + 1], D[x + 1]);
    }
  }

  // ---------------------------------------------------------------------------
  // simulation
  // ---------------------------------------------------------------------------

  /** The record the run writes for timestep t and state x + 1: it is the
      (n - t)-th timestep processed, so F0 and D come from the arrays after
      n - t timesteps and F1 from the arrays one timestep earlier. */
  function TableRow(n: nat, t: int, x: int, xCrit: int, xMax: int, ps: seq<Patch>): (r: Row)
    requires ValidBounds(xCrit, xMax)
    ensures 0 <= t < n && 0 <= x < xMax ==> r.t == t && r.state == x + 1
  {
    if 0 <= t < n && 0 <= x < xMax then
      var before := Run(n - 1 - t, xCrit, xMax, ps, 0);
      var after := Run(n - t, xCrit, xMax, ps, 0);
      Row(t, x + 1, after.f0[x + 1], before.f1[x + 1], after.d[x + 1])
    else
      Blank
  }

  lemma RunNext(done: nat, xCrit: int, xMax: int, ps: seq<Patch>, s: Tables, s': Tables)
    requires ValidBounds(xCrit, xMax) && s == Run(done, xCrit, xMax, ps, 0)
    requires s' == Update(xCrit, xMax, ps, s, 0)
    ensures s' == Run(done + 1, xCrit, xMax, ps, 0)
  {
  }

  /** The record of timestep t comes from the arrays after `done` and after
      `done + 1` processed timesteps, where done = n - 1 - t. */
  lemma TableRowAt(n: nat, t: int, x: int, xCrit: int, xMax: int, ps: seq<Patch>, done: nat)
    requires ValidBounds(xCrit, xMax) && 0 <= t < n && 0 <= x < xMax && done == n - 1 - t
    ensures TableRow(n, t, x, xCrit, xMax, ps) ==
      Row(t, x + 1, Run(done + 1, xCrit, xMax, ps, 0).f0[x + 1], Run(done, xCrit, xMax, ps, 0).f1[x + 1],
          Run(done + 1, xCrit, xMax, ps, 0).d[x + 1])
  {
  }

  /** The records of timesteps from .. n - 1 in the table rows are the ones
      `expected` gives for each (timestep, state - 1). */
  ghost predicate Filled(rows: seq<Row>, from: int, n: nat, xMax: nat, expected: (int, int) -> Row)
    requires |rows| == Blocks(n, xMax)
  {
    forall t, x :: 0 <= from <= t < n && 0 <= x < xMax ==>
      rows[RowIndex(t, x, xMax, n)] == expected(t, x)
  }

  /** Writing the block of timestep t over a table filled from t + 1 on gives
      a table filled from t on. */
  lemma FilledStep(rows: seq<Row>, rows': seq<Row>, t: nat, from: int, n: nat, xMax: nat, expected: (int, int) -> Row)
    requires t < n && from == t + 1 && |rows| == |rows'| == Blocks(n, xMax)
    requires Filled(rows, from, n, xMax, expected)
    requires forall x :: 0 <= x < xMax ==> rows'[RowIndex(t, x, xMax, n)] == expected(t, x)
    requires forall idx :: 0 <= idx < |rows| && !(Blocks(t, xMax) <= idx < Blocks(t, xMax) + xMax) ==> rows'[idx] == rows[idx]
    ensures Filled(rows', t, n, xMax, expected)
  {
    forall t', x | t < t' < n && 0 <= x < xMax
      ensures rows'[RowIndex(t', x, xMax, n)] == expected(t', x)
    {
      BlocksDisjoint(t, t', x, xMax, n);
    }
  }

  /** Step 4 of simulation: copy F0 into F1 element by element, so that F1
      holds the fitness of the timestep just computed. */
  method CopyFitness(F0: array<real>, F1: array<real>)
    requires F0.Length == F1.Length && F0 != F1
    modifies F1
    ensures F1[..] == F0[..]
  {
    for x := 0 to F1.Length
      invariant forall y :: 0 <= y < x ==> F1[y] == F0[y]
    {
      F1[x] := F0[x];
    }
  }

  /** One timestep of the loop below: after log_vals has written the block of
      timestep t from the arrays of the (done + 1)-th processed timestep, the
      table is filled from t on. */
  lemma LoggedStep(rows: seq<Row>, rows': seq<Row>, t: nat, from: int, n: nat, xCrit: int, xMax: int, ps: seq<Patch>,
                   done: nat, before: Tables, after: Tables, expected: (int, int) -> Row)
    requires ValidBounds(xCrit, xMax) && t < n && from == t + 1 && done == n - 1 - t
    requires before == Run(done, xCrit, xMax, ps, 0) && after == Run(done + 1, xCrit, xMax, ps, 0)
    requires |rows| == |rows'| == Blocks(n, xMax)
    requires forall t', x :: expected(t', x) == TableRow(n, t', x, xCrit, xMax, ps)
    requires Filled(rows, from, n, xMax, expected)
    requires forall x :: 0 <= x < xMax ==>
      rows'[RowIndex(t, x, xMax, n)] == Row(t, x + 1, after.f0[x + 1], before.f1[x + 1], after.d[x + 1])
    requires forall idx :: 0 <= idx < |rows| && !(Blocks(t, xMax) <= idx < Blocks(t, xMax) + xMax) ==> rows'[idx] == rows[idx]
    ensures Filled(rows', t, n, xMax, expected)
  {
    forall x | 0 <= x < xMax
      ensures rows'[RowIndex(t, x, xMax, n)] == expected(t, x)
    {
      TableRowAt(n, t, x, xCrit, xMax, ps, done);
    }
    FilledStep(rows, rows', t, from, n, xMax, expected);
  }

  /** simulation: timesteps n - 1 down to 0, each once: max_v, log_vals, then
      F1 := F0. The result has one record per (timestep, state 1 .. xMax). */
  method Simulation(nTimesteps: nat, xCrit: int, xMax: int, patches: seq<Patch>) returns (landscape: array<Row>)
    requires ValidBounds(xCrit, xMax)
    ensures landscape.Length == nTimesteps * xMax == Blocks(nTimesteps, xMax)
    ensures Filled(landscape[..], 0, nTimesteps, xMax, (t, x) => TableRow(nTimesteps, t, x, xCrit, xMax, patches))
  {
    var F0, F1, D := InitF(xCrit, xMax);
    landscape := new Row[nTimesteps * xMax](_ => Blank);
    BlocksIsProduct(nTimesteps, xMax);
    ghost var expected := (t, x) => TableRow(nTimesteps, t, x, xCrit, xMax, patches);
    // The source's `t -= 1` at the end of the body rebinds the loop variable
    // only until `reversed(range(n_timesteps))` supplies the next one, so the
    // loop below visits the same timesteps without it.
    ghost var done := 0;
    ghost var s := Run(0, xCrit, xMax, patches, 0);
    for t := nTimesteps downto 0
      invariant F0.Length == xMax + 1 && F1.Length == xMax + 1 && D.Length == xMax + 1
      invariant landscape.Length == Blocks(nTimesteps, xMax)
      invariant done == nTimesteps - t
      invariant s == Run(done, xCrit, xMax, patches, 0)
      invariant Tables(F0[..], F1[..], D[..]) == s
      invariant Filled(landscape[..], nTimesteps - done, nTimesteps, xMax, expected)
    {
      ghost var s' := Update(xCrit, xMax, patches, s, 0);
      RunNext(done, xCrit, xMax, patches, s, s');
      MaxV(xCrit, xMax, patches, F0, F1, D);
      assert F0[..] == s'.f0 == s'.f1 && D[..] == s'.d && F1[..] == s.f1;
      BlocksMonotone(t, nTimesteps, xMax);
      ghost var logged := landscape[..];
      LogVals(t, xCrit, xMax, F0, F1, D, landscape);
      LoggedStep(logged, landscape[..], t, nTimesteps - done, nTimesteps, xCrit, xMax, patches, done, s, s', expected);
      CopyFitness(F0, F1);
      s, done := s', done + 1;
    }
  }

  // ---------------------------------------------------------------------------
  // Properties of the decision table
  // ---------------------------------------------------------------------------

  /** The table's F1 column is the F0 column of the timestep after it, and at
      the last timestep it is the terminal condition: 1 exactly on the living
      states. */
  lemma TableFitnessNext(n: nat, t: int, x: int, xCrit: int, xMax: int, ps: seq<Patch>)
    requires ValidBounds(xCrit, xMax) && 0 <= t < n && 0 <= x < xMax
    ensures t + 1 < n ==> TableRow(n, t, x, xCrit, xMax, ps).fitnessNext == TableRow(n, t + 1, x, xCrit, xMax, ps).fitnessNow
    ensures t + 1 == n ==> TableRow(n, t, x, xCrit, xMax, ps).fitnessNext == if xCrit < x + 1 then 1.0 else 0.0
  {
    if t + 1 < n {
      RunInvariants(n - 1 - t, xCrit, xMax, ps, 0);
    }
  }

  /** Records of dead states (state <= xCrit) hold fitness 0 and patch 0. */
  lemma TableDeadStates(n: nat, t: int, x: int, xCrit: int, xMax: int, ps: seq<Patch>)
    requires ValidBounds(xCrit, xMax) && 0 <= t < n && 0 <= x < xMax && x + 1 <= xCrit
    ensures TableRow(n, t, x, xCrit, xMax, ps).fitnessNow == 0.0
    ensures TableRow(n, t, x, xCrit, xMax, ps).fitnessNext == 0.0
    ensures TableRow(n, t, x, xCrit, xMax, ps).patch == 0
  {
    RunInvariants(n - 1 - t, xCrit, xMax, ps, 0);
    RunInvariants(n - t, xCrit, xMax, ps, 0);
  }

  /** Every fitness in the table is a probability, and every recorded patch
      is 0 or the 0-based index of a patch. */
  lemma TableRowInRange(n: nat, t: int, x: int, xCrit: int, xMax: int, ps: seq<Patch>)
    requires ValidBounds(xCrit, xMax) && 0 <= t < n && 0 <= x < xMax && ProbabilisticPatches(ps)
    ensures IsProbability(TableRow(n, t, x, xCrit, xMax, ps).fitnessNow)
    ensures IsProbability(TableRow(n, t, x, xCrit, xMax, ps).fitnessNext)
    ensures TableRow(n, t, x, xCrit, xMax, ps).patch == 0 || 0 <= TableRow(n, t, x, xCrit, xMax, ps).patch < |ps|
  {
    RunIsProbability(n - 1 - t, xCrit, xMax, ps, 0);
    RunIsProbability(n - t, xCrit, xMax, ps, 0);
    RunChoiceInRange(n - t, xCrit, xMax, ps, 0);
  }
}
