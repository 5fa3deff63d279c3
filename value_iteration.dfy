/** `ValueIteration` as a class: the tables and parameters fixed at
    construction, the value table updated in place by every sweep, and the
    outer loop that sweeps until the largest change drops below the
    tolerance. Each method is proved to compute what the functions of module
    Sweeps specify. */
module ValueIterationEngine {
  import opened OrderedDict
  import opened Mdp
  import opened Sweeps

  /** The policy entry of one state (source lines 86, 110-113): `{}`, then
      unless the maximum is exactly 0 each tied action in turn gets `1/n`. */
  method GreedyPolicyRow<A(==)>(maxVal: real, ties: seq<A>) returns (row: ODict<A, real>)
    requires Distinct(ties)
    ensures row == GreedyRow(Best(maxVal, ties))
  {
    row := Empty();
    if maxVal != 0.0 {
      ghost var c := if |ties| > 0 then 1.0 / |ties| as real else 0.0;
      var i := 0;
      while i < |ties|
        invariant 0 <= i <= |ties|
        invariant Distinct(ties[..i]) && row == FromKeys(ties[..i], c)
      {
        DistinctFresh(ties, i);
        FromKeysPut(ties[..i], ties[i], c);
        assert ties[..i + 1] == ties[..i] + [ties[i]];
        row := Put(row, ties[i], 1.0 / |ties| as real);
        i := i + 1;
      }
      assert ties[..i] == ties;
    }
  }

  class ValueIteration<S(==), A(==)> {
    const transitionTable: Table<S, A>
    const rewardTable: Table<S, A>
    const convergenceTolerance: real
    const gamma: real
    var valueTable: Values<S>

    /** What the backups read besides the value table. */
    function Env(): Model<S, A> {
      Model(transitionTable, rewardTable, gamma)
    }

    /** Every lookup a sweep over the value table's states performs
        succeeds (otherwise the source raises `KeyError`). */
    ghost predicate Ready()
      reads this
    {
      PassDefined(Env(), valueTable.keys, valueTable.keys)
    }

    /** `__init__` (source lines 66-71): every state of the transition table
        starts with value 0. */
    constructor (transitionTable: Table<S, A>, rewardTable: Table<S, A>, convergenceTolerance: real, gamma: real)
      ensures this.transitionTable == transitionTable && this.rewardTable == rewardTable
      ensures this.convergenceTolerance == convergenceTolerance && this.gamma == gamma
      ensures valueTable.keys == transitionTable.keys
      ensures forall i :: 0 <= i < |valueTable.vals| ==> valueTable.vals[i] == 0.0
    {
      this.transitionTable := transitionTable;
      this.rewardTable := rewardTable;
      this.convergenceTolerance := convergenceTolerance;
      this.gamma := gamma;
      valueTable := FromKeys(transitionTable.keys, 0.0);
    }

    /** `temp`: the backup of action `a` in state `s` under the current value
        table (source lines 89-93). */
    method ComputeBackup(s: S, a: A) returns (temp: real)
      requires s in transitionTable.keys && a in Get(transitionTable, s).keys
      requires s in rewardTable.keys && a in Get(rewardTable, s).keys
      requires forall snew :: snew in Get(Get(transitionTable, s), a).keys ==>
                 snew in Get(Get(rewardTable, s), a).keys && snew in valueTable.keys
      ensures temp == Backup(Env(), valueTable, s, a)
    {
      var prob := Get(Get(transitionTable, s), a);
      var rew := Get(Get(rewardTable, s), a);
      temp := 0.0;
      var i := 0;
      while i < |prob.keys|
        invariant 0 <= i <= |prob.keys|
        invariant temp == BackupPrefix(prob, rew, gamma, valueTable, i)
      {
        var snew := prob.keys[i];
        var r := Get(rew, snew);
        temp := temp + prob.vals[i] * (r + gamma * Get(valueTable, snew));
        i := i + 1;
      }
    }

    /** The tie-breaking scan over the actions of state `s` (source lines
        83-102): the running maximum `maxVal` and the actions `maxActionIdx`
        tied with it. */
    method BestActions(s: S) returns (maxVal: real, maxActionIdx: seq<A>)
      requires Ready() && s in valueTable.keys
      ensures Best(maxVal, maxActionIdx) == BestAt(Env(), valueTable, s)
    {
      PassDefinedAt(Env(), valueTable.keys, valueTable.keys, s);
      var acts := Get(transitionTable, s).keys;
      ghost var qs := Qs(Env(), valueTable, s, acts);
      maxActionIdx := [];
      maxVal := Sentinel;
      var i := 0;
      while i < |acts|
        invariant 0 <= i <= |acts|
        invariant Best(maxVal, maxActionIdx) == TieScan(acts[..i], qs[..i])
      {
        var action := acts[i];
        var temp := ComputeBackup(s, action);
        ghost var b := Best(maxVal, maxActionIdx);
        assert temp == qs[i];
        TieScanSnoc(acts, qs, i);
        if Round3(temp) > Round3(maxVal) {
          maxVal := temp;
          maxActionIdx := [action];
        } else if Round3(temp) == Round3(maxVal) {
          maxActionIdx := maxActionIdx + [action];
        }
        assert Best(maxVal, maxActionIdx) == Consider(b, action, temp);
        i := i + 1;
      }
      assert acts[..i] == acts && qs[..i] == qs;
    }

    /** The body of the `for` loop for the `i`-th state of the sweep that
        started from `V` (source lines 80-115): its backups read the table
        as it stands, its value is replaced in place, its greedy row recorded
        and its change folded into `delta`. */
    method Visit(ghost V: Values<S>, i: nat, delta: real, policy: Policy<S, A>)
      returns (delta': real, policy': Policy<S, A>)
      requires Ready() && i < |V.keys|
      requires valueTable == SweepValues(Env(), V, i)
      requires policy == SweepPolicy(Env(), V, i) && delta == SweepChange(Env(), V, i)
      modifies this
      ensures Ready()
      ensures valueTable == SweepValues(Env(), V, i + 1)
      ensures policy' == SweepPolicy(Env(), V, i + 1) && delta' == SweepChange(Env(), V, i + 1)
    {
      var s := valueTable.keys[i];
      var v := Get(valueTable, s);
      var maxVal, maxActionIdx := BestActions(s);
      SweepPolicyStep(Env(), V, i);
      valueTable := Put(valueTable, s, maxVal);
      var row := GreedyPolicyRow(maxVal, maxActionIdx);
      policy' := Put(policy, s, row);
      delta' := Max(delta, Abs(v - maxVal));
    }

    /** One pass of the `for` loop over the value table (source lines 79-115):
        the states in the table's order, each one's value replaced in place
        by its scan maximum, its greedy row recorded, and the largest change
        kept in `delta`. */
    method SweepOnce() returns (delta: real, policy: Policy<S, A>)
      requires Ready()
      modifies this
      ensures Ready()
      ensures valueTable == Sweep(Env(), old(valueTable)).values
      ensures policy == Sweep(Env(), old(valueTable)).policy
      ensures delta == Sweep(Env(), old(valueTable)).delta
    {
      ghost var V := valueTable;
      var n := |valueTable.keys|;
      delta := 0.0;
      policy := Empty();
      var i := 0;
      while i < n
        invariant 0 <= i <= n == |V.keys| && Ready()
        invariant valueTable == SweepValues(Env(), V, i)
        invariant policy == SweepPolicy(Env(), V, i)
        invariant delta == SweepChange(Env(), V, i)
      {
        delta, policy := Visit(V, i, delta, policy);
        i := i + 1;
      }
    }

    /** One turn of the `while True` loop (source lines 77-123): a sweep, then
        `stop` when its `delta` is below the tolerance; `policy` is the
        sweep's policy, which becomes the snapshot for the next turn. */
    method Turn(prev: Option<Policy<S, A>>, ghost left: nat) returns (stop: bool, policy: Policy<S, A>)
      requires Ready() && left > 0
      modifies this
      ensures Ready()
      ensures valueTable == Sweep(Env(), old(valueTable)).values
      ensures policy == Sweep(Env(), old(valueTable)).policy
      ensures stop <==> Sweep(Env(), old(valueTable)).delta < convergenceTolerance
      ensures stop ==> RunSpec(SweepOf(Env()), convergenceTolerance, old(valueTable), prev, left)
                       == RunResult(valueTable, if prev.Some? then Converged(prev.value) else PolicyUnbound)
      ensures !stop ==> RunSpec(SweepOf(Env()), convergenceTolerance, old(valueTable), prev, left)
                        == RunSpec(SweepOf(Env()), convergenceTolerance, valueTable, Some(policy), left - 1)
    {
      ghost var W := valueTable;
      var delta;
      delta, policy := SweepOnce();
      RunSpecStep(Env(), convergenceTolerance, W, prev, left, SweepState(valueTable, policy, delta));
      stop := delta < convergenceTolerance;
    }

    /** `__call__` (source lines 73-123) with at most `fuel` sweeps: the
        values and status are those `RunSpec` gives from the starting table,
        and the object keeps the final values. */
    method Run(fuel: nat) returns (values: Values<S>, status: Status<S, A>)
      requires Ready()
      modifies this
      ensures Ready() && values == valueTable
      ensures RunResult(values, status) == RunSpec(SweepOf(Env()), convergenceTolerance, old(valueTable), None, fuel)
    {
      var policyTable: Option<Policy<S, A>> := None;
      var k := 0;
      while k < fuel
        invariant 0 <= k <= fuel && Ready()
        invariant RunSpec(SweepOf(Env()), convergenceTolerance, old(valueTable), None, fuel)
                  == RunSpec(SweepOf(Env()), convergenceTolerance, valueTable, policyTable, fuel - k)
      {
        var stop, policy := Turn(policyTable, fuel - k);
        if stop {
          values := valueTable;
          status := if policyTable.Some? then Converged(policyTable.value) else PolicyUnbound;
          return;
        }
        policyTable := Some(policy);
        k := k + 1;
      }
      values, status := valueTable, FuelExhausted;
    }
  }
}
