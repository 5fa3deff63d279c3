/** The value-iteration algorithm as functions: the tie-breaking scan over one
    state's actions, the greedy policy row it yields, one Gauss-Seidel sweep
    over the states, and the outer loop that repeats sweeps until the largest
    change falls below the tolerance. The class in ValueIterationEngine runs
    the same steps imperatively and is proved equal to these functions. */
module Sweeps {
  import opened OrderedDict
  import opened Mdp

  /** The starting value of the running maximum. */
  const Sentinel: real := -1000.0

  datatype Option<T> = None | Some(value: T)

  /** The running maximum and the actions tied with it. */
  datatype Best<A> = Best(maxVal: real, ties: seq<A>)

  /** One step of the scan: a backup `q` whose rounding beats the rounded
      running maximum restarts the tie list with its action `a`, one whose
      rounding equals it appends `a`, a lower one changes nothing. */
  function Consider<A>(b: Best<A>, a: A, q: real): Best<A> {
    if Round3(q) > Round3(b.maxVal) then Best(q, [a])
    else if Round3(q) == Round3(b.maxVal) then Best(b.maxVal, b.ties + [a])
    else b
  }

  /** Scans the actions `acts` in order against their backups `qs`, starting
      from the sentinel and an empty tie list. */
  function TieScan<A>(acts: seq<A>, qs: seq<real>): Best<A>
    requires |acts| == |qs|
    decreases |acts|
  {
    if acts == [] then Best(Sentinel, [])
    else
      var n := |acts| - 1;
      Consider(TieScan(acts[..n], qs[..n]), acts[n], qs[n])
  }

  /** Scanning one more action is one more step of the scan. */
  lemma TieScanSnoc<A>(acts: seq<A>, qs: seq<real>, i: nat)
    requires |acts| == |qs| && i < |acts|
    ensures TieScan(acts[..i + 1], qs[..i + 1]) == Consider(TieScan(acts[..i], qs[..i]), acts[i], qs[i])
  {
    assert acts[..i + 1][..i] == acts[..i] && qs[..i + 1][..i] == qs[..i];
  }

  /** The actions, in order, whose rounded backup is `M`. */
  function Select<A>(acts: seq<A>, qs: seq<real>, M: real): seq<A>
    requires |acts| == |qs|
    decreases |acts|
  {
    if acts == [] then []
    else
      var n := |acts| - 1;
      Select(acts[..n], qs[..n], M) + if Round3(qs[n]) == M then [acts[n]] else []
  }

  /** No backup rounds to `M`: nothing is selected. */
  lemma {:induction false} SelectNone<A>(acts: seq<A>, qs: seq<real>, M: real)
    requires |acts| == |qs|
    requires forall i :: 0 <= i < |qs| ==> Round3(qs[i]) != M
    ensures Select(acts, qs, M) == []
    decreases |acts|
  {
    if acts != [] {
      var n := |acts| - 1;
      assert forall i :: 0 <= i < n ==> qs[..n][i] == qs[i];
      SelectNone(acts[..n], qs[..n], M);
    }
  }

  /** Every selected action stands at a position whose rounded backup is
      `M`. */
  lemma {:induction false} SelectSound<A>(acts: seq<A>, qs: seq<real>, M: real, x: A)
    requires |acts| == |qs|
    requires x in Select(acts, qs, M)
    ensures exists i :: 0 <= i < |acts| && acts[i] == x && Round3(qs[i]) == M
    decreases |acts|
  {
    var n := |acts| - 1;
    if x in Select(acts[..n], qs[..n], M) {
      SelectSound(acts[..n], qs[..n], M, x);
      var i :| 0 <= i < n && acts[..n][i] == x && Round3(qs[..n][i]) == M;
      assert acts[i] == x && Round3(qs[i]) == M;
    } else {
      assert acts[n] == x && Round3(qs[n]) == M;
    }
  }

  /** The action at a position whose rounded backup is `M` is selected. */
  lemma {:induction false} SelectComplete<A>(acts: seq<A>, qs: seq<real>, M: real, i: nat)
    requires |acts| == |qs|
    requires i < |acts| && Round3(qs[i]) == M
    ensures acts[i] in Select(acts, qs, M)
    decreases |acts|
  {
    var n := |acts| - 1;
    if i < n {
      assert acts[..n][i] == acts[i] && qs[..n][i] == qs[i];
      SelectComplete(acts[..n], qs[..n], M, i);
    }
  }

  /** An action is selected exactly when it stands at a position whose
      rounded backup is `M`. */
  lemma SelectMembers<A>(acts: seq<A>, qs: seq<real>, M: real, x: A)
    requires |acts| == |qs|
    ensures x in Select(acts, qs, M) <==> exists i :: 0 <= i < |acts| && acts[i] == x && Round3(qs[i]) == M
  {
    if x in Select(acts, qs, M) {
      SelectSound(acts, qs, M, x);
    }
    if exists i :: 0 <= i < |acts| && acts[i] == x && Round3(qs[i]) == M {
      var i :| 0 <= i < |acts| && acts[i] == x && Round3(qs[i]) == M;
      SelectComplete(acts, qs, M, i);
    }
  }

  /** Selecting from distinct actions gives distinct actions. */
  lemma {:induction false} SelectDistinct<A>(acts: seq<A>, qs: seq<real>, M: real)
    requires |acts| == |qs|
    requires Distinct(acts)
    ensures Distinct(Select(acts, qs, M))
    decreases |acts|
  {
    if acts != [] {
      var n := |acts| - 1;
      DistinctPrefix(acts, n);
      SelectDistinct(acts[..n], qs[..n], M);
      if Round3(qs[n]) == M {
        SelectMembers(acts[..n], qs[..n], M, acts[n]);
        assert acts[n] !in acts[..n];
        DistinctSnoc(Select(acts[..n], qs[..n], M), acts[n]);
      } else {
        assert Select(acts[..n], qs[..n], M) + [] == Select(acts[..n], qs[..n], M);
      }
    }
  }

  /** The rounded maximum of the scan (source lines 82-102) is at least the
      rounded sentinel, and no action's rounded backup exceeds it. */
  lemma {:induction false} TieScanBound<A>(acts: seq<A>, qs: seq<real>)
    requires |acts| == |qs|
    ensures Round3(TieScan(acts, qs).maxVal) >= Round3(Sentinel)
    ensures forall i :: 0 <= i < |qs| ==> Round3(qs[i]) <= Round3(TieScan(acts, qs).maxVal)
    decreases |acts|
  {
    if acts != [] {
      var n := |acts| - 1;
      TieScanBound(acts[..n], qs[..n]);
      assert forall i :: 0 <= i < n ==> qs[..n][i] == qs[i];
    }
  }

  /** The tie list is every action whose rounded backup equals the rounded
      maximum, in action order. */
  lemma {:induction false} TieScanTies<A>(acts: seq<A>, qs: seq<real>)
    requires |acts| == |qs|
    ensures TieScan(acts, qs).ties == Select(acts, qs, Round3(TieScan(acts, qs).maxVal))
    decreases |acts|
  {
    if acts != [] {
      var n := |acts| - 1;
      TieScanTies(acts[..n], qs[..n]);
      var b := TieScan(acts[..n], qs[..n]);
      if Round3(qs[n]) > Round3(b.maxVal) {
        TieScanBound(acts[..n], qs[..n]);
        SelectNone(acts[..n], qs[..n], Round3(qs[n]));
      }
    }
  }

  /** The position the scan last took its maximum from (0 when it never
      moved off the sentinel). */
  ghost function ArgMax<A>(acts: seq<A>, qs: seq<real>): (r: nat)
    requires |acts| == |qs|
    ensures acts != [] ==> r < |acts|
    decreases |acts|
  {
    if acts == [] then 0
    else
      var n := |acts| - 1;
      if Round3(qs[n]) > Round3(TieScan(acts[..n], qs[..n]).maxVal) then n
      else ArgMax(acts[..n], qs[..n])
  }

  /** Every backup before that position rounds strictly below the maximum. */
  lemma {:induction false} ArgMaxFirst<A>(acts: seq<A>, qs: seq<real>)
    requires |acts| == |qs|
    ensures forall j :: 0 <= j < ArgMax(acts, qs) && j < |qs| ==> Round3(qs[j]) < Round3(TieScan(acts, qs).maxVal)
    decreases |acts|
  {
    if acts != [] {
      var n := |acts| - 1;
      var pa, pq := acts[..n], qs[..n];
      var b := TieScan(pa, pq);
      if Round3(qs[n]) > Round3(b.maxVal) {
        TieScanBound(pa, pq);
        assert forall j :: 0 <= j < n ==> qs[j] == pq[j];
      } else {
        ArgMaxFirst(pa, pq);
        assert forall j :: 0 <= j < ArgMax(pa, pq) && j < n ==> qs[j] == pq[j];
      }
    }
  }

  /** Once some backup beats the sentinel, the maximum is the backup at that
      position. */
  lemma {:induction false} ArgMaxValue<A>(acts: seq<A>, qs: seq<real>, w: nat)
    requires |acts| == |qs|
    requires w < |qs| && Round3(qs[w]) > Round3(Sentinel)
    ensures ArgMax(acts, qs) < |qs| && TieScan(acts, qs).maxVal == qs[ArgMax(acts, qs)]
    decreases |acts|
  {
    var n := |acts| - 1;
    var pa, pq := acts[..n], qs[..n];
    var b := TieScan(pa, pq);
    if Round3(qs[n]) <= Round3(b.maxVal) {
      var w' := w;
      if w == n {
        assert b.maxVal != Sentinel;
        TieScanNone(pa, pq);
        w' :| 0 <= w' < n && Round3(pq[w']) > Round3(Sentinel);
      } else {
        assert pq[w] == qs[w];
      }
      ArgMaxValue(pa, pq, w');
      assert pq[ArgMax(pa, pq)] == qs[ArgMax(pa, pq)];
    }
  }

  /** When some backup beats the sentinel, the maximum is the backup of the
      first action whose rounding reaches the rounded maximum. */
  lemma TieScanFirst<A>(acts: seq<A>, qs: seq<real>, w: nat)
    requires |acts| == |qs|
    requires w < |qs| && Round3(qs[w]) > Round3(Sentinel)
    ensures var M := Round3(TieScan(acts, qs).maxVal);
            exists i :: && 0 <= i < |qs| && TieScan(acts, qs).maxVal == qs[i] && Round3(qs[i]) == M
                        && forall j :: 0 <= j < i ==> Round3(qs[j]) < M
  {
    ArgMaxValue(acts, qs, w);
    ArgMaxFirst(acts, qs);
    var i := ArgMax(acts, qs);
    assert TieScan(acts, qs).maxVal == qs[i];
  }

  /** When no backup beats the sentinel, the maximum stays the sentinel. */
  lemma {:induction false} TieScanNone<A>(acts: seq<A>, qs: seq<real>)
    requires |acts| == |qs|
    ensures (forall i :: 0 <= i < |qs| ==> Round3(qs[i]) <= Round3(Sentinel)) ==> TieScan(acts, qs).maxVal == Sentinel
    ensures TieScan(acts, qs).maxVal != Sentinel ==> exists i :: 0 <= i < |qs| && Round3(qs[i]) > Round3(Sentinel)
    decreases |acts|
  {
    if acts != [] {
      var n := |acts| - 1;
      TieScanNone(acts[..n], qs[..n]);
      assert forall i :: 0 <= i < n ==> qs[..n][i] == qs[i];
    }
  }

  /** The backups of the actions `acts` of state `s` under the values `V`. */
  function Qs<S(==), A(==)>(m: Model<S, A>, V: Values<S>, s: S, acts: seq<A>): seq<real> {
    seq(|acts|, i requires 0 <= i < |acts| => Backup(m, V, s, acts[i]))
  }

  /** The scan of state `s`'s actions, in the order of its transition row,
      against backups computed from the values `V`. */
  function BestAt<S(==), A(==)>(m: Model<S, A>, V: Values<S>, s: S): Best<A> {
    var acts := Actions(m, s);
    TieScan(acts, Qs(m, V, s, acts))
  }

  /** The tied actions of a state are distinct, because the actions of a
      transition row are. */
  lemma BestAtTiesDistinct<S, A>(m: Model<S, A>, V: Values<S>, s: S)
    ensures Distinct(BestAt(m, V, s).ties)
  {
    var acts := Actions(m, s);
    var qs := Qs(m, V, s, acts);
    TieScanTies(acts, qs);
    SelectDistinct(acts, qs, Round3(TieScan(acts, qs).maxVal));
  }

  /** The policy entry of one state (source lines 86, 110-113): unless the
      maximum is exactly 0, every tied action in turn is given `1/n`, which
      for distinct actions is `dict.fromkeys(ties, 1/n)`. */
  function GreedyRow<A(==)>(b: Best<A>): ODict<A, real>
    requires Distinct(b.ties)
  {
    if b.maxVal != 0.0 && |b.ties| > 0 then FromKeys(b.ties, 1.0 / |b.ties| as real)
    else Empty()
  }

  /** The greedy row (source lines 86, 110-113): it is empty when the
      maximum is 0; otherwise it lists exactly the tied actions, in order, each
      with probability `1/n`, and unless no action was tied the probabilities
      sum to 1. */
  lemma GreedyRowSpec<A>(b: Best<A>)
    requires Distinct(b.ties)
    ensures var row := GreedyRow(b);
            && (b.maxVal == 0.0 ==> row.keys == [])
            && (b.maxVal != 0.0 ==> row.keys == b.ties)
            && (forall i :: 0 <= i < |row.vals| ==> row.vals[i] == 1.0 / |row.keys| as real)
            && (row.keys != [] ==> Sum(row.vals) == 1.0)
  {
    var n := |b.ties|;
    if b.maxVal != 0.0 && n > 0 {
      var c := 1.0 / n as real;
      RepeatAt(c, n);
      SumRepeat(c, n);
      assert n as real * c == 1.0;
    }
  }

  function Abs(x: real): real { if x < 0.0 then -x else x }

  function Max(x: real, y: real): real { if x >= y then x else y }

  /** The value table after the first `n` states of one sweep (source lines
      79-108): the states are visited in the table's own order, each state's
      backups read the values already written for the states before it, and
      its new value is written in place. */
  function SweepValues<S(==), A(==)>(m: Model<S, A>, V: Values<S>, n: nat): (r: Values<S>)
    requires n <= |V.keys|
    ensures r.keys == V.keys
    decreases n
  {
    if n == 0 then V
    else
      var W := SweepValues(m, V, n - 1);
      var s := V.keys[n - 1];
      Put(W, s, BestAt(m, W, s).maxVal)
  }

  /** The greedy row written for the `k`-th state, computed from the values
      in place when it is visited (source lines 86, 110-113). */
  function Row<S(==), A(==)>(m: Model<S, A>, V: Values<S>, k: nat): ODict<A, real>
    requires k < |V.keys|
  {
    var W := SweepValues(m, V, k);
    BestAtTiesDistinct(m, W, V.keys[k]);
    GreedyRow(BestAt(m, W, V.keys[k]))
  }

  /** The greedy rows of all states of a sweep, in the table's order. */
  function Rows<S(==), A(==)>(m: Model<S, A>, V: Values<S>): seq<ODict<A, real>> {
    seq(|V.keys|, k requires 0 <= k < |V.keys| => Row(m, V, k))
  }

  /** The policy rows written for the first `n` states of a sweep, each
      state's row written when it is visited. */
  function SweepPolicy<S(==), A(==)>(m: Model<S, A>, V: Values<S>, n: nat): Policy<S, A>
    requires n <= |V.keys|
  {
    Fill(V.keys, Rows(m, V), n)
  }

  /** `|old - new|` for the `k`-th state, as computed when it is visited
      (source lines 81, 108, 115): its old value is the one it holds then. */
  function VisitChange<S(==), A(==)>(m: Model<S, A>, V: Values<S>, k: nat): real
    requires k < |V.keys|
  {
    var W := SweepValues(m, V, k);
    var s := V.keys[k];
    Abs(Get(W, s) - BestAt(m, W, s).maxVal)
  }

  /** `delta = max(delta, c)` over the first `n` terms of `cs`, from 0. */
  function RunningMax(cs: seq<real>, n: nat): real
    requires n <= |cs|
    decreases n
  {
    if n == 0 then 0.0 else Max(RunningMax(cs, n - 1), cs[n - 1])
  }

  /** The running maximum bounds each term folded into it. */
  lemma {:induction false} RunningMaxBound(cs: seq<real>, n: nat, j: nat)
    requires j < n <= |cs|
    ensures cs[j] <= RunningMax(cs, n)
    decreases n
  {
    if j < n - 1 {
      RunningMaxBound(cs, n - 1, j);
    }
  }

  /** The running maximum is the initial 0 or one of the terms folded into it. */
  lemma {:induction false} RunningMaxAttained(cs: seq<real>, n: nat)
    requires n <= |cs|
    ensures RunningMax(cs, n) >= 0.0
    ensures RunningMax(cs, n) == 0.0 || exists j :: 0 <= j < n && RunningMax(cs, n) == cs[j]
    decreases n
  {
    if n > 0 {
      RunningMaxAttained(cs, n - 1);
    }
  }

  /** The changes of all states of a sweep, in the table's order. */
  function Changes<S(==), A(==)>(m: Model<S, A>, V: Values<S>): seq<real> {
    seq(|V.keys|, k requires 0 <= k < |V.keys| => VisitChange(m, V, k))
  }

  /** The running largest change after the first `n` states of a sweep
      (source lines 81, 115). */
  function SweepChange<S(==), A(==)>(m: Model<S, A>, V: Values<S>, n: nat): real
    requires n <= |V.keys|
    decreases n
  {
    if n == 0 then 0.0 else Max(SweepChange(m, V, n - 1), VisitChange(m, V, n - 1))
  }

  /** The running change is the running maximum of the visit changes. */
  lemma {:induction false} SweepChangeRunning<S, A>(m: Model<S, A>, V: Values<S>, n: nat)
    requires n <= |V.keys|
    ensures SweepChange(m, V, n) == RunningMax(Changes(m, V), n)
    decreases n
  {
    if n > 0 {
      SweepChangeRunning(m, V, n - 1);
      assert Changes(m, V)[n - 1] == VisitChange(m, V, n - 1);
    }
  }

  /** The outcome of one whole sweep. */
  datatype SweepState<S, A> = SweepState(values: Values<S>, policy: Policy<S, A>, delta: real)

  function Sweep<S(==), A(==)>(m: Model<S, A>, V: Values<S>): SweepState<S, A> {
    var n := |V.keys|;
    SweepState(SweepValues(m, V, n), SweepPolicy(m, V, n), SweepChange(m, V, n))
  }

  /** Visiting the `k`-th state writes its scan maximum in place. */
  lemma SweepValuesStep<S, A>(m: Model<S, A>, V: Values<S>, k: nat)
    requires k < |V.keys|
    ensures var W := SweepValues(m, V, k);
            SweepValues(m, V, k + 1) == Put(W, V.keys[k], BestAt(m, W, V.keys[k]).maxVal)
  {
  }

  /** Visiting the `k`-th state records its greedy row. */
  lemma SweepPolicyStep<S, A>(m: Model<S, A>, V: Values<S>, k: nat)
    requires k < |V.keys|
    ensures var b := BestAt(m, SweepValues(m, V, k), V.keys[k]);
            && Distinct(b.ties)
            && SweepPolicy(m, V, k + 1) == Put(SweepPolicy(m, V, k), V.keys[k], GreedyRow(b))
  {
    BestAtTiesDistinct(m, SweepValues(m, V, k), V.keys[k]);
    assert Rows(m, V)[k] == Row(m, V, k);
  }

  /** Visiting the state at position `k - 1` leaves every other position of
      the value table as it was. */
  lemma SweepStepOther<S, A>(m: Model<S, A>, V: Values<S>, k: nat, j: nat)
    requires 0 < k <= |V.keys| && j < |V.keys| && j != k - 1
    ensures SweepValues(m, V, k).vals[j] == SweepValues(m, V, k - 1).vals[j]
  {
    var W := SweepValues(m, V, k - 1);
    PutAt(W, k - 1, BestAt(m, W, V.keys[k - 1]).maxVal);
  }

  /** Once the `j`-th state has been visited, later steps leave its value
      alone. */
  lemma {:induction false} SweepKeptAt<S, A>(m: Model<S, A>, V: Values<S>, n: nat, j: nat)
    requires j < n <= |V.keys|
    ensures SweepValues(m, V, n).vals[j] == SweepValues(m, V, j + 1).vals[j]
    decreases n
  {
    if n > j + 1 {
      SweepKeptAt(m, V, n - 1, j);
      SweepStepOther(m, V, n, j);
    }
  }

  /** A state not yet visited holds its old value. */
  lemma {:induction false} SweepBeforeAt<S, A>(m: Model<S, A>, V: Values<S>, k: nat, j: nat)
    requires k <= j < |V.keys|
    ensures SweepValues(m, V, k).vals[j] == V.vals[j]
    decreases k
  {
    if k > 0 {
      SweepBeforeAt(m, V, k - 1, j);
      SweepStepOther(m, V, k, j);
    }
  }

  /** The same two facts read by key. */
  lemma SweepKept<S, A>(m: Model<S, A>, V: Values<S>, n: nat, j: nat)
    requires j < n <= |V.keys|
    ensures Get(SweepValues(m, V, n), V.keys[j]) == Get(SweepValues(m, V, j + 1), V.keys[j])
  {
    SweepKeptAt(m, V, n, j);
    GetAt(SweepValues(m, V, n), j);
    GetAt(SweepValues(m, V, j + 1), j);
  }

  lemma SweepBefore<S, A>(m: Model<S, A>, V: Values<S>, k: nat, j: nat)
    requires k <= j < |V.keys|
    ensures Get(SweepValues(m, V, k), V.keys[j]) == Get(V, V.keys[j])
  {
    SweepBeforeAt(m, V, k, j);
    GetAt(SweepValues(m, V, k), j);
    GetAt(V, j);
  }

  /** The `k`-th state's new value is the scan maximum computed when it is
      visited. */
  lemma SweepWrites<S, A>(m: Model<S, A>, V: Values<S>, k: nat)
    requires k < |V.keys|
    ensures var W := SweepValues(m, V, k);
            Get(SweepValues(m, V, k + 1), V.keys[k]) == BestAt(m, W, V.keys[k]).maxVal
  {
  }

  /** The policy row recorded for the `k`-th state is the greedy row computed
      when it was visited, and later steps do not replace it. */
  lemma SweepPolicyRow<S, A>(m: Model<S, A>, V: Values<S>, n: nat, k: nat)
    requires k < n <= |V.keys|
    ensures V.keys[k] in SweepPolicy(m, V, n).keys
    ensures Get(SweepPolicy(m, V, n), V.keys[k]) == Row(m, V, k)
  {
    FillAt(V.keys, Rows(m, V), n, k);
  }

  /** The policy of the first `n` steps lists the first `n` states in order. */
  lemma SweepPolicyKeys<S, A>(m: Model<S, A>, V: Values<S>, n: nat)
    requires n <= |V.keys|
    ensures SweepPolicy(m, V, n).keys == V.keys[..n]
  {
    FillKeys(V.keys, Rows(m, V), n);
  }

  /** The sweep is Gauss-Seidel (source lines 79-108): when the `k`-th state
      is visited, the states before it already hold this sweep's final values
      and the states from `k` on still hold the old ones; its new value is the
      scan maximum computed from exactly that mixed table, and its policy row
      is the greedy row of that scan. */
  lemma SweepIsGaussSeidel<S, A>(m: Model<S, A>, V: Values<S>, k: nat)
    requires k < |V.keys|
    ensures var W := SweepValues(m, V, k);
            var fin := Sweep(m, V);
            var s := V.keys[k];
            && fin.values.keys == V.keys
            && (forall j :: 0 <= j < k ==> Get(W, V.keys[j]) == Get(fin.values, V.keys[j]))
            && (forall j :: k <= j < |V.keys| ==> Get(W, V.keys[j]) == Get(V, V.keys[j]))
            && Get(fin.values, s) == BestAt(m, W, s).maxVal
            && s in fin.policy.keys
            && Get(fin.policy, s) == Row(m, V, k)
  {
    var N := |V.keys|;
    forall j | 0 <= j < k
      ensures Get(SweepValues(m, V, k), V.keys[j]) == Get(SweepValues(m, V, N), V.keys[j])
    {
      SweepKept(m, V, k, j);
      SweepKept(m, V, N, j);
    }
    forall j | k <= j < N
      ensures Get(SweepValues(m, V, k), V.keys[j]) == Get(V, V.keys[j])
    {
      SweepBefore(m, V, k, j);
    }
    SweepKept(m, V, N, k);
    SweepWrites(m, V, k);
    SweepPolicyRow(m, V, N, k);
  }

  /** The change of the `k`-th state: its old value against the value the
      sweep leaves it with. */
  function Change<S(==), A(==)>(m: Model<S, A>, V: Values<S>, k: nat): real
    requires k < |V.keys|
  {
    Abs(Get(V, V.keys[k]) - Get(SweepValues(m, V, |V.keys|), V.keys[k]))
  }

  /** The change computed when a state is visited is its change over the
      whole sweep: nothing before the visit has touched it and nothing after
      touches it again. */
  lemma VisitChangeIsChange<S, A>(m: Model<S, A>, V: Values<S>, k: nat)
    requires k < |V.keys|
    ensures Changes(m, V)[k] == Change(m, V, k)
  {
    SweepBefore(m, V, k, k);
    SweepWrites(m, V, k);
    SweepKept(m, V, |V.keys|, k);
  }

  /** `delta` is the largest `|old - new|` over the states of a sweep (source
      lines 81, 108, 115): it bounds every state's change and, unless there
      are no states or every change is 0, equals one of them. */
  lemma SweepChangeIsMax<S, A>(m: Model<S, A>, V: Values<S>)
    ensures var d := Sweep(m, V).delta;
            && d >= 0.0
            && (forall j :: 0 <= j < |V.keys| ==> Change(m, V, j) <= d)
            && (d == 0.0 || exists j :: 0 <= j < |V.keys| && d == Change(m, V, j))
  {
    var N := |V.keys|;
    var cs := Changes(m, V);
    SweepChangeRunning(m, V, N);
    forall j | 0 <= j < N
      ensures Change(m, V, j) <= RunningMax(cs, N)
    {
      RunningMaxBound(cs, N, j);
      VisitChangeIsChange(m, V, j);
    }
    RunningMaxAttained(cs, N);
    if RunningMax(cs, N) != 0.0 {
      var j :| 0 <= j < N && RunningMax(cs, N) == cs[j];
      VisitChangeIsChange(m, V, j);
    }
  }

  /** Every row of a sweep's policy is empty or gives each of its actions
      `1/n`, summing to 1 (source lines 110-113). */
  lemma SweepPolicyUniform<S, A>(m: Model<S, A>, V: Values<S>, k: nat)
    requires k < |V.keys|
    ensures V.keys[k] in Sweep(m, V).policy.keys
    ensures var row := Get(Sweep(m, V).policy, V.keys[k]);
            && (forall i :: 0 <= i < |row.vals| ==> row.vals[i] == 1.0 / |row.keys| as real)
            && (row.keys != [] ==> Sum(row.vals) == 1.0)
  {
    SweepPolicyRow(m, V, |V.keys|, k);
    var W := SweepValues(m, V, k);
    BestAtTiesDistinct(m, W, V.keys[k]);
    GreedyRowSpec(BestAt(m, W, V.keys[k]));
  }

  /** One sweep, as a function of the value table it starts from. */
  function SweepOf<S(==), A(==)>(m: Model<S, A>): Values<S> -> SweepState<S, A> {
    (V: Values<S>) => Sweep(m, V)
  }

  /** The outcome of `ValueIteration.__call__`. */
  datatype Status<S, A> = Converged(policy: Policy<S, A>) | PolicyUnbound | FuelExhausted

  datatype RunResult<S, A> = RunResult(values: Values<S>, status: Status<S, A>)

  /** The outer loop (source lines 77-123) with at most `fuel` sweeps: stop
      as soon as a sweep's `delta` is below `tol`, returning the values after
      that sweep and the policy snapshot of the sweep before it (`prev`);
      with no earlier snapshot the source fails on an unbound name. */
  function RunSpec<S, A>(sweep: Values<S> -> SweepState<S, A>, tol: real, V: Values<S>,
                         prev: Option<Policy<S, A>>, fuel: nat): RunResult<S, A>
    decreases fuel
  {
    if fuel == 0 then RunResult(V, FuelExhausted)
    else
      var sw := sweep(V);
      if sw.delta < tol then
        RunResult(sw.values, if prev.Some? then Converged(prev.value) else PolicyUnbound)
      else
        RunSpec(sweep, tol, sw.values, Some(sw.policy), fuel - 1)
  }

  /** One turn of the outer loop, given the sweep `st` it performs. */
  lemma RunSpecStep<S, A>(m: Model<S, A>, tol: real, V: Values<S>,
                          prev: Option<Policy<S, A>>, fuel: nat, st: SweepState<S, A>)
    requires fuel > 0 && st == Sweep(m, V)
    ensures st.delta < tol ==>
              RunSpec(SweepOf(m), tol, V, prev, fuel)
              == RunResult(st.values, if prev.Some? then Converged(prev.value) else PolicyUnbound)
    ensures st.delta >= tol ==>
              RunSpec(SweepOf(m), tol, V, prev, fuel) == RunSpec(SweepOf(m), tol, st.values, Some(st.policy), fuel - 1)
  {
  }

  /** The values after `k` whole sweeps. */
  function Iterate<S, A>(sweep: Values<S> -> SweepState<S, A>, V: Values<S>, k: nat): Values<S>
    decreases k
  {
    if k == 0 then V else sweep(Iterate(sweep, V, k - 1)).values
  }

  /** Sweep number `k`, counting from 0. */
  function SweepNo<S, A>(sweep: Values<S> -> SweepState<S, A>, V: Values<S>, k: nat): SweepState<S, A> {
    sweep(Iterate(sweep, V, k))
  }

  /** The snapshot the loop holds after `j0` sweeps. */
  function PrevAt<S, A>(sweep: Values<S> -> SweepState<S, A>, V: Values<S>, j0: nat): Option<Policy<S, A>> {
    if j0 == 0 then None else Some(SweepNo(sweep, V, j0 - 1).policy)
  }

  /** Resumed after `j0` sweeps, the loop runs out of fuel only when every
      remaining sweep stays at or above `tol`, and then holds the values of
      the last of them. */
  lemma {:induction false} RunFromExhausted<S, A>(sweep: Values<S> -> SweepState<S, A>, tol: real, V: Values<S>, j0: nat, fuel: nat)
    requires RunSpec(sweep, tol, Iterate(sweep, V, j0), PrevAt(sweep, V, j0), fuel).status.FuelExhausted?
    ensures forall j :: j0 <= j < j0 + fuel ==> SweepNo(sweep, V, j).delta >= tol
    ensures RunSpec(sweep, tol, Iterate(sweep, V, j0), PrevAt(sweep, V, j0), fuel).values == Iterate(sweep, V, j0 + fuel)
    decreases fuel
  {
    if fuel > 0 {
      var W := Iterate(sweep, V, j0);
      var sw := SweepNo(sweep, V, j0);
      assert sw == sweep(W);
      assert Iterate(sweep, V, j0 + 1) == sw.values;
      assert sw.delta >= tol;
      assert RunSpec(sweep, tol, W, PrevAt(sweep, V, j0), fuel)
          == RunSpec(sweep, tol, sw.values, Some(sw.policy), fuel - 1);
      assert PrevAt(sweep, V, j0 + 1) == Some(sw.policy);
      RunFromExhausted(sweep, tol, V, j0 + 1, fuel - 1);
    }
  }

  /** Resumed after `j0` sweeps that all stayed at or above `tol`, a loop that
      does not run out of fuel stops at the first sweep below `tol`, with the
      values after it and the policy of the sweep before it. */
  lemma {:induction false} RunFromStops<S, A>(sweep: Values<S> -> SweepState<S, A>, tol: real, V: Values<S>, j0: nat, fuel: nat)
    requires forall j :: 0 <= j < j0 ==> SweepNo(sweep, V, j).delta >= tol
    requires !RunSpec(sweep, tol, Iterate(sweep, V, j0), PrevAt(sweep, V, j0), fuel).status.FuelExhausted?
    ensures var r := RunSpec(sweep, tol, Iterate(sweep, V, j0), PrevAt(sweep, V, j0), fuel);
            exists k :: && j0 <= k < j0 + fuel
                        && (forall j :: 0 <= j < k ==> SweepNo(sweep, V, j).delta >= tol)
                        && SweepNo(sweep, V, k).delta < tol
                        && r.values == Iterate(sweep, V, k + 1)
                        && r.status == if k == 0 then PolicyUnbound
                                       else Converged(SweepNo(sweep, V, k - 1).policy)
    decreases fuel
  {
    var W := Iterate(sweep, V, j0);
    var r := RunSpec(sweep, tol, W, PrevAt(sweep, V, j0), fuel);
    var sw := SweepNo(sweep, V, j0);
    assert sw == sweep(W);
    assert Iterate(sweep, V, j0 + 1) == sw.values;
    if sw.delta >= tol {
      assert r == RunSpec(sweep, tol, sw.values, Some(sw.policy), fuel - 1);
      assert PrevAt(sweep, V, j0 + 1) == Some(sw.policy);
      RunFromStops(sweep, tol, V, j0 + 1, fuel - 1);
    } else {
      assert r.values == Iterate(sweep, V, j0 + 1);
      assert r.status == if j0 == 0 then PolicyUnbound else Converged(SweepNo(sweep, V, j0 - 1).policy);
      assert j0 <= j0 < j0 + fuel && SweepNo(sweep, V, j0).delta < tol;
    }
  }

  /** The loop resumed after `j0` sweeps that all stayed at or above `tol`. */
  lemma RunFrom<S, A>(sweep: Values<S> -> SweepState<S, A>, tol: real, V: Values<S>, j0: nat, fuel: nat)
    requires forall j :: 0 <= j < j0 ==> SweepNo(sweep, V, j).delta >= tol
    ensures var r := RunSpec(sweep, tol, Iterate(sweep, V, j0), PrevAt(sweep, V, j0), fuel);
            && (r.status.FuelExhausted? ==>
                  && (forall j :: j0 <= j < j0 + fuel ==> SweepNo(sweep, V, j).delta >= tol)
                  && r.values == Iterate(sweep, V, j0 + fuel))
            && (!r.status.FuelExhausted? ==>
                  exists k :: && j0 <= k < j0 + fuel
                              && (forall j :: 0 <= j < k ==> SweepNo(sweep, V, j).delta >= tol)
                              && SweepNo(sweep, V, k).delta < tol
                              && r.values == Iterate(sweep, V, k + 1)
                              && r.status == if k == 0 then PolicyUnbound
                                             else Converged(SweepNo(sweep, V, k - 1).policy))
  {
    if RunSpec(sweep, tol, Iterate(sweep, V, j0), PrevAt(sweep, V, j0), fuel).status.FuelExhausted? {
      RunFromExhausted(sweep, tol, V, j0, fuel);
    } else {
      RunFromStops(sweep, tol, V, j0, fuel);
    }
  }

  /** What a call returns (source lines 73-123), starting from values `V`:
      it reports `Converged(p)` exactly when some sweep `k >= 1` is the first
      whose `delta` is below `tol`; then the values are those after sweep `k`
      and `p` is the policy of sweep `k - 1`, whose `delta` was not below
      `tol`. When already the first sweep is below `tol` the call fails on the
      unbound policy; when all `fuel` sweeps stay at or above `tol` the fuel
      runs out. */
  lemma RunOutcome<S, A>(sweep: Values<S> -> SweepState<S, A>, tol: real, V: Values<S>, fuel: nat)
    ensures var r := RunSpec(sweep, tol, V, None, fuel);
            && (r.status.PolicyUnbound? <==> fuel > 0 && SweepNo(sweep, V, 0).delta < tol)
            && (r.status.FuelExhausted? <==> forall j :: 0 <= j < fuel ==> SweepNo(sweep, V, j).delta >= tol)
            && (r.status.Converged? ==>
                  exists k :: && 1 <= k < fuel
                              && (forall j :: 0 <= j < k ==> SweepNo(sweep, V, j).delta >= tol)
                              && SweepNo(sweep, V, k).delta < tol
                              && r.values == Iterate(sweep, V, k + 1)
                              && r.status.policy == SweepNo(sweep, V, k - 1).policy)
  {
    RunFrom(sweep, tol, V, 0, fuel);
    assert Iterate(sweep, V, 0) == V && PrevAt(sweep, V, 0) == None;
  }
}
