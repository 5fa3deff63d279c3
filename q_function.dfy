/** `Qfunction` and `PolicyGivenGoal`: one non-maximising backup pass that
    tabulates the backup of every action of every state, and the softmax
    policy of a goal built from those backups. Both only fill fresh nested
    dictionaries, writing each key once in the order of the table they walk,
    so each result is the dictionary listing those keys with their values. */
module QFunction {
  import opened OrderedDict
  import opened Mdp
  import opened Sweeps

  /** `QTableTemp[s]` (source lines 129-137): each action of `s`'s transition
      row, in the row's order, with its backup under the values `V`. */
  function QRow<S(==), A(==)>(m: Model<S, A>, V: Values<S>, s: S): ODict<A, real> {
    var acts := Actions(m, s);
    Dict(acts, Qs(m, V, s, acts))
  }

  /** `Qfunction(transitionTable, rewardTable, valueTable, gamma)` (source
      lines 125-141), with `m` holding the two tables and `gamma`: a row for
      every state of the value table, in its order. The source reads
      `transitionTable[s]`, `rewardTable[s][action][snew]` and
      `valueTable[snew]` without a check, hence the precondition. */
  function QTable<S(==), A(==)>(m: Model<S, A>, V: Values<S>): (q: ODict<S, ODict<A, real>>)
    requires PassDefined(m, V.keys, V.keys)
  {
    var rows: seq<ODict<A, real>> := seq(|V.keys|, i requires 0 <= i < |V.keys| => QRow(m, V, V.keys[i]));
    Dict(V.keys, rows)
  }

  /** The Q-table lists the states of the value table; the row of state `s`
      lists the actions of `s`'s transition row, in order, and holds for each
      action `a` its backup `Σ P·(R[s][a][snew] + γ·V[snew])`. */
  lemma QTableSpec<S, A>(m: Model<S, A>, V: Values<S>, s: S)
    requires PassDefined(m, V.keys, V.keys) && s in V.keys
    ensures QTable(m, V).keys == V.keys
    ensures s in QTable(m, V).keys
    ensures var row := Get(QTable(m, V), s);
            && s in m.transition.keys
            && row.keys == Get(m.transition, s).keys
            && forall a :: a in row.keys ==> Get(row, a) == Backup(m, V, s, a)
  {
    var q := QTable(m, V);
    var i := IndexOf(V.keys, s);
    PassDefinedAt(m, V.keys, V.keys, s);
    var row := QRow(m, V, s);
    assert Get(q, s) == row;
    forall a | a in row.keys
      ensures Get(row, a) == Backup(m, V, s, a)
    {
      var j := IndexOf(row.keys, a);
      assert row.vals[j] == Backup(m, V, s, row.keys[j]);
    }
  }

  /** The scan value iteration runs over state `s` is the tie scan over
      `s`'s Q-row: `Qfunction` computes exactly the backups a sweep compares. */
  lemma QRowIsScanned<S, A>(m: Model<S, A>, V: Values<S>, s: S)
    ensures var row := QRow(m, V, s);
            BestAt(m, V, s) == TieScan(row.keys, row.vals)
  {
  }

  /** `QTable[s][action]` for each of the actions `acts`, in order. */
  function Lookup<A(==)>(q: ODict<A, real>, acts: seq<A>): (qs: seq<real>)
    requires forall a :: a in acts ==> a in q.keys
    ensures |qs| == |acts|
  {
    seq(|acts|, i requires 0 <= i < |acts| => Get(q, acts[i]))
  }

  /** Entry `i` of the lookup is the Q-value of `acts[i]`. */
  lemma LookupAt<A>(q: ODict<A, real>, acts: seq<A>, i: nat)
    requires forall a :: a in acts ==> a in q.keys
    requires i < |acts|
    ensures acts[i] in q.keys && Lookup(q, acts)[i] == Get(q, acts[i])
  {
    assert acts[i] in acts;
  }

  /** Every element times `c`. */
  function Scale(w: seq<real>, c: real): (p: seq<real>)
    ensures |p| == |w|
  {
    seq(|w|, i requires 0 <= i < |w| => w[i] * c)
  }

  /** Entry `i` of the scaled sequence is element `i` times `c`. */
  lemma ScaleAt(w: seq<real>, c: real, i: nat)
    requires i < |w|
    ensures Scale(w, c)[i] == w[i] * c
  {
  }

  /** `exp` of every element. */
  function Exps(exp: real -> real, xs: seq<real>): (w: seq<real>)
    ensures |w| == |xs|
  {
    seq(|xs|, i requires 0 <= i < |xs| => exp(xs[i]))
  }

  /** The softmax weights `exp(β·Q)` of the Q-values `qs` (source line 153). */
  function Weights(exp: real -> real, beta: real, qs: seq<real>): (w: seq<real>)
    ensures |w| == |qs|
  {
    Exps(exp, Scale(qs, beta))
  }

  /** Weight `i` is `exp(β·qs[i])`, positive when `exp` is. */
  lemma WeightAt(exp: real -> real, beta: real, qs: seq<real>, i: nat)
    requires i < |qs|
    ensures Weights(exp, beta, qs)[i] == exp(qs[i] * beta)
  {
    ScaleAt(qs, beta, i);
  }

  /** A strictly positive `exp` gives strictly positive weights. */
  lemma WeightsPositive(exp: real -> real, beta: real, qs: seq<real>)
    requires forall x :: exp(x) > 0.0
    ensures forall i :: 0 <= i < |qs| ==> Weights(exp, beta, qs)[i] > 0.0
  {
    forall i | 0 <= i < |qs|
      ensures Weights(exp, beta, qs)[i] > 0.0
    {
      WeightAt(exp, beta, qs, i);
    }
  }

  /** With `exp` increasing and `β > 0` a larger Q-value has a larger weight. */
  lemma WeightsOrder(exp: real -> real, beta: real, qs: seq<real>, i: nat, j: nat)
    requires forall x, y :: x < y ==> exp(x) < exp(y)
    requires beta > 0.0 && i < |qs| && j < |qs| && qs[i] < qs[j]
    ensures Weights(exp, beta, qs)[i] < Weights(exp, beta, qs)[j]
  {
    WeightAt(exp, beta, qs, i);
    WeightAt(exp, beta, qs, j);
    ScaleOrder(beta, qs[i], qs[j]);
  }

  /** Multiplying by a positive `beta` keeps order. */
  lemma ScaleOrder(beta: real, x: real, y: real)
    requires beta > 0.0 && x < y
    ensures x * beta < y * beta
  {
  }

  /** Each weight times `factor = 1.0 / sum(w)` (source lines 155-156). */
  function Normalize(w: seq<real>): (p: seq<real>)
    requires Sum(w) != 0.0
    ensures |p| == |w|
  {
    var factor := 1.0 / Sum(w);
    Scale(w, factor)
  }

  /** Scaling by the reciprocal of a positive total is dividing by it, and
      keeps signs and order. */
  lemma Share(x: real, y: real, t: real)
    requires t > 0.0
    ensures x * (1.0 / t) == x / t && t * (1.0 / t) == 1.0
    ensures x > 0.0 ==> x * (1.0 / t) > 0.0
    ensures x < y ==> x * (1.0 / t) < y * (1.0 / t)
  {
  }

  /** Scaling by the reciprocal of a positive total `t` gives each weight's
      share `w[i] / t`, positive for a positive weight. */
  lemma ShareAt(w: seq<real>, t: real, i: nat)
    requires t > 0.0 && i < |w|
    ensures Scale(w, 1.0 / t)[i] == w[i] / t
    ensures w[i] > 0.0 ==> Scale(w, 1.0 / t)[i] > 0.0
  {
    ScaleAt(w, 1.0 / t, i);
    Share(w[i], w[i], t);
  }

  /** Normalising positive weights gives positive entries, each its weight's
      share of the total. */
  lemma NormalizeAt(w: seq<real>, i: nat)
    requires forall k :: 0 <= k < |w| ==> w[k] > 0.0
    requires i < |w|
    ensures Sum(w) > 0.0 && Normalize(w)[i] == w[i] / Sum(w) && Normalize(w)[i] > 0.0
  {
    SumPositive(w);
    ShareAt(w, Sum(w), i);
  }

  /** Scaling every weight by `c` scales their sum by `c`. */
  lemma ScaleSum(w: seq<real>, c: real)
    ensures Sum(Scale(w, c)) == Sum(w) * c
  {
    var p := Scale(w, c);
    forall i | 0 <= i < |w|
      ensures p[i] == w[i] * c
    {
      ScaleAt(w, c, i);
    }
    SumScaled(w, p, c);
  }

  /** Scaling weights by the reciprocal of their total makes them add up to 1. */
  lemma ScaledToOne(w: seq<real>, t: real)
    requires t > 0.0 && Sum(w) == t
    ensures Sum(Scale(w, 1.0 / t)) == 1.0
  {
    ScaleSum(w, 1.0 / t);
    Share(t, t, t);
  }

  /** Normalised positive weights add up to 1. */
  lemma NormalizeSum(w: seq<real>)
    requires w != [] && forall k :: 0 <= k < |w| ==> w[k] > 0.0
    ensures Sum(w) > 0.0 && Sum(Normalize(w)) == 1.0
  {
    SumPositive(w);
    ScaledToOne(w, Sum(w));
  }

  /** Normalising positive weights gives a probability distribution: positive
      entries, each its weight's share of the total, that add up to 1. */
  lemma NormalizeSpec(w: seq<real>)
    requires w != [] && forall i :: 0 <= i < |w| ==> w[i] > 0.0
    ensures Sum(w) > 0.0
    ensures forall i :: 0 <= i < |w| ==> Normalize(w)[i] == w[i] / Sum(w) && Normalize(w)[i] > 0.0
    ensures Sum(Normalize(w)) == 1.0
  {
    NormalizeSum(w);
    forall i | 0 <= i < |w|
      ensures Normalize(w)[i] == w[i] / Sum(w) && Normalize(w)[i] > 0.0
    {
      NormalizeAt(w, i);
    }
  }

  /** Normalising keeps the order of the weights. */
  lemma NormalizeMonotone(w: seq<real>, i: nat, j: nat)
    requires forall k :: 0 <= k < |w| ==> w[k] > 0.0
    requires i < |w| && j < |w| && w[i] < w[j]
    ensures Sum(w) > 0.0 && Normalize(w)[i] < Normalize(w)[j]
  {
    SumPositive(w);
    ShareOrder(w, Sum(w), i, j);
  }

  /** Scaling by the reciprocal of a positive total keeps the order. */
  lemma ShareOrder(w: seq<real>, t: real, i: nat, j: nat)
    requires t > 0.0 && i < |w| && j < |w| && w[i] < w[j]
    ensures Scale(w, 1.0 / t)[i] < Scale(w, 1.0 / t)[j]
  {
    ScaleAt(w, 1.0 / t, i);
    ScaleAt(w, 1.0 / t, j);
    Share(w[i], w[j], t);
  }

  /** `piTable[s]` (source lines 150-156): the actions `acts`, in order, each
      with its weight `exp(β·Q)` divided by the sum of the weights. `acts` is
      not empty, as otherwise the sum is 0 and the division fails. */
  function SoftmaxRow<A(==)>(exp: real -> real, beta: real, q: ODict<A, real>, acts: seq<A>): ODict<A, real>
    requires forall x :: exp(x) > 0.0
    requires Distinct(acts) && acts != []
    requires forall a :: a in acts ==> a in q.keys
  {
    var w := Weights(exp, beta, Lookup(q, acts));
    WeightsPositive(exp, beta, Lookup(q, acts));
    SumPositive(w);
    Dict(acts, Normalize(w))
  }

  /** What `PolicyGivenGoal` requires to run without an exception: the
      Q-table has a row for every state of `originalReward`, holding every
      action `originalReward` lists for it; and each state lists at least one
      action, as otherwise the sum of the weights is 0 and the division at
      line 155 fails. */
  ghost predicate SoftmaxDefined<S, A>(q: ODict<S, ODict<A, real>>, R: Table<S, A>) {
    forall s :: s in R.keys ==>
      && s in q.keys
      && Get(R, s).keys != []
      && forall a :: a in Get(R, s).keys ==> a in Get(q, s).keys
  }

  /** `PolicyGivenGoal(transitionTable, originalReward, valueTable, gamma,
      beta)` (source lines 143-157): the Q-table under `originalReward`, then
      for every state of `originalReward` the softmax of its actions' Q-values.
      `exp` is `np.exp`, taken as any strictly positive function. */
  function PolicyGivenGoal<S(==), A(==)>(transition: Table<S, A>, originalReward: Table<S, A>, V: Values<S>,
                                         gamma: real, beta: real, exp: real -> real): (pi: Policy<S, A>)
    requires forall x :: exp(x) > 0.0
    requires PassDefined(Model(transition, originalReward, gamma), V.keys, V.keys)
    requires SoftmaxDefined(QTable(Model(transition, originalReward, gamma), V), originalReward)
  {
    var q := QTable(Model(transition, originalReward, gamma), V);
    var R := originalReward;
    var rows: seq<ODict<A, real>> :=
      seq(|R.keys|, i requires 0 <= i < |R.keys| => SoftmaxRow(exp, beta, Get(q, R.keys[i]), Get(R, R.keys[i]).keys));
    Dict(R.keys, rows)
  }

  /** The row `PolicyGivenGoal` gives state `s` is the softmax of the
      actions of `originalReward[s]` over `s`'s Q-row. */
  lemma PolicyGivenGoalRow<S, A>(transition: Table<S, A>, originalReward: Table<S, A>, V: Values<S>,
                                 gamma: real, beta: real, exp: real -> real, s: S)
    requires forall x :: exp(x) > 0.0
    requires PassDefined(Model(transition, originalReward, gamma), V.keys, V.keys)
    requires SoftmaxDefined(QTable(Model(transition, originalReward, gamma), V), originalReward)
    requires s in originalReward.keys
    ensures var pi := PolicyGivenGoal(transition, originalReward, V, gamma, beta, exp);
            var q := QTable(Model(transition, originalReward, gamma), V);
            && pi.keys == originalReward.keys
            && s in pi.keys && s in q.keys && s in V.keys
            && Get(pi, s) == SoftmaxRow(exp, beta, Get(q, s), Get(originalReward, s).keys)
  {
    var k := IndexOf(originalReward.keys, s);
    var pi := PolicyGivenGoal(transition, originalReward, V, gamma, beta, exp);
    assert pi.keys[k] == s;
    GetAt(pi, k);
  }

  /** The Q-values looked up in `s`'s Q-row are the backups. */
  lemma LookupIsBackups<S, A>(m: Model<S, A>, V: Values<S>, s: S, acts: seq<A>)
    requires PassDefined(m, V.keys, V.keys) && s in V.keys
    requires forall a :: a in acts ==> a in Get(QTable(m, V), s).keys
    ensures Lookup(Get(QTable(m, V), s), acts) == Qs(m, V, s, acts)
  {
    QTableSpec(m, V, s);
    var row := Get(QTable(m, V), s);
    forall i | 0 <= i < |acts|
      ensures Lookup(row, acts)[i] == Qs(m, V, s, acts)[i]
    {
      LookupAt(row, acts, i);
    }
  }

  /** `PolicyGivenGoal` lists the states of `originalReward`, and the row of
      state `s` lists the actions of `originalReward[s]` in order with the
      normalised weights `exp(β·backup)` of their backups under
      `originalReward`. */
  lemma PolicyGivenGoalSpec<S, A>(transition: Table<S, A>, originalReward: Table<S, A>, V: Values<S>,
                                  gamma: real, beta: real, exp: real -> real, s: S)
    requires forall x :: exp(x) > 0.0
    requires PassDefined(Model(transition, originalReward, gamma), V.keys, V.keys)
    requires SoftmaxDefined(QTable(Model(transition, originalReward, gamma), V), originalReward)
    requires s in originalReward.keys
    ensures var pi := PolicyGivenGoal(transition, originalReward, V, gamma, beta, exp);
            var acts := Get(originalReward, s).keys;
            var w := Weights(exp, beta, Qs(Model(transition, originalReward, gamma), V, s, acts));
            && pi.keys == originalReward.keys
            && s in pi.keys
            && Get(pi, s).keys == acts
            && Sum(w) > 0.0
            && Get(pi, s).vals == Normalize(w)
  {
    var m := Model(transition, originalReward, gamma);
    var acts := Get(originalReward, s).keys;
    PolicyGivenGoalRow(transition, originalReward, V, gamma, beta, exp, s);
    LookupIsBackups(m, V, s, acts);
    WeightsPositive(exp, beta, Qs(m, V, s, acts));
    SumPositive(Weights(exp, beta, Qs(m, V, s, acts)));
  }

  /** Every row of `PolicyGivenGoal` is a probability distribution over the
      actions of `originalReward[s]`: each probability is the action's weight
      `exp(β·Q[s][a])` over the row's total, is positive, and the row sums
      to 1. */
  lemma PolicyGivenGoalDistribution<S, A>(transition: Table<S, A>, originalReward: Table<S, A>, V: Values<S>,
                                          gamma: real, beta: real, exp: real -> real, s: S)
    requires forall x :: exp(x) > 0.0
    requires PassDefined(Model(transition, originalReward, gamma), V.keys, V.keys)
    requires SoftmaxDefined(QTable(Model(transition, originalReward, gamma), V), originalReward)
    requires s in originalReward.keys
    ensures var pi := PolicyGivenGoal(transition, originalReward, V, gamma, beta, exp);
            var acts := Get(originalReward, s).keys;
            var w := Weights(exp, beta, Qs(Model(transition, originalReward, gamma), V, s, acts));
            && s in pi.keys
            && Sum(w) > 0.0
            && (forall i :: 0 <= i < |acts| ==> Get(pi, s).vals[i] == w[i] / Sum(w) && Get(pi, s).vals[i] > 0.0)
            && Sum(Get(pi, s).vals) == 1.0
  {
    PolicyGivenGoalSpec(transition, originalReward, V, gamma, beta, exp, s);
    var acts := Get(originalReward, s).keys;
    var qs := Qs(Model(transition, originalReward, gamma), V, s, acts);
    assert SoftmaxDefined(QTable(Model(transition, originalReward, gamma), V), originalReward);
    WeightsPositive(exp, beta, qs);
    NormalizeSpec(Weights(exp, beta, qs));
  }

  /** With `exp` increasing and `β > 0`, `PolicyGivenGoal` keeps the order of
      the backups: in every state, an action with a larger Q-value gets a
      larger probability. */
  lemma PolicyGivenGoalMonotone<S, A>(transition: Table<S, A>, originalReward: Table<S, A>, V: Values<S>,
                                      gamma: real, beta: real, exp: real -> real, s: S, i: nat, j: nat)
    requires forall x :: exp(x) > 0.0
    requires forall x, y :: x < y ==> exp(x) < exp(y)
    requires beta > 0.0
    requires PassDefined(Model(transition, originalReward, gamma), V.keys, V.keys)
    requires SoftmaxDefined(QTable(Model(transition, originalReward, gamma), V), originalReward)
    requires s in originalReward.keys
    requires i < |Get(originalReward, s).keys| && j < |Get(originalReward, s).keys|
    requires var acts := Get(originalReward, s).keys;
             Backup(Model(transition, originalReward, gamma), V, s, acts[i])
               < Backup(Model(transition, originalReward, gamma), V, s, acts[j])
    ensures var pi := PolicyGivenGoal(transition, originalReward, V, gamma, beta, exp);
            s in pi.keys && Get(pi, s).vals[i] < Get(pi, s).vals[j]
  {
    PolicyGivenGoalSpec(transition, originalReward, V, gamma, beta, exp, s);
    var acts := Get(originalReward, s).keys;
    var qs := Qs(Model(transition, originalReward, gamma), V, s, acts);
    WeightsPositive(exp, beta, qs);
    WeightsOrder(exp, beta, qs, i, j);
    NormalizeMonotone(Weights(exp, beta, qs), i, j);
  }
}
