/** The environment model and the one-step Bellman backup shared by value
    iteration and the Q-function.

    A transition table maps state -> action -> next state -> probability; a
    reward table has the same nesting and holds the reward of each
    (state, action, next state) triple. A value table maps state -> value. */
module Mdp {
  import opened OrderedDict

  type Table<S, A> = ODict<S, ODict<A, ODict<S, real>>>

  /** state -> value */
  type Values<S> = ODict<S, real>

  /** state -> action -> probability */
  type Policy<S, A> = ODict<S, ODict<A, real>>

  /** What a backup reads besides the value table: the transition table, the
      reward table and the discount factor. */
  datatype Model<S, A> = Model(transition: Table<S, A>, reward: Table<S, A>, gamma: real)

  /** The actions of state `s`, in the order of its transition row. */
  function Actions<S(==), A>(m: Model<S, A>, s: S): seq<A> {
    if s in m.transition.keys then Get(m.transition, s).keys else []
  }

  /** Every lookup that backing up state `s` performs succeeds: it has a
      transition row; for each of its actions the reward table has an entry,
      listing every next state of the transition row; and every next state is
      one of `states`, so the value table holds it. */
  ghost predicate StateDefined<S, A>(m: Model<S, A>, s: S, states: seq<S>) {
    && s in m.transition.keys
    && forall a :: a in Get(m.transition, s).keys ==>
         && s in m.reward.keys && a in Get(m.reward, s).keys
         && forall snew :: snew in Get(Get(m.transition, s), a).keys ==>
              snew in Get(Get(m.reward, s), a).keys && snew in states
  }

  /** `StateDefined` for each of the states `todo`. */
  ghost predicate PassDefined<S, A>(m: Model<S, A>, todo: seq<S>, states: seq<S>)
    decreases |todo|
  {
    |todo| == 0 ||
    (PassDefined(m, todo[..|todo| - 1], states) && StateDefined(m, todo[|todo| - 1], states))
  }

  /** Each state listed in `todo` is well defined. */
  lemma {:induction false} PassDefinedAt<S, A>(m: Model<S, A>, todo: seq<S>, states: seq<S>, s: S)
    requires PassDefined(m, todo, states) && s in todo
    ensures StateDefined(m, s, states)
    decreases |todo|
  {
    var n := |todo| - 1;
    if todo[n] != s {
      assert s in todo[..n] by {
        var j :| 0 <= j < |todo| && todo[j] == s;
        assert todo[..n][j] == s;
      }
      PassDefinedAt(m, todo[..n], states, s);
    }
  }

  /** `d[k]` where the source performs the lookup only when `PassDefined`
      holds; the default 0 is never used by the modelled code, it keeps the
      specification functions total. */
  function At<K(==)>(d: ODict<K, real>, k: K): real {
    if k in d.keys then Get(d, k) else 0.0
  }

  /** `Σ P·(r + γ·V[snew])` over the first `n` next states of one transition
      row `prob`, accumulated in the row's order (source lines 91-93). */
  function BackupPrefix<S(==)>(prob: ODict<S, real>, rew: ODict<S, real>, gamma: real, V: Values<S>, n: nat): real
    requires n <= |prob.keys|
    decreases n
  {
    if n == 0 then 0.0
    else
      var snew := prob.keys[n - 1];
      BackupPrefix(prob, rew, gamma, V, n - 1) + prob.vals[n - 1] * (At(rew, snew) + gamma * At(V, snew))
  }

  /** The expected backup of taking action `a` in state `s` under values `V`. */
  function Backup<S(==), A(==)>(m: Model<S, A>, V: Values<S>, s: S, a: A): real {
    if s in m.transition.keys && a in Get(m.transition, s).keys
       && s in m.reward.keys && a in Get(m.reward, s).keys then
      var prob := Get(Get(m.transition, s), a);
      BackupPrefix(prob, Get(Get(m.reward, s), a), m.gamma, V, |prob.keys|)
    else 0.0
  }

  /** `round(x, 3)`: the nearest multiple of 1/1000, halves going to the even
      neighbour. */
  function Round3(x: real): (r: real)
    ensures -0.0005 <= r - x <= 0.0005
  {
    var y := x * 1000.0;
    var f := y.Floor;
    var frac := y - f as real;
    var n := if frac < 0.5 then f
             else if frac > 0.5 then f + 1
             else if f % 2 == 0 then f else f + 1;
    n as real / 1000.0
  }
}
