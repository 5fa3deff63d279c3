/** `GetLikelihoodReward`: reward shaping for signalling a goal. For every
    goal it tabulates the probability `P(g, s, snew)` that the goal's policy
    moves from `s` to `snew`, then adds to every original reward
    `alpha · P(trueGoal, s, snew) / (P(A, s, snew) + P(B, s, snew) + P(C, s, snew))`.
    Both steps only fill fresh nested dictionaries, so they are functions. */
module RewardShaping {
  import opened OrderedDict
  import opened Mdp

  /** Goals are named by strings; the denominator reads the goals named
      `'A'`, `'B'` and `'C'`, whatever goals the caller passes. */
  type Goal = string

  const GoalA: Goal := "A"
  const GoalB: Goal := "B"
  const GoalC: Goal := "C"

  /** `d[k] = v` for each key of `ks` in turn. */
  function PutEach<K(==)>(d: ODict<K, real>, ks: seq<K>, v: real): ODict<K, real>
    decreases |ks|
  {
    if ks == [] then d else Put(PutEach(d, ks[..|ks| - 1], v), ks[|ks| - 1], v)
  }

  /** After writing `v` under each of `ks`, those keys hold `v` and every other
      key keeps what it had. */
  lemma {:induction false} PutEachSpec<K>(d: ODict<K, real>, ks: seq<K>, v: real, k: K)
    ensures k in PutEach(d, ks, v).keys <==> k in d.keys || k in ks
    ensures k in ks ==> Get(PutEach(d, ks, v), k) == v
    ensures k !in ks && k in d.keys ==> Get(PutEach(d, ks, v), k) == Get(d, k)
    decreases |ks|
  {
    if ks != [] {
      var n := |ks| - 1;
      var e := PutEach(d, ks[..n], v);
      PutEachSpec(d, ks[..n], v, k);
      assert ks == ks[..n] + [ks[n]];
      if k != ks[n] && k in e.keys {
        PutOther(e, ks[n], v, k);
      }
    }
  }

  /** The position, among the first `n` actions of `row`, of the last action
      whose next states include `snew`; -1 when none does. */
  function LastReaching<S(==), A>(row: ODict<A, ODict<S, real>>, snew: S, n: nat): (k: int)
    requires n <= |row.keys|
    ensures -1 <= k < n
    ensures k >= 0 ==> snew in row.vals[k].keys
    ensures forall j :: k < j < n ==> snew !in row.vals[j].keys
    decreases n
  {
    if n == 0 then -1
    else if snew in row.vals[n - 1].keys then n - 1
    else LastReaching(row, snew, n - 1)
  }

  /** `prob_g_s_sn[goal][s]` after the first `n` actions of
      `row = originalReward[s]` (source lines 34-40): for each action `a` in
      turn, every next state it lists gets `Policy[s][a]`, so a later action
      overwrites an earlier one. */
  function ProbRow<S(==), A(==)>(pol: ODict<A, real>, row: ODict<A, ODict<S, real>>, n: nat): ODict<S, real>
    requires n <= |row.keys|
    requires forall a :: a in row.keys ==> a in pol.keys
    decreases n
  {
    if n == 0 then Empty()
    else
      assert row.keys[n - 1] in row.keys;
      PutEach(ProbRow(pol, row, n - 1), row.vals[n - 1].keys, Get(pol, row.keys[n - 1]))
  }

  /** The last action wins: `snew` is listed exactly when some action reaches
      it, and then holds the policy probability of the last such action. */
  lemma {:induction false} ProbRowSpec<S, A>(pol: ODict<A, real>, row: ODict<A, ODict<S, real>>, n: nat, snew: S)
    requires n <= |row.keys|
    requires forall a :: a in row.keys ==> a in pol.keys
    ensures var k := LastReaching(row, snew, n);
            && (snew in ProbRow(pol, row, n).keys <==> k >= 0)
            && (k >= 0 ==> row.keys[k] in pol.keys && Get(ProbRow(pol, row, n), snew) == Get(pol, row.keys[k]))
    decreases n
  {
    if n > 0 {
      ProbRowSpec(pol, row, n - 1, snew);
      assert row.keys[n - 1] in row.keys;
      PutEachSpec(ProbRow(pol, row, n - 1), row.vals[n - 1].keys, Get(pol, row.keys[n - 1]), snew);
      var k := LastReaching(row, snew, n);
      if k >= 0 {
        assert row.keys[k] in row.keys;
      }
    }
  }

  /** `Policy[s][a]` is defined for every state `s` and action `a` of the
      original reward table (otherwise line 40 raises `KeyError`). */
  ghost predicate Covers<S, A>(pol: Policy<S, A>, R: Table<S, A>) {
    forall s :: s in R.keys ==>
      s in pol.keys && forall a :: a in Get(R, s).keys ==> a in Get(pol, s).keys
  }

  /** `prob_g_s_sn[goal]` for the policy `pol` of one goal (source lines
      33-40): a row for every state of `R`. */
  function ProbTable<S(==), A(==)>(pol: Policy<S, A>, R: Table<S, A>): ODict<S, ODict<S, real>>
    requires Covers(pol, R)
  {
    var rows: seq<ODict<S, real>> :=
      seq(|R.keys|, i requires 0 <= i < |R.keys| =>
            ProbRow(Get(pol, R.keys[i]), Get(R, R.keys[i]), |Get(R, R.keys[i]).keys|));
    Dict(R.keys, rows)
  }

  /** Every goal policy covers the original reward table. */
  ghost predicate AllCover<S, A>(goals: ODict<Goal, Policy<S, A>>, R: Table<S, A>) {
    forall i :: 0 <= i < |goals.vals| ==> Covers(goals.vals[i], R)
  }

  /** `prob_g_s_sn` (source lines 26-40): a table for every goal, in the order
      of `goalPolicies`. */
  function Probs<S(==), A(==)>(goals: ODict<Goal, Policy<S, A>>, R: Table<S, A>): ODict<Goal, ODict<S, ODict<S, real>>>
    requires AllCover(goals, R)
  {
    var tables: seq<ODict<S, ODict<S, real>>> :=
      seq(|goals.keys|, i requires 0 <= i < |goals.keys| => ProbTable(goals.vals[i], R));
    Dict(goals.keys, tables)
  }

  /** The row of goal `g` and state `s` in `prob_g_s_sn` is the fold of the
      goal's policy over the actions of `R[s]`. */
  lemma ProbsAt<S, A>(goals: ODict<Goal, Policy<S, A>>, R: Table<S, A>, g: Goal, s: S)
    requires AllCover(goals, R) && g in goals.keys && s in R.keys
    ensures var P := Probs(goals, R);
            && g in P.keys && Covers(Get(goals, g), R) && s in Get(goals, g).keys && s in Get(P, g).keys
            && Get(Get(P, g), s) == ProbRow(Get(Get(goals, g), s), Get(R, s), |Get(R, s).keys|)
  {
    var P := Probs(goals, R);
    var i := IndexOf(goals.keys, g);
    GetAt(P, i);
    var T := ProbTable(goals.vals[i], R);
    var j := IndexOf(R.keys, s);
    GetAt(T, j);
  }

  /** `P(g, s, snew)`, the entry `prob_g_s_sn[g][s][snew]` (source line 54);
      0 where there is none, which the source never reads. */
  function Prob<S(==), A(==)>(goals: ODict<Goal, Policy<S, A>>, R: Table<S, A>, g: Goal, s: S, snew: S): real
    requires AllCover(goals, R)
  {
    var P := Probs(goals, R);
    if g in P.keys && s in Get(P, g).keys then At(Get(Get(P, g), s), snew) else 0.0
  }

  /** `P(g, s, snew)` is `Policy_g[s][a]` for the last action `a` of `R[s]`
      that lists `snew`, and `snew` is in the table exactly when such an action
      exists. */
  lemma ProbIsLastAction<S, A>(goals: ODict<Goal, Policy<S, A>>, R: Table<S, A>, g: Goal, s: S, snew: S)
    requires AllCover(goals, R) && g in goals.keys && s in R.keys
    ensures var P := Probs(goals, R);
            var k := LastReaching(Get(R, s), snew, |Get(R, s).keys|);
            && g in P.keys && s in Get(P, g).keys
            && (snew in Get(Get(P, g), s).keys <==> k >= 0)
            && (k >= 0 ==> s in Get(goals, g).keys && Get(R, s).keys[k] in Get(Get(goals, g), s).keys
                           && Prob(goals, R, g, s, snew) == Get(Get(Get(goals, g), s), Get(R, s).keys[k]))
  {
    ProbsAt(goals, R, g, s);
    ProbRowSpec(Get(Get(goals, g), s), Get(R, s), |Get(R, s).keys|, snew);
  }

  /** The denominator `P(A) + P(B) + P(C)` of line 54. */
  function Denominator<S(==), A(==)>(goals: ODict<Goal, Policy<S, A>>, R: Table<S, A>, s: S, snew: S): real
    requires AllCover(goals, R)
  {
    Prob(goals, R, GoalA, s, snew) + Prob(goals, R, GoalB, s, snew) + Prob(goals, R, GoalC, s, snew)
  }

  /** `r_info` (source line 54). */
  function Info<S(==), A(==)>(goals: ODict<Goal, Policy<S, A>>, trueGoal: Goal, R: Table<S, A>, s: S, snew: S): real
    requires AllCover(goals, R) && Denominator(goals, R, s, snew) != 0.0
  {
    Prob(goals, R, trueGoal, s, snew) / Denominator(goals, R, s, snew)
  }

  /** `alpha · r_info`, the amount added to the reward of every move from
      `s` to `snew` (source line 56). */
  function Bonus<S(==), A(==)>(goals: ODict<Goal, Policy<S, A>>, trueGoal: Goal, R: Table<S, A>,
                              s: S, snew: S, alpha: real): real
    requires AllCover(goals, R) && Denominator(goals, R, s, snew) != 0.0
  {
    alpha * Info(goals, trueGoal, R, s, snew)
  }

  /** What `__call__` requires to run without an exception: every goal
      policy covers the original rewards (line 40); the goals `'A'`, `'B'`,
      `'C'` and `trueGoal` have tables (line 54); and no denominator is 0. */
  ghost predicate ShapeDefined<S, A>(goals: ODict<Goal, Policy<S, A>>, trueGoal: Goal, R: Table<S, A>) {
    && AllCover(goals, R)
    && GoalA in goals.keys && GoalB in goals.keys && GoalC in goals.keys && trueGoal in goals.keys
    && forall s :: s in R.keys ==>
         forall a :: a in Get(R, s).keys ==>
           forall snew :: snew in Get(Get(R, s), a).keys ==> Denominator(goals, R, s, snew) != 0.0
  }

  /** `newReward[s][a]` (source lines 52-58): each next state of `rsa =
      originalReward[s][a]` with its reward plus `alpha · r_info`. */
  function ShapeEntry<S(==), A(==)>(goals: ODict<Goal, Policy<S, A>>, trueGoal: Goal, R: Table<S, A>,
                                   s: S, rsa: ODict<S, real>, alpha: real): ODict<S, real>
    requires AllCover(goals, R)
    requires forall snew :: snew in rsa.keys ==> Denominator(goals, R, s, snew) != 0.0
  {
    var vals: seq<real> :=
      seq(|rsa.keys|, i requires 0 <= i < |rsa.keys| =>
            assert rsa.keys[i] in rsa.keys;
            rsa.vals[i] + Bonus(goals, trueGoal, R, s, rsa.keys[i], alpha));
    Dict(rsa.keys, vals)
  }

  /** `newReward[s]` (source lines 49-58): a shaped entry for each action. */
  function ShapeRow<S(==), A(==)>(goals: ODict<Goal, Policy<S, A>>, trueGoal: Goal, R: Table<S, A>,
                                 s: S, rs: ODict<A, ODict<S, real>>, alpha: real): ODict<A, ODict<S, real>>
    requires AllCover(goals, R)
    requires forall a :: a in rs.keys ==>
               forall snew :: snew in Get(rs, a).keys ==> Denominator(goals, R, s, snew) != 0.0
  {
    var entries: seq<ODict<S, real>> :=
      seq(|rs.keys|, i requires 0 <= i < |rs.keys| =>
            GetAt(rs, i);
            ShapeEntry(goals, trueGoal, R, s, rs.vals[i], alpha));
    Dict(rs.keys, entries)
  }

  /** `GetLikelihoodReward(transitionTable, goalPolicies)(trueGoal,
      originalReward, alpha)` (source lines 24-61): a shaped row for every
      state of `originalReward`, in its order. The stored transition table is
      never read. */
  function GetLikelihoodReward<S(==), A(==)>(goals: ODict<Goal, Policy<S, A>>, trueGoal: Goal,
                                            R: Table<S, A>, alpha: real): (newReward: Table<S, A>)
    requires ShapeDefined(goals, trueGoal, R)
  {
    var rows: seq<ODict<A, ODict<S, real>>> :=
      seq(|R.keys|, i requires 0 <= i < |R.keys| =>
            GetAt(R, i);
            ShapeRow(goals, trueGoal, R, R.keys[i], R.vals[i], alpha));
    Dict(R.keys, rows)
  }

  /** Each next state of an entry keeps its place and gets its reward plus
      `alpha · r_info`. */
  lemma ShapeEntryAt<S, A>(goals: ODict<Goal, Policy<S, A>>, trueGoal: Goal, R: Table<S, A>,
                           s: S, rsa: ODict<S, real>, alpha: real, snew: S)
    requires AllCover(goals, R)
    requires forall x :: x in rsa.keys ==> Denominator(goals, R, s, x) != 0.0
    requires snew in rsa.keys
    ensures var e := ShapeEntry(goals, trueGoal, R, s, rsa, alpha);
            && e.keys == rsa.keys
            && Get(e, snew) == Get(rsa, snew) + Bonus(goals, trueGoal, R, s, snew, alpha)
  {
    var e := ShapeEntry(goals, trueGoal, R, s, rsa, alpha);
    var i := IndexOf(rsa.keys, snew);
    GetAt(rsa, i);
  }

  /** The row of state `s` keeps the actions of `R[s]` in order, each with its
      shaped entry. */
  lemma ShapeRowAt<S, A>(goals: ODict<Goal, Policy<S, A>>, trueGoal: Goal, R: Table<S, A>,
                         s: S, rs: ODict<A, ODict<S, real>>, alpha: real, a: A)
    requires AllCover(goals, R)
    requires forall b :: b in rs.keys ==>
               forall snew :: snew in Get(rs, b).keys ==> Denominator(goals, R, s, snew) != 0.0
    requires a in rs.keys
    ensures var r := ShapeRow(goals, trueGoal, R, s, rs, alpha);
            && r.keys == rs.keys
            && Get(r, a) == ShapeEntry(goals, trueGoal, R, s, Get(rs, a), alpha)
  {
    var i := IndexOf(rs.keys, a);
    GetAt(rs, i);
  }

  /** The shaped table keeps the states of `R` in order, each with its
      shaped row. */
  lemma ShapeAt<S, A>(goals: ODict<Goal, Policy<S, A>>, trueGoal: Goal, R: Table<S, A>, alpha: real, s: S)
    requires ShapeDefined(goals, trueGoal, R) && s in R.keys
    ensures var newReward := GetLikelihoodReward(goals, trueGoal, R, alpha);
            && newReward.keys == R.keys
            && Get(newReward, s) == ShapeRow(goals, trueGoal, R, s, Get(R, s), alpha)
  {
    var i := IndexOf(R.keys, s);
    GetAt(R, i);
  }

  /** The shaped reward has exactly the `(s, a, snew)` keys of the original
      reward, in the same order at every level, and each entry is the
      original reward plus the bonus `alpha · r_info` of its `(s, snew)`. */
  lemma GetLikelihoodRewardSpec<S, A>(goals: ODict<Goal, Policy<S, A>>, trueGoal: Goal, R: Table<S, A>,
                                      alpha: real, s: S, a: A, snew: S)
    requires ShapeDefined(goals, trueGoal, R)
    requires s in R.keys && a in Get(R, s).keys && snew in Get(Get(R, s), a).keys
    ensures var newReward := GetLikelihoodReward(goals, trueGoal, R, alpha);
            && newReward.keys == R.keys
            && Get(newReward, s).keys == Get(R, s).keys
            && Get(Get(newReward, s), a).keys == Get(Get(R, s), a).keys
            && Denominator(goals, R, s, snew) != 0.0
            && Get(Get(Get(newReward, s), a), snew)
               == Get(Get(Get(R, s), a), snew) + Bonus(goals, trueGoal, R, s, snew, alpha)
  {
    ShapeAt(goals, trueGoal, R, alpha, s);
    ShapeRowAt(goals, trueGoal, R, s, Get(R, s), alpha, a);
    ShapeEntryAt(goals, trueGoal, R, s, Get(Get(R, s), a), alpha, snew);
  }

  /** Shaping an entry with `alpha = 0` leaves it as it was. */
  lemma ShapeEntryZero<S, A>(goals: ODict<Goal, Policy<S, A>>, trueGoal: Goal, R: Table<S, A>,
                             s: S, rsa: ODict<S, real>)
    requires AllCover(goals, R)
    requires forall x :: x in rsa.keys ==> Denominator(goals, R, s, x) != 0.0
    ensures ShapeEntry(goals, trueGoal, R, s, rsa, 0.0) == rsa
  {
    var e := ShapeEntry(goals, trueGoal, R, s, rsa, 0.0);
    forall i | 0 <= i < |rsa.keys|
      ensures e.vals[i] == rsa.vals[i]
    {
      assert rsa.keys[i] in rsa.keys;
    }
  }

  /** Shaping a row with `alpha = 0` leaves it as it was. */
  lemma ShapeRowZero<S, A>(goals: ODict<Goal, Policy<S, A>>, trueGoal: Goal, R: Table<S, A>,
                           s: S, rs: ODict<A, ODict<S, real>>)
    requires AllCover(goals, R)
    requires forall b :: b in rs.keys ==>
               forall snew :: snew in Get(rs, b).keys ==> Denominator(goals, R, s, snew) != 0.0
    ensures ShapeRow(goals, trueGoal, R, s, rs, 0.0) == rs
  {
    var r := ShapeRow(goals, trueGoal, R, s, rs, 0.0);
    forall i | 0 <= i < |rs.keys|
      ensures r.vals[i] == rs.vals[i]
    {
      GetAt(rs, i);
      ShapeEntryZero(goals, trueGoal, R, s, rs.vals[i]);
    }
  }

  /** With `alpha = 0` the shaped reward is the original reward, entry for
      entry and in the same order. */
  lemma GetLikelihoodRewardAlphaZero<S, A>(goals: ODict<Goal, Policy<S, A>>, trueGoal: Goal, R: Table<S, A>)
    requires ShapeDefined(goals, trueGoal, R)
    ensures GetLikelihoodReward(goals, trueGoal, R, 0.0) == R
  {
    var N := GetLikelihoodReward(goals, trueGoal, R, 0.0);
    forall i | 0 <= i < |R.keys|
      ensures N.vals[i] == R.vals[i]
    {
      GetAt(R, i);
      ShapeRowZero(goals, trueGoal, R, R.keys[i], R.vals[i]);
    }
  }

  /** The bonus depends only on `(s, snew)`: two actions of `s` that both
      reach `snew` get the same amount added to their rewards. */
  lemma SameBonus<S, A>(goals: ODict<Goal, Policy<S, A>>, trueGoal: Goal, R: Table<S, A>,
                        alpha: real, s: S, a1: A, a2: A, snew: S)
    requires ShapeDefined(goals, trueGoal, R)
    requires s in R.keys && a1 in Get(R, s).keys && a2 in Get(R, s).keys
    requires snew in Get(Get(R, s), a1).keys && snew in Get(Get(R, s), a2).keys
    ensures var N := GetLikelihoodReward(goals, trueGoal, R, alpha);
            && s in N.keys && a1 in Get(N, s).keys && a2 in Get(N, s).keys
            && snew in Get(Get(N, s), a1).keys && snew in Get(Get(N, s), a2).keys
            && Get(Get(Get(N, s), a1), snew) - Get(Get(Get(R, s), a1), snew)
               == Get(Get(Get(N, s), a2), snew) - Get(Get(Get(R, s), a2), snew)
  {
    GetLikelihoodRewardSpec(goals, trueGoal, R, alpha, s, a1, snew);
    GetLikelihoodRewardSpec(goals, trueGoal, R, alpha, s, a2, snew);
  }

  /** Every probability a policy assigns is non-negative: each of its rows
      is `NonNegative`. */
  ghost predicate PolicyNonNegative<S, A>(pol: Policy<S, A>) {
    forall i :: 0 <= i < |pol.vals| ==> NonNegative(pol.vals[i])
  }

  /** A non-negative policy tabulates non-negative probabilities. */
  lemma ProbNonNegative<S, A>(goals: ODict<Goal, Policy<S, A>>, R: Table<S, A>, g: Goal, s: S, snew: S)
    requires AllCover(goals, R) && g in goals.keys && PolicyNonNegative(Get(goals, g))
    ensures Prob(goals, R, g, s, snew) >= 0.0
  {
    if s in R.keys {
      ProbIsLastAction(goals, R, g, s, snew);
      var row := Get(R, s);
      var k := LastReaching(row, snew, |row.keys|);
      if k >= 0 {
        var pol := Get(goals, g);
        var i := IndexOf(pol.keys, s);
        var j := IndexOf(Get(pol, s).keys, row.keys[k]);
        assert Get(Get(pol, s), row.keys[k]) == pol.vals[i].vals[j];
      }
    } else {
      var P := Probs(goals, R);
      if g in P.keys && s in Get(P, g).keys {
        ProbsAt(goals, R, g, s);
      }
    }
  }

  /** With non-negative policies for `'A'`, `'B'` and `'C'` and `trueGoal`
      one of them, `r_info` is a share: `0 <= r_info <= 1`. */
  lemma InfoBounds<S, A>(goals: ODict<Goal, Policy<S, A>>, trueGoal: Goal, R: Table<S, A>, s: S, snew: S)
    requires AllCover(goals, R)
    requires GoalA in goals.keys && GoalB in goals.keys && GoalC in goals.keys
    requires PolicyNonNegative(Get(goals, GoalA)) && PolicyNonNegative(Get(goals, GoalB)) && PolicyNonNegative(Get(goals, GoalC))
    requires trueGoal == GoalA || trueGoal == GoalB || trueGoal == GoalC
    requires Denominator(goals, R, s, snew) != 0.0
    ensures Denominator(goals, R, s, snew) > 0.0
    ensures 0.0 <= Info(goals, trueGoal, R, s, snew) <= 1.0
  {
    ProbNonNegative(goals, R, GoalA, s, snew);
    ProbNonNegative(goals, R, GoalB, s, snew);
    ProbNonNegative(goals, R, GoalC, s, snew);
    ShareBounds(Prob(goals, R, trueGoal, s, snew), Denominator(goals, R, s, snew));
  }

  /** Every `P(g, s, snew)` that line 54 reads is in the table: the action
      `a` that lists `snew` guarantees some action reaches it. */
  lemma ProbListed<S, A>(goals: ODict<Goal, Policy<S, A>>, R: Table<S, A>, g: Goal, s: S, a: A, snew: S)
    requires AllCover(goals, R) && g in goals.keys
    requires s in R.keys && a in Get(R, s).keys && snew in Get(Get(R, s), a).keys
    ensures var P := Probs(goals, R);
            g in P.keys && s in Get(P, g).keys && snew in Get(Get(P, g), s).keys
  {
    ProbIsLastAction(goals, R, g, s, snew);
    var row := Get(R, s);
    var j := IndexOf(row.keys, a);
    GetAt(row, j);
  }
}
