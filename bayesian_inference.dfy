/** A single Bayesian update over two independent discrete causes `A` and `B`.

    The priors map each value of a cause to its probability; the likelihood
    maps pairs `(a, b)` to the probability of the observed data under them.
    Every pair gets the joint weight `likelihood(a, b) * P(a) * P(b)`; the
    weights add up to the probability of the data, and the posterior of a
    value is the share of that total carried by the pairs that contain it. */
module BayesianInference {
  import opened OrderedDict

  /** `[marginalOfA, marginalOfB]` */
  datatype Posterior<A, B> = Posterior(ofA: ODict<A, real>, ofB: ODict<B, real>)

  /** Both halves of every likelihood key are values the priors know. */
  ghost predicate KeysKnown<A, B>(priorA: ODict<A, real>, priorB: ODict<B, real>, lik: ODict<(A, B), real>) {
    forall k :: k in lik.keys ==> k.0 in priorA.keys && k.1 in priorB.keys
  }

  /** The joint weight of the `i`-th likelihood entry. */
  function Joint<A(==), B(==)>(priorA: ODict<A, real>, priorB: ODict<B, real>, lik: ODict<(A, B), real>, i: nat): real
    requires KeysKnown(priorA, priorB, lik) && i < |lik.keys|
  {
    var k := lik.keys[i];
    assert k in lik.keys;
    lik.vals[i] * Get(priorA, k.0) * Get(priorB, k.1)
  }

  /** `temp.values()`: the joint weights, in the likelihood's order. */
  function Joints<A(==), B(==)>(priorA: ODict<A, real>, priorB: ODict<B, real>, lik: ODict<(A, B), real>): (w: seq<real>)
    requires KeysKnown(priorA, priorB, lik)
    ensures |w| == |lik.keys|
  {
    seq(|lik.keys|, i requires 0 <= i < |lik.keys| => Joint(priorA, priorB, lik, i))
  }

  /** The value of `A` in each likelihood key. */
  function Firsts<A, B>(ks: seq<(A, B)>): (xs: seq<A>)
    ensures |xs| == |ks|
  {
    seq(|ks|, i requires 0 <= i < |ks| => ks[i].0)
  }

  /** The value of `B` in each likelihood key. */
  function Seconds<A, B>(ks: seq<(A, B)>): (xs: seq<B>)
    ensures |xs| == |ks|
  {
    seq(|ks|, i requires 0 <= i < |ks| => ks[i].1)
  }

  /** `sum(d for k, d in temp.items() if k[c] == x)`, where `xs` lists the
      component `k[c]` of each key. */
  function MassOf<X(==)>(xs: seq<X>, ws: seq<real>, x: X): real
    requires |ws| == |xs|
    decreases |xs|
  {
    if xs == [] then 0.0
    else
      var n := |xs| - 1;
      MassOf(xs[..n], ws[..n], x) + (if xs[n] == x then ws[n] else 0.0)
  }

  /** The mass of each value of `dom`, in the order of `dom`. */
  function Masses<X(==)>(dom: seq<X>, xs: seq<X>, ws: seq<real>): (m: seq<real>)
    requires |ws| == |xs|
    ensures |m| == |dom|
  {
    seq(|dom|, j requires 0 <= j < |dom| => MassOf(xs, ws, dom[j]))
  }

  /** Every term divided by `z`. */
  function Divide(m: seq<real>, z: real): (p: seq<real>)
    requires z != 0.0
    ensures |p| == |m|
  {
    seq(|m|, i requires 0 <= i < |m| => m[i] / z)
  }

  /** `getPosterior(priorOfA, priorOfB, likelihood)`. A likelihood key whose
      halves the priors do not know is the caller's error, and so is data of
      probability zero whenever some marginal has to be divided by it. With
      both priors empty the loops at lines 26-33 never divide, and the
      result is two empty marginals whatever the total weight. */
  function GetPosterior<A(==), B(==)>(priorA: ODict<A, real>, priorB: ODict<B, real>, lik: ODict<(A, B), real>): (post: Posterior<A, B>)
    requires KeysKnown(priorA, priorB, lik)
    requires Sum(Joints(priorA, priorB, lik)) != 0.0 || (priorA.keys == [] && priorB.keys == [])
    ensures post.ofA.keys == priorA.keys && post.ofB.keys == priorB.keys
  {
    var temp := Joints(priorA, priorB, lik);
    var marginalOfData := Sum(temp);
    if marginalOfData == 0.0 then
      Posterior(Dict([], []), Dict([], []))
    else
      var ofA: ODict<A, real> := Dict(priorA.keys, Divide(Masses(priorA.keys, Firsts(lik.keys), temp), marginalOfData));
      var ofB: ODict<B, real> := Dict(priorB.keys, Divide(Masses(priorB.keys, Seconds(lik.keys), temp), marginalOfData));
      Posterior(ofA, ofB)
  }

  /** With both priors empty there is nothing to update: the likelihood can
      mention no pair, and both marginals are empty. */
  lemma GetPosteriorEmpty<A, B>(priorA: ODict<A, real>, priorB: ODict<B, real>, lik: ODict<(A, B), real>)
    requires KeysKnown(priorA, priorB, lik)
    requires priorA.keys == [] && priorB.keys == []
    ensures lik.keys == []
    ensures var post := GetPosterior(priorA, priorB, lik);
            post.ofA == Dict([], []) && post.ofB == Dict([], [])
  {
    assert forall i :: 0 <= i < |lik.keys| ==> lik.keys[i] in lik.keys;
  }

  // ---------------------------------------------------------------- sums

  /** Raising one term by `w` raises the sum by `w`. */
  lemma {:induction false} SumBump(s: seq<real>, t: seq<real>, p: nat, w: real)
    requires |t| == |s| && p < |s|
    requires t[p] == s[p] + w
    requires forall i :: 0 <= i < |s| && i != p ==> t[i] == s[i]
    ensures Sum(t) == Sum(s) + w
    decreases |s|
  {
    var n := |s| - 1;
    if p == n {
      assert t[..n] == s[..n];
    } else {
      SumBump(s[..n], t[..n], p, w);
    }
  }

  /** Dividing every term by `z` divides the sum by `z`. */
  lemma {:induction false} DivideSum(m: seq<real>, z: real)
    requires z != 0.0
    ensures Sum(Divide(m, z)) == Sum(m) / z
    decreases |m|
  {
    if m != [] {
      var n := |m| - 1;
      assert Divide(m, z)[..n] == Divide(m[..n], z);
      DivideSum(m[..n], z);
      Shares(Sum(m[..n]), m[n], z);
    }
  }

  /** Shares of one whole add up. */
  lemma Shares(a: real, b: real, z: real)
    requires z != 0.0
    ensures a / z + b / z == (a + b) / z
  {
  }

  /** A term of a sum of non-negative terms is at most the sum. */
  lemma {:induction false} SumAtLeast(s: seq<real>, j: nat)
    requires forall i :: 0 <= i < |s| ==> s[i] >= 0.0
    requires j < |s|
    ensures 0.0 <= s[j] <= Sum(s)
    decreases |s|
  {
    var n := |s| - 1;
    if j < n {
      SumAtLeast(s[..n], j);
    } else {
      SumNonNegative(s[..n]);
    }
  }

  /** A sum of non-negative terms is non-negative. */
  lemma {:induction false} SumNonNegative(s: seq<real>)
    requires forall i :: 0 <= i < |s| ==> s[i] >= 0.0
    ensures Sum(s) >= 0.0
    decreases |s|
  {
    if s != [] {
      SumNonNegative(s[..|s| - 1]);
    }
  }

  // ---------------------------------------------------------------- masses

  /** A value that no key carries has no mass. */
  lemma {:induction false} MassOfAbsent<X>(xs: seq<X>, ws: seq<real>, x: X)
    requires |ws| == |xs| && x !in xs
    ensures MassOf(xs, ws, x) == 0.0
    decreases |xs|
  {
    if xs != [] {
      var n := |xs| - 1;
      assert forall y :: y in xs[..n] ==> y in xs;
      MassOfAbsent(xs[..n], ws[..n], x);
    }
  }

  /** Masses of non-negative weights are non-negative. */
  lemma {:induction false} MassOfNonNegative<X>(xs: seq<X>, ws: seq<real>, x: X)
    requires |ws| == |xs| && forall i :: 0 <= i < |ws| ==> ws[i] >= 0.0
    ensures MassOf(xs, ws, x) >= 0.0
    decreases |xs|
  {
    if xs != [] {
      var n := |xs| - 1;
      MassOfNonNegative(xs[..n], ws[..n], x);
    }
  }

  /** When every key carries one of the distinct values `dom`, the masses of
      those values share out the whole weight: each pair is counted once,
      under its own value. */
  lemma {:induction false} MassPartition<X>(dom: seq<X>, xs: seq<X>, ws: seq<real>)
    requires Distinct(dom) && |ws| == |xs|
    requires forall i :: 0 <= i < |xs| ==> xs[i] in dom
    ensures Sum(Masses(dom, xs, ws)) == Sum(ws)
    decreases |xs|
  {
    if xs == [] {
      SumConstant(Masses(dom, xs, ws), 0.0);
    } else {
      var n := |xs| - 1;
      MassPartition(dom, xs[..n], ws[..n]);
      var p := IndexOf(dom, xs[n]);
      forall j | 0 <= j < |dom| && j != p
        ensures Masses(dom, xs, ws)[j] == Masses(dom, xs[..n], ws[..n])[j]
      {
        if j < p { DistinctAt(dom, j, p); } else { DistinctAt(dom, p, j); }
      }
      SumBump(Masses(dom, xs[..n], ws[..n]), Masses(dom, xs, ws), p, ws[n]);
    }
  }

  // ---------------------------------------------------------------- posterior

  /** The posterior of the `i`-th value of `A`: its mass over the total. */
  lemma PosteriorOfA<A, B>(priorA: ODict<A, real>, priorB: ODict<B, real>, lik: ODict<(A, B), real>, i: nat)
    requires KeysKnown(priorA, priorB, lik)
    requires Sum(Joints(priorA, priorB, lik)) != 0.0
    requires i < |priorA.keys|
    ensures var temp := Joints(priorA, priorB, lik);
            Get(GetPosterior(priorA, priorB, lik).ofA, priorA.keys[i]) == MassOf(Firsts(lik.keys), temp, priorA.keys[i]) / Sum(temp)
  {
    var temp := Joints(priorA, priorB, lik);
    var d := GetPosterior(priorA, priorB, lik).ofA;
    assert d.vals == Divide(Masses(priorA.keys, Firsts(lik.keys), temp), Sum(temp));
    GetAt(d, i);
  }

  /** The posterior of the `j`-th value of `B`: its mass over the total. */
  lemma PosteriorOfB<A, B>(priorA: ODict<A, real>, priorB: ODict<B, real>, lik: ODict<(A, B), real>, j: nat)
    requires KeysKnown(priorA, priorB, lik)
    requires Sum(Joints(priorA, priorB, lik)) != 0.0
    requires j < |priorB.keys|
    ensures var temp := Joints(priorA, priorB, lik);
            Get(GetPosterior(priorA, priorB, lik).ofB, priorB.keys[j]) == MassOf(Seconds(lik.keys), temp, priorB.keys[j]) / Sum(temp)
  {
    var temp := Joints(priorA, priorB, lik);
    var d := GetPosterior(priorA, priorB, lik).ofB;
    assert d.vals == Divide(Masses(priorB.keys, Seconds(lik.keys), temp), Sum(temp));
    GetAt(d, j);
  }

  /** Line 28 and line 33: the posterior of a value is the total joint weight
      of the likelihood pairs containing it, `likelihood(a, b) * P(a) * P(b)`,
      divided by the probability of the data, the total weight of all pairs. */
  lemma GetPosteriorSpec<A, B>(priorA: ODict<A, real>, priorB: ODict<B, real>, lik: ODict<(A, B), real>, i: nat, j: nat)
    requires KeysKnown(priorA, priorB, lik)
    requires Sum(Joints(priorA, priorB, lik)) != 0.0
    requires i < |priorA.keys| && j < |priorB.keys|
    ensures var post := GetPosterior(priorA, priorB, lik);
            var temp := Joints(priorA, priorB, lik);
            (forall k :: 0 <= k < |temp| ==> temp[k] == lik.vals[k] * Get(priorA, lik.keys[k].0) * Get(priorB, lik.keys[k].1)) &&
            Get(post.ofA, priorA.keys[i]) == MassOf(Firsts(lik.keys), temp, priorA.keys[i]) / Sum(temp) &&
            Get(post.ofB, priorB.keys[j]) == MassOf(Seconds(lik.keys), temp, priorB.keys[j]) / Sum(temp)
  {
    PosteriorOfA(priorA, priorB, lik, i);
    PosteriorOfB(priorA, priorB, lik, j);
    forall k | 0 <= k < |lik.keys|
      ensures lik.keys[k] in lik.keys
    {
    }
  }

  /** Each marginal posterior is a distribution: its probabilities add up to 1. */
  lemma GetPosteriorSumsToOne<A, B>(priorA: ODict<A, real>, priorB: ODict<B, real>, lik: ODict<(A, B), real>)
    requires KeysKnown(priorA, priorB, lik)
    requires Sum(Joints(priorA, priorB, lik)) != 0.0
    ensures var post := GetPosterior(priorA, priorB, lik);
            Sum(post.ofA.vals) == 1.0 && Sum(post.ofB.vals) == 1.0
  {
    var temp := Joints(priorA, priorB, lik);
    var z := Sum(temp);
    var xs := Firsts(lik.keys);
    var ys := Seconds(lik.keys);
    forall i | 0 <= i < |xs|
      ensures xs[i] in priorA.keys && ys[i] in priorB.keys
    {
      assert lik.keys[i] in lik.keys;
    }
    var post := GetPosterior(priorA, priorB, lik);
    MassPartition(priorA.keys, xs, temp);
    MassPartition(priorB.keys, ys, temp);
    assert post.ofA.vals == Divide(Masses(priorA.keys, xs, temp), z);
    assert post.ofB.vals == Divide(Masses(priorB.keys, ys, temp), z);
    DivideWhole(Masses(priorA.keys, xs, temp), z);
    DivideWhole(Masses(priorB.keys, ys, temp), z);
  }

  /** Dividing terms by their own sum gives shares that add up to 1. */
  lemma DivideWhole(m: seq<real>, z: real)
    requires z != 0.0 && Sum(m) == z
    ensures Sum(Divide(m, z)) == 1.0
  {
    DivideSum(m, z);
  }

  /** Non-negative probabilities give non-negative joint weights. */
  lemma JointsNonNegative<A, B>(priorA: ODict<A, real>, priorB: ODict<B, real>, lik: ODict<(A, B), real>)
    requires KeysKnown(priorA, priorB, lik)
    requires NonNegative(priorA) && NonNegative(priorB) && NonNegative(lik)
    ensures forall k :: 0 <= k < |lik.keys| ==> Joints(priorA, priorB, lik)[k] >= 0.0
  {
    forall k | 0 <= k < |lik.keys|
      ensures Joints(priorA, priorB, lik)[k] >= 0.0
    {
      var key := lik.keys[k];
      assert key in lik.keys;
      var pa := Get(priorA, key.0);
      var pb := Get(priorB, key.1);
      assert pa >= 0.0 by { assert pa == priorA.vals[IndexOf(priorA.keys, key.0)]; }
      assert pb >= 0.0 by { assert pb == priorB.vals[IndexOf(priorB.keys, key.1)]; }
      ProductNonNegative(lik.vals[k], pa, pb);
    }
  }

  /** A product of three non-negative factors is non-negative. */
  lemma ProductNonNegative(x: real, y: real, z: real)
    requires x >= 0.0 && y >= 0.0 && z >= 0.0
    ensures x * y * z >= 0.0
  {
    assert x * y >= 0.0;
  }

  /** With non-negative priors and likelihood the data have positive
      probability and every posterior probability lies between 0 and 1. */
  lemma GetPosteriorBounds<A, B>(priorA: ODict<A, real>, priorB: ODict<B, real>, lik: ODict<(A, B), real>)
    requires KeysKnown(priorA, priorB, lik)
    requires Sum(Joints(priorA, priorB, lik)) != 0.0
    requires NonNegative(priorA) && NonNegative(priorB) && NonNegative(lik)
    ensures Sum(Joints(priorA, priorB, lik)) > 0.0
    ensures var post := GetPosterior(priorA, priorB, lik);
            (forall i :: 0 <= i < |post.ofA.vals| ==> 0.0 <= post.ofA.vals[i] <= 1.0) &&
            (forall j :: 0 <= j < |post.ofB.vals| ==> 0.0 <= post.ofB.vals[j] <= 1.0)
  {
    var temp := Joints(priorA, priorB, lik);
    var z := Sum(temp);
    var xs := Firsts(lik.keys);
    var ys := Seconds(lik.keys);
    JointsNonNegative(priorA, priorB, lik);
    SumNonNegative(temp);
    forall i | 0 <= i < |xs|
      ensures xs[i] in priorA.keys && ys[i] in priorB.keys
    {
      assert lik.keys[i] in lik.keys;
    }
    MarginalBounds(priorA.keys, xs, temp);
    MarginalBounds(priorB.keys, ys, temp);
  }

  /** Each mass, divided by the total weight, lies between 0 and 1. */
  lemma MarginalBounds<X>(dom: seq<X>, xs: seq<X>, ws: seq<real>)
    requires Distinct(dom) && |ws| == |xs|
    requires forall i :: 0 <= i < |xs| ==> xs[i] in dom
    requires forall i :: 0 <= i < |ws| ==> ws[i] >= 0.0
    requires Sum(ws) > 0.0
    ensures forall j :: 0 <= j < |dom| ==> 0.0 <= Divide(Masses(dom, xs, ws), Sum(ws))[j] <= 1.0
  {
    var m := Masses(dom, xs, ws);
    MassPartition(dom, xs, ws);
    forall j | 0 <= j < |dom|
      ensures 0.0 <= Divide(m, Sum(ws))[j] <= 1.0
    {
      forall k | 0 <= k < |m|
        ensures m[k] >= 0.0
      {
        MassOfNonNegative(xs, ws, dom[k]);
      }
      SumAtLeast(m, j);
      ShareBounds(m[j], Sum(ws));
    }
  }

  /** A value of `A` that no likelihood key mentions has posterior 0. */
  lemma UnmentionedA<A, B>(priorA: ODict<A, real>, priorB: ODict<B, real>, lik: ODict<(A, B), real>, a: A)
    requires KeysKnown(priorA, priorB, lik)
    requires Sum(Joints(priorA, priorB, lik)) != 0.0
    requires a in priorA.keys
    requires forall k :: k in lik.keys ==> k.0 != a
    ensures Get(GetPosterior(priorA, priorB, lik).ofA, a) == 0.0
  {
    var xs := Firsts(lik.keys);
    forall n | 0 <= n < |xs|
      ensures xs[n] != a
    {
      assert lik.keys[n] in lik.keys;
    }
    MassOfAbsent(xs, Joints(priorA, priorB, lik), a);
    PosteriorOfA(priorA, priorB, lik, IndexOf(priorA.keys, a));
  }

  /** A value of `B` that no likelihood key mentions has posterior 0. */
  lemma UnmentionedB<A, B>(priorA: ODict<A, real>, priorB: ODict<B, real>, lik: ODict<(A, B), real>, b: B)
    requires KeysKnown(priorA, priorB, lik)
    requires Sum(Joints(priorA, priorB, lik)) != 0.0
    requires b in priorB.keys
    requires forall k :: k in lik.keys ==> k.1 != b
    ensures Get(GetPosterior(priorA, priorB, lik).ofB, b) == 0.0
  {
    var xs := Seconds(lik.keys);
    forall n | 0 <= n < |xs|
      ensures xs[n] != b
    {
      assert lik.keys[n] in lik.keys;
    }
    MassOfAbsent(xs, Joints(priorA, priorB, lik), b);
    PosteriorOfB(priorA, priorB, lik, IndexOf(priorB.keys, b));
  }

  /** A value of `A` that no likelihood key mentions has posterior 0 (and
      likewise for `B`). */
  lemma GetPosteriorUnmentioned<A, B>(priorA: ODict<A, real>, priorB: ODict<B, real>, lik: ODict<(A, B), real>, a: A, b: B)
    requires KeysKnown(priorA, priorB, lik)
    requires Sum(Joints(priorA, priorB, lik)) != 0.0
    requires a in priorA.keys && b in priorB.keys
    ensures var post := GetPosterior(priorA, priorB, lik);
            ((forall k :: k in lik.keys ==> k.0 != a) ==> Get(post.ofA, a) == 0.0) &&
            ((forall k :: k in lik.keys ==> k.1 != b) ==> Get(post.ofB, b) == 0.0)
  {
    if forall k :: k in lik.keys ==> k.0 != a {
      UnmentionedA(priorA, priorB, lik, a);
    }
    if forall k :: k in lik.keys ==> k.1 != b {
      UnmentionedB(priorA, priorB, lik, b);
    }
  }
}
