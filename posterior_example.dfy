/** The first worked example of the posterior update, computed exactly. */
module PosteriorExample {
  import opened OrderedDict
  import opened BayesianInference

  /** The tables of lines 41-43: even odds on `A`, `P(b0) = 1/4`, and the
      likelihood of the data under each pair. */
  ghost predicate ExampleTables(pa: ODict<string, real>, pb: ODict<string, real>, lik: ODict<(string, string), real>) {
    && pa.keys == ["a0", "a1"] && pa.vals == [0.5, 0.5]
    && pb.keys == ["b0", "b1"] && pb.vals == [0.25, 0.75]
    && lik.keys == [("a0", "b0"), ("a0", "b1"), ("a1", "b0"), ("a1", "b1")]
    && lik.vals == [0.42, 0.12, 0.07, 0.02]
  }

  /** The joint weights of the first worked example. */
  lemma ExampleJoints(pa: ODict<string, real>, pb: ODict<string, real>, lik: ODict<(string, string), real>)
    requires ExampleTables(pa, pb, lik)
    ensures KeysKnown(pa, pb, lik)
    ensures Joints(pa, pb, lik) == [0.0525, 0.045, 0.00875, 0.0075]
  {
    GetAt(pa, 0); GetAt(pa, 1);
    GetAt(pb, 0); GetAt(pb, 1);
  }

  /** The weights of all pairs add up to the probability of the data. */
  lemma ExampleTotal(pa: ODict<string, real>, pb: ODict<string, real>, lik: ODict<(string, string), real>)
    requires ExampleTables(pa, pb, lik)
    ensures KeysKnown(pa, pb, lik)
    ensures Sum(Joints(pa, pb, lik)) == 0.11375
  {
    ExampleJoints(pa, pb, lik);
    var w3, w2, w1 := [0.0525, 0.045, 0.00875], [0.0525, 0.045], [0.0525];
    assert Joints(pa, pb, lik) == w3 + [0.0075];
    assert w3 == w2 + [0.00875] && w2 == w1 + [0.045] && w1 == [] + [0.0525];
    SumSnoc(w3, 0.0075); SumSnoc(w2, 0.00875); SumSnoc(w1, 0.045); SumSnoc([], 0.0525);
  }

  /** The weights of the pairs mentioning each value of `A`. */
  lemma ExampleMassesOfA(pa: ODict<string, real>, pb: ODict<string, real>, lik: ODict<(string, string), real>)
    requires ExampleTables(pa, pb, lik)
    ensures KeysKnown(pa, pb, lik)
    ensures MassOf(Firsts(lik.keys), Joints(pa, pb, lik), "a0") == 0.0975
    ensures MassOf(Firsts(lik.keys), Joints(pa, pb, lik), "a1") == 0.01625
  {
    ExampleJoints(pa, pb, lik);
    var xs := Firsts(lik.keys);
    assert xs == ["a0", "a0", "a1", "a1"];
    assert "a1"[1] != "a0"[1];
    MassOfFour(xs, Joints(pa, pb, lik), "a0");
    MassOfFour(xs, Joints(pa, pb, lik), "a1");
  }

  /** The weights of the pairs mentioning each value of `B`. */
  lemma ExampleMassesOfB(pa: ODict<string, real>, pb: ODict<string, real>, lik: ODict<(string, string), real>)
    requires ExampleTables(pa, pb, lik)
    ensures KeysKnown(pa, pb, lik)
    ensures MassOf(Seconds(lik.keys), Joints(pa, pb, lik), "b0") == 0.06125
    ensures MassOf(Seconds(lik.keys), Joints(pa, pb, lik), "b1") == 0.0525
  {
    ExampleJoints(pa, pb, lik);
    var ys := Seconds(lik.keys);
    assert ys == ["b0", "b1", "b0", "b1"];
    assert "b1"[1] != "b0"[1];
    MassOfFour(ys, Joints(pa, pb, lik), "b0");
    MassOfFour(ys, Joints(pa, pb, lik), "b1");
  }

  /** The mass of `v` among four pairs, written out. */
  lemma MassOfFour(xs: seq<string>, ws: seq<real>, v: string)
    requires |xs| == 4 && |ws| == 4
    ensures MassOf(xs, ws, v) ==
      (if xs[0] == v then ws[0] else 0.0) + (if xs[1] == v then ws[1] else 0.0) +
      (if xs[2] == v then ws[2] else 0.0) + (if xs[3] == v then ws[3] else 0.0)
  {
    MassSnoc(xs[..3], ws[..3], xs[3], ws[3], v);
    MassSnoc(xs[..2], ws[..2], xs[2], ws[2], v);
    MassSnoc(xs[..1], ws[..1], xs[1], ws[1], v);
    MassSnoc([], [], xs[0], ws[0], v);
    assert xs[..3] + [xs[3]] == xs && ws[..3] + [ws[3]] == ws;
    assert xs[..2] + [xs[2]] == xs[..3] && ws[..2] + [ws[2]] == ws[..3];
    assert xs[..1] + [xs[1]] == xs[..2] && ws[..1] + [ws[1]] == ws[..2];
    assert [] + [xs[0]] == xs[..1] && [] + [ws[0]] == ws[..1];
  }

  /** The first worked example (lines 41-44): the joint weights add up to
      0.11375, and the data favour `a0` six to one and `b0` seven to six. */
  lemma ExampleOne(pa: ODict<string, real>, pb: ODict<string, real>, lik: ODict<(string, string), real>)
    requires ExampleTables(pa, pb, lik)
    ensures KeysKnown(pa, pb, lik)
    ensures Sum(Joints(pa, pb, lik)) == 0.11375
    ensures var post := GetPosterior(pa, pb, lik);
            post.ofA.vals == [6.0 / 7.0, 1.0 / 7.0] && post.ofB.vals == [7.0 / 13.0, 6.0 / 13.0]
  {
    ExampleTotal(pa, pb, lik);
    ExampleMassesOfA(pa, pb, lik);
    ExampleMassesOfB(pa, pb, lik);
  }

  /** Adding a last term adds it to the sum. */
  lemma SumSnoc(xs: seq<real>, x: real)
    ensures Sum(xs + [x]) == Sum(xs) + x
  {
    assert (xs + [x])[..|xs|] == xs;
  }

  /** A last pair adds its weight to the mass of its own value only. */
  lemma MassSnoc(xs: seq<string>, ws: seq<real>, x: string, w: real, v: string)
    requires |ws| == |xs|
    ensures MassOf(xs + [x], ws + [w], v) == MassOf(xs, ws, v) + (if x == v then w else 0.0)
  {
    assert (xs + [x])[..|xs|] == xs;
    assert (ws + [w])[..|ws|] == ws;
  }
}
