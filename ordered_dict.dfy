/** Insertion-ordered dictionaries, the shape of every table in the planner.

    A dictionary lists its keys in the order in which they were first
    inserted (`keys`) and, position by position, the value stored under each
    (`vals`). Writing to a key that is already present replaces its value and
    keeps its place; writing to a new key appends it. Iterating a dictionary
    means walking `keys`, and `d.values()` is `vals`. */
module OrderedDict {

  datatype Dict<K, V> = Dict(keys: seq<K>, vals: seq<V>)

  /** No element occurs twice: each one is absent from the elements before it. */
  ghost predicate Distinct<K>(s: seq<K>)
    decreases |s|
  {
    |s| == 0 || (Distinct(s[..|s| - 1]) && s[|s| - 1] !in s[..|s| - 1])
  }

  /** One value per key and no key listed twice. */
  ghost predicate Valid<K, V>(d: Dict<K, V>) {
    |d.keys| == |d.vals| && Distinct(d.keys)
  }

  type ODict<K, V> = d: Dict<K, V> | Valid(d) witness Dict([], [])

  /** Appending an element that is not yet present keeps a sequence distinct. */
  lemma DistinctSnoc<K>(s: seq<K>, x: K)
    requires Distinct(s) && x !in s
    ensures Distinct(s + [x])
  {
    assert (s + [x])[..|s|] == s;
  }

  /** Every prefix of a distinct sequence is distinct. */
  lemma {:induction false} DistinctPrefix<K>(s: seq<K>, n: nat)
    requires Distinct(s) && n <= |s|
    ensures Distinct(s[..n])
    decreases |s|
  {
    if n < |s| {
      DistinctPrefix(s[..|s| - 1], n);
      assert s[..|s| - 1][..n] == s[..n];
    } else {
      assert s[..n] == s;
    }
  }

  /** Two different positions of a distinct sequence hold different elements. */
  lemma {:induction false} DistinctAt<K>(s: seq<K>, i: nat, j: nat)
    requires Distinct(s) && i < j < |s|
    ensures s[i] != s[j]
    decreases |s|
  {
    var n := |s| - 1;
    if j < n {
      DistinctAt(s[..n], i, j);
    } else {
      assert s[i] == s[..n][i];
    }
  }

  /** The element at position `j` of a distinct sequence does not occur
      before position `j`. */
  lemma DistinctFresh<K>(s: seq<K>, j: nat)
    requires Distinct(s) && j < |s|
    ensures s[j] !in s[..j]
  {
    if s[j] in s[..j] {
      var i :| 0 <= i < j && s[..j][i] == s[j];
      DistinctAt(s, i, j);
    }
  }

  /** The position of `k` in `s` (the last one, should it occur twice). */
  function IndexOf<K(==)>(s: seq<K>, k: K): (i: nat)
    requires k in s
    ensures i < |s| && s[i] == k
    decreases |s|
  {
    if s[|s| - 1] == k then |s| - 1
    else
      assert k in s[..|s| - 1] by {
        var j :| 0 <= j < |s| && s[j] == k;
        assert s[..|s| - 1][j] == k;
      }
      IndexOf(s[..|s| - 1], k)
  }

  /** In a distinct sequence the element at position `i` is found at `i`. */
  lemma IndexOfAt<K>(s: seq<K>, i: nat)
    requires Distinct(s) && i < |s|
    ensures IndexOf(s, s[i]) == i
  {
    var j := IndexOf(s, s[i]);
    if i < j {
      DistinctAt(s, i, j);
    } else if j < i {
      DistinctAt(s, j, i);
    }
  }

  /** `d[k]` */
  function Get<K(==), V>(d: ODict<K, V>, k: K): V
    requires k in d.keys
  {
    d.vals[IndexOf(d.keys, k)]
  }

  /** The value listed at position `i` is the one stored under the key at `i`. */
  lemma GetAt<K, V>(d: ODict<K, V>, i: nat)
    requires i < |d.keys|
    ensures Get(d, d.keys[i]) == d.vals[i]
  {
    IndexOfAt(d.keys, i);
  }

  /** `{}` */
  function Empty<K, V>(): (d: ODict<K, V>)
    ensures d.keys == [] && d.vals == []
  {
    Dict([], [])
  }

  /** `d[k] = v`: afterwards `k` holds `v`; a present key keeps its place and a
      new one is appended. */
  function Put<K(==), V>(d: ODict<K, V>, k: K, v: V): (r: ODict<K, V>)
    ensures k in d.keys ==> r.keys == d.keys
    ensures k !in d.keys ==> r.keys == d.keys + [k] && r.vals == d.vals + [v]
    ensures k in r.keys && Get(r, k) == v
  {
    if k in d.keys then
      Dict(d.keys, d.vals[IndexOf(d.keys, k) := v])
    else
      DistinctSnoc(d.keys, k);
      var r := Dict(d.keys + [k], d.vals + [v]);
      assert r.keys[|d.keys|] == k;
      IndexOfAt(r.keys, |d.keys|);
      r
  }

  /** `d[k] = v` leaves every other key's value alone. */
  lemma PutOther<K, V>(d: ODict<K, V>, k: K, v: V, j: K)
    requires j in d.keys && j != k
    ensures j in Put(d, k, v).keys && Get(Put(d, k, v), j) == Get(d, j)
  {
    var r := Put(d, k, v);
    var i := IndexOf(d.keys, j);
    IndexOfAt(r.keys, i);
  }

  /** Writing to the key at position `i` replaces the value at `i` only. */
  lemma PutAt<K, V>(d: ODict<K, V>, i: nat, v: V)
    requires i < |d.keys|
    ensures Put(d, d.keys[i], v) == Dict(d.keys, d.vals[i := v])
  {
    IndexOfAt(d.keys, i);
  }

  /** Every value the dictionary holds is non-negative. */
  ghost predicate NonNegative<K>(d: ODict<K, real>) {
    forall i :: 0 <= i < |d.vals| ==> d.vals[i] >= 0.0
  }

  /** `n` copies of `v`. */
  function Repeat<V>(v: V, n: nat): (r: seq<V>)
    ensures |r| == n
  {
    if n == 0 then [] else Repeat(v, n - 1) + [v]
  }

  /** `dict.fromkeys(ks, v)`, and equally the dictionary that writing `v`
      under each of the distinct keys `ks` in turn builds from `{}`. */
  function FromKeys<K, V>(ks: seq<K>, v: V): (r: ODict<K, V>)
    requires Distinct(ks)
    ensures r.keys == ks
    ensures forall i :: 0 <= i < |ks| ==> r.vals[i] == v
  {
    RepeatAt(v, |ks|);
    Dict(ks, Repeat(v, |ks|))
  }

  /** Every element of `Repeat(v, n)` is `v`. */
  lemma {:induction false} RepeatAt<V>(v: V, n: nat)
    ensures forall i :: 0 <= i < n ==> Repeat(v, n)[i] == v
  {
    if n > 0 {
      RepeatAt(v, n - 1);
    }
  }

  /** Writing `v` under a fresh key extends `FromKeys` by that key. */
  lemma FromKeysPut<K, V>(ks: seq<K>, k: K, v: V)
    requires Distinct(ks) && k !in ks
    ensures Distinct(ks + [k]) && Put(FromKeys(ks, v), k, v) == FromKeys(ks + [k], v)
  {
    DistinctSnoc(ks, k);
  }

  /** `for i in range(n): d[ks[i]] = vs[i]`, starting from an empty dictionary. */
  function Fill<K(==), V>(ks: seq<K>, vs: seq<V>, n: nat): ODict<K, V>
    requires n <= |ks| && n <= |vs|
    decreases n
  {
    if n == 0 then Empty() else Put(Fill(ks, vs, n - 1), ks[n - 1], vs[n - 1])
  }

  /** Filling distinct keys lists them in order. */
  lemma {:induction false} FillKeys<K, V>(ks: seq<K>, vs: seq<V>, n: nat)
    requires Distinct(ks) && n <= |ks| && n <= |vs|
    ensures Fill(ks, vs, n).keys == ks[..n]
    decreases n
  {
    if n > 0 {
      FillKeys(ks, vs, n - 1);
      DistinctFresh(ks, n - 1);
      assert ks[..n] == ks[..n - 1] + [ks[n - 1]];
    }
  }

  /** Position `k` of the filled dictionary holds the value written there:
      every later write is to a new key, so it appends. */
  lemma {:induction false} FillValAt<K, V>(ks: seq<K>, vs: seq<V>, n: nat, k: nat)
    requires Distinct(ks) && k < n <= |ks| && n <= |vs|
    ensures k < |Fill(ks, vs, n).vals| && Fill(ks, vs, n).vals[k] == vs[k]
    decreases n
  {
    var d := Fill(ks, vs, n - 1);
    FillKeys(ks, vs, n - 1);
    DistinctFresh(ks, n - 1);
    assert ks[n - 1] !in d.keys;
    if k < n - 1 {
      FillValAt(ks, vs, n - 1, k);
    }
  }

  /** Key `ks[k]` holds the value written for it, `vs[k]`. */
  lemma FillAt<K, V>(ks: seq<K>, vs: seq<V>, n: nat, k: nat)
    requires Distinct(ks) && k < n <= |ks| && n <= |vs|
    ensures ks[k] in Fill(ks, vs, n).keys && Get(Fill(ks, vs, n), ks[k]) == vs[k]
  {
    FillKeys(ks, vs, n);
    FillValAt(ks, vs, n, k);
    GetAt(Fill(ks, vs, n), k);
  }

  /** Writing each of the distinct keys `ks` once, in order, builds the
      dictionary that lists exactly `ks` with the values `vs`. */
  lemma FillAll<K, V>(ks: seq<K>, vs: seq<V>)
    requires Distinct(ks) && |vs| == |ks|
    ensures Fill(ks, vs, |ks|) == Dict(ks, vs)
  {
    var d := Fill(ks, vs, |ks|);
    FillKeys(ks, vs, |ks|);
    assert ks[..|ks|] == ks;
    forall i | 0 <= i < |ks|
      ensures d.vals[i] == vs[i]
    {
      FillValAt(ks, vs, |ks|, i);
    }
  }

  /** `sum(xs)`, accumulated left to right. */
  function Sum(xs: seq<real>): real
    decreases |xs|
  {
    if xs == [] then 0.0 else Sum(xs[..|xs| - 1]) + xs[|xs| - 1]
  }

  /** Multiplying every term by `c` multiplies the sum by `c`. */
  lemma {:induction false} SumScaled(xs: seq<real>, ys: seq<real>, c: real)
    requires |ys| == |xs|
    requires forall i :: 0 <= i < |xs| ==> ys[i] == xs[i] * c
    ensures Sum(ys) == Sum(xs) * c
    decreases |xs|
  {
    if xs != [] {
      var n := |xs| - 1;
      SumScaled(xs[..n], ys[..n], c);
    }
  }

  /** `n` terms all equal to `c` add up to `n * c`. */
  lemma {:induction false} SumConstant(xs: seq<real>, c: real)
    requires forall i :: 0 <= i < |xs| ==> xs[i] == c
    ensures Sum(xs) == |xs| as real * c
    decreases |xs|
  {
    if xs != [] {
      SumConstant(xs[..|xs| - 1], c);
    }
  }

  /** A sum of positive terms is positive unless there are none. */
  lemma {:induction false} SumPositive(xs: seq<real>)
    requires forall i :: 0 <= i < |xs| ==> xs[i] > 0.0
    ensures xs != [] ==> Sum(xs) > 0.0
    ensures Sum(xs) >= 0.0
    decreases |xs|
  {
    if xs != [] {
      SumPositive(xs[..|xs| - 1]);
    }
  }

  /** `n` copies of `c` add up to `n * c`. */
  lemma {:induction false} SumRepeat(c: real, n: nat)
    ensures Sum(Repeat(c, n)) == n as real * c
  {
    if n > 0 {
      SumRepeat(c, n - 1);
      assert Repeat(c, n)[..n - 1] == Repeat(c, n - 1);
      assert (n - 1) as real * c + c == n as real * c;
    }
  }

  /** A non-negative part of a positive whole is a share between 0 and 1. */
  lemma ShareBounds(x: real, t: real)
    requires 0.0 <= x <= t && t > 0.0
    ensures 0.0 <= x / t <= 1.0
  {
  }
}
