/**
  The coefficient extractor and the series evaluator of the Fourier visualizer
  (fourier_visualizer/core/fourier_transform.py).

  The numbers themselves are left abstract.  The quadrature of
  f(t) * e^(-2*pi*i*j*t) over [0, 1] for a signed frequency j is a parameter
  `integral: int -> Result<C, E>`: it gives the coefficient, or the error the
  path function raised while being sampled.  A term's rotating vector
  c * e^(2*pi*i*k*t) at time t, complex addition and the complex zero are the
  three parts of an `Algebra`.  What is proved is the structure: which
  frequencies appear, in what order, which integral feeds which entry, and how
  the evaluation folds the terms.
 */
module FourierTransform {

  /** One Fourier term: a signed frequency k and its coefficient c. */
  datatype Term<C> = Term(k: int, c: C)

  /** The outcome of a computation that may raise. */
  datatype Result<T, E> = Success(value: T) | Failure(error: E)

  function Abs(k: int): nat {
    if k < 0 then -k else k
  }

  // ---------------------------------------------------------------------------
  // The frequency sequence 1, -1, 2, -2, ..., n, -n
  // ---------------------------------------------------------------------------

  /** The frequencies the construction loop emits for `range(1, n + 1)`. */
  function Pairs(n: int): (r: seq<int>)
    ensures |r| == if n <= 0 then 0 else 2 * n
    decreases n
  {
    if n <= 0 then [] else Pairs(n - 1) + [n, -n]
  }

  /**
    The frequencies of the terms built for `depth`: N = depth // 2 pairs.
    Dafny's division by the positive constant 2 rounds toward minus infinity,
    as Python's `//` does, so a negative depth gives N <= 0 and no terms.
   */
  function Frequencies(depth: int): (r: seq<int>)
    ensures |r| == if depth < 2 then 0 else 2 * (depth / 2)
    ensures depth < 2 ==> r == []
  {
    Pairs(depth / 2)
  }

  /** The frequency found at position i: k = i/2 + 1, positive at even positions. */
  function FrequencyAt(i: nat): int {
    if i % 2 == 0 then i / 2 + 1 else -(i / 2 + 1)
  }

  lemma {:induction false} PairsAt(n: int, i: nat)
    requires i < |Pairs(n)|
    ensures Pairs(n)[i] == FrequencyAt(i)
    decreases n
  {
    if i < |Pairs(n - 1)| {
      PairsAt(n - 1, i);
      assert Pairs(n)[i] == Pairs(n - 1)[i];
    } else if i == 2 * (n - 1) {
      assert Pairs(n)[i] == n;
    } else {
      assert i == 2 * (n - 1) + 1;
      assert Pairs(n)[i] == -n;
    }
  }

  /** A smaller loop bound gives a prefix: the loop only ever appends. */
  lemma {:induction false} PairsPrefix(m: int, n: int)
    requires m <= n
    ensures Pairs(m) <= Pairs(n)
    decreases n - m
  {
    if m < n && n > 0 {
      PairsPrefix(m, n - 1);
    }
  }

  /** For 1 <= k <= N, entry 2(k-1) has frequency k and entry 2(k-1)+1 has frequency -k. */
  lemma FrequencyPositions(depth: int, k: int)
    requires 1 <= k <= depth / 2
    ensures 2 * k <= |Frequencies(depth)|
    ensures Frequencies(depth)[2 * (k - 1)] == k
    ensures Frequencies(depth)[2 * (k - 1) + 1] == -k
  {
    PairsAt(depth / 2, 2 * (k - 1));
    PairsAt(depth / 2, 2 * (k - 1) + 1);
  }

  /**
    A frequency appears exactly when 1 <= |j| <= N: the DC term never does,
    and j appears if and only if -j does.
   */
  lemma FrequencyMembership(depth: int, j: int)
    ensures j in Frequencies(depth) <==> 1 <= Abs(j) <= depth / 2
    ensures j in Frequencies(depth) <==> -j in Frequencies(depth)
    ensures 0 !in Frequencies(depth)
  {
    forall x | x in Frequencies(depth)
      ensures 1 <= Abs(x) <= depth / 2
    {
      var i :| 0 <= i < |Frequencies(depth)| && Frequencies(depth)[i] == x;
      PairsAt(depth / 2, i);
    }
    forall x | 1 <= Abs(x) <= depth / 2
      ensures x in Frequencies(depth)
    {
      FrequencyPositions(depth, Abs(x));
      if x > 0 {
        assert Frequencies(depth)[2 * (x - 1)] == x;
      } else {
        assert Frequencies(depth)[2 * (-x - 1) + 1] == x;
      }
    }
  }

  /** No frequency appears twice. */
  lemma FrequenciesDistinct(depth: int, i: int, j: int)
    requires 0 <= i < |Frequencies(depth)| && 0 <= j < |Frequencies(depth)|
    requires i != j
    ensures Frequencies(depth)[i] != Frequencies(depth)[j]
  {
    PairsAt(depth / 2, i);
    PairsAt(depth / 2, j);
  }

  /** |k| never decreases along the list: it is already ordered by absolute frequency. */
  lemma FrequenciesAbsSorted(depth: int, i: int, j: int)
    requires 0 <= i <= j < |Frequencies(depth)|
    ensures Abs(Frequencies(depth)[i]) <= Abs(Frequencies(depth)[j])
  {
    PairsAt(depth / 2, i);
    PairsAt(depth / 2, j);
    assert i / 2 <= j / 2;
  }

  // ---------------------------------------------------------------------------
  // compute_fourier_series
  // ---------------------------------------------------------------------------

  /** The frequencies of a list of terms, in list order. */
  function FrequenciesOf<C>(terms: seq<Term<C>>): seq<int> {
    seq(|terms|, i requires 0 <= i < |terms| => terms[i].k)
  }

  /**
    compute_fourier_series(f, depth).  For k = 1 .. N it integrates for k,
    then for -k, and appends Term(k, c_k) and Term(-k, c_-k).  The first
    integral that raises aborts the whole computation: nothing is returned
    but that error.
   */
  method ComputeFourierSeries<C, E>(integral: int -> Result<C, E>, depth: int)
    returns (r: Result<seq<Term<C>>, E>)
    ensures r.Success? <==>
      forall i :: 0 <= i < |Frequencies(depth)| ==> integral(Frequencies(depth)[i]).Success?
    ensures r.Success? ==> FrequenciesOf(r.value) == Frequencies(depth)
    ensures r.Success? ==>
      forall i :: 0 <= i < |r.value| ==> integral(r.value[i].k) == Success(r.value[i].c)
    ensures r.Failure? ==>
      exists i :: 0 <= i < |Frequencies(depth)|
        && integral(Frequencies(depth)[i]) == Failure(r.error)
        && forall j :: 0 <= j < i ==> integral(Frequencies(depth)[j]).Success?
  {
    var n := depth / 2;
    ghost var freqs := Frequencies(depth);
    var terms: seq<Term<C>> := [];
    var k := 1;
    while k <= n
      invariant 1 <= k <= if n >= 1 then n + 1 else 1
      invariant |terms| == 2 * (k - 1) <= |freqs|
      invariant forall j :: 0 <= j < |terms| ==> terms[j].k == freqs[j]
      invariant forall j :: 0 <= j < |terms| ==> integral(terms[j].k) == Success(terms[j].c)
    {
      FrequencyPositions(depth, k);
      var ck := integral(k);
      if ck.Failure? {
        assert freqs[|terms|] == k;
        return Failure(ck.error);
      }
      var cMinusK := integral(-k);
      if cMinusK.Failure? {
        assert freqs[|terms|] == k && freqs[|terms| + 1] == -k;
        return Failure(cMinusK.error);
      }
      terms := terms + [Term(k, ck.value), Term(-k, cMinusK.value)];
      k := k + 1;
    }
    assert FrequenciesOf(terms) == freqs;
    r := Success(terms);
  }

  // ---------------------------------------------------------------------------
  // fourier_series_function
  // ---------------------------------------------------------------------------

  /**
    The abstract complex plane: `contrib(term, t)` is the term's rotating vector
    c * e^(2*pi*i*k*t), `add` is complex addition and `zero` is 0 + 0j.
   */
  datatype Algebra<!C, !A> = Algebra(contrib: (Term<C>, real) -> A, add: (A, A) -> A, zero: A)

  /** Adds the contributions of `terms`, in list order, onto the accumulator `acc`. */
  function FoldFrom<C, A>(acc: A, terms: seq<Term<C>>, t: real, alg: Algebra<C, A>): A
    decreases |terms|
  {
    if terms == [] then acc
    else FoldFrom(alg.add(acc, alg.contrib(terms[0], t)), terms[1..], t, alg)
  }

  /** The value of the series at time t: the fold started from the zero value. */
  function SeriesValue<C, A>(terms: seq<Term<C>>, t: real, alg: Algebra<C, A>): A {
    FoldFrom(alg.zero, terms, t, alg)
  }

  /** fourier_series_function(t, term_data): the accumulating loop. */
  method FourierSeriesFunction<C, A>(t: real, terms: seq<Term<C>>, alg: Algebra<C, A>)
    returns (result: A)
    ensures result == SeriesValue(terms, t, alg)
    ensures terms == [] ==> result == alg.zero
  {
    result := alg.zero;
    var i := 0;
    while i < |terms|
      invariant 0 <= i <= |terms|
      invariant FoldFrom(result, terms[i..], t, alg) == SeriesValue(terms, t, alg)
    {
      assert terms[i..][1..] == terms[i + 1..];
      result := alg.add(result, alg.contrib(terms[i], t));
      i := i + 1;
    }
  }

  /** Evaluating terms + [x] adds x's contribution to the value of terms: a left fold. */
  lemma {:induction false} FoldSnoc<C, A>(acc: A, terms: seq<Term<C>>, x: Term<C>, t: real, alg: Algebra<C, A>)
    ensures FoldFrom(acc, terms + [x], t, alg) == alg.add(FoldFrom(acc, terms, t, alg), alg.contrib(x, t))
    decreases |terms|
  {
    if terms == [] {
      assert [x][1..] == [];
    } else {
      assert (terms + [x])[1..] == terms[1..] + [x];
      FoldSnoc(alg.add(acc, alg.contrib(terms[0], t)), terms[1..], x, t, alg);
    }
  }

  /** The series of terms + [x] is the series of terms plus x's contribution. */
  lemma SeriesSnoc<C, A>(terms: seq<Term<C>>, x: Term<C>, t: real, alg: Algebra<C, A>)
    ensures SeriesValue(terms + [x], t, alg) == alg.add(SeriesValue(terms, t, alg), alg.contrib(x, t))
  {
    FoldSnoc(alg.zero, terms, x, t, alg);
  }

  /** Folding a concatenation folds the first part, then the second. */
  lemma {:induction false} FoldConcat<C, A>(acc: A, p: seq<Term<C>>, q: seq<Term<C>>, t: real, alg: Algebra<C, A>)
    ensures FoldFrom(acc, p + q, t, alg) == FoldFrom(FoldFrom(acc, p, t, alg), q, t, alg)
    decreases |p|
  {
    if p == [] {
      assert p + q == q;
    } else {
      assert (p + q)[1..] == p[1..] + q;
      FoldConcat(alg.add(acc, alg.contrib(p[0], t)), p[1..], q, t, alg);
    }
  }

  /** Complex addition is associative and commutative, with zero as its identity. */
  ghost predicate IsCommutativeMonoid<C, A(!new)>(alg: Algebra<C, A>) {
    && (forall x, y, z :: alg.add(alg.add(x, y), z) == alg.add(x, alg.add(y, z)))
    && (forall x, y :: alg.add(x, y) == alg.add(y, x))
    && (forall x :: alg.add(alg.zero, x) == x)
  }

  /** Over a commutative monoid, a fold from acc is acc plus the series value. */
  lemma {:induction false} FoldShift<C, A(!new)>(acc: A, terms: seq<Term<C>>, t: real, alg: Algebra<C, A>)
    requires IsCommutativeMonoid(alg)
    ensures FoldFrom(acc, terms, t, alg) == alg.add(acc, SeriesValue(terms, t, alg))
    decreases |terms|
  {
    if terms == [] {
      assert alg.add(acc, alg.zero) == alg.add(alg.zero, acc);
    } else {
      var v := alg.contrib(terms[0], t);
      FoldShift(alg.add(acc, v), terms[1..], t, alg);
      FoldShift(alg.add(alg.zero, v), terms[1..], t, alg);
      assert alg.add(alg.zero, v) == v;
    }
  }

  /** Over a commutative monoid, the series of p + q is the series of p plus that of q. */
  lemma SeriesConcat<C, A(!new)>(p: seq<Term<C>>, q: seq<Term<C>>, t: real, alg: Algebra<C, A>)
    requires IsCommutativeMonoid(alg)
    ensures SeriesValue(p + q, t, alg) == alg.add(SeriesValue(p, t, alg), SeriesValue(q, t, alg))
  {
    FoldConcat(alg.zero, p, q, t, alg);
    FoldShift(SeriesValue(p, t, alg), q, t, alg);
  }

  /** Over a commutative monoid, the term at position j can be taken out of the sum first. */
  lemma SeriesExtract<C, A(!new)>(b: seq<Term<C>>, j: int, t: real, alg: Algebra<C, A>)
    requires IsCommutativeMonoid(alg)
    requires 0 <= j < |b|
    ensures SeriesValue(b, t, alg)
         == alg.add(alg.contrib(b[j], t), SeriesValue(b[..j] + b[j + 1..], t, alg))
  {
    var add := alg.add;
    var vx := alg.contrib(b[j], t);
    var sl := SeriesValue(b[..j], t, alg);
    var sr := SeriesValue(b[j + 1..], t, alg);
    assert b == b[..j] + [b[j]] + b[j + 1..];
    SeriesConcat(b[..j] + [b[j]], b[j + 1..], t, alg);
    SeriesSnoc(b[..j], b[j], t, alg);
    SeriesConcat(b[..j], b[j + 1..], t, alg);
    calc {
      SeriesValue(b, t, alg);
      add(add(sl, vx), sr);
      add(sl, add(vx, sr));
      add(sl, add(sr, vx));
      add(add(sl, sr), vx);
      add(vx, add(sl, sr));
    }
  }

  /**
    The mathematical sum does not depend on the order of the terms: over a
    commutative monoid, any two lists holding the same terms have the same value.
   */
  lemma {:induction false} SeriesPermutation<C, A(!new)>(a: seq<Term<C>>, b: seq<Term<C>>, t: real, alg: Algebra<C, A>)
    requires IsCommutativeMonoid(alg)
    requires multiset(a) == multiset(b)
    ensures SeriesValue(a, t, alg) == SeriesValue(b, t, alg)
    decreases |a|
  {
    if a == [] {
      assert |b| == |multiset(b)| == 0;
    } else {
      var x := a[0];
      assert x in multiset(b);
      var j :| 0 <= j < |b| && b[j] == x;
      var rest := b[..j] + b[j + 1..];
      assert b == b[..j] + [x] + b[j + 1..];
      assert multiset(b) == multiset(b[..j]) + multiset{x} + multiset(b[j + 1..]);
      assert a == [x] + a[1..];
      assert multiset(a[1..]) == multiset(a) - multiset{x};
      assert multiset(rest) == multiset(b) - multiset{x};
      SeriesPermutation(a[1..], rest, t, alg);
      SeriesExtract(b, j, t, alg);
      SeriesExtract(a, 0, t, alg);
      assert a[..0] + a[1..] == a[1..];
    }
  }
}
