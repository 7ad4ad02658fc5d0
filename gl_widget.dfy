/**
  The structural part of the OpenGL widget (fourier_visualizer/widgets/gl_widget.py):
  the order in which terms are drawn and summed, the bounded trail of tip
  positions, and the animation on/off state.  Drawing calls and the float
  geometry around them are not modelled.
 */
module GlWidget {
  import opened FourierTransform

  // ---------------------------------------------------------------------------
  // Ordering terms by absolute frequency
  // ---------------------------------------------------------------------------

  /** |k| never decreases along the list. */
  predicate AbsSorted<C>(s: seq<Term<C>>) {
    forall i, j :: 0 <= i <= j < |s| ==> Abs(s[i].k) <= Abs(s[j].k)
  }

  /** The terms of s whose absolute frequency is v, in their order in s. */
  function WithAbs<C>(s: seq<Term<C>>, v: int): seq<Term<C>> {
    if s == [] then []
    else (if Abs(s[0].k) == v then [s[0]] else []) + WithAbs(s[1..], v)
  }

  /** Puts x in front of the first term whose |k| is at least |x.k|. */
  function Insert<C>(x: Term<C>, s: seq<Term<C>>): (r: seq<Term<C>>)
    ensures multiset(r) == multiset(s) + multiset{x}
    ensures |r| == |s| + 1
    ensures r[0] == x || (s != [] && r[0] == s[0])
    ensures AbsSorted(s) ==> AbsSorted(r)
  {
    if s == [] then [x]
    else if Abs(x.k) <= Abs(s[0].k) then
      if AbsSorted(s) then ConsSorted(x, s); [x] + s else [x] + s
    else
      var t := Insert(x, s[1..]);
      assert multiset(s) == multiset{s[0]} + multiset(s[1..]) by {
        assert s == [s[0]] + s[1..];
      }
      if AbsSorted(s) then
        assert t[0] == x || t[0] == s[1];
        ConsSorted(s[0], t);
        [s[0]] + t
      else [s[0]] + t
  }

  /** A term no larger in |k| than the head of a sorted list can go in front of it. */
  lemma ConsSorted<C>(y: Term<C>, t: seq<Term<C>>)
    requires AbsSorted(t)
    requires t != [] ==> Abs(y.k) <= Abs(t[0].k)
    ensures AbsSorted([y] + t)
  {
  }

  /**
    Python's stable sort with key abs(k): `sorted(term_data, key=...)` and
    `terms.sort(key=...)`.  The result holds the same terms, ordered by |k|.
   */
  function SortByAbsK<C>(s: seq<Term<C>>): (r: seq<Term<C>>)
    ensures multiset(r) == multiset(s)
    ensures |r| == |s|
    ensures AbsSorted(r)
  {
    if s == [] then []
    else
      assert s == [s[0]] + s[1..];
      Insert(s[0], SortByAbsK(s[1..]))
  }

  lemma {:induction false} InsertWithAbs<C>(x: Term<C>, s: seq<Term<C>>, v: int)
    requires AbsSorted(s)
    ensures WithAbs(Insert(x, s), v) == if Abs(x.k) == v then [x] + WithAbs(s, v) else WithAbs(s, v)
    decreases |s|
  {
    if s == [] {
      assert [x][1..] == [];
    } else if Abs(x.k) <= Abs(s[0].k) {
      assert ([x] + s)[1..] == s;
    } else {
      var r := [s[0]] + Insert(x, s[1..]);
      assert r[1..] == Insert(x, s[1..]);
      InsertWithAbs(x, s[1..], v);
    }
  }

  /** The sort is stable: terms of equal |k| keep their relative order. */
  lemma {:induction false} SortStable<C>(s: seq<Term<C>>, v: int)
    ensures WithAbs(SortByAbsK(s), v) == WithAbs(s, v)
    decreases |s|
  {
    if s != [] {
      SortStable(s[1..], v);
      InsertWithAbs(s[0], SortByAbsK(s[1..]), v);
    }
  }

  /** A list already ordered by |k| is returned unchanged. */
  lemma {:induction false} SortedIsUnchanged<C>(s: seq<Term<C>>)
    requires AbsSorted(s)
    ensures SortByAbsK(s) == s
    decreases |s|
  {
    if s != [] {
      assert AbsSorted(s[1..]);
      SortedIsUnchanged(s[1..]);
      assert s == [s[0]] + s[1..];
    }
  }

  /** The filter of draw_rotating_vectors: the terms whose frequency is not 0, in order. */
  function NonZeroTerms<C>(s: seq<Term<C>>): (r: seq<Term<C>>)
    ensures forall i :: 0 <= i < |r| ==> r[i].k != 0
  {
    if s == [] then []
    else
      assert s == [s[0]] + s[1..];
      (if s[0].k != 0 then [s[0]] else []) + NonZeroTerms(s[1..])
  }

  /**
    The filter never adds a term, and every occurrence of a term with k != 0
    survives it.
   */
  lemma {:induction false} NonZeroKeepsCount<C>(s: seq<Term<C>>, x: Term<C>)
    ensures multiset(NonZeroTerms(s)) <= multiset(s)
    ensures x.k != 0 ==> multiset(NonZeroTerms(s))[x] == multiset(s)[x]
    decreases |s|
  {
    if s != [] {
      NonZeroKeepsCount(s[1..], x);
      assert s == [s[0]] + s[1..];
      var head := if s[0].k != 0 then [s[0]] else [];
      assert NonZeroTerms(s) == head + NonZeroTerms(s[1..]);
    }
  }

  /** Within each |k| the filter keeps the order of the terms it keeps; |k| = 0 is removed. */
  lemma {:induction false} NonZeroWithAbs<C>(s: seq<Term<C>>, v: int)
    ensures WithAbs(NonZeroTerms(s), v) == if v == 0 then [] else WithAbs(s, v)
    decreases |s|
  {
    if s != [] {
      NonZeroWithAbs(s[1..], v);
      var head := if s[0].k != 0 then [s[0]] else [];
      assert NonZeroTerms(s) == head + NonZeroTerms(s[1..]);
      WithAbsConcat(head, NonZeroTerms(s[1..]), v);
    }
  }

  lemma {:induction false} WithAbsConcat<C>(p: seq<Term<C>>, q: seq<Term<C>>, v: int)
    ensures WithAbs(p + q, v) == WithAbs(p, v) + WithAbs(q, v)
    decreases |p|
  {
    if p == [] {
      assert p + q == q;
    } else {
      var head := if Abs(p[0].k) == v then [p[0]] else [];
      calc {
        WithAbs(p + q, v);
      == { assert (p + q)[0] == p[0] && (p + q)[1..] == p[1..] + q; }
        head + WithAbs(p[1..] + q, v);
      == { WithAbsConcat(p[1..], q, v); }
        head + (WithAbs(p[1..], v) + WithAbs(q, v));
      ==
        (head + WithAbs(p[1..], v)) + WithAbs(q, v);
      }
    }
  }

  /** A single term is kept exactly when its frequency is not 0. */
  lemma NonZeroSingleton<C>(x: Term<C>)
    ensures NonZeroTerms([x]) == if x.k != 0 then [x] else []
  {
    assert [x][1..] == [];
  }

  lemma NonZeroCons<C>(x: Term<C>, s: seq<Term<C>>)
    ensures NonZeroTerms([x] + s) == (if x.k != 0 then [x] else []) + NonZeroTerms(s)
  {
    assert ([x] + s)[1..] == s;
  }

  /**
    The filter works term by term: filtering a concatenation filters each part
    and concatenates the results, so the kept terms stay in list order.
   */
  lemma {:induction false} NonZeroConcat<C>(p: seq<Term<C>>, q: seq<Term<C>>)
    ensures NonZeroTerms(p + q) == NonZeroTerms(p) + NonZeroTerms(q)
    decreases |p|
  {
    if p == [] {
      assert p + q == q;
    } else {
      var head := if p[0].k != 0 then [p[0]] else [];
      calc {
        NonZeroTerms(p + q);
        { assert p + q == [p[0]] + (p[1..] + q); }
        NonZeroTerms([p[0]] + (p[1..] + q));
        { NonZeroCons(p[0], p[1..] + q); }
        head + NonZeroTerms(p[1..] + q);
        { NonZeroConcat(p[1..], q); }
        head + (NonZeroTerms(p[1..]) + NonZeroTerms(q));
        (head + NonZeroTerms(p[1..])) + NonZeroTerms(q);
        { assert p == [p[0]] + p[1..]; NonZeroCons(p[0], p[1..]); }
        NonZeroTerms(p) + NonZeroTerms(q);
      }
    }
  }

  /** Two kept terms appear in the filtered list in the order they had in s. */
  lemma NonZeroKeepsOrder<C>(s: seq<Term<C>>, i: int, j: int)
    requires 0 <= i < j < |s|
    requires s[i].k != 0 && s[j].k != 0
    ensures exists a, b ::
              0 <= a < b < |NonZeroTerms(s)| && NonZeroTerms(s)[a] == s[i] && NonZeroTerms(s)[b] == s[j]
  {
    var front, middle, back := s[..i], s[i + 1..j], s[j + 1..];
    assert s == front + [s[i]] + middle + [s[j]] + back;
    NonZeroConcat(front + [s[i]] + middle + [s[j]], back);
    NonZeroConcat(front + [s[i]] + middle, [s[j]]);
    NonZeroConcat(front + [s[i]], middle);
    NonZeroConcat(front, [s[i]]);
    NonZeroSingleton(s[i]);
    NonZeroSingleton(s[j]);
    var r := NonZeroTerms(s);
    var a := |NonZeroTerms(front)|;
    var b := a + 1 + |NonZeroTerms(middle)|;
    assert r == NonZeroTerms(front) + [s[i]] + NonZeroTerms(middle) + [s[j]] + NonZeroTerms(back);
    assert r[a] == s[i] && r[b] == s[j];
  }

  /** A list in which no frequency is 0 passes the filter unchanged. */
  lemma {:induction false} NonZeroUnchanged<C>(s: seq<Term<C>>)
    requires forall i :: 0 <= i < |s| ==> s[i].k != 0
    ensures NonZeroTerms(s) == s
    decreases |s|
  {
    if s != [] {
      NonZeroUnchanged(s[1..]);
      assert s == [s[0]] + s[1..];
    }
  }

  /**
    The order in which draw_rotating_vectors chains the arrows: the terms
    with k != 0, stably sorted by |k|.
   */
  function DrawOrder<C>(s: seq<Term<C>>): (r: seq<Term<C>>)
    ensures AbsSorted(r)
    ensures multiset(r) == multiset(NonZeroTerms(s))
  {
    SortByAbsK(NonZeroTerms(s))
  }

  /** No arrow is drawn for the DC term. */
  lemma DrawOrderNonZero<C>(s: seq<Term<C>>, i: int)
    requires 0 <= i < |DrawOrder(s)|
    ensures DrawOrder(s)[i].k != 0
  {
    var kept := NonZeroTerms(s);
    var x := DrawOrder(s)[i];
    assert x in multiset(DrawOrder(s));
    assert x in multiset(kept);
    var j :| 0 <= j < |kept| && kept[j] == x;
  }

  /** Within each |k|, the arrows are drawn in term_data order; |k| = 0 is never drawn. */
  lemma DrawOrderStable<C>(s: seq<Term<C>>, v: int)
    ensures WithAbs(DrawOrder(s), v) == if v == 0 then [] else WithAbs(s, v)
  {
    SortStable(NonZeroTerms(s), v);
    NonZeroWithAbs(s, v);
  }

  /**
    On a list built by compute_fourier_series the filter and the sort change
    nothing: the arrows are drawn, and the tip is summed, in list order.
   */
  lemma ComputedTermsAreInDrawOrder<C>(terms: seq<Term<C>>, depth: int)
    requires FrequenciesOf(terms) == Frequencies(depth)
    ensures SortByAbsK(terms) == terms
    ensures DrawOrder(terms) == terms
  {
    assert forall i :: 0 <= i < |terms| ==> terms[i].k == Frequencies(depth)[i];
    forall i, j | 0 <= i <= j < |terms|
      ensures Abs(terms[i].k) <= Abs(terms[j].k)
    {
      FrequenciesAbsSorted(depth, i, j);
    }
    forall i | 0 <= i < |terms|
      ensures terms[i].k != 0
    {
      FrequencyMembership(depth, 0);
    }
    SortedIsUnchanged(terms);
    NonZeroUnchanged(terms);
  }

  // ---------------------------------------------------------------------------
  // get_current_tip_position
  // ---------------------------------------------------------------------------

  /**
    The tip: starting from the drawing centre, add each term's scaled rotating
    vector (`alg.contrib`) in |k| order.  No term is filtered out.
   */
  function TipPosition<C, A>(terms: seq<Term<C>>, time: real, center: A, alg: Algebra<C, A>): (r: A)
    ensures terms == [] ==> r == center
    ensures AbsSorted(terms) ==> r == FoldFrom(center, terms, time, alg)
  {
    if AbsSorted(terms) then SortedIsUnchanged(terms); FoldFrom(center, SortByAbsK(terms), time, alg)
    else FoldFrom(center, SortByAbsK(terms), time, alg)
  }

  /**
    Over a commutative monoid, the tip is the centre plus the value of the
    series in term_data order: sorting changes the order of the sum only.
   */
  lemma TipIsCenteredSeries<C, A(!new)>(terms: seq<Term<C>>, time: real, center: A, alg: Algebra<C, A>)
    requires IsCommutativeMonoid(alg)
    ensures TipPosition(terms, time, center, alg) == alg.add(center, SeriesValue(terms, time, alg))
  {
    FoldShift(center, SortByAbsK(terms), time, alg);
    SeriesPermutation(SortByAbsK(terms), terms, time, alg);
  }

  // ---------------------------------------------------------------------------
  // The widget's state: trail and animation
  // ---------------------------------------------------------------------------

  /**
    The trail after update_trail(p): p inserted at the front, then the last
    point dropped if the list is now longer than maxLength.
   */
  function TrailAfterUpdate<P>(trail: seq<P>, maxLength: int, p: P): (r: seq<P>)
    ensures |r| == if |trail| < maxLength then |trail| + 1 else |trail|
    ensures r == ([p] + trail)[..|r|]
    ensures r != [] ==> r[0] == p
    ensures r == [] <==> trail == [] && maxLength <= 0
    ensures 0 <= maxLength && |trail| <= maxLength ==> |r| <= maxLength
  {
    var grown := [p] + trail;
    if |grown| > maxLength then grown[..|grown| - 1] else grown
  }

  /** The GLWidget fields that the trail and the animation logic update. */
  class GLWidget<P> {
    /** Tip positions, newest first. */
    var trailPoints: seq<P>
    var maxTrailLength: int
    var isAnimating: bool
    /** The phase of the animation; the source keeps it in [0, 1) with `% 1.0`, not modelled here. */
    var currentTime: real

    constructor ()
      ensures trailPoints == [] && maxTrailLength == 100
      ensures !isAnimating && currentTime == 0.0
    {
      trailPoints := [];
      maxTrailLength := 100;
      isAnimating := false;
      currentTime := 0.0;
    }

    /** update_trail, with `tip` the value get_current_tip_position returned. */
    method UpdateTrail(tip: P)
      modifies this`trailPoints
      ensures trailPoints == TrailAfterUpdate(old(trailPoints), maxTrailLength, tip)
    {
      trailPoints := [tip] + trailPoints;
      if |trailPoints| > maxTrailLength {
        trailPoints := trailPoints[..|trailPoints| - 1];
      }
    }

    method StartAnimation()
      modifies this`isAnimating
      ensures isAnimating
    {
      isAnimating := true;
    }

    method StopAnimation()
      modifies this`isAnimating
      ensures !isAnimating
    {
      isAnimating := false;
    }

    /**
      update_animation, with `phase` the frame's position in the cycle, which
      the source derives from the wall clock, the start time and the speed.
      Only a running animation moves current_time.
     */
    method UpdateAnimation(phase: real)
      modifies this`currentTime
      ensures currentTime == if isAnimating then phase else old(currentTime)
    {
      if isAnimating {
        currentTime := phase;
      }
    }
  }
}
