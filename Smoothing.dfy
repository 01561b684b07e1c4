/** RFI mitigation by a forward-window median: `x[i] = np.nanmedian(x[i:i+n])`
    for every i, done in place on a copy of the spectrum (channels) or of the
    power series (integrations). */
module Smoothing {
  import opened Samples

  // ------------------------------------------------------------- the median

  predicate Sorted(s: seq<real>) {
    forall i, j :: 0 <= i < j < |s| ==> s[i] <= s[j]
  }

  /** x inserted into s before the first element it does not exceed. */
  function Insert(x: real, s: seq<real>): (r: seq<real>)
    ensures |r| == |s| + 1
  {
    if s == [] || x <= s[0] then [x] + s else [s[0]] + Insert(x, s[1..])
  }

  /** Insertion keeps a sequence sorted, and the first element afterwards is x
      or the old first element. */
  lemma {:induction false} InsertSorted(x: real, s: seq<real>)
    requires Sorted(s)
    ensures Sorted(Insert(x, s))
    ensures Insert(x, s)[0] == x || Insert(x, s)[0] == s[0]
  {
    if s != [] && x > s[0] {
      var t := Insert(x, s[1..]);
      InsertSorted(x, s[1..]);
      assert Insert(x, s) == [s[0]] + t;
      assert forall i :: 0 <= i < |t| ==> s[0] <= t[i] by {
        assert t[0] == x || t[0] == s[1];
      }
    }
  }

  /** Insertion adds exactly x to the elements. */
  lemma {:induction false} InsertAdds(x: real, s: seq<real>)
    ensures multiset(Insert(x, s)) == multiset(s) + multiset{x}
  {
    if s != [] && x > s[0] {
      InsertAdds(x, s[1..]);
      assert s == [s[0]] + s[1..];
    }
  }

  /** Insertion sort of the values of a window. */
  function SortReals(s: seq<real>): (r: seq<real>)
    ensures |r| == |s|
  {
    if s == [] then [] else Insert(s[0], SortReals(s[1..]))
  }

  /** SortReals returns the values of s in ascending order. */
  lemma {:induction false} SortRealsSorted(s: seq<real>)
    ensures Sorted(SortReals(s)) && multiset(SortReals(s)) == multiset(s)
  {
    if s != [] {
      SortRealsSorted(s[1..]);
      InsertSorted(s[0], SortReals(s[1..]));
      InsertAdds(s[0], SortReals(s[1..]));
      assert s == [s[0]] + s[1..];
    }
  }

  /** The values of the samples that are not NaN, in order. */
  function Finite(w: seq<Sample>): (vals: seq<real>)
    ensures |vals| <= |w|
  {
    if w == [] then [] else (if w[0].Val? then [w[0].v] else []) + Finite(w[1..])
  }

  /** Finite keeps exactly the values of the window, each as often as it
      occurs there. */
  lemma {:induction false} FiniteValues(w: seq<Sample>)
    ensures forall x {:trigger Val(x) in w} :: x in Finite(w) <==> Val(x) in w
    ensures forall x {:trigger multiset(w)[Val(x)]} :: multiset(Finite(w))[x] == multiset(w)[Val(x)]
  {
    if w != [] {
      FiniteValues(w[1..]);
      assert w == [w[0]] + w[1..];
      var head := if w[0].Val? then [w[0].v] else [];
      assert Finite(w) == head + Finite(w[1..]);
      assert multiset(w) == multiset{w[0]} + multiset(w[1..]);
      assert multiset(Finite(w)) == multiset(head) + multiset(Finite(w[1..]));
    }
  }

  /** The middle element of a sorted sequence of odd length, the mean of the
      two middle elements of one of even length. */
  function Middle(s: seq<real>): real
    requires |s| > 0
  {
    if |s| % 2 == 1 then s[|s| / 2] else (s[|s| / 2 - 1] + s[|s| / 2]) / 2.0
  }

  /** `np.nanmedian`: the median of the samples that are not NaN, NaN when
      there are none (an empty or all-NaN window). */
  function NanMedian(w: seq<Sample>): (m: Sample)
  {
    var vals := Finite(w);
    if vals == [] then NaN else Val(Middle(SortReals(vals)))
  }

  /** The two halves a median separates. */
  datatype Side = AtMost | AtLeast

  predicate OnSide(side: Side, x: real, m: real) {
    match side
    case AtMost => x <= m
    case AtLeast => x >= m
  }

  /** How many elements of s lie on the given side of m. */
  function Count(s: seq<real>, side: Side, m: real): nat
  {
    if s == [] then 0 else (if OnSide(side, s[0], m) then 1 else 0) + Count(s[1..], side, m)
  }

  lemma {:induction false} CountConcat(a: seq<real>, b: seq<real>, side: Side, m: real)
    ensures Count(a + b, side, m) == Count(a, side, m) + Count(b, side, m)
    decreases |a|
  {
    if a != [] {
      CountConcat(a[1..], b, side, m);
      assert (a + b)[0] == a[0];
      assert (a + b)[1..] == a[1..] + b;
    } else {
      assert a + b == b;
    }
  }

  /** Taking out element i takes out its contribution to the count. */
  lemma CountRemove(b: seq<real>, i: nat, side: Side, m: real)
    requires i < |b|
    ensures Count(b, side, m)
      == (if OnSide(side, b[i], m) then 1 else 0) + Count(b[..i] + b[i + 1..], side, m)
  {
    assert b == b[..i] + ([b[i]] + b[i + 1..]);
    CountConcat(b[..i], [b[i]] + b[i + 1..], side, m);
    CountConcat([b[i]], b[i + 1..], side, m);
    CountConcat(b[..i], b[i + 1..], side, m);
  }

  /** Taking out element i takes it out of the multiset. */
  lemma MultisetRemove(b: seq<real>, i: nat)
    requires i < |b|
    ensures multiset(b[..i] + b[i + 1..]) == multiset(b) - multiset{b[i]}
  {
    assert b == b[..i] + [b[i]] + b[i + 1..];
  }

  /** Counting depends only on the multiset of elements. */
  lemma {:induction false} CountPermutation(a: seq<real>, b: seq<real>, side: Side, m: real)
    requires multiset(a) == multiset(b)
    ensures Count(a, side, m) == Count(b, side, m)
    decreases |a|
  {
    if a == [] {
      assert |multiset(b)| == 0;
    } else {
      assert a[0] in multiset(b);
      var i :| 0 <= i < |b| && b[i] == a[0];
      PermutationTail(a, b, i);
      CountPermutation(a[1..], b[..i] + b[i + 1..], side, m);
      CountRemove(b, i, side, m);
      assert Count(a, side, m) == (if OnSide(side, a[0], m) then 1 else 0) + Count(a[1..], side, m);
    }
  }

  /** Taking the first element out of a and an equal element out of a
      permutation b of a leaves permutations of each other. */
  lemma PermutationTail(a: seq<real>, b: seq<real>, i: nat)
    requires multiset(a) == multiset(b) && |a| > 0 && i < |b| && b[i] == a[0]
    ensures multiset(a[1..]) == multiset(b[..i] + b[i + 1..])
  {
    MultisetRemove(b, i);
    assert a == [a[0]] + a[1..];
    assert multiset(a) == multiset{a[0]} + multiset(a[1..]);
  }

  /** At least k elements lie on the side when the first k do. */
  lemma {:induction false} CountPrefix(s: seq<real>, side: Side, m: real, k: nat)
    requires k <= |s| && forall i :: 0 <= i < k ==> OnSide(side, s[i], m)
    ensures Count(s, side, m) >= k
    decreases k
  {
    if k > 0 {
      CountPrefix(s[1..], side, m, k - 1);
    }
  }

  /** At least |s| - k elements lie on the side when all from index k on do. */
  lemma {:induction false} CountSuffix(s: seq<real>, side: Side, m: real, k: nat)
    requires k <= |s| && forall i :: k <= i < |s| ==> OnSide(side, s[i], m)
    ensures Count(s, side, m) >= |s| - k
    decreases |s|
  {
    if s != [] {
      CountSuffix(s[1..], side, m, if k == 0 then 0 else k - 1);
    }
  }

  /** The middle of a sorted sequence has at least half of it on each side. */
  lemma SortedMiddleSplits(s: seq<real>)
    requires Sorted(s) && |s| > 0
    ensures 2 * Count(s, AtMost, Middle(s)) >= |s|
    ensures 2 * Count(s, AtLeast, Middle(s)) >= |s|
  {
    var n := |s|;
    if n % 2 == 1 {
      CountPrefix(s, AtMost, Middle(s), n / 2 + 1);
      CountSuffix(s, AtLeast, Middle(s), n / 2);
    } else {
      CountPrefix(s, AtMost, Middle(s), n / 2);
      CountSuffix(s, AtLeast, Middle(s), n / 2);
    }
  }

  /** The median is NaN exactly when the window holds no value: an empty or
      all-NaN window. */
  lemma MedianIsNaN(w: seq<Sample>)
    ensures NanMedian(w).NaN? <==> forall i :: 0 <= i < |w| ==> w[i].NaN?
  {
    FiniteValues(w);
    var vals := Finite(w);
    if vals == [] {
      forall i | 0 <= i < |w|
        ensures w[i].NaN?
      {
        assert w[i] in w;
      }
    } else {
      assert Val(vals[0]) in w;
    }
  }

  /** The median splits the values of the window in two halves: at least half
      of them are at most the median and at least half are at least it. */
  lemma MedianSplits(w: seq<Sample>)
    ensures NanMedian(w).Val? ==>
      2 * Count(Finite(w), AtMost, NanMedian(w).v) >= |Finite(w)| &&
      2 * Count(Finite(w), AtLeast, NanMedian(w).v) >= |Finite(w)|
  {
    var vals := Finite(w);
    if vals != [] {
      var s := SortReals(vals);
      SortRealsSorted(vals);
      var m := Middle(s);
      SortedMiddleSplits(s);
      CountPermutation(s, vals, AtMost, m);
      CountPermutation(s, vals, AtLeast, m);
    }
  }

  /** A one-sample window is its own median. */
  lemma MedianOfOne(x: Sample)
    ensures NanMedian([x]) == x
  {
    assert [x][1..] == [];
    if x.Val? {
      assert Finite([x]) == [x.v];
      assert SortReals([x.v]) == [x.v] by {
        assert [x.v][1..] == [];
      }
    }
  }

  // ------------------------------------------------- the forward median loop

  /** Python's clamping of a slice bound i against a sequence of length n
      (negative bounds count from the end). */
  function SliceBound(i: int, n: nat): (b: nat)
    ensures b <= n
  {
    if i < 0 then (if n + i < 0 then 0 else n + i)
    else if i > n then n
    else i
  }

  /** `s[lo:hi]` with Python's slice semantics. */
  function PySlice(s: seq<Sample>, lo: int, hi: int): (r: seq<Sample>)
  {
    var a := SliceBound(lo, |s|);
    var b := SliceBound(hi, |s|);
    if a <= b then s[a..b] else []
  }

  /** A Python slice is the run of samples from the normalised start to the
      normalised stop, empty when the stop comes first. */
  lemma PySliceAt(s: seq<Sample>, lo: int, hi: int)
    ensures var a, b := SliceBound(lo, |s|), SliceBound(hi, |s|);
      && |PySlice(s, lo, hi)| == (if a <= b then b - a else 0)
      && forall k :: 0 <= k < |PySlice(s, lo, hi)| ==> PySlice(s, lo, hi)[k] == s[a + k]
  {
  }

  /** Each output is the NaN-aware median of the ORIGINAL window `x[i:i+n]`. */
  function ForwardMedian(x: seq<Sample>, n: int): (y: seq<Sample>)
    ensures |y| == |x|
  {
    seq(|x|, i requires 0 <= i < |x| => NanMedian(PySlice(x, i, i + n)))
  }

  lemma ForwardMedianAt(x: seq<Sample>, n: int, i: nat)
    requires i < |x|
    ensures ForwardMedian(x, n)[i] == NanMedian(PySlice(x, i, i + n))
  {
  }

  /** For n >= 1 window i holds the samples i .. min(i + n, |x|) - 1: it never
      wraps, it is truncated at the end, and it is never empty. */
  lemma ForwardWindow(x: seq<Sample>, n: int, i: nat)
    requires n >= 1 && i < |x|
    ensures PySlice(x, i, i + n) == x[i..if i + n <= |x| then i + n else |x|]
    ensures |PySlice(x, i, i + n)| >= 1
  {
  }

  /** The buffer after the first k iterations of the in-place loop
      `x[i] = np.nanmedian(x[i:i+n])`: each window reads the buffer as the
      previous iterations left it. */
  function SmoothedPrefix(x: seq<Sample>, n: int, k: nat): (y: seq<Sample>)
    requires k <= |x|
    ensures |y| == |x|
  {
    if k == 0 then x
    else
      var y := SmoothedPrefix(x, n, k - 1);
      y[k - 1 := NanMedian(PySlice(y, k - 1, k - 1 + n))]
  }

  /** A window starting at i reads only samples from i on, whatever n is: a
      Python slice `x[i:i+n]` with 0 <= i < len(x) starts at i. */
  lemma WindowFrom(x: seq<Sample>, y: seq<Sample>, n: int, i: nat)
    requires i < |x| == |y|
    requires y[i..] == x[i..]
    ensures PySlice(y, i, i + n) == PySlice(x, i, i + n)
  {
    var b := SliceBound(i + n, |x|);
    if i <= b {
      assert x[i..b] == x[i..][..b - i];
      assert y[i..b] == y[i..][..b - i];
    }
  }

  /** One iteration of the loop on a buffer whose tail is still the original:
      it writes the forward median of the original at the first tail index. */
  lemma SmoothStep(x: seq<Sample>, y: seq<Sample>, f: seq<Sample>, n: int, k: nat)
    requires 0 < k <= |x| == |f|
    requires y == f[..k - 1] + x[k - 1..]
    requires f[k - 1] == NanMedian(PySlice(x, k - 1, k - 1 + n))
    ensures y[k - 1 := NanMedian(PySlice(y, k - 1, k - 1 + n))] == f[..k] + x[k..]
  {
    assert y[k - 1..] == x[k - 1..];
    WindowFrom(x, y, n, k - 1);
  }

  /** The first k iterations have written the forward medians of the original
      buffer into 0 .. k-1 and left k .. |x|-1 alone, because every window
      starts at its own index and so reads only untouched samples. */
  lemma {:induction false} SmoothedPrefixIsForward(x: seq<Sample>, n: int, k: nat)
    requires k <= |x|
    ensures SmoothedPrefix(x, n, k) == ForwardMedian(x, n)[..k] + x[k..]
  {
    if k == 0 {
      assert ForwardMedian(x, n)[..0] + x == x;
    } else {
      var y := SmoothedPrefix(x, n, k - 1);
      var f := ForwardMedian(x, n);
      assert y == f[..k - 1] + x[k - 1..] by {
        SmoothedPrefixIsForward(x, n, k - 1);
      }
      assert f[k - 1] == NanMedian(PySlice(x, k - 1, k - 1 + n)) by {
        ForwardMedianAt(x, n, k - 1);
      }
      SmoothStep(x, y, f, n, k);
    }
  }

  /** One more iteration of the loop replaces sample k by the median of the
      window that starts there in the buffer as the loop has left it. */
  lemma SmoothedStep(x: seq<Sample>, n: int, k: nat)
    requires k < |x|
    ensures SmoothedPrefix(x, n, k + 1)
      == SmoothedPrefix(x, n, k)[k := NanMedian(PySlice(SmoothedPrefix(x, n, k), k, k + n))]
  {
  }

  /** The in-place loop equals the pure forward median of the original buffer. */
  lemma InPlaceIsForward(x: seq<Sample>, n: int)
    ensures SmoothedPrefix(x, n, |x|) == ForwardMedian(x, n)
  {
    SmoothedPrefixIsForward(x, n, |x|);
  }

  /** For n >= 1 the last sample is its own one-sample window and so unchanged. */
  lemma ForwardMedianKeepsLast(x: seq<Sample>, n: int)
    requires n >= 1 && |x| > 0
    ensures ForwardMedian(x, n)[|x| - 1] == x[|x| - 1]
  {
    ForwardWindow(x, n, |x| - 1);
    assert PySlice(x, |x| - 1, |x| - 1 + n) == [x[|x| - 1]];
    MedianOfOne(x[|x| - 1]);
  }

  /** `for i in range(len(x)): x[i] = np.nanmedian(x[i:i+n])` on a buffer. */
  method ForwardMedianInPlace(a: array<Sample>, n: int)
    modifies a
    ensures a[..] == SmoothedPrefix(old(a[..]), n, a.Length)
    ensures a[..] == ForwardMedian(old(a[..]), n)
  {
    for i := 0 to a.Length
      invariant a[..] == SmoothedPrefix(old(a[..]), n, i)
    {
      ghost var before := a[..];
      var m := NanMedian(PySlice(a[..], i, i + n));
      a[i] := m;
      assert a[..] == SmoothedPrefix(old(a[..]), n, i + 1) by {
        assert a[..] == before[i := m];
        SmoothedStep(old(a[..]), n, i);
      }
    }
    InPlaceIsForward(old(a[..]), n);
  }

  /** The median of three ordered values is the middle one. */
  lemma MedianOfOrderedThree(a: real, b: real, c: real)
    requires a <= b <= c
    ensures NanMedian([Val(a), Val(b), Val(c)]) == Val(b)
  {
    FiniteOfThree(a, b, c);
    assert SortReals([c]) == [c];
    assert SortReals([b, c]) == [b, c];
    assert SortReals([a, b, c]) == [a, b, c];
  }

  /** A window of three values, none NaN, keeps all three. */
  lemma FiniteOfThree(a: real, b: real, c: real)
    ensures Finite([Val(a), Val(b), Val(c)]) == [a, b, c]
  {
    assert Finite([Val(c)]) == [c];
    assert [Val(a), Val(b), Val(c)][1..] == [Val(b), Val(c)];
  }

  /** The median of two ordered values is their mean. */
  lemma MedianOfOrderedTwo(a: real, b: real)
    requires a <= b
    ensures NanMedian([Val(a), Val(b)]) == Val((a + b) / 2.0)
  {
    assert Finite([Val(a), Val(b)]) == [a, b];
    assert SortReals([b]) == [b];
    assert SortReals([a, b]) == [a, b];
  }

  /** Two sorted sequences holding the same values, each as often, are
      equal: a sort has one possible result. */
  lemma {:induction false} SortedUnique(a: seq<real>, b: seq<real>)
    requires Sorted(a) && Sorted(b) && multiset(a) == multiset(b)
    ensures a == b
    decreases |a|
  {
    assert |a| == |b| by {
      assert |a| == |multiset(a)| && |b| == |multiset(b)|;
    }
    if a != [] {
      assert a[0] == b[0] by {
        SortedHeads(a, b);
      }
      assert a[1..] == b[1..] by {
        SameHeadTails(a, b);
        SortedTail(a);
        SortedTail(b);
        SortedUnique(a[1..], b[1..]);
      }
      SameHeadAndTail(a, b);
    }
  }

  /** Removing the same first element from two permutations of each other
      leaves permutations of each other. */
  lemma SameHeadTails(a: seq<real>, b: seq<real>)
    requires multiset(a) == multiset(b) && a != [] && b != [] && a[0] == b[0]
    ensures multiset(a[1..]) == multiset(b[1..])
  {
    assert multiset(a[1..]) == multiset(a) - multiset{a[0]} by {
      assert a == [a[0]] + a[1..];
    }
    assert multiset(b[1..]) == multiset(b) - multiset{b[0]} by {
      assert b == [b[0]] + b[1..];
    }
  }

  /** Sequences with the same first element and the same rest are equal. */
  lemma SameHeadAndTail(a: seq<real>, b: seq<real>)
    requires a != [] && b != [] && a[0] == b[0] && a[1..] == b[1..]
    ensures a == b
  {
    assert a == [a[0]] + a[1..] && b == [b[0]] + b[1..];
  }

  /** Dropping the first element keeps a sequence sorted. */
  lemma SortedTail(a: seq<real>)
    requires Sorted(a) && a != []
    ensures Sorted(a[1..])
  {
    forall i, j | 0 <= i < j < |a| - 1
      ensures a[1..][i] <= a[1..][j]
    {
      assert a[1..][i] == a[i + 1] && a[1..][j] == a[j + 1];
    }
  }

  /** Two non-empty sorted sequences with the same values start alike. */
  lemma SortedHeads(a: seq<real>, b: seq<real>)
    requires Sorted(a) && Sorted(b) && multiset(a) == multiset(b) && a != [] && b != []
    ensures a[0] == b[0]
  {
    assert a[0] in multiset(b) && b[0] in multiset(a);
    var i :| 0 <= i < |b| && b[i] == a[0];
    var j :| 0 <= j < |a| && a[j] == b[0];
    assert a[0] <= a[j] && b[0] <= b[i];
  }

  /** The median of a window depends only on its values and how often each
      occurs, not on their order. */
  lemma MedianOfPermutation(w: seq<Sample>, v: seq<Sample>)
    requires multiset(Finite(w)) == multiset(Finite(v))
    ensures NanMedian(w) == NanMedian(v)
  {
    SortRealsSorted(Finite(w));
    SortRealsSorted(Finite(v));
    SortedUnique(SortReals(Finite(w)), SortReals(Finite(v)));
    assert |Finite(w)| == |multiset(Finite(w))| == |multiset(Finite(v))| == |Finite(v)|;
  }

  /** The median of two values is their mean, whichever comes first. */
  lemma MedianOfTwo(a: real, b: real)
    ensures NanMedian([Val(a), Val(b)]) == Val((a + b) / 2.0)
  {
    if a <= b {
      MedianOfOrderedTwo(a, b);
    } else {
      assert Finite([Val(a), Val(b)]) == [a, b] && Finite([Val(b), Val(a)]) == [b, a];
      assert multiset([a, b]) == multiset([b, a]);
      MedianOfPermutation([Val(a), Val(b)], [Val(b), Val(a)]);
      MedianOfOrderedTwo(b, a);
    }
  }

  /** The median of three values is the middle one also when it comes last. */
  lemma MedianOfMiddleLast(a: real, b: real, c: real)
    requires a <= c <= b
    ensures NanMedian([Val(a), Val(b), Val(c)]) == Val(c)
  {
    FiniteOfThree(a, b, c);
    FiniteOfThree(a, c, b);
    assert multiset([a, b, c]) == multiset([a, c, b]);
    MedianOfPermutation([Val(a), Val(b), Val(c)], [Val(a), Val(c), Val(b)]);
    MedianOfOrderedThree(a, c, b);
  }

  /** The last two windows of [1, 2, 3, 4, 5] with n = 3 are [4, 5] and [5]:
      the second-to-last output is the mean 4.5 of an even window. */
  lemma ForwardMedianExample(x: seq<Sample>)
    requires x == [Val(1.0), Val(2.0), Val(3.0), Val(4.0), Val(5.0)]
    ensures ForwardMedian(x, 3) == [Val(2.0), Val(3.0), Val(4.0), Val(4.5), Val(5.0)]
  {
    var f := ForwardMedian(x, 3);
    assert PySlice(x, 0, 3) == [Val(1.0), Val(2.0), Val(3.0)];
    MedianOfOrderedThree(1.0, 2.0, 3.0);
    assert PySlice(x, 1, 4) == [Val(2.0), Val(3.0), Val(4.0)];
    MedianOfOrderedThree(2.0, 3.0, 4.0);
    assert PySlice(x, 2, 5) == [Val(3.0), Val(4.0), Val(5.0)];
    MedianOfOrderedThree(3.0, 4.0, 5.0);
    assert PySlice(x, 3, 6) == [Val(4.0), Val(5.0)];
    MedianOfOrderedTwo(4.0, 5.0);
    ForwardMedianKeepsLast(x, 3);
    assert f[0] == Val(2.0) && f[1] == Val(3.0) && f[2] == Val(4.0) && f[3] == Val(4.5);
  }
}
