/** Small facts about Dafny's collections that the other modules use. */
module Collections {

  /** Concatenation is associative. */
  lemma AppendAssoc<T>(a: seq<T>, b: seq<T>, c: seq<T>)
    ensures (a + b) + c == a + (b + c)
  {
  }

  /** A non-empty set has an element; returns one, which lets `:|` pick from the set
      whatever the element type. */
  lemma NonEmptyHasElement<T>(s: set<T>) returns (x: T)
    requires s != {}
    ensures x in s
  {
    // the empty branch only exhibits an element, so that `:|` below knows one exists
    if forall y :: y !in s {
      assert false;
    }
    x :| x in s;
  }

  /** The sum of a sequence of reals. */
  function Sum(s: seq<real>): real
  {
    if |s| == 0 then 0.0 else Sum(s[..|s| - 1]) + s[|s| - 1]
  }

  lemma {:induction false} SumConcat(a: seq<real>, b: seq<real>)
    ensures Sum(a + b) == Sum(a) + Sum(b)
  {
    if |b| == 0 {
      assert a + b == a;
    } else {
      var b' := b[..|b| - 1];
      assert (a + b)[..|a + b| - 1] == a + b';
      SumConcat(a, b');
    }
  }

  /** Summing is linear: the sum of pointwise sums is the sum of the two sums. */
  lemma {:induction false} SumAdd(a: seq<real>, b: seq<real>, c: seq<real>)
    requires |a| == |b| == |c|
    requires forall i :: 0 <= i < |c| ==> c[i] == a[i] + b[i]
    ensures Sum(c) == Sum(a) + Sum(b)
  {
    if |c| > 0 {
      var n := |c| - 1;
      SumAdd(a[..n], b[..n], c[..n]);
    }
  }

  /** A sequence of terms each at most `v` sums to at most `|s| * v`. */
  lemma {:induction false} SumAtMost(s: seq<real>, v: real)
    requires forall i :: 0 <= i < |s| ==> s[i] <= v
    ensures Sum(s) <= |s| as real * v
  {
    if |s| > 0 {
      var n := |s| - 1;
      SumAtMost(s[..n], v);
      assert (n + 1) as real * v == n as real * v + v;
    }
  }

  /** A sequence whose terms all equal `v` sums to `|s| * v`. */
  lemma {:induction false} SumConstant(s: seq<real>, v: real)
    requires forall i :: 0 <= i < |s| ==> s[i] == v
    ensures Sum(s) == |s| as real * v
  {
    if |s| > 0 {
      var n := |s| - 1;
      SumConstant(s[..n], v);
      assert (n + 1) as real * v == n as real * v + v;
    }
  }

  /** Rotating a sequence by one place keeps its sum. */
  lemma SumRotate(s: seq<real>)
    requires |s| > 0
    ensures Sum(s[1..] + s[..1]) == Sum(s)
  {
    SumConcat(s[1..], s[..1]);
    SumConcat(s[..1], s[1..]);
    assert s[..1] + s[1..] == s;
  }
}
