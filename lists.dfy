/**
 * Sequence helpers for the dependency lists: keeping the first occurrence
 * of every entry (what a `got` record does in front of `push`), and
 * dropping the entries of a set (what an `exclude` record does). The
 * entries are module ids.
 */
module Lists {
  predicate NoDup(xs: seq<string>) {
    forall i, j | 0 <= i < j < |xs| :: xs[i] != xs[j]
  }

  function Elems(xs: seq<string>): set<string> {
    set x | x in xs
  }

  /** The entries of `xs` in the order of their first occurrence, each once. */
  function Distinct(xs: seq<string>): seq<string>
    decreases |xs|
  {
    if xs == [] then []
    else
      var init, x := xs[..|xs| - 1], xs[|xs| - 1];
      if x in init then Distinct(init) else Distinct(init) + [x]
  }

  /** The entries of `xs` that are not in `ex`, in order. */
  function Without(xs: seq<string>, ex: set<string>): seq<string>
    decreases |xs|
  {
    if xs == [] then []
    else
      var init, x := xs[..|xs| - 1], xs[|xs| - 1];
      Without(init, ex) + (if x in ex then [] else [x])
  }

  /** Keeping first occurrences loses no entry and adds none. */
  lemma {:induction false} DistinctMem(xs: seq<string>, y: string)
    ensures y in Distinct(xs) <==> y in xs
    decreases |xs|
  {
    if xs != [] {
      var init, x := xs[..|xs| - 1], xs[|xs| - 1];
      assert xs == init + [x];
      DistinctMem(init, y);
    }
  }

  /** Each entry is kept once. */
  lemma {:induction false} DistinctNoDup(xs: seq<string>)
    ensures NoDup(Distinct(xs))
    decreases |xs|
  {
    if xs != [] {
      var init, x := xs[..|xs| - 1], xs[|xs| - 1];
      DistinctNoDup(init);
      DistinctMem(init, x);
    }
  }

  /** Dropping keeps exactly the entries outside the set. */
  lemma {:induction false} WithoutMem(xs: seq<string>, ex: set<string>, y: string)
    ensures y in Without(xs, ex) <==> y in xs && y !in ex
    decreases |xs|
  {
    if xs != [] {
      var init, x := xs[..|xs| - 1], xs[|xs| - 1];
      assert xs == init + [x];
      WithoutMem(init, ex, y);
    }
  }

  lemma DistinctSnoc(xs: seq<string>, x: string)
    ensures Distinct(xs + [x]) == if x in xs then Distinct(xs) else Distinct(xs) + [x]
  {
    assert (xs + [x])[..|xs + [x]| - 1] == xs;
  }

  lemma WithoutSnoc(xs: seq<string>, x: string, ex: set<string>)
    ensures Without(xs + [x], ex) == Without(xs, ex) + (if x in ex then [] else [x])
  {
    assert (xs + [x])[..|xs + [x]| - 1] == xs;
  }

  lemma {:induction false} WithoutConcat(a: seq<string>, b: seq<string>, ex: set<string>)
    ensures Without(a + b, ex) == Without(a, ex) + Without(b, ex)
    decreases |b|
  {
    if b == [] {
      assert a + b == a;
    } else {
      var init, x := b[..|b| - 1], b[|b| - 1];
      assert b == init + [x];
      assert a + b == (a + init) + [x];
      WithoutConcat(a, init, ex);
      WithoutSnoc(a + init, x, ex);
      WithoutSnoc(init, x, ex);
    }
  }

  lemma {:induction false} WithoutNoDup(xs: seq<string>, ex: set<string>)
    requires NoDup(xs)
    ensures NoDup(Without(xs, ex))
    decreases |xs|
  {
    if xs != [] {
      var init, x := xs[..|xs| - 1], xs[|xs| - 1];
      assert xs == init + [x];
      WithoutNoDup(init, ex);
      WithoutMem(init, ex, x);
    }
  }

  /** Dropping two sets one after the other drops their union. */
  lemma {:induction false} WithoutWithout(xs: seq<string>, a: set<string>, b: set<string>)
    ensures Without(Without(xs, a), b) == Without(xs, a + b)
    decreases |xs|
  {
    if xs != [] {
      var init, x := xs[..|xs| - 1], xs[|xs| - 1];
      assert xs == init + [x];
      WithoutWithout(init, a, b);
      WithoutSnoc(init, x, a);
      WithoutSnoc(init, x, a + b);
      if x in a {
        assert Without(xs, a) == Without(init, a);
      } else {
        assert Without(xs, a) == Without(init, a) + [x];
        WithoutSnoc(Without(init, a), x, b);
      }
    }
  }

  /**
   * The first occurrences of `a + b`: those of `a`, then those of `b` that
   * `a` does not hold.
   */
  lemma {:induction false} DistinctConcat(a: seq<string>, b: seq<string>)
    ensures Distinct(a + b) == Distinct(a) + Without(Distinct(b), Elems(a))
    decreases |b|
  {
    if b == [] {
      assert a + b == a;
    } else {
      var init, x := b[..|b| - 1], b[|b| - 1];
      assert b == init + [x];
      assert a + b == (a + init) + [x];
      DistinctConcat(a, init);
      DistinctSnoc(a + init, x);
      DistinctSnoc(init, x);
      WithoutSnoc(Distinct(init), x, Elems(a));
      DistinctConcatStep(a, init, x);
    }
  }

  lemma DistinctConcatStep(a: seq<string>, init: seq<string>, x: string)
    requires Distinct(a + init) == Distinct(a) + Without(Distinct(init), Elems(a))
    requires Distinct((a + init) + [x]) == if x in a + init then Distinct(a + init) else Distinct(a + init) + [x]
    requires Distinct(init + [x]) == if x in init then Distinct(init) else Distinct(init) + [x]
    requires Without(Distinct(init) + [x], Elems(a)) == Without(Distinct(init), Elems(a)) + (if x in Elems(a) then [] else [x])
    ensures Distinct((a + init) + [x]) == Distinct(a) + Without(Distinct(init + [x]), Elems(a))
  {
    if x in init {
      assert x in a + init;
    } else if x in a {
      assert x in a + init;
    } else {
      assert x !in a + init;
    }
  }

  /** The position of the first occurrence of `x`. */
  function FirstIndex(xs: seq<string>, x: string): (i: nat)
    requires x in xs
    ensures i < |xs| && xs[i] == x
    ensures forall j | 0 <= j < i :: xs[j] != x
  {
    if xs[0] == x then 0 else 1 + FirstIndex(xs[1..], x)
  }

  lemma FirstIndexPrefix(xs: seq<string>, x: string, y: string)
    requires x in xs
    ensures FirstIndex(xs + [y], x) == FirstIndex(xs, x)
  {
    var i := FirstIndex(xs, x);
    var zs := xs + [y];
    var k := FirstIndex(zs, x);
    assert zs[i] == x;
    assert k <= i;
    assert xs[k] == x;
  }

  /** The first occurrences keep the order in which the entries first appear. */
  lemma {:induction false} DistinctFirstOrder(xs: seq<string>)
    ensures forall i, j | 0 <= i < j < |Distinct(xs)| ::
      Distinct(xs)[i] in xs && Distinct(xs)[j] in xs
      && FirstIndex(xs, Distinct(xs)[i]) < FirstIndex(xs, Distinct(xs)[j])
    decreases |xs|
  {
    if xs != [] {
      var init, x := xs[..|xs| - 1], xs[|xs| - 1];
      assert xs == init + [x];
      DistinctFirstOrder(init);
      var d := Distinct(init);
      forall k | 0 <= k < |d|
        ensures d[k] in init && d[k] in xs && FirstIndex(xs, d[k]) == FirstIndex(init, d[k]) < |init|
      {
        DistinctMem(init, d[k]);
        FirstIndexPrefix(init, d[k], x);
      }
      if x !in init {
        assert FirstIndex(xs, x) == |init| by {
          assert xs[|init|] == x;
          assert forall j | 0 <= j < |init| :: xs[j] == init[j];
        }
      }
    }
  }
}
