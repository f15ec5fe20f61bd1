/** Lists of ids. `Array.from(new Set(xs))`: a JavaScript `Set` keeps the first
    occurrence of each value, in insertion order. */
module Lists {

  predicate Distinct(xs: seq<int>) {
    forall i, j :: 0 <= i < j < |xs| ==> xs[i] != xs[j]
  }

  /** Position of the first occurrence of `x`. */
  function FirstIndex(xs: seq<int>, x: int): (i: nat)
    requires x in xs
    ensures i < |xs| && xs[i] == x && x !in xs[..i]
  {
    if xs[0] == x then 0
    else
      var i := 1 + FirstIndex(xs[1..], x);
      assert xs[..i] == [xs[0]] + xs[1..][..i - 1];
      i
  }

  /** Extending a sequence does not move first occurrences already in it. */
  lemma FirstIndexPrefix(xs: seq<int>, y: int, x: int)
    requires x in xs
    ensures x in xs + [y] && FirstIndex(xs + [y], x) == FirstIndex(xs, x)
  {
    var i := FirstIndex(xs, x);
    var j := FirstIndex(xs + [y], x);
    assert (xs + [y])[..i] == xs[..i];
    assert (xs + [y])[i] == x;
  }

  /** The distinct values of `xs`, each at its first occurrence. */
  function Dedup(xs: seq<int>): (r: seq<int>)
    ensures Distinct(r)
    ensures forall x :: x in r <==> x in xs
    ensures forall i, j :: 0 <= i < j < |r| ==> FirstIndex(xs, r[i]) < FirstIndex(xs, r[j])
    ensures |r| <= |xs|
  {
    if xs == [] then []
    else
      var init := xs[..|xs| - 1];
      var last := xs[|xs| - 1];
      assert xs == init + [last];
      var r := Dedup(init);
      forall x | x in init ensures FirstIndex(xs, x) == FirstIndex(init, x) {
        FirstIndexPrefix(init, last, x);
      }
      if last in r then r
      else
        assert FirstIndex(xs, last) == |xs| - 1 by {
          assert xs[..|xs| - 1] == init;
        }
        r + [last]
  }

  /** Deduplicating a sequence without repeats gives it back. */
  lemma {:induction false} DedupDistinct(xs: seq<int>)
    requires Distinct(xs)
    ensures Dedup(xs) == xs
  {
    if xs != [] {
      var init := xs[..|xs| - 1];
      DistinctInit(xs);
      DedupDistinct(init);
      InitLast(xs);
      DedupAppend(init, xs[|xs| - 1]);
    }
  }

  lemma InitLast(xs: seq<int>)
    requires xs != []
    ensures xs == xs[..|xs| - 1] + [xs[|xs| - 1]]
  {
  }

  /** Appending a new value to a list `Dedup` leaves alone gives another. */
  lemma DedupAppend(init: seq<int>, last: int)
    requires Dedup(init) == init && last !in init
    ensures Dedup(init + [last]) == init + [last]
  {
    var xs := init + [last];
    assert xs[..|xs| - 1] == init;
  }

  lemma DistinctInit(xs: seq<int>)
    requires xs != [] && Distinct(xs)
    ensures Distinct(xs[..|xs| - 1]) && xs[|xs| - 1] !in xs[..|xs| - 1]
  {
  }

  lemma DedupIdempotent(xs: seq<int>)
    ensures Dedup(Dedup(xs)) == Dedup(xs)
  {
    DedupDistinct(Dedup(xs));
  }

  /** `xs.filter((x) => x !== drop)`. */
  function FilterOut(xs: seq<int>, drop: int): (r: seq<int>)
    ensures forall x :: x in r <==> x in xs && x != drop
    ensures |r| <= |xs|
    ensures Distinct(xs) ==> Distinct(r)
  {
    if xs == [] then []
    else if xs[0] == drop then FilterOut(xs[1..], drop)
    else
      assert Distinct(xs) ==> Distinct(xs[1..]) && xs[0] !in xs[1..];
      [xs[0]] + FilterOut(xs[1..], drop)
  }

  /** Two lists without repeats and without a common value concatenate to a
      list without repeats. */
  lemma DistinctConcat(a: seq<int>, b: seq<int>)
    requires Distinct(a) && Distinct(b)
    requires forall x :: x in a ==> x !in b
    ensures Distinct(a + b)
  {
    forall i, j | 0 <= i < j < |a + b| ensures (a + b)[i] != (a + b)[j] {
      if i < |a| && j >= |a| {
        assert (a + b)[i] in a && (a + b)[j] in b;
      }
    }
  }

  /** The head of a list without repeats is not in its tail. */
  lemma HeadNotInTail(xs: seq<int>)
    requires xs != []
    ensures Distinct(xs) ==> xs[0] !in xs[1..] && Distinct(xs[1..])
  {
    if Distinct(xs) {
      assert forall i :: 0 < i < |xs| ==> xs[0] != xs[i];
    }
  }

  /** A non-empty list has a member. */
  lemma HasMember(xs: seq<int>)
    ensures xs != [] ==> exists h :: h in xs
  {
    if xs != [] {
      var h := xs[0];
      assert h in xs;
    }
  }
}
