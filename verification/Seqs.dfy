/** Order-preserving removal of duplicates, as `dict.fromkeys` or a `seen` set does it. */
module Seqs {

  ghost predicate Distinct<T>(xs: seq<T>) {
    forall i, j :: 0 <= i < j < |xs| ==> xs[i] != xs[j]
  }

  /** Keeps the first occurrence of each element, in the original order. */
  function Dedupe<T(==)>(xs: seq<T>): seq<T> {
    if xs == [] then []
    else
      var kept := Dedupe(xs[..|xs| - 1]);
      if xs[|xs| - 1] in kept then kept else kept + [xs[|xs| - 1]]
  }

  lemma {:induction false} DedupeSound<T>(xs: seq<T>)
    ensures Distinct(Dedupe(xs))
    ensures forall x :: x in Dedupe(xs) <==> x in xs
  {
    if xs != [] {
      var front, last := xs[..|xs| - 1], xs[|xs| - 1];
      DedupeSound(front);
      assert xs == front + [last];
    }
  }

  lemma DedupeSnoc<T>(xs: seq<T>, x: T)
    ensures Dedupe(xs + [x]) == if x in xs then Dedupe(xs) else Dedupe(xs) + [x]
  {
    assert (xs + [x])[..|xs|] == xs;
    DedupeSound(xs);
  }

  /** Removing duplicates early, before more elements arrive, changes nothing. */
  lemma {:induction false} DedupeEarly<T>(xs: seq<T>, ys: seq<T>)
    ensures Dedupe(Dedupe(xs) + ys) == Dedupe(xs + ys)
  {
    DedupeSound(xs);
    if ys == [] {
      assert Dedupe(xs) + ys == Dedupe(xs) && xs + ys == xs;
      DedupeDistinct(Dedupe(xs));
    } else {
      var front, last := ys[..|ys| - 1], ys[|ys| - 1];
      DedupeEarly(xs, front);
      assert Dedupe(xs) + ys == (Dedupe(xs) + front) + [last];
      assert xs + ys == (xs + front) + [last];
      DedupeSnoc(Dedupe(xs) + front, last);
      DedupeSnoc(xs + front, last);
    }
  }

  lemma {:induction false} DedupeDistinct<T>(xs: seq<T>)
    requires Distinct(xs)
    ensures Dedupe(xs) == xs
  {
    if xs != [] {
      var front, last := xs[..|xs| - 1], xs[|xs| - 1];
      DedupeDistinct(front);
      assert xs == front + [last];
    }
  }

  /** Nor does removing duplicates early from what comes later. */
  lemma {:induction false} DedupeLate<T>(xs: seq<T>, ys: seq<T>)
    ensures Dedupe(xs + Dedupe(ys)) == Dedupe(xs + ys)
  {
    if ys == [] {
      assert Dedupe(ys) == ys;
    } else {
      var front, last := ys[..|ys| - 1], ys[|ys| - 1];
      DedupeLate(xs, front);
      DedupeSound(front);
      assert xs + ys == (xs + front) + [last];
      DedupeSnoc(xs + front, last);
      if last in Dedupe(front) {
        assert Dedupe(ys) == Dedupe(front);
      } else {
        assert xs + Dedupe(ys) == (xs + Dedupe(front)) + [last];
        DedupeSnoc(xs + Dedupe(front), last);
      }
    }
  }

  /** What was there first stays in front. */
  lemma {:induction false} DedupeFront<T>(xs: seq<T>, ys: seq<T>)
    ensures Dedupe(xs) <= Dedupe(xs + ys)
  {
    if ys == [] {
      assert xs + ys == xs;
    } else {
      var front, last := ys[..|ys| - 1], ys[|ys| - 1];
      DedupeFront(xs, front);
      assert xs + ys == (xs + front) + [last];
      DedupeSnoc(xs + front, last);
    }
  }

  lemma {:induction false} DedupeKnown<T>(xs: seq<T>, ys: seq<T>)
    requires forall y :: y in ys ==> y in xs
    ensures Dedupe(xs + ys) == Dedupe(xs)
  {
    if ys == [] {
      assert xs + ys == xs;
    } else {
      var front, last := ys[..|ys| - 1], ys[|ys| - 1];
      assert last in ys;
      DedupeKnown(xs, front);
      assert xs + ys == (xs + front) + [last];
      DedupeSnoc(xs + front, last);
    }
  }

  lemma DedupeRepeat<T>(xs: seq<T>, rest: seq<T>)
    requires Distinct(xs + rest)
    ensures Dedupe(xs + (xs + rest)) == xs + rest
  {
    assert xs + (xs + rest) == (xs + xs) + rest;
    DedupeKnown(xs, xs);
    DedupeEarly(xs + xs, rest);
    DedupeEarly(xs, rest);
    DedupeDistinct(xs + rest);
  }

  /** Elements put in front leave no trace exactly when the rest begins with them anyway. */
  lemma DedupeAbsorbsIff<T>(xs: seq<T>, ys: seq<T>)
    ensures Dedupe(xs + ys) == Dedupe(ys) <==> Dedupe(xs) <= Dedupe(ys)
  {
    hide Dedupe, Distinct;
    DedupeFront(xs, ys);
    if Dedupe(xs) <= Dedupe(ys) {
      var front := Dedupe(xs);
      var rest := Dedupe(ys)[|front|..];
      assert front + rest == Dedupe(ys);
      DedupeSound(ys);
      DedupeRepeat(front, rest);
      DedupeEarly(xs, ys);
      DedupeLate(front, ys);
    }
  }
}
