/** Folds over sequences shared by the other modules: the shape of a loop that
    appends what each element yields. */
module Seqs {
  /** Dropping the last element of a + b drops it from b. */
  lemma InitOfAppend<T>(a: seq<T>, b: seq<T>)
    requires b != []
    ensures (a + b)[..|a + b| - 1] == a + b[..|b| - 1]
  {
  }

  /** g applied to each element of xs in turn, the results concatenated. */
  function Collect<T, U>(xs: seq<T>, g: T -> seq<U>): seq<U> {
    if xs == [] then [] else Collect(xs[..|xs| - 1], g) + g(xs[|xs| - 1])
  }

  lemma CollectStep<T, U>(xs: seq<T>, i: nat, g: T -> seq<U>)
    requires i < |xs|
    ensures Collect(xs[..i + 1], g) == Collect(xs[..i], g) + g(xs[i])
  {
    assert xs[..i + 1][..i] == xs[..i];
  }

  lemma {:induction false} CollectAppend<T, U>(a: seq<T>, b: seq<T>, g: T -> seq<U>)
    ensures Collect(a + b, g) == Collect(a, g) + Collect(b, g)
    decreases |b|
  {
    if b == [] {
      assert a + b == a;
    } else {
      InitOfAppend(a, b);
      CollectAppend(a, b[..|b| - 1], g);
    }
  }

  /** The fold is empty exactly when every element yields nothing. */
  lemma {:induction false} CollectEmptyIff<T, U>(xs: seq<T>, g: T -> seq<U>)
    ensures Collect(xs, g) == [] <==> forall k :: 0 <= k < |xs| ==> g(xs[k]) == []
  {
    if xs != [] {
      var init := xs[..|xs| - 1];
      CollectEmptyIff(init, g);
      assert forall k :: 0 <= k < |init| ==> init[k] == xs[k];
    }
  }

  /** When each element yields at most one value, a value is in the fold
      exactly when some element yields it. */
  lemma {:induction false} CollectMembers<T, U>(xs: seq<T>, g: T -> seq<U>)
    requires forall x :: |g(x)| <= 1
    ensures forall u :: u in Collect(xs, g) <==> exists i :: 0 <= i < |xs| && g(xs[i]) == [u]
  {
    if xs != [] {
      var init, last := xs[..|xs| - 1], |xs| - 1;
      CollectMembers(init, g);
      forall u
        ensures u in Collect(xs, g) <==> exists i :: 0 <= i < |xs| && g(xs[i]) == [u]
      {
        if u in Collect(init, g) {
          var i :| 0 <= i < |init| && g(init[i]) == [u];
          assert xs[i] == init[i];
        } else if u in g(xs[last]) {
          assert g(xs[last]) == [u];
        } else {
          forall i | 0 <= i < |xs| ensures g(xs[i]) != [u] {
            if i < last {
              assert xs[i] == init[i];
            }
          }
        }
      }
    }
  }

  /** When each element yields at most one value, the fold is no longer
      than xs. */
  lemma {:induction false} CollectLength<T, U>(xs: seq<T>, g: T -> seq<U>)
    requires forall x :: |g(x)| <= 1
    ensures |Collect(xs, g)| <= |xs|
  {
    if xs != [] {
      CollectLength(xs[..|xs| - 1], g);
    }
  }

  /** When every element yields only values with property P, so does the fold. */
  lemma {:induction false} CollectAll<T, U>(xs: seq<T>, g: T -> seq<U>, P: U -> bool)
    requires forall i :: 0 <= i < |xs| ==> forall u :: u in g(xs[i]) ==> P(u)
    ensures forall u :: u in Collect(xs, g) ==> P(u)
  {
    if xs != [] {
      var init := xs[..|xs| - 1];
      assert forall i :: 0 <= i < |init| ==> init[i] == xs[i];
      CollectAll(init, g, P);
    }
  }
}
