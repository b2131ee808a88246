/** A list picked out of another one: which places it comes from. */
module Positions {

  ghost predicate Increasing(at: seq<nat>) {
    forall j, k :: 0 <= j < k < |at| ==> at[j] < at[k]
  }

  ghost predicate PicksAt<T(!new)>(l: seq<T>, p: T -> bool, at: seq<nat>, q: nat) {
    q < |l| ==> (q in at <==> p(l[q]))
  }

  /** `kept` is what stands at the places `at` of `l`, in order; and these are exactly the places where `p` holds. */
  ghost predicate Picks<T(!new)>(l: seq<T>, p: T -> bool, kept: seq<T>, at: seq<nat>) {
    && |at| == |kept| && Increasing(at)
    && (forall k :: 0 <= k < |at| ==> at[k] < |l| && kept[k] == l[at[k]])
    && (forall q: nat :: PicksAt(l, p, at, q))
  }

  lemma PicksNothing<T(!new)>(p: T -> bool)
    ensures Picks([], p, [], [])
  {
  }

  lemma PicksOneMore<T(!new)>(l: seq<T>, p: T -> bool, kept: seq<T>, at: seq<nat>, x: T)
    requires Picks(l, p, kept, at)
    ensures Picks(l + [x], p, if p(x) then kept + [x] else kept, if p(x) then at + [|l|] else at)
  {
    var at2 := if p(x) then at + [|l|] else at;
    forall q: nat ensures PicksAt(l + [x], p, at2, q) {
      assert PicksAt(l, p, at, q);
      if |l| in at { assert false; }
    }
  }
}
