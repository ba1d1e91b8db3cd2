/** Lists made by leaving out what is not wanted, told by where each element stood. */
module Selections {

  /** at lists, in order, exactly the places of xs that hold what is wanted. */
  predicate Chosen<T>(xs: seq<T>, want: T -> bool, at: seq<nat>) {
    && (forall k, l :: 0 <= k < l < |at| ==> at[k] < at[l])
    && (forall k :: 0 <= k < |at| ==> at[k] < |xs| && want(xs[at[k]]))
    && (forall i :: 0 <= i < |xs| && want(xs[i]) ==> i in at)
  }

  lemma ChosenSnoc<T>(xs: seq<T>, x: T, want: T -> bool, at: seq<nat>)
    requires Chosen(xs, want, at)
    ensures Chosen(xs + [x], want, if want(x) then at + [|xs|] else at)
  {
    if want(x) {
      ChosenTakes(xs, x, want, at);
    } else {
      ChosenSkips(xs, x, want, at);
    }
  }

  lemma ChosenTakes<T>(xs: seq<T>, x: T, want: T -> bool, at: seq<nat>)
    requires Chosen(xs, want, at) && want(x)
    ensures Chosen(xs + [x], want, at + [|xs|])
  {
    var ys, more := xs + [x], at + [|xs|];
    assert more[|at|] == |xs|;
    forall k | 0 <= k < |more| ensures more[k] < |ys| && want(ys[more[k]]) {
      assert k < |at| ==> more[k] == at[k] && ys[at[k]] == xs[at[k]];
    }
    forall i | 0 <= i < |ys| && want(ys[i]) ensures i in more {
      assert i < |xs| ==> ys[i] == xs[i] && i in at;
    }
  }

  lemma ChosenSkips<T>(xs: seq<T>, x: T, want: T -> bool, at: seq<nat>)
    requires Chosen(xs, want, at) && !want(x)
    ensures Chosen(xs + [x], want, at)
  {
    var ys := xs + [x];
    assert forall k :: 0 <= k < |at| ==> ys[at[k]] == xs[at[k]];
    forall i | 0 <= i < |ys| && want(ys[i]) ensures i in at {
      assert i < |xs| && ys[i] == xs[i];
    }
  }

  /** ys are the elements at the places at, which are the wanted ones. */
  predicate Picked<T(==)>(xs: seq<T>, want: T -> bool, ys: seq<T>, at: seq<nat>) {
    Chosen(xs, want, at) && |ys| == |at| && forall k :: 0 <= k < |at| ==> ys[k] == xs[at[k]]
  }

  lemma PickedSnoc<T>(xs: seq<T>, want: T -> bool, ys: seq<T>, at: seq<nat>, x: T)
    requires Picked(xs, want, ys, at)
    ensures if want(x) then Picked(xs + [x], want, ys + [x], at + [|xs|]) else Picked(xs + [x], want, ys, at)
  {
    if want(x) {
      PickedTakes(xs, want, ys, at, x);
    } else {
      PickedSkips(xs, want, ys, at, x);
    }
  }

  lemma PickedTakes<T>(xs: seq<T>, want: T -> bool, ys: seq<T>, at: seq<nat>, x: T)
    requires Picked(xs, want, ys, at) && want(x)
    ensures Picked(xs + [x], want, ys + [x], at + [|xs|])
  {
    ChosenTakes(xs, x, want, at);
    var more := at + [|xs|];
    forall k | 0 <= k < |more| ensures (ys + [x])[k] == (xs + [x])[more[k]] {
      assert k < |at| ==> more[k] == at[k];
    }
  }

  lemma PickedSkips<T>(xs: seq<T>, want: T -> bool, ys: seq<T>, at: seq<nat>, x: T)
    requires Picked(xs, want, ys, at) && !want(x)
    ensures Picked(xs + [x], want, ys, at)
  {
    ChosenSkips(xs, x, want, at);
    assert forall k :: 0 <= k < |at| ==> (xs + [x])[at[k]] == xs[at[k]];
  }
}
