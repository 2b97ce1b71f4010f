/** Items read one after the other from a byte string, all of them or none. */
module Collect {
  import opened Bytes

  /** Something read, and the position behind it. */
  datatype At<T> = At(item: T, next: nat)

  function Prepend<T>(x: T, r: Option<seq<T>>): Option<seq<T>> {
    if r.None? then None else Some([x] + r.value)
  }

  /** What is still to come, behind what has been collected. */
  function Collected<T>(done: seq<T>, rest: Option<seq<T>>): Option<seq<T>> {
    if rest.None? then None else Some(done + rest.value)
  }

  lemma {:induction false} CollectedGrows<T>(done: seq<T>, x: T, rest: Option<seq<T>>)
    ensures Collected(done, Prepend(x, rest)) == Collected(done + [x], rest)
    ensures Collected([], rest) == rest
    ensures Collected(done, None) == None && Collected(done, Some([])) == Some(done)
  {
    assert done + [] == done;
    if rest.Some? {
      assert done + ([x] + rest.value) == done + [x] + rest.value;
      assert [] + rest.value == rest.value;
    }
  }

  function PrependAt<T>(x: T, r: Option<At<seq<T>>>): Option<At<seq<T>>> {
    if r.None? then None else Some(At([x] + r.value.item, r.value.next))
  }

  function CollectedAt<T>(done: seq<T>, rest: Option<At<seq<T>>>): Option<At<seq<T>>> {
    if rest.None? then None else Some(At(done + rest.value.item, rest.value.next))
  }

  lemma {:induction false} CollectedAtGrows<T>(done: seq<T>, x: T, rest: Option<At<seq<T>>>)
    ensures CollectedAt(done, PrependAt(x, rest)) == CollectedAt(done + [x], rest)
  {
    if rest.Some? {
      assert done + ([x] + rest.value.item) == done + [x] + rest.value.item;
    }
  }

  lemma {:induction false} CollectedAtEnds<T>(done: seq<T>, p: nat, rest: Option<At<seq<T>>>)
    ensures CollectedAt([], rest) == rest
    ensures CollectedAt(done, None) == None && CollectedAt(done, Some(At([], p))) == Some(At(done, p))
  {
    assert done + [] == done;
    if rest.Some? {
      assert [] + rest.value.item == rest.value.item;
    }
  }

  /** The result of a call that can also end the thread that makes it. */
  datatype Outcome<T> = Done(value: T) | Rejected | Panicked

  function PrependDone<T>(x: T, r: Outcome<At<seq<T>>>): Outcome<At<seq<T>>> {
    if r.Done? then Done(At([x] + r.value.item, r.value.next)) else r
  }

  function CollectedDone<T>(done: seq<T>, rest: Outcome<At<seq<T>>>): Outcome<At<seq<T>>> {
    if rest.Done? then Done(At(done + rest.value.item, rest.value.next)) else rest
  }

  lemma {:induction false} CollectedDoneGrows<T>(done: seq<T>, x: T, rest: Outcome<At<seq<T>>>)
    ensures CollectedDone(done, PrependDone(x, rest)) == CollectedDone(done + [x], rest)
  {
    if rest.Done? {
      assert done + ([x] + rest.value.item) == done + [x] + rest.value.item;
    }
  }

  lemma {:induction false} CollectedDoneEnds<T>(done: seq<T>, p: nat, rest: Outcome<At<seq<T>>>)
    ensures CollectedDone([], rest) == rest
    ensures rest.Done? || CollectedDone(done, rest) == rest
    ensures CollectedDone(done, Done(At([], p))) == Done(At(done, p))
  {
    assert done + [] == done;
    if rest.Done? {
      assert [] + rest.value.item == rest.value.item;
    }
  }
}
