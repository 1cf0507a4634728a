/** The queue between the world thread and the bridge worker: bounded, first in first out, deaf once stopped. */
module BoundedQueueClass {
  import opened Wrappers

  class BoundedQueue<T> {
    const capacity: nat
    var items: seq<T>
    var stopped: bool
    ghost var pushed: seq<T>
    ghost var popped: seq<T>

    /** Nothing is lost, duplicated, or reordered: what went in is what came out followed by what is waiting. */
    ghost predicate Valid()
      reads this
    {
      pushed == popped + items && |items| <= capacity
    }

    constructor (capacity: nat)
      ensures Valid() && this.capacity == capacity && items == [] && !stopped && pushed == []
    {
      this.capacity := capacity;
      items, pushed, popped := [], [], [];
      stopped := false;
    }

    /** Full or stopped refuses at once and changes nothing. */
    method TryPush(value: T) returns (taken: bool)
      requires Valid()
      modifies this
      ensures Valid() && stopped == old(stopped) && popped == old(popped)
      ensures taken == (!old(stopped) && |old(items)| < capacity)
      ensures pushed == if taken then old(pushed) + [value] else old(pushed)
    {
      if stopped || |items| >= capacity { return false; }
      items := items + [value];
      pushed := pushed + [value];
      return true;
    }

    method TryPop() returns (value: Option<T>)
      requires Valid()
      modifies this
      ensures Valid() && stopped == old(stopped) && pushed == old(pushed)
      ensures value.Some? == (!old(stopped) && old(items) != [])
      ensures popped == if value.Some? then old(popped) + [value.value] else old(popped)
    {
      if stopped || items == [] { return None; }
      value := Some(items[0]);
      popped := popped + [items[0]];
      items := items[1..];
    }

    /** Stopping keeps the waiting items but hands out no more of them. */
    method Stop()
      requires Valid()
      modifies this
      ensures Valid() && stopped && items == old(items) && pushed == old(pushed) && popped == old(popped)
    {
      stopped := true;
    }
  }
}
