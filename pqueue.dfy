/** The priority queue the solvers collect finished routes in: `dequeue`
    removes an entry of least priority value. */
module PriorityQueues {
  datatype Entry<T> = Entry(value: T, priority: int)

  /** Entry `k` has the least priority value of all. */
  predicate Lowest<T>(entries: seq<Entry<T>>, k: int)
  {
    0 <= k < |entries| && forall j :: 0 <= j < |entries| ==> entries[k].priority <= entries[j].priority
  }

  /** The index of the first entry of least priority value. */
  method LowestIndex<T>(entries: seq<Entry<T>>) returns (best: nat)
    requires entries != []
    ensures Lowest(entries, best)
    ensures forall j :: 0 <= j < best ==> entries[j].priority > entries[best].priority
  {
    best := 0;
    for i := 1 to |entries|
      invariant best < i
      invariant forall j :: 0 <= j < i ==> entries[best].priority <= entries[j].priority
      invariant forall j :: 0 <= j < best ==> entries[j].priority > entries[best].priority
    {
      if entries[i].priority < entries[best].priority {
        best := i;
      }
    }
  }

  /** A `PriorityQueue`: entries in arrival order. Which of several entries
      with the same least priority `dequeue` returns is not specified; this
      model returns the earliest. */
  class MinQueue<T> {
    var entries: seq<Entry<T>>

    constructor ()
      ensures entries == []
    {
      entries := [];
    }

    method Enqueue(value: T, priority: int)
      modifies this
      ensures entries == old(entries) + [Entry(value, priority)]
    {
      entries := entries + [Entry(value, priority)];
    }

    /** Removes and returns an entry of least priority value; `k` is where
        it was. */
    method Dequeue() returns (value: T, ghost k: nat)
      requires entries != []
      modifies this
      ensures Lowest(old(entries), k) && value == old(entries)[k].value
      ensures entries == old(entries)[..k] + old(entries)[k + 1..]
    {
      var best := LowestIndex(entries);
      k := best;
      value := entries[best].value;
      entries := entries[..best] + entries[best + 1..];
    }
  }
}
