/** The search frontier: the part of `pheap::PairingHeap` that the solver uses, kept
    abstract as a bag of (item, priority) entries. Which of several entries of least
    priority `delete_min` hands out is the library's business, so the model promises
    only that it is one of them. */
module Heap {

  import opened Wrappers

  class PairingHeap<T> {
    /** The entries currently held, in no particular order. */
    var entries: seq<(T, nat)>

    constructor ()
      ensures entries == []
    {
      entries := [];
    }

    /** `is_empty`: no entry is held. */
    predicate IsEmpty(): (empty: bool)
      reads this
      ensures empty <==> |entries| == 0
    {
      entries == []
    }

    method Insert(item: T, priority: nat)
      modifies this
      ensures entries == old(entries) + [(item, priority)]
    {
      entries := entries + [(item, priority)];
    }

    /** Removes and returns an entry of least priority, or None when there is none. */
    method DeleteMin() returns (top: Option<(T, nat)>)
      modifies this
      ensures top.None? <==> old(entries) == []
      ensures top.Some? ==> top.value in old(entries)
      ensures top.Some? ==> forall e :: e in old(entries) ==> top.value.1 <= e.1
      ensures top.Some? ==> multiset(old(entries)) == multiset(entries) + multiset{top.value}
      ensures top.None? ==> entries == old(entries)
    {
      if entries == [] {
        return None;
      }
      var k, i := 0, 1;
      while i < |entries|
        invariant k < i <= |entries|
        invariant forall p :: 0 <= p < i ==> entries[k].1 <= entries[p].1
      {
        if entries[i].1 < entries[k].1 {
          k := i;
        }
        i := i + 1;
      }
      top := Some(entries[k]);
      assert entries == entries[..k] + [entries[k]] + entries[k + 1..];
      entries := entries[..k] + entries[k + 1..];
    }
  }
}
