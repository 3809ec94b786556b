/** How far a history has been evicted, and what that says about each index. */
module Eviction {
  import opened Options

  datatype EvictionIndex = EvictionIndex(index: Option<nat>) {

    function MarkEvicted(newIndex: nat): EvictionIndex {
      EvictionIndex(Some(newIndex))
    }

    function NextIndex(): nat {
      if index.None? then 0 else index.value + 1
    }

    predicate IsEvicted(i: nat) {
      index.Some? && i <= index.value
    }
  }

  const NOTHING_EVICTED := EvictionIndex(None)
}
