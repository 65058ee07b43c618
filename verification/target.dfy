/** A `Target`: either an item or a signal, never both, never changed. */
module Targets {
  import opened Wrappers
  import opened Items
  import opened Signals

  datatype Target = ItemTarget(item: Item) | SignalTarget(signal: Signal)

  /** The `Item` property: set by `Target(item)`, null for `Target(signal)`. */
  function ItemOf(t: Target): (r: Option<Item>)
    ensures r.Some? <==> t.ItemTarget?
    ensures t.ItemTarget? ==> r == Some(t.item)
  {
    if t.ItemTarget? then Some(t.item) else None
  }

  /** The `Signal` property: set by `Target(signal)`, null for `Target(item)`. */
  function SignalOf(t: Target): (r: Option<Signal>)
    ensures r.Some? <==> t.SignalTarget?
    ensures t.SignalTarget? ==> r == Some(t.signal)
  {
    if t.SignalTarget? then Some(t.signal) else None
  }

  /** Exactly one of the two properties is set, whichever constructor was used. */
  lemma ExactlyOneSet(t: Target)
    ensures ItemOf(t).Some? != SignalOf(t).Some?
  {
  }
}
