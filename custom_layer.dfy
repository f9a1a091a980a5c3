/** The custom map layers' C-callable vtable (crates/mobile/src/layers/mod.rs):
    four entry points for one layer type plus a pointer to the boxed layer
    value, which `initialize` fills, `render` and `context_lost` use, and
    `deinitialize` consumes. The layer itself is seen only through the
    calls it receives, recorded in order. */
module CustomLayers {
  import opened Common

  /** How a call ends: it returns, or it panics with a message (a panic
      in an `extern "C"` function aborts, so nothing runs after it). */
  datatype Outcome<T> = Returned(value: T) | Panicked(message: string)

  /** The one layer type the table offers, `OutOfBoundsLayer`. */
  datatype LayerKind = OutOfBounds

  /** The render parameters, by the address they are passed at. */
  datatype Parameters = Parameters(address: nat)

  /** A call the layer value receives through the `CustomLayer` trait. */
  datatype LayerCall = Constructed | Rendered(parameters: Parameters) | LostContext | CleanedUp

  const CONSTRUCT_FAILED: string := "failed to construct type"
  const RENDER_FAILED: string := "failed to render a frame"
  const INVALID_LAYER: string := "picked an invalid layer"

  /** A boxed layer value: the calls it has received, and whether it is
      still owned by its box (`cleanup` consumes it). */
  class Layer {
    var calls: seq<LayerCall>
    var live: bool

    /** `T::new()`. */
    constructor ()
      ensures calls == [Constructed] && live
    {
      calls := [Constructed];
      live := true;
    }
  }

  /** Where a table is in its lifecycle. */
  datatype Lifecycle = Uninitialized | Initialized | Deinitialized

  /** `CustomLayerVTable`: each slot holds the entry point for one layer
      type (None for a null pointer, which Rust never stores but C++
      defaults to), and `boxedValue` is the pointer to the layer value. */
  class VTable {
    var initialize: Option<LayerKind>
    var render: Option<LayerKind>
    var contextLost: Option<LayerKind>
    var deinitialize: Option<LayerKind>
    var boxedValue: Layer?

    /** `custom::<T>()`: all four slots are T's, and there is no value yet. */
    constructor Custom(kind: LayerKind)
      ensures initialize == render == contextLost == deinitialize == Some(kind)
      ensures boxedValue == null && State() == Uninitialized
    {
      initialize, render, contextLost, deinitialize := Some(kind), Some(kind), Some(kind), Some(kind);
      boxedValue := null;
    }

    /** A copy of the table by value: the same slots and the same pointer,
        in a table of its own. */
    constructor Copy(source: VTable)
      ensures initialize == source.initialize && render == source.render
      ensures contextLost == source.contextLost && deinitialize == source.deinitialize
      ensures boxedValue == source.boxedValue
    {
      initialize, render, contextLost, deinitialize := source.initialize, source.render, source.contextLost, source.deinitialize;
      boxedValue := source.boxedValue;
    }

    /** No value yet, a live value, or a value that was cleaned up (the
        pointer is never reset, so it dangles). */
    function State(): (s: Lifecycle)
      reads this, boxedValue
      ensures s == Uninitialized <==> boxedValue == null
      ensures s == Initialized <==> boxedValue != null && boxedValue.live
    {
      if boxedValue == null then Uninitialized
      else if boxedValue.live then Initialized
      else Deinitialized
    }
  }

  /** `initialize::<T>`: constructs a new value and stores it, whatever the
      table held before (an earlier value is neither cleaned up nor
      touched); `constructs` says whether `T::new()` succeeds. */
  method Initialize(vtable: VTable, constructs: bool) returns (outcome: Outcome<()>)
    modifies vtable
    ensures outcome == if constructs then Returned(()) else Panicked(CONSTRUCT_FAILED)
    ensures vtable.initialize == old(vtable.initialize) && vtable.render == old(vtable.render)
    ensures vtable.contextLost == old(vtable.contextLost) && vtable.deinitialize == old(vtable.deinitialize)
    ensures !constructs ==> vtable.boxedValue == old(vtable.boxedValue)
    ensures constructs ==> fresh(vtable.boxedValue) && vtable.boxedValue.calls == [Constructed]
    ensures constructs ==> vtable.State() == Initialized
  {
    if !constructs {
      return Panicked(CONSTRUCT_FAILED);
    }
    var value := new Layer();
    vtable.boxedValue := value;
    outcome := Returned(());
  }

  /** `render::<T>`: hands the parameters, unchanged, to the stored value;
      `renders` says whether its render succeeds. */
  method Render(vtable: VTable, parameters: Parameters, renders: bool) returns (outcome: Outcome<()>)
    requires vtable.State() == Initialized
    modifies vtable.boxedValue
    ensures outcome == if renders then Returned(()) else Panicked(RENDER_FAILED)
    ensures vtable.boxedValue.calls == old(vtable.boxedValue.calls) + [Rendered(parameters)]
    ensures vtable.State() == Initialized
  {
    var value := vtable.boxedValue;
    value.calls := value.calls + [Rendered(parameters)];
    outcome := if renders then Returned(()) else Panicked(RENDER_FAILED);
  }

  /** `context_lost::<T>`: tells the stored value once. */
  method ContextLost(vtable: VTable)
    requires vtable.State() == Initialized
    modifies vtable.boxedValue
    ensures vtable.boxedValue.calls == old(vtable.boxedValue.calls) + [LostContext]
    ensures vtable.State() == Initialized
  {
    var value := vtable.boxedValue;
    value.calls := value.calls + [LostContext];
  }

  /** `deinitialize::<T>`: takes the value out of its box and cleans it up
      once; the table keeps the now dangling pointer. */
  method Deinitialize(vtable: VTable)
    requires vtable.State() == Initialized
    modifies vtable.boxedValue
    ensures vtable.boxedValue == old(vtable.boxedValue)
    ensures vtable.boxedValue.calls == old(vtable.boxedValue.calls) + [CleanedUp]
    ensures vtable.State() == Deinitialized
  {
    var value := vtable.boxedValue;
    value.calls := value.calls + [CleanedUp];
    value.live := false;
  }

  /** `fetch_custom_layer_vtable(kind)`: kind 0 is the out-of-bounds
      layer's table; every other kind panics. */
  function FetchCustomLayerVtable(kind: u32): (r: Outcome<LayerKind>)
    ensures r.Returned? <==> kind == 0
    ensures r.Returned? ==> r.value == OutOfBounds
    ensures r.Panicked? ==> r.message == INVALID_LAYER
  {
    match kind
    case 0 => Returned(OutOfBounds)
    case _ => Panicked(INVALID_LAYER)
  }
}
