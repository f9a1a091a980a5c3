/** The native side of a custom layer (android/app/src/cpp/customLayer.hpp):
    `CustomLayerHostImpl` keeps its own copy of a layer table and forwards
    each of the map's layer callbacks to the matching slot of that copy. */
module CustomLayerHosts {
  import opened Common
  import opened CustomLayers

  /** `CustomLayerHostImpl`. */
  class CustomLayerHostImpl {
    /** The table member, a copy owned by this host. */
    const vtable: VTable

    /** Every slot is set; calling through a null slot is undefined. */
    predicate Dispatchable()
      reads vtable
    {
      vtable.initialize.Some? && vtable.render.Some? && vtable.contextLost.Some? && vtable.deinitialize.Some?
    }

    /** The constructor copies the given table by value: the copy starts
        with the same slots and pointer but is a table of its own. */
    constructor (source: VTable)
      ensures fresh(vtable) && vtable != source
      ensures vtable.initialize == source.initialize && vtable.render == source.render
      ensures vtable.contextLost == source.contextLost && vtable.deinitialize == source.deinitialize
      ensures vtable.boxedValue == source.boxedValue
    {
      vtable := new VTable.Copy(source);
    }

    /** `initialize`: calls the initialize slot once, on this host's own
        table. */
    method Initialize(constructs: bool) returns (outcome: Outcome<()>)
      requires Dispatchable()
      modifies vtable
      ensures outcome == if constructs then Returned(()) else Panicked(CONSTRUCT_FAILED)
      ensures vtable.initialize == old(vtable.initialize) && vtable.render == old(vtable.render)
      ensures vtable.contextLost == old(vtable.contextLost) && vtable.deinitialize == old(vtable.deinitialize)
      ensures !constructs ==> vtable.boxedValue == old(vtable.boxedValue)
      ensures constructs ==> fresh(vtable.boxedValue) && vtable.boxedValue.calls == [Constructed]
      ensures constructs ==> vtable.State() == Initialized
    {
      match vtable.initialize {
        case Some(OutOfBounds) =>
          outcome := CustomLayers.Initialize(vtable, constructs);
      }
    }

    /** `render`: calls the render slot once, passing the caller's
        parameters through unchanged. */
    method Render(parameters: Parameters, renders: bool) returns (outcome: Outcome<()>)
      requires Dispatchable() && vtable.State() == Initialized
      modifies vtable.boxedValue
      ensures outcome == if renders then Returned(()) else Panicked(RENDER_FAILED)
      ensures vtable.boxedValue.calls == old(vtable.boxedValue.calls) + [Rendered(parameters)]
      ensures vtable.State() == Initialized
    {
      match vtable.render {
        case Some(OutOfBounds) =>
          outcome := CustomLayers.Render(vtable, parameters, renders);
      }
    }

    /** `contextLost`: calls the context-lost slot once. */
    method ContextLost()
      requires Dispatchable() && vtable.State() == Initialized
      modifies vtable.boxedValue
      ensures vtable.boxedValue.calls == old(vtable.boxedValue.calls) + [LostContext]
      ensures vtable.State() == Initialized
    {
      match vtable.contextLost {
        case Some(OutOfBounds) =>
          CustomLayers.ContextLost(vtable);
      }
    }

    /** `deinitialize`: calls the deinitialize slot once. */
    method Deinitialize()
      requires Dispatchable() && vtable.State() == Initialized
      modifies vtable.boxedValue
      ensures vtable.boxedValue.calls == old(vtable.boxedValue.calls) + [CleanedUp]
      ensures vtable.State() == Deinitialized
    {
      match vtable.deinitialize {
        case Some(OutOfBounds) =>
          CustomLayers.Deinitialize(vtable);
      }
    }
  }

  /** Two hosts built from one shared table hold independent copies:
      initializing one leaves the other host and the shared table as they
      were. */
  method HostsCopyTheTable(source: VTable, constructs: bool)
    returns (first: CustomLayerHostImpl, second: CustomLayerHostImpl)
    requires source.initialize.Some? && source.render.Some?
    requires source.contextLost.Some? && source.deinitialize.Some?
    ensures first.vtable != second.vtable
    ensures second.vtable.boxedValue == source.boxedValue == old(source.boxedValue)
    ensures constructs ==> first.vtable.State() == Initialized && first.vtable.boxedValue != source.boxedValue
  {
    first := new CustomLayerHostImpl(source);
    second := new CustomLayerHostImpl(source);
    var outcome := first.Initialize(constructs);
  }
}
