/** The transit layer's entry points (crates/mobile/src/layers/transit/android.rs):
    one global slot that holds at most one `TransitLayer`, filled by
    `initialize`, used by `render` and `context_lost`, and emptied by
    `deinitialize`. Every misuse panics, so the calls that run to the end
    are exactly the sequences (initialize (render | context_lost)*
    deinitialize)*, possibly cut short. */
module TransitLayers {
  import opened Common
  import opened CustomLayers

  /** A `TransitLayer`, by whether it holds its shader program and its
      graphics (the GL objects themselves are left out). */
  datatype TransitLayer = TransitLayer(program: bool, graphics: bool)

  /** `TransitLayer::new()`: both set up. */
  const NEW_LAYER: TransitLayer := TransitLayer(true, true)

  const PREVIOUS_LAYER: string := "failed to cleanup previous layer!"
  const NO_LAYER: string := "attempted to render when no layer was available"
  const NO_GRAPHICS: string := "graphics was removed prematurely"

  /** `TransitLayer::context_lost`: drops the program and keeps the
      graphics. */
  function LoseContext(layer: TransitLayer): (r: TransitLayer)
    ensures !r.program && r.graphics == layer.graphics
  {
    layer.(program := false)
  }

  /** `TransitLayer::render`: proceeds exactly when the graphics are there. */
  function RenderLayer(layer: TransitLayer): (r: Outcome<()>)
    ensures r.Returned? <==> layer.graphics
    ensures r.Panicked? ==> r.message == NO_GRAPHICS
  {
    if layer.graphics then Returned(()) else Panicked(NO_GRAPHICS)
  }

  /** A call into the transit layer's C entry points. */
  datatype SlotCall = Initialize | Render(parameters: Parameters) | ContextLost | Deinitialize

  /** What the slot holds after a call that returns, or the panic. */
  function Step(slot: Option<TransitLayer>, call: SlotCall): Outcome<Option<TransitLayer>>
  {
    match call
    case Initialize =>
      if slot.Some? then Panicked(PREVIOUS_LAYER) else Returned(Some(NEW_LAYER))
    case Render(_) =>
      (match slot
       case None => Panicked(NO_LAYER)
       case Some(layer) =>
         match RenderLayer(layer)
         case Returned(_) => Returned(slot)
         case Panicked(message) => Panicked(message))
    case ContextLost =>
      (match slot
       case None => Panicked(NO_LAYER)
       case Some(layer) => Returned(Some(LoseContext(layer))))
    case Deinitialize =>
      if slot.None? then Panicked(NO_LAYER) else Returned(None)
  }

  /** A run of calls from the empty slot; the first panic ends it. */
  function Run(calls: seq<SlotCall>): Outcome<Option<TransitLayer>>
  {
    if calls == [] then Returned(None)
    else
      match Run(calls[..|calls| - 1])
      case Returned(slot) => Step(slot, calls[|calls| - 1])
      case Panicked(message) => Panicked(message)
  }

  /** Whether the last initialize or deinitialize in `calls` is an
      initialize. */
  function Installed(calls: seq<SlotCall>): bool
  {
    if calls == [] then false
    else
      match calls[|calls| - 1]
      case Initialize => true
      case Deinitialize => false
      case _ => Installed(calls[..|calls| - 1])
  }

  /** The sequences (initialize (render | context_lost)* deinitialize)*
      and their prefixes: each call is an initialize exactly when no layer
      is installed before it. */
  predicate Accepted(calls: seq<SlotCall>)
  {
    forall k | 0 <= k < |calls| :: calls[k].Initialize? <==> !Installed(calls[..k])
  }

  lemma AcceptedSnoc(calls: seq<SlotCall>, call: SlotCall)
    ensures Accepted(calls + [call]) <==> Accepted(calls) && (call.Initialize? <==> !Installed(calls))
  {
    var all := calls + [call];
    assert all[..|calls|] == calls;
    forall k | 0 <= k < |calls|
      ensures all[k] == calls[k] && all[..k] == calls[..k]
    {
    }
  }

  /** A run from the empty slot returns exactly on the accepted
      sequences; it then holds a layer exactly when one is installed, and
      that layer always has its graphics, so no render ever panics for
      want of them, not even after a lost context. */
  lemma {:induction false} RunAccepted(calls: seq<SlotCall>)
    ensures Run(calls).Returned? <==> Accepted(calls)
    ensures Run(calls).Returned? ==>
      && (Run(calls).value.Some? <==> Installed(calls))
      && (Run(calls).value.Some? ==> Run(calls).value.value.graphics)
  {
    if calls != [] {
      var init, last := calls[..|calls| - 1], calls[|calls| - 1];
      RunAccepted(init);
      AcceptedSnoc(init, last);
      assert init + [last] == calls;
    }
  }

  /** The slot that holds the transit layer, and the calls the layers in
      it have received, in order. */
  class LayerSlot {
    var layer: Option<TransitLayer>
    var forwarded: seq<LayerCall>

    /** `LAYER` starts empty. */
    constructor ()
      ensures layer == None && forwarded == []
    {
      layer := None;
      forwarded := [];
    }

    /** `initialize`: always builds a new layer and puts it in the slot;
        if one was already there it is dropped without cleanup and the
        call panics. */
    method Initialize() returns (outcome: Outcome<()>)
      modifies this
      ensures layer == Some(NEW_LAYER) && forwarded == old(forwarded) + [Constructed]
      ensures outcome == if old(layer).Some? then Panicked(PREVIOUS_LAYER) else Returned(())
      ensures outcome.Returned? <==> Step(old(layer), SlotCall.Initialize).Returned?
      ensures outcome.Returned? ==> Step(old(layer), SlotCall.Initialize) == Returned(layer)
    {
      var previous := layer;
      layer := Some(NEW_LAYER);
      forwarded := forwarded + [Constructed];
      if previous.Some? {
        return Panicked(PREVIOUS_LAYER);
      }
      outcome := Returned(());
    }

    /** `render`: hands the parameters to the layer in the slot. */
    method Render(parameters: Parameters) returns (outcome: Outcome<()>)
      modifies this
      ensures layer == old(layer)
      ensures forwarded == old(forwarded) + if old(layer).Some? then [Rendered(parameters)] else []
      ensures outcome.Returned? <==> Step(old(layer), SlotCall.Render(parameters)).Returned?
      ensures outcome.Panicked? ==> outcome.message == Step(old(layer), SlotCall.Render(parameters)).message
      ensures outcome.Returned? ==> Step(old(layer), SlotCall.Render(parameters)) == Returned(layer)
    {
      match layer {
        case None =>
          outcome := Panicked(NO_LAYER);
        case Some(current) =>
          forwarded := forwarded + [Rendered(parameters)];
          outcome := RenderLayer(current);
      }
    }

    /** `context_lost`: tells the layer in the slot, which drops its
        program. */
    method ContextLost() returns (outcome: Outcome<()>)
      modifies this
      ensures forwarded == old(forwarded) + if old(layer).Some? then [LostContext] else []
      ensures old(layer).None? ==> layer == None && outcome == Panicked(NO_LAYER)
      ensures old(layer).Some? ==> layer == Some(LoseContext(old(layer).value)) && outcome == Returned(())
      ensures outcome.Returned? <==> Step(old(layer), SlotCall.ContextLost).Returned?
      ensures outcome.Returned? ==> Step(old(layer), SlotCall.ContextLost) == Returned(layer)
    {
      match layer {
        case None =>
          outcome := Panicked(NO_LAYER);
        case Some(current) =>
          layer := Some(LoseContext(current));
          forwarded := forwarded + [LostContext];
          outcome := Returned(());
      }
    }

    /** `deinitialize`: takes the layer out of the slot and cleans it up
        once. */
    method Deinitialize() returns (outcome: Outcome<()>)
      modifies this
      ensures layer == None
      ensures forwarded == old(forwarded) + if old(layer).Some? then [CleanedUp] else []
      ensures outcome == if old(layer).Some? then Returned(()) else Panicked(NO_LAYER)
      ensures outcome.Returned? <==> Step(old(layer), SlotCall.Deinitialize).Returned?
      ensures outcome.Returned? ==> Step(old(layer), SlotCall.Deinitialize) == Returned(layer)
    {
      match layer {
        case None =>
          outcome := Panicked(NO_LAYER);
        case Some(_) =>
          layer := None;
          forwarded := forwarded + [CleanedUp];
          outcome := Returned(());
      }
    }
  }
}
