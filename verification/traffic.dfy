/**
 * The staging area of pending per-family prop updates shared by the style producer and the
 * tree patcher. Later writes for a family overwrite earlier ones; a drain returns the whole
 * batch and leaves the area empty. The lock around it is not modelled (one caller at a time).
 */
module Traffic {
  import opened Js
  import opened Styles

  class TrafficController {
    /** Family -> latest raw props staged for it. */
    var updates: map<Family, Dynamic>

    constructor()
      ensures updates == map[]
    {
      updates := map[];
    }

    /** Merges a batch into the pending one; per family, the batch's value wins. */
    method SetUpdates(batch: map<Family, Dynamic>)
      modifies this
      ensures updates == old(updates) + batch
      ensures updates.Keys == old(updates).Keys + batch.Keys
      ensures forall f :: f in batch ==> updates[f] == batch[f]
      ensures forall f :: f in old(updates) && f !in batch ==> updates[f] == old(updates)[f]
    {
      updates := updates + batch;
    }

    /** Returns the pending batch and clears it. */
    method GetUpdates() returns (drained: map<Family, Dynamic>)
      modifies this
      ensures drained == old(updates) && updates == map[]
    {
      drained := updates;
      updates := map[];
    }

    /** Purges any pending update for a family that is being unlinked. */
    method RemoveShadowNode(family: Family)
      modifies this
      ensures family !in updates
      ensures updates == old(updates) - {family}
    {
      updates := updates - {family};
    }
  }

  /**
   * Two writes to the same family before a drain leave only the later one, and the drain
   * hands that one to the patcher.
   */
  method CoalescingKeepsLastWrite(controller: TrafficController, f: Family, first: Dynamic, second: Dynamic)
    returns (drained: map<Family, Dynamic>)
    modifies controller
    ensures drained == old(controller.updates)[f := second]
    ensures controller.updates == map[]
  {
    controller.SetUpdates(map[f := first]);
    controller.SetUpdates(map[f := second]);
    assert controller.updates == old(controller.updates)[f := second];
    drained := controller.GetUpdates();
  }
}
