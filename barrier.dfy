/**
 * The completion barrier `_doHandleDownloadChunkDone`: every chunk end adds
 * one to a counter, and only the end that brings the counter to the chunk
 * count does anything else: it purges the temporary file when a cancel has
 * been requested, and otherwise renames it into place and reports success.
 */
module Barrier {

  datatype Action = Wait | Purge | Publish

  /** The action of the chunk end that has brought the counter to `completed`. */
  function Completion(completed: nat, chunkCount: nat, cancelled: bool): Action {
    if completed != chunkCount then Wait
    else if cancelled then Purge
    else Publish
  }

  /**
   * The actions of successive chunk ends, starting from the counter value
   * `counter`; `cancels[k]` is whether a cancel was requested by the k-th end.
   */
  function Run(counter: nat, chunkCount: nat, cancels: seq<bool>): (actions: seq<Action>)
    ensures |actions| == |cancels|
    decreases |cancels|
  {
    if cancels == [] then []
    else [Completion(counter + 1, chunkCount, cancels[0])] + Run(counter + 1, chunkCount, cancels[1..])
  }

  /** The k-th end acts exactly when it brings the counter to the chunk count. */
  lemma {:induction false} RunAt(counter: nat, chunkCount: nat, cancels: seq<bool>, k: nat)
    requires k < |cancels|
    ensures Run(counter, chunkCount, cancels)[k] != Wait <==> counter + k + 1 == chunkCount
    ensures Run(counter, chunkCount, cancels)[k] == Purge <==> counter + k + 1 == chunkCount && cancels[k]
    ensures Run(counter, chunkCount, cancels)[k] == Publish <==> counter + k + 1 == chunkCount && !cancels[k]
    decreases k
  {
    if k > 0 {
      RunAt(counter + 1, chunkCount, cancels[1..], k - 1);
    }
  }

  function Fired(actions: seq<Action>): nat {
    if actions == [] then 0 else (if actions[0] != Wait then 1 else 0) + Fired(actions[1..])
  }

  /**
   * The terminal action happens once, when the counter starts below the chunk
   * count and enough chunks end to reach it, and never otherwise: a counter
   * left at or above the chunk count by an earlier download never fires.
   */
  lemma {:induction false} FiresOnce(counter: nat, chunkCount: nat, cancels: seq<bool>)
    ensures Fired(Run(counter, chunkCount, cancels)) ==
      if counter < chunkCount <= counter + |cancels| then 1 else 0
    decreases |cancels|
  {
    if cancels != [] {
      FiresOnce(counter + 1, chunkCount, cancels[1..]);
    }
  }

  /**
   * With a fresh counter the chunk count ends are needed before anything
   * happens, and the last of them publishes or purges according to the cancel
   * flag it observes.
   */
  lemma FreshCounter(chunkCount: nat, cancels: seq<bool>)
    requires |cancels| == chunkCount > 0
    ensures forall k :: 0 <= k < chunkCount - 1 ==> Run(0, chunkCount, cancels)[k] == Wait
    ensures Run(0, chunkCount, cancels)[chunkCount - 1] == if cancels[chunkCount - 1] then Purge else Publish
  {
    forall k | 0 <= k < chunkCount
      ensures Run(0, chunkCount, cancels)[k] == if k < chunkCount - 1 then Wait else if cancels[k] then Purge else Publish
    {
      RunAt(0, chunkCount, cancels, k);
    }
  }

  /**
   * A counter left at `counter > 0` by an earlier download makes the barrier
   * fire after only `chunkCount - counter` of this download's chunks have ended.
   */
  lemma StaleCounter(counter: nat, chunkCount: nat, cancels: seq<bool>)
    requires 0 < counter < chunkCount <= counter + |cancels|
    ensures Run(counter, chunkCount, cancels)[chunkCount - counter - 1] != Wait
    ensures forall k :: 0 <= k < |cancels| && k != chunkCount - counter - 1 ==> Run(counter, chunkCount, cancels)[k] == Wait
  {
    forall k | 0 <= k < |cancels|
      ensures Run(counter, chunkCount, cancels)[k] != Wait <==> k == chunkCount - counter - 1
    {
      RunAt(counter, chunkCount, cancels, k);
    }
  }

  /**
   * A counter left at or above the chunk count, as every finished earlier
   * download with at least as many chunks leaves it, is never reset and so
   * never equals the chunk count again: no end of this download purges or
   * publishes.
   */
  lemma SpentCounter(counter: nat, chunkCount: nat, cancels: seq<bool>)
    requires counter >= chunkCount
    ensures forall k :: 0 <= k < |cancels| ==> Run(counter, chunkCount, cancels)[k] == Wait
  {
    forall k | 0 <= k < |cancels|
      ensures Run(counter, chunkCount, cancels)[k] == Wait
    {
      RunAt(counter, chunkCount, cancels, k);
    }
  }
}
