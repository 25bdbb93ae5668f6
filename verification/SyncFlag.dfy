/** When the node says that a sync has finished. */
module SyncFlag {
  import opened BlockTree

  /**
   What happens to the handler: a sync is asked for, or the network layer hands over a block, and a listener
   may throw when it hears of that.
   */
  datatype Step = SyncFrom(start: BlockId) | HandleBlock(block: Block, syncMode: bool, listenerThrows: bool)

  datatype Signal = BlockReceived(block: Block) | SyncFinished

  /** A block that the network layer does not count as part of a sync, and that no listener throws at. */
  predicate IsLive(step: Step) {
    step.HandleBlock? && !step.syncMode && !step.listenerThrows
  }

  /** The `syncing` flag after a run. */
  function Syncing(steps: seq<Step>): bool {
    if steps == [] then false
    else
      match steps[|steps| - 1]
      case SyncFrom(_) => true
      case HandleBlock(_, syncMode, throws) => (syncMode || throws) && Syncing(steps[..|steps| - 1])
  }

  /** Whether step `i` is answered with the finished signal. */
  predicate FinishesAt(steps: seq<Step>, i: nat)
    requires i < |steps|
  {
    IsLive(steps[i]) && Syncing(steps[..i])
  }

  /** The signals emitted during a run. */
  function Emitted(steps: seq<Step>): seq<Signal> {
    if steps == [] then []
    else
      var before := steps[..|steps| - 1];
      match steps[|steps| - 1]
      case SyncFrom(_) => Emitted(before)
      case HandleBlock(block, _, _) =>
        Emitted(before) + [BlockReceived(block)] + if FinishesAt(steps, |before|) then [SyncFinished] else []
  }

  /** The blocks announced by signals, in order. */
  function Announced(signals: seq<Signal>): seq<Block> {
    if signals == [] then []
    else
      var last := signals[|signals| - 1];
      Announced(signals[..|signals| - 1]) + if last.BlockReceived? then [last.block] else []
  }

  /** The blocks handed over, in order. */
  function HandedOver(steps: seq<Step>): seq<Block> {
    if steps == [] then []
    else
      var last := steps[|steps| - 1];
      HandedOver(steps[..|steps| - 1]) + if last.HandleBlock? then [last.block] else []
  }

  lemma AnnouncedOfMore(signals: seq<Signal>, signal: Signal)
    ensures Announced(signals + [signal]) == Announced(signals) + if signal.BlockReceived? then [signal.block] else []
  {
    assert (signals + [signal])[..|signals|] == signals;
  }

  /** Every block handed over is announced, once and in order, and nothing else is. */
  lemma {:induction false} AnnouncedAsHandedOver(steps: seq<Step>)
    ensures Announced(Emitted(steps)) == HandedOver(steps)
  {
    if steps != [] {
      var before, last := steps[..|steps| - 1], steps[|steps| - 1];
      AnnouncedAsHandedOver(before);
      if last.HandleBlock? {
        var heard := Emitted(before) + [BlockReceived(last.block)];
        AnnouncedOfMore(Emitted(before), BlockReceived(last.block));
        AnnouncedOfMore(heard, SyncFinished);
        assert heard + [] == heard;
      }
    }
  }

  /** A request at `j` is still open: no live block has come since. */
  ghost predicate OpenRequest(steps: seq<Step>, j: nat) {
    j < |steps| && steps[j].SyncFrom? && forall m :: j < m < |steps| ==> !IsLive(steps[m])
  }

  lemma OpenRequestSplits(steps: seq<Step>, j: nat)
    requires steps != []
    ensures var last := |steps| - 1;
      OpenRequest(steps, j) <==>
        if j == last then steps[last].SyncFrom? else OpenRequest(steps[..last], j) && !IsLive(steps[last])
  {
    var before, last := steps[..|steps| - 1], |steps| - 1;
    assert forall m :: 0 <= m < last ==> steps[m] == before[m];
  }

  /** The flag is set exactly while some request is open. */
  lemma {:induction false} SyncingExactly(steps: seq<Step>)
    ensures Syncing(steps) <==> exists j: nat :: OpenRequest(steps, j)
  {
    if steps != [] {
      var before, last := steps[..|steps| - 1], |steps| - 1;
      SyncingExactly(before);
      forall j: nat
        ensures OpenRequest(steps, j) <==>
          if j == last then steps[last].SyncFrom? else OpenRequest(before, j) && !IsLive(steps[last])
      {
        OpenRequestSplits(steps, j);
      }
      assert Syncing(steps) ==> steps[last].SyncFrom? || (Syncing(before) && !IsLive(steps[last]));
      assert steps[last].SyncFrom? ==> OpenRequest(steps, last);
    }
  }

  /** One completion per sync: between two finished signals there is a request. */
  lemma OneCompletionPerSync(steps: seq<Step>, i: nat, k: nat)
    requires i < k < |steps| && FinishesAt(steps, i) && FinishesAt(steps, k)
    ensures exists j :: i < j < k && steps[j].SyncFrom?
  {
    SyncingExactly(steps[..k]);
    var j: nat :| OpenRequest(steps[..k], j);
    assert !IsLive(steps[j]) && steps[..k][i] == steps[i];
  }

  /** Every request is answered by the first live block after it. */
  lemma FirstLiveBlockFinishes(steps: seq<Step>, j: nat, k: nat)
    requires j < k < |steps| && steps[j].SyncFrom? && IsLive(steps[k])
    requires forall m :: j < m < k ==> !IsLive(steps[m])
    ensures FinishesAt(steps, k)
  {
    SyncingExactly(steps[..k]);
    assert OpenRequest(steps[..k], j);
  }

  function Requests(steps: seq<Step>): nat {
    if steps == [] then 0
    else Requests(steps[..|steps| - 1]) + if steps[|steps| - 1].SyncFrom? then 1 else 0
  }

  function Completions(signals: seq<Signal>): nat {
    if signals == [] then 0
    else Completions(signals[..|signals| - 1]) + if signals[|signals| - 1] == SyncFinished then 1 else 0
  }

  lemma CompletionsOfMore(signals: seq<Signal>, signal: Signal)
    ensures Completions(signals + [signal]) == Completions(signals) + if signal == SyncFinished then 1 else 0
  {
    assert (signals + [signal])[..|signals|] == signals;
  }

  /** What a step adds to the completions heard of. */
  lemma CompletionsSplit(steps: seq<Step>)
    requires steps != []
    ensures var before, last := steps[..|steps| - 1], steps[|steps| - 1];
      Completions(Emitted(steps)) ==
        Completions(Emitted(before)) + if IsLive(last) && Syncing(before) then 1 else 0
  {
    hide Completions, Syncing;
    var before := steps[..|steps| - 1];
    match steps[|steps| - 1]
    case SyncFrom(_) =>
    case HandleBlock(block, _, _) =>
      var heard := Emitted(before) + [BlockReceived(block)];
      CompletionsOfMore(Emitted(before), BlockReceived(block));
      CompletionsOfMore(heard, SyncFinished);
      assert heard + [] == heard;
  }

  /** A listener hears of no more completions than there were requests; an open request is one not heard of. */
  lemma {:induction false} CompletionsBounded(steps: seq<Step>)
    ensures Completions(Emitted(steps)) + (if Syncing(steps) then 1 else 0) <= Requests(steps)
  {
    if steps != [] {
      CompletionsSplit(steps);
      hide Completions, Emitted;
      CompletionsBounded(steps[..|steps| - 1]);
    } else {
      assert Emitted(steps) == [];
    }
  }
}
