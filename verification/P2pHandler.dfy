/**
 The delegate through which the network layer asks a node about its chain: the synopsis a node sends to
 summarise a chain, and the reply it gives to another node's synopsis.
 */
module P2pHandler {
  import opened Wrappers
  import opened Uint32
  import opened BlockTree
  import opened HalvingLoop
  import opened Graphene
  import opened SyncFlag

  datatype SyncError = UnknownFork | BlockOlderThanUndoHistory | PeerOnUnreachableFork | NoSuchBlock

  // ----- the synopsis

  function Reversed(s: seq<BlockId>): (r: seq<BlockId>)
    ensures |r| == |s|
    ensures forall i :: 0 <= i < |s| ==> r[i] == s[|s| - 1 - i]
  {
    if s == [] then [] else Reversed(s[1..]) + [s[0]]
  }

  function Min(a: nat, b: nat): nat {
    if a < b then a else b
  }

  /**
   The path a synopsis summarises: the one that ends at the reference block, or the main chain.  A view
   that is valid has no fork history of fewer than two ids, and no ancestor beyond the head.
   */
  function Summarised(v: View, reference: BlockId): Result<seq<BlockId>, SyncError> {
    if reference == ZERO_ID then
      Success(v.chain)
    else if v.OnChain(reference) then
      Success(v.chain[..reference.num])
    else if reference !in v.forks || |v.forks[reference]| < 2 then
      Failure(UnknownFork)
    else
      var fork := v.forks[reference];
      var ancestor := fork[|fork| - 1];
      if ancestor.num < v.lastNonUndoable then
        Failure(BlockOlderThanUndoHistory)
      else
        Success(v.chain[..Min(ancestor.num, |v.chain|)] + Reversed(fork[..|fork| - 1]))
  }

  /** The lowest number reported for a path: the last block that cannot be undone, within the path. */
  function LowestNum(v: View, path: seq<BlockId>): (low: nat)
    ensures low >= 1
    ensures path != [] ==> low <= |path|
    ensures low <= v.lastNonUndoable || low == 1
    ensures path != [] ==> v.lastNonUndoable <= low || low == |path|
  {
    if Min(v.lastNonUndoable, |path|) == 0 then 1 else Min(v.lastNonUndoable, |path|)
  }

  /** The ids a path has at the numbers of the halving loop. */
  function Sampled(path: seq<BlockId>, low: nat, n: nat): (ids: seq<BlockId>)
    requires 1 <= low <= |path|
    ensures |ids| == |Numbers(low, |path|, n)|
  {
    var nums := Numbers(low, |path|, n);
    seq(|nums|, k requires 0 <= k < |nums| =>
      NumbersAt(low, |path|, n, k);
      path[nums[k] - 1])
  }

  /** Whether `ids` are the blocks of a path at the given numbers. */
  ghost predicate PickedAt(path: seq<BlockId>, nums: seq<int>, ids: seq<BlockId>) {
    && |ids| == |nums|
    && forall j :: 0 <= j < |nums| ==> 1 <= nums[j] <= |path| && ids[j] == path[nums[j] - 1]
  }

  lemma PickedNone(path: seq<BlockId>, nums: seq<int>)
    ensures PickedAt(path, nums[..0], [])
  {
  }

  lemma PickedGrows(path: seq<BlockId>, nums: seq<int>, ids: seq<BlockId>)
    requires |ids| < |nums| && PickedAt(path, nums[..|ids|], ids)
    requires 1 <= nums[|ids|] <= |path|
    ensures PickedAt(path, nums[..|ids| + 1], ids + [path[nums[|ids|] - 1]])
  {
    var more, most := ids + [path[nums[|ids|] - 1]], nums[..|ids| + 1];
    forall j | 0 <= j < |most|
      ensures 1 <= most[j] <= |path| && more[j] == path[most[j] - 1]
    {
      assert j < |ids| ==> most[j] == nums[..|ids|][j];
    }
  }

  /** The ids picked are the only ones that sit on the path at the loop's numbers. */
  lemma SampledAt(path: seq<BlockId>, low: nat, n: nat, ids: seq<BlockId>)
    requires 1 <= low <= |path|
    requires PickedAt(path, Numbers(low, |path|, n), ids)
    ensures ids == Sampled(path, low, n)
  {
  }

  function Synopsis(v: View, reference: BlockId, n: nat): Result<seq<BlockId>, SyncError> {
    match Summarised(v, reference)
    case Failure(e) => Failure(e)
    case Success(path) => if path == [] then Success([]) else Success(Sampled(path, LowestNum(v, path), n))
  }

  /** The synopsis loop comes to an end. */
  predicate SynopsisLoopEnds(v: View, reference: BlockId, n: nat) {
    match Summarised(v, reference)
    case Failure(_) => true
    case Success(path) => path == [] || Ends(LowestNum(v, path), |path|, n)
  }

  /** The synopsis loop asks for block number zero, which there is not. */
  predicate SynopsisAsksForZero(v: View, reference: BlockId, n: nat) {
    match Summarised(v, reference)
    case Failure(_) => false
    case Success(path) => path != [] && ComesToZero(LowestNum(v, path), |path|, n)
  }

  /** A fork, turned round and put on top of the main chain's part below it, is one linked path. */
  lemma SplicedIsLinked(tree: BlockTree, v: View, fork: seq<BlockId>)
    requires ValidView(tree, v) && IsForkHistory(tree, v, fork)
    ensures var ancestor := fork[|fork| - 1]; var branch := Reversed(fork[..|fork| - 1]);
      && ancestor.num <= |v.chain|
      && Linked(tree, v.chain[..ancestor.num] + branch)
      && Tip(v.chain[..ancestor.num] + branch) == fork[0]
      && fork[0].num == ancestor.num + |branch|
  {
    AllLinkedNumbers(tree, v.chain);
    var ancestor := fork[|fork| - 1];
    var trunk := v.chain[..ancestor.num];
    var branch := Reversed(fork[..|fork| - 1]);
    forall i | 0 <= i < |branch|
      ensures branch[i] in tree && tree[branch[i]] == Before(Tip(trunk), branch, i)
    {
      assert branch[i] == fork[|branch| - 1 - i];
    }
    BranchIsLinked(tree, trunk, branch);
    AllLinkedNumbers(tree, trunk + branch);
    assert Tip(trunk + branch) == fork[0];
  }

  /**
   A reference that is neither zero nor a block of the main chain is refused if it has no fork history, or
   if its fork leaves the main chain below the last block that cannot be undone; nothing else is refused.
   */
  lemma SummarisedFailsExactly(tree: BlockTree, v: View, reference: BlockId)
    requires ValidView(tree, v)
    ensures var r := Summarised(v, reference);
      var main := reference == ZERO_ID || (1 <= reference.num <= |v.chain| && v.chain[reference.num - 1] == reference);
      && (r == Failure(UnknownFork) <==> !main && reference !in v.forks)
      && (r == Failure(BlockOlderThanUndoHistory) <==>
            && !main && reference in v.forks
            && v.forks[reference][|v.forks[reference]| - 1].num < v.lastNonUndoable)
      && (r.Failure? ==> r == Failure(UnknownFork) || r == Failure(BlockOlderThanUndoHistory))
  {
    if reference in v.forks {
      assert IsForkHistory(tree, v, v.forks[reference]);
    }
    hide Linked, WellFormed;
  }

  /** The summarised path is the one linked path from the first block to the reference block. */
  lemma SummarisedIsThePath(tree: BlockTree, v: View, reference: BlockId)
    requires ValidView(tree, v)
    ensures var r := Summarised(v, reference);
      r.Success? ==> Linked(tree, r.value) && Tip(r.value) == if reference == ZERO_ID then v.HeadId() else reference
  {
    AllLinkedNumbers(tree, v.chain);
    if reference != ZERO_ID && !v.OnChain(reference) && reference in v.forks {
      SplicedIsLinked(tree, v, v.forks[reference]);
    }
  }

  // ----- the reply

  /** The blocks a responder offers, and how many more of its chain follow them. */
  datatype Reply = Reply(ids: seq<BlockId>, remaining: uint32)

  /** Whether a responder recognises a synopsis entry as part of its own chain. */
  predicate Usable(v: View, id: BlockId) {
    id == ZERO_ID || (id in v.known && v.OnChain(id))
  }

  /** Beside zero, the usable ids are the chain's blocks. */
  lemma UsableMeans(tree: BlockTree, v: View, id: BlockId)
    requires ValidView(tree, v)
    ensures Usable(v, id) <==> id == ZERO_ID || (1 <= id.num <= |v.chain| && v.chain[id.num - 1] == id)
  {
  }

  /** The latest usable entry of a synopsis. */
  function LastUsable(v: View, synopsis: seq<BlockId>): (found: Option<BlockId>)
    ensures found.Some? ==> found.value in synopsis && Usable(v, found.value)
  {
    if synopsis == [] then
      None
    else if Usable(v, synopsis[|synopsis| - 1]) then
      Some(synopsis[|synopsis| - 1])
    else
      LastUsable(v, synopsis[..|synopsis| - 1])
  }

  /** The first block number of a reply that resumes at `last`. */
  function StartNum(last: BlockId): nat {
    if last.num == 0 then 1 else last.num
  }

  /** The first `count` blocks of a chain from number `start` on, going on with block 1 after its head. */
  function Onwards(chain: seq<BlockId>, start: nat, count: nat): seq<BlockId>
    requires 1 <= start <= |chain| && count <= 2 * |chain| - start + 1
  {
    var available := |chain| - start + 1;
    if count <= available then
      chain[start - 1..start - 1 + count]
    else
      chain[start - 1..] + chain[..count - available]
  }

  /** Where the block counter stands after `count` ids, on a chain whose head is block `head`. */
  predicate CounterAt(head: nat, start: nat, count: nat, num: uint32) {
    if start + count <= head then
      num == start + count || (num == 0 && count == 0 && start == 1)
    else if start + count == head + 1 then
      if head < MODULUS - 1 then num == head + 1 else num <= 1
    else
      head == MODULUS - 1 && num == start + count - head
  }

  lemma CounterStarts(chain: seq<BlockId>, start: nat, first: uint32)
    requires 1 <= start <= |chain| < MODULUS && start == if first == 0 then 1 else first
    ensures CounterAt(|chain|, start, 0, first) && Onwards(chain, start, 0) == []
  {
  }

  lemma CounterMoves(head: nat, start: nat, count: nat, num: uint32)
    requires 1 <= start <= head < MODULUS && CounterAt(head, start, count, num)
    requires num <= head && count < MODULUS - 1
    ensures CounterAt(head, start, if num == 0 then count else count + 1, Add(num, 1))
    ensures num == 0 ==> Add(num, 1) == 1
    ensures num > 0 ==> num == if start + count <= head then start + count else start + count - head
    ensures count < 2 * head - start + 1
  {
  }

  /** How many ids a reply has. */
  function Count(head: nat, start: nat, limit: uint32): (count: nat)
    requires 1 <= start <= head < MODULUS
    ensures count <= 2 * head - start + 1
  {
    if limit <= head - start + 1 || head == MODULUS - 1 then limit else head - start + 1
  }

  lemma CounterStops(head: nat, start: nat, count: nat, num: uint32, limit: uint32)
    requires 1 <= start <= head < MODULUS && CounterAt(head, start, count, num)
    requires count <= limit && (num > head || count == limit)
    ensures count == Count(head, start, limit)
  {
  }

  lemma SliceGrows(chain: seq<BlockId>, from: nat, to: nat)
    requires from <= to < |chain|
    ensures chain[from..to + 1] == chain[from..to] + [chain[to]]
  {
  }

  lemma OnwardsGrows(chain: seq<BlockId>, start: nat, count: nat)
    requires 1 <= start <= |chain| && count < 2 * |chain| - start + 1
    ensures var i := if start - 1 + count < |chain| then start - 1 + count else start - 1 + count - |chain|;
      Onwards(chain, start, count + 1) == Onwards(chain, start, count) + [chain[i]]
  {
    var available := |chain| - start + 1;
    if count < available {
      SliceGrows(chain, start - 1, start - 1 + count);
    } else if count == available {
      SliceGrows(chain, 0, 0);
      assert chain[start - 1..start - 1 + count] == chain[start - 1..];
    } else {
      SliceGrows(chain, 0, count - available);
    }
  }

  /**
   The reply that resumes at number `start`.  Its last case is an overflow: on a chain of 2^32 - 1
   blocks the block counter wraps to zero and the reply goes on from block 1 again.
   */
  function ReplyFrom(chain: seq<BlockId>, start: nat, limit: uint32): Reply
    requires 1 <= start <= |chain| < MODULUS
  {
    var available := |chain| - start + 1;
    var ids := Onwards(chain, start, Count(|chain|, start, limit));
    if limit == 0 then Reply(ids, 0)
    else if limit <= available then Reply(ids, available - limit)
    else if |chain| < MODULUS - 1 then Reply(ids, 0)
    else Reply(ids, |chain| - (limit - available))
  }

  /** A reply with any ids at all ends `remaining` blocks below the head. */
  lemma ReplyEnds(tree: BlockTree, chain: seq<BlockId>, start: nat, limit: uint32)
    requires WellFormed(tree) && Linked(tree, chain) && 1 <= start <= |chain| < MODULUS
    ensures var reply := ReplyFrom(chain, start, limit);
      && reply.ids == Onwards(chain, start, Count(|chain|, start, limit))
      && if limit == 0 then reply == Reply([], 0)
      else |reply.ids| > 0 && reply.ids[|reply.ids| - 1].num == |chain| - reply.remaining
  {
    AllLinkedNumbers(tree, chain);
  }

  function ReplyTo(v: View, synopsis: seq<BlockId>, limit: uint32): Result<Reply, SyncError>
    requires |v.chain| < MODULUS
  {
    if v.chain == [] then
      Success(Reply([], 0))
    else if synopsis == [] then
      Success(ReplyFrom(v.chain, 1, limit))
    else
      match LastUsable(v, synopsis)
      case None => Failure(PeerOnUnreachableFork)
      case Some(last) => Success(ReplyFrom(v.chain, StartNum(last), limit))
  }

  lemma NothingToReply(v: View, synopsis: seq<BlockId>, limit: uint32)
    requires v.chain == []
    ensures ReplyTo(v, synopsis, limit) == Success(Reply([], 0))
  {
  }

  /** A peer without blocks is sent the first ones. */
  lemma ReplyFromFirst(v: View, synopsis: seq<BlockId>, limit: uint32)
    requires v.chain != [] && |v.chain| < MODULUS && (synopsis == [] || synopsis == [ZERO_ID])
    ensures ReplyTo(v, synopsis, limit) == Success(ReplyFrom(v.chain, 1, limit))
  {
    hide ReplyFrom;
  }

  lemma ReplyFromLast(v: View, synopsis: seq<BlockId>, limit: uint32)
    requires v.chain != [] && |v.chain| < MODULUS && synopsis != []
    ensures match LastUsable(v, synopsis)
      case None => ReplyTo(v, synopsis, limit) == Failure(PeerOnUnreachableFork)
      case Some(last) =>
        last.num <= |v.chain| && ReplyTo(v, synopsis, limit) == Success(ReplyFrom(v.chain, StartNum(last), limit))
  {
    hide ReplyFrom, LastUsable;
  }

  lemma ReplyCounts(chain: seq<BlockId>, start: nat, limit: uint32)
    requires 1 <= start <= |chain| < MODULUS
    ensures ReplyFrom(chain, start, limit).remaining <= |chain|
    ensures limit == 0 ==> ReplyFrom(chain, start, limit).remaining == 0
  {
    hide Onwards, Count;
  }

  /** The ids collected and what the last of them leaves make the reply. */
  lemma ReplyIs(tree: BlockTree, chain: seq<BlockId>, start: nat, limit: uint32, ids: seq<BlockId>)
    requires WellFormed(tree) && Linked(tree, chain) && 1 <= start <= |chain| < MODULUS
    requires ids == Onwards(chain, start, Count(|chain|, start, limit))
    ensures ReplyFrom(chain, start, limit) ==
      Reply(ids, if ids != [] && ids[|ids| - 1].num < |chain| then |chain| - ids[|ids| - 1].num else 0)
  {
    ReplyEnds(tree, chain, start, limit);
    ReplyCounts(chain, start, limit);
    hide *;
  }

  // ----- the delegate

  /** The variables of the synopsis function when its loop begins. */
  datatype LoopEntry = LoopEntry(low: uint32, high: uint32, nonForkHigh: uint32, forkHistory: seq<BlockId>)

  /** The ids the loop may pick: from the main chain up to `nonForkHigh`, from the fork above. */
  function PathOf(v: View, entry: LoopEntry): seq<BlockId>
    requires entry.nonForkHigh <= |v.chain|
  {
    v.chain[..entry.nonForkHigh] + entry.forkHistory
  }

  /** The loop starts at a positive number and ends inside the ids it may pick. */
  predicate WellPlaced(v: View, entry: LoopEntry) {
    && entry.nonForkHigh <= |v.chain|
    && 1 <= entry.low <= entry.high == |PathOf(v, entry)|
  }

  /** Where a pass of the loop takes the id of block `num` from. */
  function Pick(v: View, entry: LoopEntry, num: uint32): (id: BlockId)
    requires WellPlaced(v, entry) && 1 <= num <= entry.high
    ensures id == PathOf(v, entry)[num - 1]
  {
    if num <= entry.nonForkHigh then
      v.BlockIdForNum(num).value
    else
      entry.forkHistory[num - entry.nonForkHigh - 1]
  }

  /** The loop is about to walk `path`. */
  predicate EntersWith(v: View, entry: LoopEntry, path: seq<BlockId>) {
    WellPlaced(v, entry) && PathOf(v, entry) == path && entry.low == LowestNum(v, path)
  }

  class P2pHandler {
    const db: ChainDatabase
    var syncing: bool
    /** Every signal emitted so far. */
    var emitted: seq<Signal>
    /** Everything that happened to the handler. */
    ghost var history: seq<Step>

    constructor (db: ChainDatabase)
      ensures this.db == db && FlagsAgree() && history == []
      ensures !syncing && emitted == []
    {
      this.db := db;
      syncing, emitted, history := false, [], [];
    }

    /** The flag and the signals are those of the history. */
    ghost predicate FlagsAgree()
      reads this
    {
      syncing == Syncing(history) && emitted == Emitted(history)
    }

    /** What the fork case takes from the history of the fork: the last two are positions on its path. */
    method ReadFork(reference: BlockId) returns (high: uint32, nonForkHigh: uint32, forkHistory: seq<BlockId>)
      requires db.Valid() && reference in db.view.forks
      ensures var fork := db.view.forks[reference];
        && |fork| >= 2
        && nonForkHigh == fork[|fork| - 1].num <= |db.view.chain|
        && forkHistory == Reversed(fork[..|fork| - 1]) != []
        && high == nonForkHigh + |forkHistory|
    {
      forkHistory := db.view.forks[reference];
      SplicedIsLinked(db.tree, db.view, forkHistory);
      assert |forkHistory| >= 2 && forkHistory[0] == reference;
      var lastNonForkBlock := forkHistory[|forkHistory| - 1];
      forkHistory := Reversed(forkHistory[..|forkHistory| - 1]);
      nonForkHigh := if lastNonForkBlock == ZERO_ID then 0 else lastNonForkBlock.num;
      high := Add(nonForkHigh, |forkHistory|);
      assert high == forkHistory[|forkHistory| - 1].num;
    }

    /** The cases in front of the loop: no reference, one on the main chain, too old a fork, a usable fork. */
    method EnterLoop(reference: BlockId) returns (r: Result<LoopEntry, SyncError>)
      requires db.Valid()
      requires reference == ZERO_ID ==> db.view.chain != []
      ensures match Summarised(db.view, reference)
        case Failure(e) => r == Failure(e)
        case Success(path) => r.Success? && EntersWith(db.view, r.value, path)
      ensures r.Success? ==> var low := r.value.low;
        && (low <= db.view.lastNonUndoable || low == 1)
        && (db.view.lastNonUndoable <= low || low == r.value.high)
    {
      hide LinkedFrom, WellFormed, IsForkHistory, Reversed;
      var highBlockNum: uint32;
      var nonForkHighBlockNum: uint32;
      var lowBlockNum: uint32 := db.view.lastNonUndoable;
      var forkHistory: seq<BlockId> := [];

      if reference != ZERO_ID {
        if db.view.OnChain(reference) {
          assert reference.num > 0;
          highBlockNum := reference.num;
          nonForkHighBlockNum := highBlockNum;
          if reference.num < lowBlockNum {
            lowBlockNum := reference.num;
          }
        } else {
          if reference !in db.view.forks {
            return Failure(UnknownFork);
          }
          highBlockNum, nonForkHighBlockNum, forkHistory := ReadFork(reference);
          if nonForkHighBlockNum < lowBlockNum {
            return Failure(BlockOlderThanUndoHistory);
          }
        }
      } else {
        highBlockNum := db.view.HeadNum();
        nonForkHighBlockNum := highBlockNum;
      }

      if lowBlockNum == 0 {
        lowBlockNum := 1;
      }
      return Success(LoopEntry(lowBlockNum, highBlockNum, nonForkHighBlockNum, forkHistory));
    }

    /** The loop of the synopsis. */
    method Halve(entry: LoopEntry, n: uint32) returns (r: Result<seq<BlockId>, SyncError>)
      requires WellPlaced(db.view, entry)
      requires Ends(entry.low, entry.high, n) || ComesToZero(entry.low, entry.high, n)
      ensures r == if Ends(entry.low, entry.high, n) then Success(Sampled(PathOf(db.view, entry), entry.low, n))
                   else Failure(NoSuchBlock)
    {
      hide Ends, ComesToZero, Numbers, Advance, PathOf, Pick, PickedAt, Sampled;
      ghost var path := PathOf(db.view, entry);
      ghost var nums := Numbers(entry.low, entry.high, n);
      var trueHighBlockNum := Add(entry.high, n);
      var lowBlockNum: uint32 := entry.low;
      var synopsis: seq<BlockId> := [];
      NumbersEnds(entry.low, entry.high, n);
      PickedNone(path, nums);
      while true
        invariant lowBlockNum <= entry.high
        invariant if lowBlockNum == 0 then !Ends(entry.low, entry.high, n)
                  else |synopsis| < |nums| && lowBlockNum == nums[|synopsis|]
        invariant |synopsis| <= |nums| && PickedAt(path, nums[..|synopsis|], synopsis)
        decreases if lowBlockNum == 0 then 0 else 1 + entry.high - lowBlockNum
      {
        if lowBlockNum <= entry.nonForkHigh && db.view.BlockIdForNum(lowBlockNum).None? {
          return Failure(NoSuchBlock);
        }
        HalvingPass(entry.low, entry.high, n, |synopsis|);
        PickedGrows(path, nums, synopsis);
        synopsis := synopsis + [Pick(db.view, entry, lowBlockNum)];
        lowBlockNum := Advance(lowBlockNum, trueHighBlockNum);
        if lowBlockNum > entry.high {
          break;
        }
      }
      assert nums[..|synopsis|] == nums;
      SampledAt(path, entry.low, n, synopsis);
      return Success(synopsis);
    }

    method GetBlockchainSynopsis(reference: BlockId, n: uint32) returns (r: Result<seq<BlockId>, SyncError>)
      requires db.Valid()
      requires SynopsisLoopEnds(db.view, reference, n) || SynopsisAsksForZero(db.view, reference, n)
      ensures SynopsisLoopEnds(db.view, reference, n) ==> r == Synopsis(db.view, reference, n)
      ensures !SynopsisLoopEnds(db.view, reference, n) ==> r == Failure(NoSuchBlock)
    {
      if reference == ZERO_ID && db.view.HeadNum() == 0 {
        return Success([]);
      }
      var entry := EnterLoop(reference);
      match entry {
        case Failure(e) => return Failure(e);
        case Success(e) => r := Halve(e, n);
      }
    }

    /** The search of the reply: the synopsis from its end, for an entry on our own chain. */
    method SearchSynopsis(blockchainSynopsis: seq<BlockId>) returns (found: Option<BlockId>)
      ensures found == LastUsable(db.view, blockchainSynopsis)
    {
      var i := |blockchainSynopsis|;
      assert blockchainSynopsis[..i] == blockchainSynopsis;
      while i > 0
        invariant 0 <= i <= |blockchainSynopsis|
        invariant LastUsable(db.view, blockchainSynopsis) == LastUsable(db.view, blockchainSynopsis[..i])
      {
        i := i - 1;
        assert blockchainSynopsis[..i + 1][..i] == blockchainSynopsis[..i];
        if Usable(db.view, blockchainSynopsis[i]) {
          return Some(blockchainSynopsis[i]);
        }
      }
      return None;
    }

    /** The loop of the reply: ids of the main chain from block `first` on, at most `limit` of them. */
    method CollectIds(first: uint32, limit: uint32) returns (ids: seq<BlockId>)
      requires 1 <= |db.view.chain| < MODULUS && first <= |db.view.chain|
      ensures var start := if first == 0 then 1 else first;
        ids == Onwards(db.view.chain, start, Count(|db.view.chain|, start, limit))
    {
      hide CounterAt, Onwards, Count, Add;
      ids := [];
      var num: uint32 := first;
      var head: uint32 := db.view.HeadNum();
      ghost var start := if first == 0 then 1 else first;
      CounterStarts(db.view.chain, start, first);
      while num <= head && |ids| < limit
        invariant |ids| <= limit && |ids| <= 2 * head - start + 1
        invariant CounterAt(|db.view.chain|, start, |ids|, num)
        invariant ids == Onwards(db.view.chain, start, |ids|)
        decreases limit - |ids|, if num == 0 then 1 else 0
      {
        CounterMoves(|db.view.chain|, start, |ids|, num);
        if num > 0 {
          OnwardsGrows(db.view.chain, start, |ids|);
          ids := ids + [db.view.BlockIdForNum(num).value];
        }
        num := Add(num, 1);
      }
      CounterStops(|db.view.chain|, start, |ids|, num, limit);
    }

    method GetBlockIds(blockchainSynopsis: seq<BlockId>, limit: uint32) returns (r: Result<Reply, SyncError>)
      requires db.Valid()
      ensures r == ReplyTo(db.view, blockchainSynopsis, limit)
    {
      hide ReplyTo, ReplyFrom, Onwards, Count, LastUsable, Linked, WellFormed, IsForkHistory;
      var head: uint32 := db.view.HeadNum();
      if head == 0 {
        NothingToReply(db.view, blockchainSynopsis, limit);
        return Success(Reply([], 0));
      }
      var lastKnownBlockId := ZERO_ID;
      if blockchainSynopsis == [] || (|blockchainSynopsis| == 1 && blockchainSynopsis[0] == ZERO_ID) {
        // The peer has no blocks: start at the first one.
        ReplyFromFirst(db.view, blockchainSynopsis, limit);
      } else {
        var found := SearchSynopsis(blockchainSynopsis);
        ReplyFromLast(db.view, blockchainSynopsis, limit);
        if found.None? {
          return Failure(PeerOnUnreachableFork);
        }
        lastKnownBlockId := found.value;
      }
      var ids := CollectIds(lastKnownBlockId.num, limit);
      var remaining: uint32 := 0;
      ReplyIs(db.tree, db.view.chain, StartNum(lastKnownBlockId), limit, ids);
      if ids != [] && ids[|ids| - 1].num < head {
        remaining := head - ids[|ids| - 1].num;
      }
      return Success(Reply(ids, remaining));
    }

    /** `node.sync_from` asks the network for blocks after the given one; the flag notes that it did. */
    method RequestSync(blockId: BlockId)
      requires FlagsAgree()
      modifies this
      ensures FlagsAgree() && history == old(history) + [SyncFrom(blockId)]
      ensures syncing && emitted == old(emitted)
    {
      syncing := true;
      history := history + [SyncFrom(blockId)];
      assert history[..|history| - 1] == old(history);
    }

    /**
     `handle_block`: returns the message ids of the block's transactions, which `messageId` computes, unless
     a listener throws.
     */
    method ReceiveBlock<T, I>(block: Block, transactions: seq<T>, messageId: T -> I, syncMode: bool,
                              listenerThrows: bool)
        returns (r: Result<seq<I>, ()>)
      requires FlagsAgree()
      modifies this
      ensures FlagsAgree() && history == old(history) + [HandleBlock(block, syncMode, listenerThrows)]
      ensures emitted == old(emitted) + [BlockReceived(block)]
        + if !listenerThrows && !syncMode && old(syncing) then [SyncFinished] else []
      ensures syncing <==> old(syncing) && (syncMode || listenerThrows)
      ensures r.Failure? <==> listenerThrows
      ensures r.Success? ==>
        && |r.value| == |transactions|
        && forall i :: 0 <= i < |transactions| ==> r.value[i] == messageId(transactions[i])
    {
      history := history + [HandleBlock(block, syncMode, listenerThrows)];
      assert history[..|history| - 1] == old(history);
      emitted := emitted + [BlockReceived(block)];
      if listenerThrows {
        return Failure(());
      }
      var contained: seq<I> := [];
      for t := 0 to |transactions|
        invariant |contained| == t
        invariant forall i :: 0 <= i < t ==> contained[i] == messageId(transactions[i])
      {
        contained := contained + [messageId(transactions[t])];
      }
      if !syncMode && syncing {
        syncing := false;
        emitted := emitted + [SyncFinished];
      }
      return Success(contained);
    }
  }
}
