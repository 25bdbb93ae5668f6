/** What the synopsis, the reply and the acceptance of blocks achieve together. */
module BlockSync {
  import opened Wrappers
  import opened Uint32
  import opened BlockTree
  import opened HalvingLoop
  import opened Graphene
  import opened P2pHandler
  import opened BlockAcceptor

  // ----- what a synopsis is

  /** Whether an id is a path's block of its number, at `low` or above. */
  predicate OnPath(id: BlockId, path: seq<BlockId>, low: nat) {
    1 <= low <= id.num <= |path| && id == path[id.num - 1]
  }

  function NumsOf(ids: seq<BlockId>): seq<int> {
    seq(|ids|, i requires 0 <= i < |ids| => ids[i].num)
  }

  /** A synopsis is a rising selection of one path's blocks, at the numbers of the halving loop. */
  ghost predicate IsSynopsisOf(ids: seq<BlockId>, path: seq<BlockId>, low: nat, n: nat) {
    && IsHalving(NumsOf(ids), low, |path|, n)
    && forall k :: 0 <= k < |ids| ==> OnPath(ids[k], path, low)
  }

  /** A sampled id carries the loop's number and is the path's block of that number. */
  lemma SampledNum(tree: BlockTree, path: seq<BlockId>, low: nat, n: nat, k: nat)
    requires WellFormed(tree) && Linked(tree, path) && 1 <= low <= |path| && k < |Sampled(path, low, n)|
    ensures Sampled(path, low, n)[k].num == Numbers(low, |path|, n)[k]
    ensures OnPath(Sampled(path, low, n)[k], path, low)
  {
    hide Numbers, LinkedFrom, WellFormed;
    NumbersAt(low, |path|, n, k);
    LinkedNumbers(tree, path, Numbers(low, |path|, n)[k] - 1);
  }

  lemma SampledIsSynopsis(tree: BlockTree, path: seq<BlockId>, low: nat, n: nat)
    requires WellFormed(tree) && Linked(tree, path) && 1 <= low <= |path|
    ensures IsSynopsisOf(Sampled(path, low, n), path, low, n)
  {
    var ids := Sampled(path, low, n);
    forall k | 0 <= k < |ids|
      ensures ids[k].num == Numbers(low, |path|, n)[k] && OnPath(ids[k], path, low)
    {
      SampledNum(tree, path, low, n, k);
    }
    assert NumsOf(ids) == Numbers(low, |path|, n);
    NumbersHalve(low, |path|, n);
  }

  /** A synopsis has no zero id and ends within `n` blocks of its path's end, hence at it if `n` is zero. */
  lemma SynopsisEnds(ids: seq<BlockId>, path: seq<BlockId>, low: nat, n: nat)
    requires IsSynopsisOf(ids, path, low, n)
    ensures |path| - n <= ids[|ids| - 1].num <= |path|
    ensures n == 0 ==> ids[|ids| - 1] == Tip(path)
    ensures ZERO_ID !in ids
  {
    assert NumsOf(ids)[|ids| - 1] == ids[|ids| - 1].num;
    assert OnPath(ids[|ids| - 1], path, low);
  }

  /** A successful synopsis is a synopsis of the one linked path to its reference block, if it has any ids. */
  lemma SynopsisShape(tree: BlockTree, v: View, reference: BlockId, n: nat)
    requires ValidView(tree, v)
    ensures match Synopsis(v, reference, n)
      case Failure(e) => Summarised(v, reference) == Failure(e)
      case Success(ids) =>
        exists path :: Summarised(v, reference) == Success(path)
          && Linked(tree, path)
          && Tip(path) == (if reference == ZERO_ID then v.HeadId() else reference)
          && if path == [] then ids == [] else IsSynopsisOf(ids, path, LowestNum(v, path), n)
  {
    SummarisedIsThePath(tree, v, reference);
    if Summarised(v, reference).Success? {
      var path := Summarised(v, reference).value;
      if path != [] {
        SampledIsSynopsis(tree, path, LowestNum(v, path), n);
      }
    }
  }

  /** The number of the block that a path to a reference block ends with. */
  lemma PathEndsAt(tree: BlockTree, v: View, reference: BlockId)
    requires ValidView(tree, v) && Summarised(v, reference).Success?
    ensures |Summarised(v, reference).value| == if reference == ZERO_ID then |v.chain| else reference.num
  {
    hide Summarised;
    SummarisedIsThePath(tree, v, reference);
    var path := Summarised(v, reference).value;
    BeforeNumber(tree, path, |path|);
    BeforeNumber(tree, v.chain, |v.chain|);
    hide Linked, WellFormed;
  }

  lemma StartsAt(ids: seq<BlockId>, path: seq<BlockId>, low: nat, n: nat)
    requires IsSynopsisOf(ids, path, low, n)
    ensures ids != [] && ids[0].num == low
  {
    assert NumsOf(ids)[0] == low;
  }

  /** The synopsis of a path with blocks. */
  lemma SynopsisOfPath(v: View, reference: BlockId, n: nat, path: seq<BlockId>)
    requires Summarised(v, reference) == Success(path)
    ensures Synopsis(v, reference, n)
         == Success(if path == [] then [] else Sampled(path, LowestNum(v, path), n))
  {
    hide Summarised, Sampled;
  }

  lemma ValidTree(tree: BlockTree, v: View)
    requires ValidView(tree, v)
    ensures WellFormed(tree) && Linked(tree, v.chain) && |v.chain| < MODULUS
  {
  }

  /**
   A synopsis with any ids starts at the last block that cannot be undone, or at block 1 if that is lower,
   or at the block that is summarised if that is.
   */
  lemma SynopsisStarts(tree: BlockTree, v: View, reference: BlockId, n: nat)
    requires ValidView(tree, v) && Synopsis(v, reference, n).Success? && Synopsis(v, reference, n).value != []
    ensures var first := Synopsis(v, reference, n).value[0].num;
      var high := if reference == ZERO_ID then |v.chain| else reference.num;
      && 1 <= first <= high
      && (first <= v.lastNonUndoable || first == 1)
      && (v.lastNonUndoable <= first || first == high)
  {
    hide Summarised, ValidView, WellFormed, Linked, Numbers, Sampled, LowestNum;
    PathEndsAt(tree, v, reference);
    SummarisedIsThePath(tree, v, reference);
    ValidTree(tree, v);
    var path := Summarised(v, reference).value;
    SynopsisOfPath(v, reference, n, path);
    if path != [] {
      SampledIsSynopsis(tree, path, LowestNum(v, path), n);
      StartsAt(Sampled(path, LowestNum(v, path), n), path, LowestNum(v, path), n);
    }
  }

  // ----- what a reply is

  /** The search finds the last usable entry, and nothing only if there is none. */
  lemma {:induction false} LastUsableAt(v: View, synopsis: seq<BlockId>) returns (k: int)
    ensures -1 <= k < |synopsis|
    ensures forall i :: k < i < |synopsis| ==> !Usable(v, synopsis[i])
    ensures if k == -1 then LastUsable(v, synopsis) == None
            else Usable(v, synopsis[k]) && LastUsable(v, synopsis) == Some(synopsis[k])
  {
    if synopsis == [] || Usable(v, synopsis[|synopsis| - 1]) {
      k := |synopsis| - 1;
    } else {
      k := LastUsableAt(v, synopsis[..|synopsis| - 1]);
    }
  }

  /** A reply that starts at `start` is a run of the main chain, cut off at the limit or at the head. */
  ghost predicate IsRun(chain: seq<BlockId>, start: nat, limit: nat, ids: seq<BlockId>) {
    1 <= start <= |chain| && ids == chain[start - 1..start - 1 + Min(limit, |chain| - start + 1)]
  }

  /**
   The reply is the run it should be unless the block counter overflows, which takes the longest chain
   there can be and a limit beyond its head.
   */
  lemma ReplyIsRunExactly(chain: seq<BlockId>, start: nat, limit: uint32)
    requires 1 <= start <= |chain| < MODULUS
    ensures IsRun(chain, start, limit, ReplyFrom(chain, start, limit).ids)
       <==> (|chain| < MODULUS - 1 || limit <= |chain| - start + 1)
  {
    var available := |chain| - start + 1;
    if |chain| == MODULUS - 1 && limit > available {
      assert |Onwards(chain, start, limit)| == limit;
    }
  }

  /**
   The remaining count accounts for every block from the start to the head exactly if any were asked for
   and the block counter does not overflow.
   */
  lemma ReplyConservesExactly(chain: seq<BlockId>, start: nat, limit: uint32)
    requires 1 <= start <= |chain| < MODULUS
    ensures var reply := ReplyFrom(chain, start, limit);
      (|reply.ids| + reply.remaining == |chain| - start + 1) <==>
        limit > 0 && (|chain| < MODULUS - 1 || limit <= |chain| - start + 1)
  {
  }

  /** A responder fails exactly if it has blocks, was given entries, and recognises none. */
  lemma ReplyFailsExactly(v: View, synopsis: seq<BlockId>, limit: uint32)
    requires |v.chain| < MODULUS
    ensures ReplyTo(v, synopsis, limit).Failure?
       <==> (v.chain != [] && synopsis != [] && forall id :: id in synopsis ==> !Usable(v, id))
  {
    var k := LastUsableAt(v, synopsis);
    if k >= 0 {
      assert synopsis[k] in synopsis;
    }
  }

  /** A responder with blocks replies from the entry it finds. */
  lemma ReplyToEntries(v: View, ids: seq<BlockId>, limit: uint32)
    requires v.chain != [] && |v.chain| < MODULUS && ids != []
    ensures match LastUsable(v, ids)
      case None => ReplyTo(v, ids, limit) == Failure(PeerOnUnreachableFork)
      case Some(last) =>
        1 <= StartNum(last) <= |v.chain| && ReplyTo(v, ids, limit) == Success(ReplyFrom(v.chain, StartNum(last), limit))
  {
    hide LastUsable, ReplyFrom;
  }

  /** A reply to entries that are not zero resumes at one of them. */
  lemma ReplyResumes(tree: BlockTree, v: View, synopsis: seq<BlockId>, limit: uint32)
    requires ValidView(tree, v) && 0 < |v.chain| < MODULUS - 1 && limit > 0
    requires synopsis != [] && ZERO_ID !in synopsis && ReplyTo(v, synopsis, limit).Success?
    ensures var reply := ReplyTo(v, synopsis, limit).value;
      && reply.ids != []
      && reply.ids[0] in synopsis
      && IsRun(v.chain, reply.ids[0].num, limit, reply.ids)
      && |reply.ids| + reply.remaining == |v.chain| - reply.ids[0].num + 1
  {
    hide ReplyTo, ReplyFrom, LastUsable, Linked, WellFormed, IsForkHistory;
    ReplyToEntries(v, synopsis, limit);
    var last := LastUsable(v, synopsis).value;
    UsableMeans(tree, v, last);
    ReplyIsRunExactly(v.chain, last.num, limit);
    ReplyConservesExactly(v.chain, last.num, limit);
  }

  /**
   Where any reply starts: at the last entry that is recognised, at block 1 if that entry is zero or there
   are no entries.
   */
  lemma ReplyStarts(tree: BlockTree, v: View, synopsis: seq<BlockId>, limit: uint32) returns (k: int)
    requires ValidView(tree, v) && 0 < |v.chain| < MODULUS - 1 && ReplyTo(v, synopsis, limit).Success?
    ensures -1 <= k < |synopsis| && (k == -1 ==> synopsis == [])
    ensures k >= 0 ==> Usable(v, synopsis[k])
    ensures forall i :: k < i < |synopsis| ==> !Usable(v, synopsis[i])
    ensures var start := if k == -1 || synopsis[k] == ZERO_ID then 1 else synopsis[k].num;
      && IsRun(v.chain, start, limit, ReplyTo(v, synopsis, limit).value.ids)
      && (limit > 0 ==>
            |ReplyTo(v, synopsis, limit).value.ids| + ReplyTo(v, synopsis, limit).value.remaining
              == |v.chain| - start + 1)
  {
    hide ReplyTo, ReplyFrom, LastUsable, Usable, Linked, WellFormed, IsForkHistory;
    k := LastUsableAt(v, synopsis);
    if synopsis == [] {
      ReplyFromFirst(v, synopsis, limit);
      ReplyIsRunExactly(v.chain, 1, limit);
      ReplyConservesExactly(v.chain, 1, limit);
    } else {
      ReplyToEntries(v, synopsis, limit);
      UsableMeans(tree, v, synopsis[k]);
      var start := StartNum(synopsis[k]);
      ReplyIsRunExactly(v.chain, start, limit);
      ReplyConservesExactly(v.chain, start, limit);
    }
  }

  // ----- the two together

  /** A responder recognises a block of a path exactly up to the highest block it shares with the path. */
  lemma UsableExactly(tree: BlockTree, path: seq<BlockId>, low: nat, server: View, id: BlockId)
    requires ValidView(tree, server) && Linked(tree, path) && OnPath(id, path, low)
    ensures Usable(server, id) <==> id.num <= HighestShared(path, server.chain)
  {
    hide HighestShared, LinkedFrom;
    UsableMeans(tree, server, id);
    SharedExactly(tree, path, server.chain, id.num);
  }

  /** Entry `k` is the highest one not above `c`, and the overlap `c - s` is at most `top - c`. */
  predicate ResumesAt(ids: seq<BlockId>, k: nat, c: nat, top: nat)
    requires k < |ids|
  {
    && ids[k].num <= c
    && (forall i :: k < i < |ids| ==> ids[i].num > c)
    && c - ids[k].num <= top - c
  }

  /** The best entry for a shared number `c` overlaps by no more than what lies above `c`. */
  lemma OverlapBound(nums: seq<int>, low: nat, high: nat, n: nat, c: nat, k: nat)
    requires IsHalving(nums, low, high, n) && k < |nums| && c <= high
    requires nums[k] <= c && (k + 1 < |nums| ==> nums[k + 1] > c)
    ensures c - nums[k] <= high + n - c
  {
    assert Following(nums[k], high + n) > c;
  }

  /**
   Let `c` be the highest block number that a summarised path shares with the responder's chain.  The
   responder recognises nothing exactly if even the lowest number is above `c`.  Otherwise it resumes at
   the highest synopsis number not above `c`, and the blocks it sends again are no more than those after
   `c` on the path and the blocks still to follow: the depth of the fork.
   */
  lemma ResumeEntry(tree: BlockTree, path: seq<BlockId>, low: nat, n: nat, ids: seq<BlockId>, server: View)
    returns (k: int)
    requires ValidView(tree, server) && Linked(tree, path) && IsSynopsisOf(ids, path, low, n)
    ensures var c := HighestShared(path, server.chain);
      if low > c then
        k == -1 && LastUsable(server, ids) == None
      else
        && 0 <= k < |ids|
        && ResumesAt(ids, k, c, |path| + n)
        && LastUsable(server, ids) == Some(ids[k])
        && OnPath(ids[k], path, low) && OnPath(ids[k], server.chain, 1)
  {
    var c := HighestShared(path, server.chain);
    k := LastUsableAt(server, ids);
    forall i | 0 <= i < |ids|
      ensures Usable(server, ids[i]) <==> NumsOf(ids)[i] <= c
    {
      UsableExactly(tree, path, low, server, ids[i]);
    }
    assert NumsOf(ids)[0] == low;
    if k >= 0 {
      assert forall i :: k < i < |ids| ==> NumsOf(ids)[i] == ids[i].num > c;
      assert NumsOf(ids)[k] == ids[k].num;
      OverlapBound(NumsOf(ids), low, |path|, n, c, k);
      assert OnPath(ids[k], path, low);
      UsableMeans(tree, server, ids[k]);
    }
  }

  /** What a responder does with an entry `k` that it shares. */
  ghost predicate RepliesFrom(server: View, ids: seq<BlockId>, limit: uint32, k: nat)
    requires |server.chain| < MODULUS && k < |ids|
  {
    && OnPath(ids[k], server.chain, 1)
    && ReplyTo(server, ids, limit) == Success(ReplyFrom(server.chain, ids[k].num, limit))
  }

  lemma EntryIsReplied(server: View, ids: seq<BlockId>, limit: uint32, k: nat)
    requires server.chain != [] && |server.chain| < MODULUS && k < |ids|
    requires LastUsable(server, ids) == Some(ids[k]) && OnPath(ids[k], server.chain, 1)
    ensures RepliesFrom(server, ids, limit, k)
  {
    hide LastUsable, ReplyFrom, ReplyTo;
    ReplyToEntries(server, ids, limit);
  }

  lemma NotEmpty(ids: seq<BlockId>, path: seq<BlockId>, low: nat, n: nat)
    requires IsSynopsisOf(ids, path, low, n)
    ensures ids != []
  {
  }

  /**
   `ResumeEntry` from outside, for a client's synopsis and the responder's reply to it: the responder turns
   the client away exactly if the chains share nothing or part below the last block that the client cannot
   undo, short of the end of what it summarised; and else resumes there.
   */
  lemma SynopsisAndReply(tree: BlockTree, client: View, reference: BlockId, n: nat, path: seq<BlockId>,
                         server: View, limit: uint32)
    returns (ids: seq<BlockId>, k: int)
    requires ValidView(tree, client) && ValidView(tree, server)
    requires Summarised(client, reference) == Success(path) && path != []
    requires server.chain != [] && |server.chain| < MODULUS
    ensures Synopsis(client, reference, n) == Success(ids)
    ensures IsSynopsisOf(ids, path, LowestNum(client, path), n)
    ensures var c := HighestShared(path, server.chain);
      if c == 0 || (c < client.lastNonUndoable && c < |path|) then
        ReplyTo(server, ids, limit) == Failure(PeerOnUnreachableFork)
      else
        0 <= k < |ids| && ResumesAt(ids, k, c, |path| + n) && RepliesFrom(server, ids, limit, k)
  {
    hide *;
    ids := Sampled(path, LowestNum(client, path), n);
    SynopsisOfPath(client, reference, n, path);
    SummarisedIsThePath(tree, client, reference);
    ValidTree(tree, client);
    SampledIsSynopsis(tree, path, LowestNum(client, path), n);
    k := ResumeEntry(tree, path, LowestNum(client, path), n, ids, server);
    NotEmpty(ids, path, LowestNum(client, path), n);
    ReplyToEntries(server, ids, limit);
    if k >= 0 {
      EntryIsReplied(server, ids, limit, k);
    }
  }

  // ----- convergence

  /** The block of an id, as the network layer fetches it, with a push that succeeds. */
  ghost function Deliveries(tree: BlockTree, ids: seq<BlockId>): seq<Delivery> {
    seq(|ids|, i requires 0 <= i < |ids| =>
      Delivery(Block(ids[i], if ids[i] in tree then tree[ids[i]] else ZERO_ID), Extended))
  }

  /** What may differ from round to round: how far the client can undo, and whether it names its head. */
  datatype Round = Round(lastNonUndoable: nat, fromHead: bool)

  function ClientView(chain: seq<BlockId>, round: Round): View {
    View(chain, set id | id in chain, map[], Min(round.lastNonUndoable, |chain|))
  }

  function Reference(chain: seq<BlockId>, round: Round): BlockId {
    if round.fromHead then Tip(chain) else ZERO_ID
  }

  /** The responder's reply to the synopsis of a client that expects no blocks beyond its own. */
  function Answer(chain: seq<BlockId>, round: Round, server: View, limit: uint32): Result<Reply, SyncError>
    requires |server.chain| < MODULUS
  {
    match Synopsis(ClientView(chain, round), Reference(chain, round), 0)
    case Failure(e) => Failure(e)
    case Success(ids) => ReplyTo(server, ids, limit)
  }

  /** The client's chain once the blocks of a reply have been delivered in order; a failure brings none. */
  ghost function AfterAnswer(tree: BlockTree, chain: seq<BlockId>, answer: Result<Reply, SyncError>): seq<BlockId> {
    match answer
    case Failure(_) => chain
    case Success(reply) => AcceptAll(chain, Deliveries(tree, reply.ids))
  }

  /** One round: synopsis, reply, delivery. */
  ghost function AfterRound(tree: BlockTree, chain: seq<BlockId>, round: Round, server: View, limit: uint32)
    : seq<BlockId>
    requires |server.chain| < MODULUS
  {
    AfterAnswer(tree, chain, Answer(chain, round, server, limit))
  }

  ghost function AfterRounds(tree: BlockTree, chain: seq<BlockId>, rounds: seq<Round>, server: View, limit: uint32)
    : seq<BlockId>
    requires |server.chain| < MODULUS
    decreases |rounds|
  {
    if rounds == [] then chain
    else AfterRounds(tree, AfterRound(tree, chain, rounds[0], server, limit), rounds[1..], server, limit)
  }

  lemma ReferenceIsTip(chain: seq<BlockId>, round: Round)
    requires |chain| < MODULUS && forall i :: 0 <= i < |chain| ==> chain[i].num == i + 1
    ensures Summarised(ClientView(chain, round), Reference(chain, round)) == Success(chain)
  {
    assert chain[..|chain|] == chain;
  }

  /** The client's view is a valid one, and its synopsis is of its whole chain. */
  lemma ClientViewIsValid(tree: BlockTree, chain: seq<BlockId>, round: Round)
    requires WellFormed(tree) && Linked(tree, chain)
    ensures ValidView(tree, ClientView(chain, round))
    ensures Summarised(ClientView(chain, round), Reference(chain, round)) == Success(chain)
  {
    hide LinkedFrom, WellFormed;
    AllLinkedNumbers(tree, chain);
    ReferenceIsTip(chain, round);
  }

  /** The client's call comes to an end unless its chain is the longest there can be. */
  lemma ClientCallEnds(tree: BlockTree, chain: seq<BlockId>, round: Round)
    requires WellFormed(tree) && Linked(tree, chain) && |chain| < MODULUS - 1
    ensures SynopsisLoopEnds(ClientView(chain, round), Reference(chain, round), 0)
  {
    hide Summarised, ClientView, LinkedFrom, Ends;
    ClientViewIsValid(tree, chain, round);
    if chain != [] {
      EndsIfWrapFree(LowestNum(ClientView(chain, round), chain), |chain|, 0);
    }
  }

  lemma FirstDelivery(tree: BlockTree, source: seq<BlockId>, first: int, end: int)
    requires Linked(tree, source) && 0 <= first < end <= |source|
    ensures var ds := Deliveries(tree, source[first..end]);
      && |ds| == end - first
      && ds[0] == Delivery(Block(source[first], Before(ZERO_ID, source, first)), Extended)
      && ds[1..] == Deliveries(tree, source[first + 1..end])
  {
  }

  /** Prefixes of different lengths end in different blocks. */
  lemma TipsDiffer(tree: BlockTree, source: seq<BlockId>, a: nat, b: nat)
    requires WellFormed(tree) && Linked(tree, source) && a <= |source| && b <= |source| && a != b
    ensures Tip(source[..a]) == Before(ZERO_ID, source, a) != Before(ZERO_ID, source, b)
  {
    BeforeNumber(tree, source, a);
    BeforeNumber(tree, source, b);
  }

  /** Delivered in order, a run of a chain takes one of the chain's prefixes to the run's end. */
  lemma {:induction false} RunIsAccepted(tree: BlockTree, source: seq<BlockId>, have: int, first: int, end: int)
    requires WellFormed(tree) && Linked(tree, source) && 0 <= first <= have <= end <= |source|
    ensures AcceptAll(source[..have], Deliveries(tree, source[first..end])) == source[..end]
    decreases end - first
  {
    if first < end {
      var ds := Deliveries(tree, source[first..end]);
      FirstDelivery(tree, source, first, end);
      if first == have {
        assert source[..have] + [source[first]] == source[..have + 1];
        RunIsAccepted(tree, source, have + 1, first + 1, end);
      } else {
        TipsDiffer(tree, source, have, first);
        RunIsAccepted(tree, source, have, first + 1, end);
      }
    }
  }

  /** How many blocks of a responder's chain a client has after a round, if it had `have` before. */
  function NextLength(have: nat, total: nat, limit: nat): (next: nat)
    requires limit > 0
    ensures next <= total
    ensures have <= total ==> have <= next
    ensures 0 < total ==> 0 < next
  {
    Min(total, if have == 0 then limit else have + limit - 1)
  }

  /** A round's answer is the reply to the client's synopsis. */
  lemma AnswerIs(chain: seq<BlockId>, round: Round, server: View, limit: uint32, ids: seq<BlockId>)
    requires |server.chain| < MODULUS
    requires Synopsis(ClientView(chain, round), Reference(chain, round), 0) == Success(ids)
    ensures Answer(chain, round, server, limit) == ReplyTo(server, ids, limit)
  {
    hide Synopsis, ReplyTo;
  }

  lemma SharedWithPrefix(source: seq<BlockId>, have: nat)
    requires 0 < have <= |source|
    ensures HighestShared(source[..have], source) == have
  {
  }

  /** A synopsis without entries is replied to from the first block. */
  lemma ReplyToNothing(server: View, limit: uint32)
    requires server.chain != [] && |server.chain| < MODULUS
    ensures ReplyTo(server, [], limit) == Success(ReplyFrom(server.chain, 1, limit))
  {
    hide ReplyFrom;
  }

  /** If nothing lies above the shared number, resumption is at that number. */
  lemma NoOverlap(server: View, ids: seq<BlockId>, limit: uint32, k: nat, c: nat)
    requires |server.chain| < MODULUS && k < |ids| && 0 < c <= |server.chain|
    requires ResumesAt(ids, k, c, c) && RepliesFrom(server, ids, limit, k)
    ensures ReplyTo(server, ids, limit) == Success(ReplyFrom(server.chain, c, limit))
  {
    hide ReplyTo, ReplyFrom;
  }

  /** A client that ends on the responder's chain is answered from its own head on. */
  lemma AnswerResumesAtHead(tree: BlockTree, have: nat, round: Round, server: View, limit: uint32)
    requires ValidView(tree, server) && 0 < |server.chain| < MODULUS && have <= |server.chain|
    ensures Answer(server.chain[..have], round, server, limit)
         == Success(ReplyFrom(server.chain, if have == 0 then 1 else have, limit))
  {
    hide *;
    var chain := server.chain[..have];
    var v := ClientView(chain, round);
    ValidTree(tree, server);
    PrefixIsLinked(tree, server.chain, have);
    ClientViewIsValid(tree, chain, round);
    if have == 0 {
      SynopsisOfPath(v, Reference(chain, round), 0, chain);
      AnswerIs(chain, round, server, limit, []);
      ReplyToNothing(server, limit);
    } else {
      var ids, k := SynopsisAndReply(tree, v, Reference(chain, round), 0, chain, server, limit);
      AnswerIs(chain, round, server, limit, ids);
      SharedWithPrefix(server.chain, have);
      NoOverlap(server, ids, limit, k, have);
    }
  }

  lemma AfterRoundIs(tree: BlockTree, chain: seq<BlockId>, round: Round, server: View, limit: uint32)
    requires |server.chain| < MODULUS
    ensures AfterRound(tree, chain, round, server, limit)
         == AfterAnswer(tree, chain, Answer(chain, round, server, limit))
  {
    hide Answer, AfterAnswer;
  }

  lemma ReplyTaken(tree: BlockTree, source: seq<BlockId>, have: nat, limit: uint32)
    requires WellFormed(tree) && Linked(tree, source)
    requires 0 < |source| < MODULUS - 1 && have <= |source| && limit > 0
    ensures var reply := ReplyFrom(source, if have == 0 then 1 else have, limit);
      var next := NextLength(have, |source|, limit);
      && reply.remaining == |source| - next
      && AfterAnswer(tree, source[..have], Success(reply)) == source[..next]
  {
    hide ReplyFrom, Deliveries, LinkedFrom, WellFormed;
    var start := if have == 0 then 1 else have;
    ReplyIsRunExactly(source, start, limit);
    ReplyConservesExactly(source, start, limit);
    RunIsAccepted(tree, source, have, start - 1, NextLength(have, |source|, limit));
  }

  /**
   One round takes a client that ends on the responder's chain `limit - 1` blocks further, or `limit`
   blocks if it had none, or to the responder's head; the reply's remaining count is the gap that is left.
   */
  lemma RoundProgress(tree: BlockTree, have: nat, round: Round, server: View, limit: uint32)
    requires ValidView(tree, server) && 0 < |server.chain| < MODULUS - 1 && have <= |server.chain| && limit > 0
    ensures var answer := Answer(server.chain[..have], round, server, limit);
      var next := NextLength(have, |server.chain|, limit);
      && answer.Success?
      && answer.value.remaining == |server.chain| - next
      && AfterRound(tree, server.chain[..have], round, server, limit) == server.chain[..next]
  {
    hide *;
    ValidTree(tree, server);
    AnswerResumesAtHead(tree, have, round, server, limit);
    ReplyTaken(tree, server.chain, have, limit);
    AfterRoundIs(tree, server.chain[..have], round, server, limit);
  }

  /** How far `count` rounds take a client that has some blocks already. */
  function Reach(have: nat, total: nat, count: nat, limit: nat): nat
    requires limit > 0
  {
    Min(total, have + count * (limit - 1))
  }

  lemma ReachStep(have: nat, total: nat, count: nat, limit: nat)
    requires 0 < have <= total && limit > 0
    ensures Reach(NextLength(have, total, limit), total, count, limit) == Reach(have, total, count + 1, limit)
  {
    assert (count + 1) * (limit - 1) == count * (limit - 1) + (limit - 1);
    MulMonotone(0, count, limit - 1);
  }

  /** The first of several rounds, then the others. */
  lemma FirstRound(tree: BlockTree, chain: seq<BlockId>, rounds: seq<Round>, server: View, limit: uint32)
    requires |server.chain| < MODULUS && rounds != []
    ensures AfterRounds(tree, chain, rounds, server, limit)
         == AfterRounds(tree, AfterRound(tree, chain, rounds[0], server, limit), rounds[1..], server, limit)
  {
    hide AfterRound;
  }

  lemma ReachNow(have: nat, total: nat, limit: nat)
    requires have <= total && limit > 0
    ensures Reach(have, total, 0, limit) == have
  {
  }

  lemma NoRounds(tree: BlockTree, chain: seq<BlockId>, server: View, limit: uint32)
    requires |server.chain| < MODULUS
    ensures AfterRounds(tree, chain, [], server, limit) == chain
  {
  }

  /** Rounds add up. */
  lemma {:induction false} RoundsProgress(tree: BlockTree, have: nat, rounds: seq<Round>, server: View, limit: uint32)
    requires ValidView(tree, server) && 0 < have <= |server.chain| < MODULUS - 1 && limit > 0
    ensures Reach(have, |server.chain|, |rounds|, limit) <= |server.chain|
    ensures AfterRounds(tree, server.chain[..have], rounds, server, limit)
         == server.chain[..Reach(have, |server.chain|, |rounds|, limit)]
    decreases |rounds|
  {
    hide *;
    if rounds == [] {
      NoRounds(tree, server.chain[..have], server, limit);
      ReachNow(have, |server.chain|, limit);
    } else {
      var next := NextLength(have, |server.chain|, limit);
      FirstRound(tree, server.chain[..have], rounds, server, limit);
      RoundProgress(tree, have, rounds[0], server, limit);
      RoundsProgress(tree, next, rounds[1..], server, limit);
      ReachStep(have, |server.chain|, |rounds| - 1, limit);
    }
  }

  lemma RunIsFromSource(tree: BlockTree, source: seq<BlockId>, first: nat, ids: seq<BlockId>)
    requires Linked(tree, source) && first + |ids| <= |source| && ids == source[first..first + |ids|]
    ensures AllFrom(source, Deliveries(tree, ids))
  {
    var ds := Deliveries(tree, ids);
    forall i | 0 <= i < |ds|
      ensures BlockOf(source, ds[i].block)
    {
      assert ds[i].block.id == source[first + i];
    }
  }

  /** An answer that is a stretch of a chain, if it succeeds. */
  ghost predicate IsReply(answer: Result<Reply, SyncError>, source: seq<BlockId>, limit: uint32)
    requires |source| < MODULUS
  {
    answer.Success? ==> exists start :: 1 <= start <= |source| && answer == Success(ReplyFrom(source, start, limit))
  }

  lemma AnswerOffChain(tree: BlockTree, chain: seq<BlockId>, answer: Result<Reply, SyncError>,
                       source: seq<BlockId>, limit: uint32)
    requires WellFormed(tree) && Linked(tree, source) && 0 < |source| < MODULUS - 1 && IsReply(answer, source, limit)
    requires Linked(tree, chain) && chain != [] && Tip(chain) !in source
    ensures AfterAnswer(tree, chain, answer) == chain
  {
    hide ReplyFrom, AcceptAll, LinkedFrom;
    if answer.Success? {
      var start :| 1 <= start <= |source| && answer == Success(ReplyFrom(source, start, limit));
      ReplyIsRunExactly(source, start, limit);
      RunIsFromSource(tree, source, start - 1, answer.value.ids);
      StaysOff(tree, source, chain, Deliveries(tree, answer.value.ids));
    }
  }

  lemma AnswerFails(chain: seq<BlockId>, round: Round, server: View, limit: uint32)
    requires |server.chain| < MODULUS
    requires Synopsis(ClientView(chain, round), Reference(chain, round), 0).Failure?
    ensures IsReply(Answer(chain, round, server, limit), server.chain, limit)
  {
    hide Synopsis;
  }

  lemma ReplyIsReply(server: View, ids: seq<BlockId>, limit: uint32)
    requires 0 < |server.chain| < MODULUS
    ensures IsReply(ReplyTo(server, ids, limit), server.chain, limit)
  {
    hide ReplyTo, ReplyFrom, LastUsable;
    if ids == [] {
      ReplyToNothing(server, limit);
    } else {
      ReplyToEntries(server, ids, limit);
    }
  }

  /** Whatever a responder with blocks answers is a stretch of its chain. */
  lemma AnswerIsReply(chain: seq<BlockId>, round: Round, server: View, limit: uint32)
    requires 0 < |server.chain| < MODULUS
    ensures IsReply(Answer(chain, round, server, limit), server.chain, limit)
  {
    hide *;
    var synopsis := Synopsis(ClientView(chain, round), Reference(chain, round), 0);
    if synopsis.Success? {
      AnswerIs(chain, round, server, limit, synopsis.value);
      ReplyIsReply(server, synopsis.value, limit);
    } else {
      AnswerFails(chain, round, server, limit);
    }
  }

  lemma RoundOffChain(tree: BlockTree, chain: seq<BlockId>, round: Round, server: View, limit: uint32)
    requires ValidView(tree, server) && 0 < |server.chain| < MODULUS - 1
    requires Linked(tree, chain) && chain != [] && Tip(chain) !in server.chain
    ensures AfterRound(tree, chain, round, server, limit) == chain
  {
    hide *;
    ValidTree(tree, server);
    AfterRoundIs(tree, chain, round, server, limit);
    AnswerIsReply(chain, round, server, limit);
    AnswerOffChain(tree, chain, Answer(chain, round, server, limit), server.chain, limit);
  }

  /** A client whose head is not on the responder's chain is left where it is by every round. */
  lemma {:induction false} RoundsOffChain(tree: BlockTree, chain: seq<BlockId>, rounds: seq<Round>, server: View,
                                          limit: uint32)
    requires ValidView(tree, server) && 0 < |server.chain| < MODULUS - 1
    requires Linked(tree, chain) && chain != [] && Tip(chain) !in server.chain
    ensures AfterRounds(tree, chain, rounds, server, limit) == chain
    decreases |rounds|
  {
    if rounds != [] {
      hide *;
      FirstRound(tree, chain, rounds, server, limit);
      RoundOffChain(tree, chain, rounds[0], server, limit);
      RoundsOffChain(tree, chain, rounds[1..], server, limit);
    }
  }

  lemma SameFromNothing(total: nat, limit: nat)
    requires limit > 0
    ensures NextLength(0, total, limit) == NextLength(1, total, limit)
  {
  }

  /** A client without blocks gets a full `limit` in its first round and one block less in each later one. */
  lemma RoundsFromNothing(tree: BlockTree, rounds: seq<Round>, server: View, limit: uint32)
    requires ValidView(tree, server) && 0 < |server.chain| < MODULUS - 1 && limit > 0 && rounds != []
    ensures Reach(1, |server.chain|, |rounds|, limit) <= |server.chain|
    ensures AfterRounds(tree, [], rounds, server, limit)
         == server.chain[..Reach(1, |server.chain|, |rounds|, limit)]
  {
    hide *;
    var next := NextLength(0, |server.chain|, limit);
    assert server.chain[..0] == [];
    FirstRound(tree, [], rounds, server, limit);
    RoundProgress(tree, 0, rounds[0], server, limit);
    RoundsProgress(tree, next, rounds[1..], server, limit);
    SameFromNothing(|server.chain|, limit);
    ReachStep(1, |server.chain|, |rounds| - 1, limit);
  }

  lemma TipIsIn(chain: seq<BlockId>)
    requires chain != []
    ensures Tip(chain) in chain
  {
  }

  lemma PrefixWhole(source: seq<BlockId>, len: nat)
    requires len <= |source|
    ensures source[..len] == source <==> len == |source|
  {
  }

  /** The reach covers a chain exactly if its gap is no more than what the rounds bring. */
  lemma ReachesAll(source: seq<BlockId>, have: nat, count: nat, limit: nat)
    requires have <= |source| && limit > 0 && Reach(have, |source|, count, limit) <= |source|
    ensures source[..Reach(have, |source|, count, limit)] == source <==> |source| - have <= count * (limit - 1)
  {
    PrefixWhole(source, Reach(have, |source|, count, limit));
  }

  /**
   When sync succeeds.  With every push succeeding and no blocks expected beyond the client's own, rounds
   end with the client on the responder's chain exactly if its head was on that chain and there were
   enough rounds; a client without blocks counts as one that has the first, once a round took place.
   */
  lemma ConvergesExactly(tree: BlockTree, chain: seq<BlockId>, rounds: seq<Round>, server: View, limit: uint32)
    requires ValidView(tree, server) && 0 < |server.chain| < MODULUS - 1 && limit > 0
    requires Linked(tree, chain)
    ensures AfterRounds(tree, chain, rounds, server, limit) == server.chain <==>
      if chain == [] then
        |rounds| > 0 && |server.chain| - 1 <= |rounds| * (limit - 1)
      else
        Tip(chain) in server.chain && |server.chain| - |chain| <= |rounds| * (limit - 1)
  {
    hide *;
    var source := server.chain;
    ValidTree(tree, server);
    PrefixExactly(tree, source, chain);
    if chain == [] {
      if rounds == [] {
        NoRounds(tree, chain, server, limit);
      } else {
        RoundsFromNothing(tree, rounds, server, limit);
        ReachesAll(source, 1, |rounds|, limit);
      }
    } else if Tip(chain) in source {
      assert chain == source[..|chain|];
      RoundsProgress(tree, |chain|, rounds, server, limit);
      ReachesAll(source, |chain|, |rounds|, limit);
    } else {
      RoundsOffChain(tree, chain, rounds, server, limit);
      TipIsIn(chain);
    }
  }

  /** The number of rounds a client needs that has a prefix of the chain and asks for two blocks or more. */
  lemma RoundsNeeded(tree: BlockTree, have: nat, rounds: seq<Round>, server: View, limit: uint32)
    requires ValidView(tree, server) && 0 < have <= |server.chain| < MODULUS - 1 && limit >= 2
    ensures AfterRounds(tree, server.chain[..have], rounds, server, limit) == server.chain
       <==> |rounds| >= CeilDiv(|server.chain| - have, limit - 1)
  {
    hide *;
    RoundsProgress(tree, have, rounds, server, limit);
    ReachesAll(server.chain, have, |rounds|, limit);
    CeilDivThreshold(|server.chain| - have, limit - 1, |rounds|);
  }
}
