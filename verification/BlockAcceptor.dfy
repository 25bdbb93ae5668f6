/** How a node takes the blocks delivered to it: one at a time, and only on top of its head. */
module BlockAcceptor {
  import opened BlockTree
  import opened Graphene

  /** How `push_block` may end: the head moves to the block, it throws, or the head stays where it was. */
  datatype PushOutcome = Extended | Thrown | HeadUnchanged

  datatype Delivery = Delivery(block: Block, outcome: PushOutcome)

  /** The main chain after one delivery. */
  function Accept(chain: seq<BlockId>, d: Delivery): seq<BlockId> {
    if d.block.previous == Tip(chain) && d.outcome == Extended then chain + [d.block.id] else chain
  }

  /** The main chain after any number of deliveries. */
  function AcceptAll(chain: seq<BlockId>, ds: seq<Delivery>): (r: seq<BlockId>)
    ensures chain <= r
    decreases |ds|
  {
    if ds == [] then chain else AcceptAll(Accept(chain, ds[0]), ds[1..])
  }

  /** What the log line of a delivery says. */
  datatype Report = Pushed | PushFailed | Ignored

  lemma ForkHistoryStays(tree: BlockTree, v: View, w: View, fork: seq<BlockId>)
    requires IsForkHistory(tree, v, fork) && v.chain <= w.chain
    ensures IsForkHistory(tree, w, fork)
  {
  }

  lemma ExtendedIsValid(tree: BlockTree, v: View, block: Block)
    requires ValidView(tree, v)
    requires block.id in tree && tree[block.id] == block.previous == v.HeadId()
    ensures ValidView(tree, v.(chain := v.chain + [block.id], known := v.known + {block.id}))
  {
    var chain := v.chain + [block.id];
    var w := v.(chain := chain, known := v.known + {block.id});
    BranchIsLinked(tree, v.chain, [block.id]);
    AllLinkedNumbers(tree, chain);
    hide LinkedFrom, WellFormed, IsForkHistory;
    forall id | id in v.forks
      ensures IsForkHistory(tree, w, v.forks[id])
    {
      ForkHistoryStays(tree, v, w, v.forks[id]);
    }
  }

  class BlockHandler {
    const db: ChainDatabase

    constructor (db: ChainDatabase)
      ensures this.db == db
    {
      this.db := db;
    }

    /** graphene's `push_block`, whose outcome is the environment's choice. */
    method PushBlock(d: Delivery) returns (threw: bool)
      requires db.Valid()
      requires d.block.id in db.tree && db.tree[d.block.id] == d.block.previous == db.view.HeadId()
      modifies db
      ensures db.Valid()
      ensures threw <==> d.outcome == Thrown
      ensures db.view.chain == old(db.view.chain) + if d.outcome == Extended then [d.block.id] else []
    {
      if d.outcome == Extended {
        ExtendedIsValid(db.tree, db.view, d.block);
        db.view := db.view.(chain := db.view.chain + [d.block.id], known := db.view.known + {d.block.id});
      }
      threw := d.outcome == Thrown;
    }

    /** The handler of the block-received signal. */
    method OnBlockReceived(d: Delivery) returns (report: Report)
      requires db.Valid()
      requires d.block.id in db.tree && db.tree[d.block.id] == d.block.previous
      modifies db
      ensures db.Valid()
      ensures db.view.chain == Accept(old(db.view.chain), d)
      ensures report == Pushed <==> db.view.chain != old(db.view.chain)
      ensures report == Ignored <==> d.block.previous != old(db.view.HeadId())
    {
      if d.block.previous == db.view.HeadId() {
        assert d.block.id.num == d.block.previous.num + 1;
        var threw := PushBlock(d);
        if threw || db.view.HeadId() != d.block.id {
          report := PushFailed;
        } else {
          report := Pushed;
        }
      } else {
        report := Ignored;
      }
    }
  }

  // ----- whole runs

  /** A delivered block is the hash of its parent. */
  ghost predicate Genuine(tree: BlockTree, ds: seq<Delivery>) {
    forall i :: 0 <= i < |ds| ==> ds[i].block.id in tree && tree[ds[i].block.id] == ds[i].block.previous
  }

  /** Whether a block is one of a chain's blocks. */
  ghost predicate BlockOf(chain: seq<BlockId>, block: Block) {
    exists i :: 0 <= i < |chain| && block.id == chain[i] && block.previous == Before(ZERO_ID, chain, i)
  }

  ghost predicate AllFrom(chain: seq<BlockId>, ds: seq<Delivery>) {
    forall i :: 0 <= i < |ds| ==> BlockOf(chain, ds[i].block)
  }

  lemma {:induction false} AcceptAllSplits(chain: seq<BlockId>, a: seq<Delivery>, b: seq<Delivery>)
    ensures AcceptAll(chain, a + b) == AcceptAll(AcceptAll(chain, a), b)
    decreases |a|
  {
    if a == [] {
      assert a + b == b;
    } else {
      AcceptAllSplits(Accept(chain, a[0]), a[1..], b);
      assert (a + b)[1..] == a[1..] + b;
    }
  }

  /** Append-only: whatever is delivered, a later chain extends every earlier one. */
  lemma AppendOnly(chain: seq<BlockId>, ds: seq<Delivery>, i: nat, j: nat)
    requires i <= j <= |ds|
    ensures chain <= AcceptAll(chain, ds[..i]) <= AcceptAll(chain, ds[..j])
  {
    assert ds[..i] + ds[i..j] == ds[..j];
    AcceptAllSplits(chain, ds[..i], ds[i..j]);
  }

  /** Deliveries in any order, repeated, unrelated or refused, never break the chain's links. */
  lemma {:induction false} StaysLinked(tree: BlockTree, chain: seq<BlockId>, ds: seq<Delivery>)
    requires WellFormed(tree) && Linked(tree, chain) && Genuine(tree, ds)
    ensures Linked(tree, AcceptAll(chain, ds))
    decreases |ds|
  {
    if ds != [] {
      if Accept(chain, ds[0]) != chain {
        BranchIsLinked(tree, chain, [ds[0].block.id]);
      }
      StaysLinked(tree, Accept(chain, ds[0]), ds[1..]);
    }
  }

  lemma AcceptStaysPrefix(tree: BlockTree, source: seq<BlockId>, chain: seq<BlockId>, d: Delivery)
    requires WellFormed(tree) && Linked(tree, source) && chain <= source && BlockOf(source, d.block)
    ensures Accept(chain, d) <= source
  {
    hide LinkedFrom;
    if Accept(chain, d) != chain {
      var i :| 0 <= i < |source| && d.block.id == source[i] && d.block.previous == Before(ZERO_ID, source, i);
      BeforeNumber(tree, source, i);
      BeforeNumber(tree, source, |chain|);
      assert Tip(chain) == Before(ZERO_ID, source, |chain|);
    }
  }

  /** Fed with the blocks of one chain only, a prefix of that chain stays one. */
  lemma {:induction false} StaysPrefix(tree: BlockTree, source: seq<BlockId>, chain: seq<BlockId>, ds: seq<Delivery>)
    requires WellFormed(tree) && Linked(tree, source) && chain <= source && AllFrom(source, ds)
    ensures AcceptAll(chain, ds) <= source
    decreases |ds|
  {
    if ds != [] {
      assert BlockOf(source, ds[0].block);
      AcceptStaysPrefix(tree, source, chain, ds[0]);
      StaysPrefix(tree, source, Accept(chain, ds[0]), ds[1..]);
    }
  }

  /** Fed with the blocks of one chain only, a node whose head is not on that chain never moves. */
  lemma {:induction false} StaysOff(tree: BlockTree, source: seq<BlockId>, chain: seq<BlockId>, ds: seq<Delivery>)
    requires WellFormed(tree) && Linked(tree, chain) && AllFrom(source, ds)
    requires chain != [] && Tip(chain) !in source
    ensures AcceptAll(chain, ds) == chain
  {
    if ds != [] {
      AllLinkedNumbers(tree, chain);
      assert BlockOf(source, ds[0].block);
      StaysOff(tree, source, chain, ds[1..]);
    }
  }

  /** There is no third case: a linked chain is a prefix of another exactly if its head is on it. */
  lemma PrefixExactly(tree: BlockTree, source: seq<BlockId>, chain: seq<BlockId>)
    requires WellFormed(tree) && Linked(tree, source) && Linked(tree, chain)
    ensures chain <= source <==> chain == [] || Tip(chain) in source
  {
    hide LinkedFrom, WellFormed;
    if chain != [] && chain <= source {
      assert source[|chain| - 1] == Tip(chain);
    }
    if chain != [] && Tip(chain) in source {
      var i :| 0 <= i < |source| && source[i] == Tip(chain);
      LinkedNumbers(tree, source, i);
      BeforeNumber(tree, chain, |chain|);
      SharedBelow(tree, chain, source, |chain|);
      assert chain == source[..|chain|];
    }
  }

  /** The two fates of a node fed from one chain, told apart by a look at its head. */
  lemma OneSource(tree: BlockTree, source: seq<BlockId>, chain: seq<BlockId>, ds: seq<Delivery>)
    requires WellFormed(tree) && Linked(tree, source) && Linked(tree, chain) && AllFrom(source, ds)
    ensures if chain == [] || Tip(chain) in source then AcceptAll(chain, ds) <= source
            else AcceptAll(chain, ds) == chain
  {
    PrefixExactly(tree, source, chain);
    if chain <= source {
      StaysPrefix(tree, source, chain, ds);
    } else {
      StaysOff(tree, source, chain, ds);
    }
  }
}
