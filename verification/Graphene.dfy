/**
 The part of graphene's `chain::database` that the node calls.  Graphene is not part of this model: what
 its calls may answer is stated by `ValidView` and by the outcomes of `PushBlock`.
 */
module Graphene {
  import opened Wrappers
  import opened Uint32
  import opened BlockTree

  /** What the database's read-only calls answer at one moment. */
  datatype View = View(
    chain: seq<BlockId>,                  // the main chain; block number `i + 1` is at index `i`
    known: set<BlockId>,                  // `is_known_block`
    forks: map<BlockId, seq<BlockId>>,    // `get_block_ids_on_fork`, which throws for any other id
    lastNonUndoable: nat                  // `last_non_undoable_block_num`
  ) {
    function HeadNum(): nat { |chain| }

    function HeadId(): BlockId { Tip(chain) }

    function BlockIdForNum(num: nat): Option<BlockId> {
      if 1 <= num <= |chain| then Some(chain[num - 1]) else None
    }

    /** `blockIsInOurChain` */
    predicate OnChain(id: BlockId) {
      BlockIdForNum(id.num) == Some(id)
    }
  }

  /** A path from `fork[0]` through its ancestors back to a block of the main chain, or to zero. */
  ghost predicate IsForkHistory(tree: BlockTree, v: View, fork: seq<BlockId>) {
    && |fork| >= 2
    && (forall i :: 0 <= i < |fork| - 1 ==> fork[i] in tree && tree[fork[i]] == fork[i + 1])
    && (fork[|fork| - 1] == ZERO_ID || v.OnChain(fork[|fork| - 1]))
  }

  ghost predicate ValidView(tree: BlockTree, v: View) {
    && WellFormed(tree)
    && Linked(tree, v.chain)
    && (forall i :: 0 <= i < |v.chain| ==> v.chain[i] in v.known)
    && (forall id :: id in v.forks ==> IsForkHistory(tree, v, v.forks[id]) && v.forks[id][0] == id)
    && v.lastNonUndoable <= v.HeadNum() < MODULUS
  }

  /** The database of one node.  `tree` is the ghost record of which block each id is the hash of. */
  class ChainDatabase {
    ghost const tree: BlockTree
    var view: View

    constructor (ghost tree: BlockTree, view: View)
      requires ValidView(tree, view)
      ensures this.tree == tree && this.view == view
    {
      this.tree := tree;
      this.view := view;
    }

    ghost predicate Valid()
      reads this
    {
      ValidView(tree, view)
    }
  }
}
