/**
 Blocks as the chain's hash function lays them out: an id fixes its block's parent, and carries the
 block's number, which is one more than the parent's.
 */
module BlockTree {
  import opened Uint32

  /** A block id: `num` is what `num_from_id` reads off it, `digest` the rest of the hash. */
  datatype BlockId = BlockId(num: uint32, digest: nat)

  /** The all-zero id, which stands for "before the first block". */
  const ZERO_ID := BlockId(0, 0)

  /** A block, reduced to its own id and the id of the block it follows. */
  datatype Block = Block(id: BlockId, previous: BlockId)

  /** The parent of every block there is; being one map, it gives each id a single parent. */
  type BlockTree = map<BlockId, BlockId>

  ghost predicate WellFormed(tree: BlockTree) {
    forall id :: id in tree ==> id.num == tree[id].num + 1
  }

  /** The block before position `i` of a path that grows out of `base`. */
  function Before(base: BlockId, path: seq<BlockId>, i: nat): BlockId
    requires i <= |path|
  {
    if i == 0 then base else path[i - 1]
  }

  /** Whether each block's parent is the one before it, and the first one's is `base`. */
  ghost predicate LinkedFrom(tree: BlockTree, base: BlockId, path: seq<BlockId>) {
    forall i :: 0 <= i < |path| ==> path[i] in tree && tree[path[i]] == Before(base, path, i)
  }

  /** Whether `path` leads from a first block through parents and children. */
  ghost predicate Linked(tree: BlockTree, path: seq<BlockId>) {
    LinkedFrom(tree, ZERO_ID, path)
  }

  /** The id of the last block of a path, zero if there is none. */
  function Tip(path: seq<BlockId>): BlockId {
    Before(ZERO_ID, path, |path|)
  }

  /** Positions on a linked path are block numbers. */
  lemma {:induction false} LinkedNumbers(tree: BlockTree, path: seq<BlockId>, i: nat)
    requires WellFormed(tree) && Linked(tree, path) && i < |path|
    ensures path[i].num == i + 1
  {
    if i > 0 {
      LinkedNumbers(tree, path, i - 1);
    }
  }

  lemma AllLinkedNumbers(tree: BlockTree, path: seq<BlockId>)
    requires WellFormed(tree) && Linked(tree, path)
    ensures forall i :: 0 <= i < |path| ==> path[i].num == i + 1
    ensures |path| < MODULUS
  {
    forall i | 0 <= i < |path|
      ensures path[i].num == i + 1
    {
      LinkedNumbers(tree, path, i);
    }
    if |path| > 0 {
      assert path[|path| - 1].num == |path|;
    }
  }

  /** What comes before position `i` of a path has number `i`. */
  lemma BeforeNumber(tree: BlockTree, path: seq<BlockId>, i: nat)
    requires WellFormed(tree) && Linked(tree, path) && i <= |path|
    ensures Before(ZERO_ID, path, i).num == i
  {
    if i > 0 {
      LinkedNumbers(tree, path, i - 1);
    }
  }

  /** Two linked paths that meet at a number have met at every number below it. */
  lemma {:induction false} SharedBelow(tree: BlockTree, p: seq<BlockId>, q: seq<BlockId>, len: nat)
    requires Linked(tree, p) && Linked(tree, q)
    requires len <= |p| && len <= |q| && Before(ZERO_ID, p, len) == Before(ZERO_ID, q, len)
    ensures p[..len] == q[..len]
  {
    if len > 0 {
      SharedBelow(tree, p, q, len - 1);
      assert p[..len] == p[..len - 1] + [p[len - 1]];
      assert q[..len] == q[..len - 1] + [q[len - 1]];
    }
  }

  lemma PrefixIsLinked(tree: BlockTree, path: seq<BlockId>, len: nat)
    requires Linked(tree, path) && len <= |path|
    ensures Linked(tree, path[..len])
  {
  }

  /** A branch that grows out of a linked path's last block prolongs the path. */
  lemma BranchIsLinked(tree: BlockTree, path: seq<BlockId>, branch: seq<BlockId>)
    requires Linked(tree, path) && LinkedFrom(tree, Tip(path), branch)
    ensures Linked(tree, path + branch)
  {
    var all := path + branch;
    forall i | 0 <= i < |all|
      ensures all[i] in tree && tree[all[i]] == Before(ZERO_ID, all, i)
    {
      if i < |path| {
        assert all[i] == path[i] && Before(ZERO_ID, all, i) == Before(ZERO_ID, path, i);
      } else {
        assert Before(ZERO_ID, all, i) == Before(Tip(path), branch, i - |path|);
      }
    }
  }

  /** There is only one linked path to a block. */
  lemma PathIsUnique(tree: BlockTree, p: seq<BlockId>, q: seq<BlockId>)
    requires WellFormed(tree) && Linked(tree, p) && Linked(tree, q)
    requires Tip(p) == Tip(q)
    ensures p == q
  {
    hide LinkedFrom, WellFormed;
    BeforeNumber(tree, p, |p|);
    BeforeNumber(tree, q, |q|);
    SharedBelow(tree, p, q, |p|);
    assert p[..|p|] == p && q[..|q|] == q;
  }

  /** The highest number at which two paths hold the same block; zero if there is none. */
  function HighestShared(p: seq<BlockId>, q: seq<BlockId>): (c: nat)
    ensures c <= |p| && c <= |q|
    ensures c > 0 ==> p[c - 1] == q[c - 1]
    ensures forall i :: c <= i < |p| && i < |q| ==> p[i] != q[i]
    decreases |p|
  {
    if p == [] then 0
    else if |p| <= |q| && p[|p| - 1] == q[|p| - 1] then |p|
    else HighestShared(p[..|p| - 1], q)
  }

  /** The paths agree exactly up to the highest shared number. */
  lemma SharedExactly(tree: BlockTree, p: seq<BlockId>, q: seq<BlockId>, num: nat)
    requires Linked(tree, p) && Linked(tree, q) && 1 <= num <= |p|
    ensures num <= |q| && p[num - 1] == q[num - 1] <==> num <= HighestShared(p, q)
  {
    var c := HighestShared(p, q);
    SharedBelow(tree, p, q, c);
    if num <= c {
      assert p[num - 1] == p[..c][num - 1] && q[num - 1] == q[..c][num - 1];
    }
  }
}
