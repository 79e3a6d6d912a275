// The incremental Merkle tree of the backend, which stores only the non-empty prefix of each
// layer, against the full tree over 2^height leaves padded with zero leaves.
module MerkleTrees {
  import opened Wrappers
  import Numerals

  // A field element; the original passes decimal strings.
  type Field = nat

  // Any two-input hash: nothing is assumed about it except where a lemma says so.
  type Hash = (Field, Field) -> Field

  const MERKLE_TREE_HEIGHT := 26
  const MERKLE_ZERO: Field := 0

  datatype MerkleError = BadHeight | TreeFull | IndexOutOfBounds | NotContiguous | BadField

  datatype MerklePath = MerklePath(root: Field, pathElements: seq<Field>, pathIndices: seq<int>)

  function Pow2(n: nat): (p: nat)
    ensures p > 0
  {
    if n == 0 then 1 else 2 * Pow2(n - 1)
  }

  /** The simple form: a complete binary tree over exactly 2^height leaves, hashed top down. */
  function FullRoot(hash: Hash, height: nat, ls: seq<Field>): Field
    requires |ls| == Pow2(height)
  {
    if height == 0 then ls[0]
    else
      var half := Pow2(height - 1);
      hash(FullRoot(hash, height - 1, ls[..half]), FullRoot(hash, height - 1, ls[half..]))
  }

  // A missing leaf counts as the zero leaf.
  function LeafAt(leaves: seq<Field>, i: nat): Field {
    if i < |leaves| then leaves[i] else MERKLE_ZERO
  }

  // The n leaves from position `from`, padded.
  function Window(leaves: seq<Field>, from: nat, n: nat): (w: seq<Field>)
    ensures |w| == n && forall k :: 0 <= k < n ==> w[k] == LeafAt(leaves, from + k)
  {
    seq<Field>(n, (k: int) requires 0 <= k => LeafAt(leaves, from + k))
  }

  function PaddedRoot(hash: Hash, height: nat, leaves: seq<Field>): Field {
    FullRoot(hash, height, Window(leaves, 0, Pow2(height)))
  }

  // The root of the i-th full subtree of the given level.
  function SubtreeRoot(hash: Hash, leaves: seq<Field>, level: nat, i: nat): Field {
    FullRoot(hash, level, Window(leaves, i * Pow2(level), Pow2(level)))
  }

  lemma SubtreeStep(hash: Hash, leaves: seq<Field>, level: nat, i: nat)
    ensures SubtreeRoot(hash, leaves, level + 1, i)
         == hash(SubtreeRoot(hash, leaves, level, 2 * i), SubtreeRoot(hash, leaves, level, 2 * i + 1))
  {
    var half := Pow2(level);
    assert i * Pow2(level + 1) == 2 * i * half && (2 * i + 1) * half == 2 * i * half + half;
    var w := Window(leaves, i * Pow2(level + 1), Pow2(level + 1));
    assert w[..half] == Window(leaves, 2 * i * half, half);
    assert w[half..] == Window(leaves, (2 * i + 1) * half, half);
  }

  function ZeroRoot(hash: Hash, level: nat): Field {
    if level == 0 then MERKLE_ZERO else hash(ZeroRoot(hash, level - 1), ZeroRoot(hash, level - 1))
  }

  // Half of a count, rounded up.
  function HalfUp(n: nat): nat {
    (n + 1) / 2
  }

  // The number of stored nodes on a level: the leaf count over 2^level, rounded up.
  function NodeCount(n: nat, level: nat): nat {
    if level == 0 then n else HalfUp(NodeCount(n, level - 1))
  }

  lemma {:induction false} NodeCountIsCeiling(n: nat, level: nat)
    ensures NodeCount(n, level) * Pow2(level) >= n
    ensures n > 0 ==> NodeCount(n, level) > 0 && (NodeCount(n, level) - 1) * Pow2(level) < n
    ensures n == 0 ==> NodeCount(n, level) == 0
  {
    if level > 0 {
      NodeCountIsCeiling(n, level - 1);
      HalvingStep(NodeCount(n, level - 1), Pow2(level - 1));
    }
  }

  lemma HalvingStep(c: nat, p: nat)
    ensures HalfUp(c) * (2 * p) >= c * p
    ensures c > 0 ==> (HalfUp(c) - 1) * (2 * p) <= (c - 1) * p
  {
    Numerals.MulMono(p, c, 2 * HalfUp(c));
    assert HalfUp(c) * (2 * p) == (2 * HalfUp(c)) * p;
    if c > 0 {
      Numerals.MulMono(p, 2 * HalfUp(c) - 2, c - 1);
      assert (HalfUp(c) - 1) * (2 * p) == (2 * HalfUp(c) - 2) * p;
    }
  }

  // Every subtree past the stored prefix is the zero subtree.
  lemma {:induction false} BeyondPrefix(hash: Hash, leaves: seq<Field>, level: nat, i: nat)
    requires i >= NodeCount(|leaves|, level)
    ensures SubtreeRoot(hash, leaves, level, i) == ZeroRoot(hash, level)
  {
    if level > 0 {
      BeyondPrefix(hash, leaves, level - 1, 2 * i);
      BeyondPrefix(hash, leaves, level - 1, 2 * i + 1);
      SubtreeStep(hash, leaves, level - 1, i);
    } else {
      assert Pow2(0) == 1;
    }
  }

  /** What a finished tree stores: on each level the exact prefix of the full tree's layer. */
  ghost predicate Layered(hash: Hash, leaves: seq<Field>, levels: nat, zeros: seq<Field>, layers: seq<seq<Field>>) {
    && |layers| == levels <= |zeros|
    && (forall l :: 0 <= l < |zeros| ==> zeros[l] == ZeroRoot(hash, l))
    && (forall l :: 0 <= l < levels ==> LayerExact(hash, leaves, l, layers[l]))
  }

  ghost predicate LayerExact(hash: Hash, leaves: seq<Field>, level: nat, layer: seq<Field>) {
    && |layer| == NodeCount(|leaves|, level)
    && forall i :: 0 <= i < |layer| ==> layer[i] == SubtreeRoot(hash, leaves, level, i)
  }

  // layer[k] ?? zero: an index outside the array, even a negative one, reads as missing.
  function NodeOr(layer: seq<Field>, k: int, zero: Field): Field {
    if 0 <= k < |layer| then layer[k] else zero
  }

  lemma NodeOrIsSubtree(hash: Hash, leaves: seq<Field>, level: nat, layer: seq<Field>, k: nat)
    requires LayerExact(hash, leaves, level, layer)
    ensures NodeOr(layer, k, ZeroRoot(hash, level)) == SubtreeRoot(hash, leaves, level, k)
  {
    if k >= |layer| {
      BeyondPrefix(hash, leaves, level, k);
    }
  }

  // ---- JavaScript's 32-bit integer operators, which `path` uses on the index ----

  function ToInt32(x: int): (w: int)
    ensures -0x8000_0000 <= w < 0x8000_0000
  {
    var m := x % 0x1_0000_0000;
    if m >= 0x8000_0000 then m - 0x1_0000_0000 else m
  }

  // x ^ 1
  function XorOne(x: int): int {
    var w := ToInt32(x);
    if w % 2 == 0 then w + 1 else w - 1
  }

  // x >> 1
  function ShiftRightOne(x: int): int {
    ToInt32(x) / 2
  }

  // x % 2, which takes the sign of x
  function RemTwo(x: int): int {
    if x >= 0 then x % 2 else -((-x) % 2)
  }

  /** What the operators do on any integer: the 32-bit word is the value in range that is congruent to
      it; exclusive-or changes its last bit and no other, the shift drops that bit, and a remainder
      has the sign of its dividend. */
  lemma WordOperators(x: int)
    ensures -0x8000_0000 <= ToInt32(x) < 0x8000_0000 && exists q :: x == ToInt32(x) + q * 0x1_0000_0000
    ensures XorOne(x) != ToInt32(x) && XorOne(x) / 2 == ToInt32(x) / 2
    ensures 2 * ShiftRightOne(x) == ToInt32(x) || 2 * ShiftRightOne(x) + 1 == ToInt32(x)
    ensures RemTwo(x) == 0 || (x > 0 && RemTwo(x) == 1) || (x < 0 && RemTwo(x) == -1)
    ensures RemTwo(x) == 0 <==> exists q :: x == 2 * q
  {
    Congruent(x);
    hide ToInt32;
    if RemTwo(x) == 0 {
      assert x == 2 * (x / 2);
    }
  }

  lemma Congruent(x: int)
    ensures exists q :: x == ToInt32(x) + q * 0x1_0000_0000
  {
    var q := x / 0x1_0000_0000;
    assert x == q * 0x1_0000_0000 + x % 0x1_0000_0000;
    assert x == ToInt32(x) + q * 0x1_0000_0000 || x == ToInt32(x) + (q + 1) * 0x1_0000_0000;
  }

  // The index variable of `path` at the start of a level.
  function Cursor(index: nat, level: nat): int {
    if level == 0 then index else ShiftRightOne(Cursor(index, level - 1))
  }

  // The position of the leaf's ancestor on a level.
  function Ancestor(index: nat, level: nat): nat {
    if level == 0 then index else Ancestor(index, level - 1) / 2
  }

  function Sibling(i: nat): nat {
    if i % 2 == 0 then i + 1 else i - 1
  }

  lemma {:induction false} CursorIsAncestor(index: nat, level: nat)
    requires index < 0x8000_0000
    ensures Cursor(index, level) == Ancestor(index, level) <= index
  {
    if level > 0 {
      CursorIsAncestor(index, level - 1);
    }
  }

  lemma XorOneIsSibling(i: nat)
    requires i < 0x8000_0000
    ensures XorOne(i) == Sibling(i)
  {
    assert ToInt32(i) == i;
  }

  class MerkleTree {
    const height: nat
    const hash: Hash
    var zeros: seq<Field>
    var layers: seq<seq<Field>>

    ghost predicate Valid()
      reads this
    {
      && height > 0
      && |zeros| == height + 1
      && |layers| == height + 1
      && |layers[0]| <= Pow2(height)
      && Layered(hash, layers[0], height + 1, zeros, layers)
    }

    function Leaves(): seq<Field>
      requires |layers| > 0
      reads this
    {
      layers[0]
    }

    constructor (height: nat, hash: Hash, leaves: seq<Field>)
      requires height > 0 && |leaves| <= Pow2(height)
      ensures Valid() && this.height == height && this.hash == hash && layers[0] == leaves
    {
      this.height := height;
      this.hash := hash;
      var zs := [MERKLE_ZERO];
      for level := 1 to height + 1
        invariant |zs| == level
        invariant forall l :: 0 <= l < level ==> zs[l] == ZeroRoot(hash, l)
      {
        zs := zs + [hash(zs[level - 1], zs[level - 1])];
      }
      zeros := zs;
      layers := [leaves];
      new;
      LayerZero(hash, leaves);
      Rebuild();
    }

    method Rebuild()
      requires height > 0 && |zeros| == height + 1 && |layers| == 1 && |layers[0]| <= Pow2(height)
      requires Layered(hash, layers[0], 1, zeros, layers)
      modifies this`layers
      ensures Valid() && layers[0] == old(layers[0])
    {
      ghost var leaves := layers[0];
      for level := 1 to height + 1
        invariant |layers| == level && layers[0] == leaves
        invariant Layered(hash, leaves, level, zeros, layers)
      {
        var previous, zero := layers[level - 1], zeros[level - 1];
        var layer := [];
        var parentCount := HalfUp(|previous|);
        assert LayerExact(hash, leaves, level - 1, previous) && zero == ZeroRoot(hash, level - 1);
        for i := 0 to parentCount
          modifies {}
          invariant |layer| == i
          invariant forall k :: 0 <= k < i ==> layer[k] == SubtreeRoot(hash, leaves, level, k)
        {
          ParentNode(hash, leaves, level - 1, previous, i);
          layer := layer + [hash(previous[i * 2], NodeOr(previous, i * 2 + 1, zero))];
        }
        LayeredAppend(hash, leaves, level, zeros, layers, layer);
        layers := layers + [layer];
      }
    }

    /** The stored root, or the zero root of an empty tree, is the root of the padded tree. */
    function Root(): (r: Field)
      requires Valid()
      reads this
      ensures r == PaddedRoot(hash, height, Leaves())
    {
      NodeOrIsSubtree(hash, layers[0], height, layers[height], 0);
      if |layers[height]| > 0 then layers[height][0] else zeros[height]
    }

    function NextIndex(): nat
      requires Valid()
      reads this
    {
      |layers[0]|
    }

    // The sibling the loop of `path` reads on a level.
    function SiblingNode(index: nat, level: nat): Field
      requires Valid() && level < height
      reads this
    {
      NodeOr(layers[level], XorOne(Cursor(index, level)), zeros[level])
    }

    lemma SiblingNodeIsSubtree(index: nat, level: nat)
      requires Valid() && level < height && index < 0x8000_0000
      ensures SiblingNode(index, level) == SubtreeRoot(hash, Leaves(), level, Sibling(Ancestor(index, level)))
    {
      CursorIsAncestor(index, level);
      XorOneIsSibling(Ancestor(index, level));
      NodeOrIsSubtree(hash, Leaves(), level, layers[level], Sibling(Ancestor(index, level)));
    }

    method Path(index: int) returns (r: Result<MerklePath, MerkleError>)
      requires Valid()
      ensures r.Success? <==> 0 <= index < |Leaves()|
      ensures r.Failure? ==> r.error == IndexOutOfBounds
      ensures r.Success? ==> PathOf(hash, height, Leaves(), index, r.value)
    {
      if index < 0 || index >= NextIndex() {
        return Failure(IndexOutOfBounds);
      }
      var currentIndex := index;
      var pathElements, pathIndices := [], [];
      for level := 0 to height
        invariant |pathElements| == |pathIndices| == level
        invariant currentIndex == Cursor(index, level)
        invariant forall l :: 0 <= l < level ==> pathIndices[l] == RemTwo(Cursor(index, l))
        invariant forall l :: 0 <= l < level ==> pathElements[l] == SiblingNode(index, l)
      {
        pathIndices := pathIndices + [RemTwo(currentIndex)];
        pathElements := pathElements + [NodeOr(layers[level], XorOne(currentIndex), zeros[level])];
        currentIndex := ShiftRightOne(currentIndex);
      }
      PathIsExact(index, pathElements, pathIndices);
      return Success(MerklePath(Root(), pathElements, pathIndices));
    }

    lemma PathIsExact(index: nat, pathElements: seq<Field>, pathIndices: seq<int>)
      requires Valid() && |pathElements| == |pathIndices| == height
      requires forall l :: 0 <= l < height ==> pathIndices[l] == RemTwo(Cursor(index, l))
      requires forall l :: 0 <= l < height ==> pathElements[l] == SiblingNode(index, l)
      ensures PathOf(hash, height, Leaves(), index, MerklePath(Root(), pathElements, pathIndices))
    {
      if index < 0x8000_0000 {
        forall l | 0 <= l < height
          ensures pathElements[l] == SubtreeRoot(hash, Leaves(), l, Sibling(Ancestor(index, l)))
        {
          SiblingNodeIsSubtree(index, l);
        }
      }
    }
  }

  /** What `path` answers for a leaf position: the root of the padded tree, the level-wise
      remainders of the index variable, and the siblings of the leaf's ancestors.  The siblings
      are right while the index fits in 31 bits, the range of JavaScript's `^` and `>>`. */
  ghost predicate PathOf(hash: Hash, height: nat, leaves: seq<Field>, index: nat, p: MerklePath) {
    && p.root == PaddedRoot(hash, height, leaves)
    && |p.pathElements| == height
    && |p.pathIndices| == height
    && (forall l :: 0 <= l < height ==> p.pathIndices[l] == RemTwo(Cursor(index, l)))
    && (index < 0x8000_0000 ==>
          forall l :: 0 <= l < height ==>
            p.pathElements[l] == SubtreeRoot(hash, leaves, l, Sibling(Ancestor(index, l))))
  }

  // What one step of the inner loop of the rebuild writes.
  lemma ParentNode(hash: Hash, leaves: seq<Field>, level: nat, layer: seq<Field>, i: nat)
    requires LayerExact(hash, leaves, level, layer) && i < HalfUp(|layer|)
    ensures hash(layer[i * 2], NodeOr(layer, i * 2 + 1, ZeroRoot(hash, level)))
         == SubtreeRoot(hash, leaves, level + 1, i)
  {
    NodeOrIsSubtree(hash, leaves, level, layer, 2 * i + 1);
    SubtreeStep(hash, leaves, level, i);
  }

  lemma LayeredAppend(hash: Hash, leaves: seq<Field>, levels: nat, zeros: seq<Field>,
                      layers: seq<seq<Field>>, layer: seq<Field>)
    requires Layered(hash, leaves, levels, zeros, layers) && levels < |zeros|
    requires LayerExact(hash, leaves, levels, layer)
    ensures Layered(hash, leaves, levels + 1, zeros, layers + [layer])
  {
  }

  lemma LayerZero(hash: Hash, leaves: seq<Field>)
    ensures LayerExact(hash, leaves, 0, leaves)
  {
    assert Pow2(0) == 1;
  }

  /** `new MerkleTree(height, hasher, leaves)` with its two error checks. */
  method NewMerkleTree(height: int, hash: Hash, leaves: seq<Field>) returns (r: Result<MerkleTree, MerkleError>)
    ensures r.Success? <==> height > 0 && |leaves| <= Pow2(height)
    ensures r.Success? ==> fresh(r.value) && r.value.Valid() && r.value.Leaves() == leaves
    ensures r.Success? ==> r.value.height == height && r.value.hash == hash
    ensures r.Failure? ==> r.error == (if height <= 0 then BadHeight else TreeFull)
  {
    if height <= 0 {
      return Failure(BadHeight);
    }
    if |leaves| > Pow2(height) {
      return Failure(TreeFull);
    }
    var tree := new MerkleTree(height, hash, leaves);
    return Success(tree);
  }
}
