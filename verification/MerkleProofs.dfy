// What the paths of a Merkle tree prove: they fold to the root, they name the position, and for
// an injective hash nothing else folds to the root at that position.
module MerkleProofs {
  import opened MerkleTrees
  import Numerals

  function Combine(hash: Hash, node: Field, sibling: Field, bit: int): Field {
    if bit == 0 then hash(node, sibling) else hash(sibling, node)
  }

  // Folding a leaf with its siblings in the order the indices say.
  function Fold(hash: Hash, leaf: Field, siblings: seq<Field>, bits: seq<int>): Field
    requires |siblings| == |bits|
    decreases siblings
  {
    if siblings == [] then leaf
    else Fold(hash, Combine(hash, leaf, siblings[0], bits[0]), siblings[1..], bits[1..])
  }

  // The same fold driven by a position, as the tree's own test recomputes a root.
  function FoldAt(hash: Hash, leaf: Field, index: nat, siblings: seq<Field>): Field
    decreases siblings
  {
    if siblings == [] then leaf
    else FoldAt(hash, Combine(hash, leaf, siblings[0], index % 2), index / 2, siblings[1..])
  }

  // The position a list of path indices spells, least significant bit first.
  function Position(bits: seq<int>): int {
    if bits == [] then 0 else bits[0] + 2 * Position(bits[1..])
  }

  lemma {:induction false} AncestorBelow(index: nat, level: nat)
    ensures Ancestor(index, level) * Pow2(level) <= index
  {
    if level > 0 {
      AncestorBelow(index, level - 1);
      HalvedProduct(Ancestor(index, level - 1), Pow2(level - 1));
    }
  }

  lemma HalvedProduct(a: nat, p: nat)
    ensures (a / 2) * (2 * p) <= a * p
  {
    var half := a / 2;
    Numerals.MulMono(p, 2 * half, a);
    assert half * (2 * p) == (2 * half) * p;
  }

  lemma {:induction false} AncestorAtTop(index: nat, height: nat)
    requires index < Pow2(height)
    ensures Ancestor(index, height) == 0
  {
    AncestorBelow(index, height);
    if Ancestor(index, height) > 0 {
      Numerals.MulMono(Pow2(height), 1, Ancestor(index, height));
    }
  }

  lemma {:induction false} AncestorOfHalf(index: nat, level: nat)
    ensures Ancestor(index / 2, level) == Ancestor(index, level + 1)
  {
    if level > 0 {
      AncestorOfHalf(index, level - 1);
    }
  }

  // An ancestor and its sibling are the two children of the next ancestor.
  lemma ParentOfSiblings(hash: Hash, leaves: seq<Field>, level: nat, i: nat)
    ensures Combine(hash, SubtreeRoot(hash, leaves, level, i), SubtreeRoot(hash, leaves, level, Sibling(i)), i % 2)
         == SubtreeRoot(hash, leaves, level + 1, i / 2)
  {
    SubtreeStep(hash, leaves, level, i / 2);
  }

  lemma {:induction false} FoldFrom(hash: Hash, height: nat, leaves: seq<Field>, index: nat, p: MerklePath, level: nat)
    requires PathOf(hash, height, leaves, index, p) && index < 0x8000_0000 && level <= height
    ensures Fold(hash, SubtreeRoot(hash, leaves, level, Ancestor(index, level)), p.pathElements[level..], p.pathIndices[level..])
         == SubtreeRoot(hash, leaves, height, Ancestor(index, height))
    decreases height - level
  {
    if level < height {
      CursorIsAncestor(index, level);
      ParentOfSiblings(hash, leaves, level, Ancestor(index, level));
      FoldFrom(hash, height, leaves, index, p, level + 1);
      assert p.pathElements[level..][1..] == p.pathElements[level + 1..];
      assert p.pathIndices[level..][1..] == p.pathIndices[level + 1..];
    }
  }

  /** Every path folds its leaf to the root it carries. */
  lemma PathFoldsToRoot(hash: Hash, height: nat, leaves: seq<Field>, index: nat, p: MerklePath)
    requires PathOf(hash, height, leaves, index, p)
    requires index < |leaves| <= Pow2(height) && index < 0x8000_0000
    ensures Fold(hash, leaves[index], p.pathElements, p.pathIndices) == p.root == PaddedRoot(hash, height, leaves)
  {
    FoldFrom(hash, height, leaves, index, p, 0);
    AncestorAtTop(index, height);
    assert Pow2(0) == 1 && SubtreeRoot(hash, leaves, 0, index) == leaves[index];
    assert p.pathElements[0..] == p.pathElements && p.pathIndices[0..] == p.pathIndices;
  }

  lemma {:induction false} PositionFrom(hash: Hash, height: nat, leaves: seq<Field>, index: nat, p: MerklePath, level: nat)
    requires PathOf(hash, height, leaves, index, p) && level <= height
    requires index < 0x8000_0000 && index < Pow2(height)
    ensures Position(p.pathIndices[level..]) == Ancestor(index, level)
    decreases height - level
  {
    if level < height {
      CursorIsAncestor(index, level);
      PositionFrom(hash, height, leaves, index, p, level + 1);
      assert p.pathIndices[level..][1..] == p.pathIndices[level + 1..];
    } else {
      AncestorAtTop(index, height);
    }
  }

  // Past the first shift the index variable is a 32-bit integer, and what the remaining
  // indices spell never exceeds it; a negative one spells nothing positive.
  lemma {:induction false} PositionBound(hash: Hash, height: nat, leaves: seq<Field>, index: nat, p: MerklePath, level: nat)
    requires PathOf(hash, height, leaves, index, p) && 0 < level <= height
    ensures Position(p.pathIndices[level..]) <= (if Cursor(index, level) > 0 then Cursor(index, level) else 0)
    decreases height - level
  {
    if level < height {
      var c := Cursor(index, level);
      assert ToInt32(c) == c;
      PositionBound(hash, height, leaves, index, p, level + 1);
      assert p.pathIndices[level..][1..] == p.pathIndices[level + 1..];
    }
  }

  /** The path indices spell the leaf's position exactly when the position fits in 31 bits. */
  lemma IndicesSpellPosition(hash: Hash, height: nat, leaves: seq<Field>, index: nat, p: MerklePath)
    requires PathOf(hash, height, leaves, index, p)
    requires index < |leaves| <= Pow2(height)
    ensures Position(p.pathIndices) == index <==> index < 0x8000_0000
  {
    assert p.pathIndices[0..] == p.pathIndices;
    if index < 0x8000_0000 {
      PositionFrom(hash, height, leaves, index, p, 0);
    } else {
      assert height > 0;
      PositionBound(hash, height, leaves, index, p, 1);
      assert p.pathIndices[0] == index % 2;
    }
  }

  // At the deployed height every position is in that range.
  lemma DeployedHeightFits()
    ensures Pow2(MERKLE_TREE_HEIGHT) == 67_108_864
  {
    assert Pow2(10) == 1024;
    assert Pow2(20) == 1024 * 1024;
  }

  ghost predicate Injective(hash: Hash) {
    forall a, b, c, d :: hash(a, b) == hash(c, d) ==> a == c && b == d
  }

  // Such hashes exist: a number between s * s and (s + 1) * (s + 1) names the sum s, and what is left
  // the first of the pair.
  function Pairing(a: Field, b: Field): Field {
    (a + b) * (a + b) + a
  }

  lemma SumIsNamed(a: nat, b: nat, c: nat, d: nat)
    requires a + b < c + d
    ensures Pairing(a, b) < Pairing(c, d)
  {
    var s, t := a + b, c + d;
    Numerals.MulMono(t, s + 1, t);
    Numerals.MulMono(s + 1, s + 1, t);
    assert (s + 1) * (s + 1) == s * s + 2 * s + 1;
  }

  lemma InjectiveHashExists()
    ensures Injective(Pairing)
  {
    forall a, b, c, d | Pairing(a, b) == Pairing(c, d)
      ensures a == c && b == d
    {
      if a + b < c + d {
        SumIsNamed(a, b, c, d);
      } else if c + d < a + b {
        SumIsNamed(c, d, a, b);
      }
    }
  }

  // The siblings met on the way up from the i-th node of a level.
  ghost predicate SiblingsFrom(hash: Hash, leaves: seq<Field>, level: nat, i: nat, siblings: seq<Field>) {
    forall l :: 0 <= l < |siblings| ==>
      siblings[l] == SubtreeRoot(hash, leaves, level + l, Sibling(Ancestor(i, l)))
  }

  lemma SiblingsCons(hash: Hash, leaves: seq<Field>, level: nat, i: nat, siblings: seq<Field>)
    requires |siblings| > 0 && siblings[0] == SubtreeRoot(hash, leaves, level, Sibling(i))
    requires SiblingsFrom(hash, leaves, level + 1, i / 2, siblings[1..])
    ensures SiblingsFrom(hash, leaves, level, i, siblings)
  {
    forall l | 0 < l < |siblings|
      ensures siblings[l] == SubtreeRoot(hash, leaves, level + l, Sibling(Ancestor(i, l)))
    {
      AncestorOfHalf(i, l - 1);
      assert siblings[l] == siblings[1..][l - 1];
    }
  }

  lemma TopSubtree(hash: Hash, height: nat, leaves: seq<Field>)
    ensures SubtreeRoot(hash, leaves, height, 0) == PaddedRoot(hash, height, leaves)
  {
  }

  lemma CombineInjective(hash: Hash, node: Field, sibling: Field, node': Field, sibling': Field, bit: int)
    requires Injective(hash) && Combine(hash, node, sibling, bit) == Combine(hash, node', sibling', bit)
    ensures node == node' && sibling == sibling'
  {
  }

  lemma {:induction false} BindsFrom(hash: Hash, height: nat, leaves: seq<Field>, level: nat, node: Field, i: nat, siblings: seq<Field>)
    requires Injective(hash) && level <= height && |siblings| == height - level && i < Pow2(height - level)
    requires FoldAt(hash, node, i, siblings) == PaddedRoot(hash, height, leaves)
    ensures node == SubtreeRoot(hash, leaves, level, i) && SiblingsFrom(hash, leaves, level, i, siblings)
    decreases height - level
  {
    if level < height {
      var parent := Combine(hash, node, siblings[0], i % 2);
      BindsFrom(hash, height, leaves, level + 1, parent, i / 2, siblings[1..]);
      ParentOfSiblings(hash, leaves, level, i);
      CombineInjective(hash, node, siblings[0], SubtreeRoot(hash, leaves, level, i),
                       SubtreeRoot(hash, leaves, level, Sibling(i)), i % 2);
      SiblingsCons(hash, leaves, level, i, siblings);
    } else {
      TopSubtree(hash, height, leaves);
    }
  }

  /** Binding: with an injective hash, a leaf and siblings that fold to the root at a position are
      the (padded) leaf at that position and the siblings that `path` gives there. */
  lemma RootBindsLeaf(hash: Hash, height: nat, leaves: seq<Field>, leaf: Field, index: nat, siblings: seq<Field>)
    requires Injective(hash) && |siblings| == height && index < Pow2(height)
    requires FoldAt(hash, leaf, index, siblings) == PaddedRoot(hash, height, leaves)
    ensures leaf == LeafAt(leaves, index)
    ensures forall p | PathOf(hash, height, leaves, index, p) && index < 0x8000_0000 :: siblings == p.pathElements
  {
    BindsFrom(hash, height, leaves, 0, leaf, index, siblings);
    assert Pow2(0) == 1;
    forall p | PathOf(hash, height, leaves, index, p) && index < 0x8000_0000
      ensures siblings == p.pathElements
    {
      assert forall l :: 0 <= l < height ==> siblings[l] == p.pathElements[l];
    }
  }

  lemma {:induction false} FullRootInjective(hash: Hash, height: nat, xs: seq<Field>, ys: seq<Field>)
    requires Injective(hash) && |xs| == |ys| == Pow2(height)
    requires FullRoot(hash, height, xs) == FullRoot(hash, height, ys)
    ensures xs == ys
  {
    if height > 0 {
      var half := Pow2(height - 1);
      FullRootInjective(hash, height - 1, xs[..half], ys[..half]);
      FullRootInjective(hash, height - 1, xs[half..], ys[half..]);
      assert xs == xs[..half] + xs[half..] && ys == ys[..half] + ys[half..];
    } else {
      assert xs == [xs[0]] && ys == [ys[0]];
    }
  }

  /** Two leaf lists have the same root exactly when they differ only by trailing zero leaves. */
  lemma EqualRootsEqualLeaves(hash: Hash, height: nat, xs: seq<Field>, ys: seq<Field>)
    requires Injective(hash) && |xs| <= |ys| <= Pow2(height)
    ensures PaddedRoot(hash, height, xs) == PaddedRoot(hash, height, ys)
       <==> xs == ys[..|xs|] && forall i :: |xs| <= i < |ys| ==> ys[i] == MERKLE_ZERO
  {
    var n := Pow2(height);
    var wx, wy := Window(xs, 0, n), Window(ys, 0, n);
    if PaddedRoot(hash, height, xs) == PaddedRoot(hash, height, ys) {
      FullRootInjective(hash, height, wx, wy);
      assert forall i :: 0 <= i < |ys| ==> LeafAt(xs, i) == wx[i] == wy[i] == ys[i];
    }
    if xs == ys[..|xs|] && forall i :: |xs| <= i < |ys| ==> ys[i] == MERKLE_ZERO {
      assert wx == wy;
    }
  }
}
