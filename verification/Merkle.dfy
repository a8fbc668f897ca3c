/** Right-sparse Merkle trees, their proofs, and the bottom-up SSZ merkleization they must agree with.

    The hash is a parameter. Soundness is stated without assuming it injective: from an
    accepted proof of a wrong leaf, `Extract` computes two different inputs with one hash. */
module Merkle {
  import opened Bytes
  import opened Wrappers

  datatype Hasher<!W> = Hasher(combine: (W, W) -> W, zero: W)

  datatype Tree<W> =
    | Finalized(hash: W)
    | Leaf(hash: W)
    | Node(hash: W, left: Tree<W>, right: Tree<W>)
    | Zero(depth: nat)

  datatype Error =
    | LeafReached
    | MerkleTreeFull
    | Invalid
    | DepthTooSmall
    | FinalizedNodePushed
    | ProofEncounteredFinalizedNode
    | Panic

  type MerkleResult<T> = Result<T, Error>

  function ZeroHash<W>(hs: Hasher<W>, depth: nat): W
  {
    if depth == 0 then hs.zero
    else hs.combine(ZeroHash(hs, depth - 1), ZeroHash(hs, depth - 1))
  }

  function TreeHash<W>(hs: Hasher<W>, t: Tree<W>): W
  {
    match t
    case Finalized(h) => h
    case Leaf(h) => h
    case Node(h, _, _) => h
    case Zero(d) => ZeroHash(hs, d)
  }

  function MakeNode<W>(hs: Hasher<W>, left: Tree<W>, right: Tree<W>): Tree<W>
  {
    Node(hs.combine(TreeHash(hs, left), TreeHash(hs, right)), left, right)
  }

  function Create<W>(hs: Hasher<W>, leaves: seq<W>, depth: nat): Tree<W>
    requires |leaves| <= Pow2(depth)
    decreases depth
  {
    if leaves == [] then Zero(depth)
    else if depth == 0 then Leaf(leaves[0])
    else
      var (l, r) := Split(leaves, depth - 1);
      MakeNode(hs, Create(hs, l, depth - 1), Create(hs, r, depth - 1))
  }

  /** The leaves of the left and of the right subtree, each of the given depth. */
  function Split<W>(leaves: seq<W>, depth: nat): (halves: (seq<W>, seq<W>))
    requires |leaves| <= Pow2(depth + 1)
    ensures leaves == halves.0 + halves.1
    ensures |halves.0| <= Pow2(depth) && |halves.1| <= Pow2(depth)
    ensures |halves.0| == Pow2(depth) || halves.1 == []
  {
    var capacity := Pow2(depth);
    if |leaves| <= capacity then (leaves, []) else (leaves[..capacity], leaves[capacity..])
  }

  // --- Agreement with SSZ merkleization ("Merkleization" in the SSZ specification) ---

  /** One layer of hashing: neighbours are combined. */
  function PairUp<W>(hs: Hasher<W>, chunks: seq<W>): (up: seq<W>)
    requires |chunks| % 2 == 0
    ensures |up| == |chunks| / 2
  {
    if chunks == [] then [] else [hs.combine(chunks[0], chunks[1])] + PairUp(hs, chunks[2..])
  }

  lemma {:induction false} PairUpAt<W>(hs: Hasher<W>, chunks: seq<W>, k: nat)
    requires |chunks| % 2 == 0 && 2 * k < |chunks|
    ensures PairUp(hs, chunks)[k] == hs.combine(chunks[2 * k], chunks[2 * k + 1])
  {
    if k > 0 {
      PairUpAt(hs, chunks[2..], k - 1);
    }
  }

  lemma {:induction false} PairUpConcat<W>(hs: Hasher<W>, a: seq<W>, b: seq<W>)
    requires |a| % 2 == 0 && |b| % 2 == 0
    ensures PairUp(hs, a + b) == PairUp(hs, a) + PairUp(hs, b)
  {
    if a == [] {
      assert a + b == b;
    } else {
      assert (a + b)[2..] == a[2..] + b;
      PairUpConcat(hs, a[2..], b);
    }
  }

  function Merkleize<W>(hs: Hasher<W>, chunks: seq<W>, depth: nat): W
    requires |chunks| == Pow2(depth)
    decreases depth
  {
    if depth == 0 then chunks[0] else Merkleize(hs, PairUp(hs, chunks), depth - 1)
  }

  lemma MerkleizeLayer<W>(hs: Hasher<W>, chunks: seq<W>, depth: nat)
    requires |chunks| == Pow2(depth + 1)
    ensures Merkleize(hs, chunks, depth + 1) == Merkleize(hs, PairUp(hs, chunks), depth)
  {
  }

  lemma MerkleizeOne<W>(hs: Hasher<W>, chunks: seq<W>)
    requires |chunks| == Pow2(0)
    ensures Merkleize(hs, chunks, 0) == chunks[0]
  {
  }

  function Pad<W>(hs: Hasher<W>, leaves: seq<W>, depth: nat): (chunks: seq<W>)
    requires |leaves| <= Pow2(depth)
    ensures |chunks| == Pow2(depth)
  {
    leaves + seq(Pow2(depth) - |leaves|, _ => hs.zero)
  }

  lemma {:induction false} MerkleizeHalves<W>(hs: Hasher<W>, a: seq<W>, b: seq<W>, depth: nat)
    requires |a| == |b| == Pow2(depth)
    ensures Merkleize(hs, a + b, depth + 1) == hs.combine(Merkleize(hs, a, depth), Merkleize(hs, b, depth))
    decreases depth
  {
    if depth > 0 {
      PairUpConcat(hs, a, b);
      MerkleizeHalves(hs, PairUp(hs, a), PairUp(hs, b), depth - 1);
    }
  }

  /** The tree built top-down has the root of the padded chunks hashed bottom-up. */
  lemma {:induction false} CreateIsMerkleize<W>(hs: Hasher<W>, leaves: seq<W>, depth: nat)
    requires |leaves| <= Pow2(depth)
    ensures TreeHash(hs, Create(hs, leaves, depth)) == Merkleize(hs, Pad(hs, leaves, depth), depth)
    decreases depth
  {
    hide Create, Merkleize, Pad;
    CreateShape(hs, leaves, depth);
    if leaves == [] {
      ZeroIsMerkleize(hs, depth);
    } else if depth == 0 {
      SingleChunk(hs, leaves);
    } else {
      var (l, r) := Split(leaves, depth - 1);
      CreateNode(hs, l, r, depth - 1);
      CreateIsMerkleize(hs, l, depth - 1);
      CreateIsMerkleize(hs, r, depth - 1);
      MerkleizePadded(hs, leaves, l, r, depth - 1);
    }
  }

  lemma SingleChunk<W>(hs: Hasher<W>, leaves: seq<W>)
    requires |leaves| == 1
    ensures TreeHash(hs, Create(hs, leaves, 0)) == Merkleize(hs, Pad(hs, leaves, 0), 0)
  {
  }

  lemma {:induction false} ZeroIsMerkleize<W>(hs: Hasher<W>, depth: nat)
    ensures ZeroHash(hs, depth) == Merkleize(hs, Pad(hs, [], depth), depth)
  {
    if depth > 0 {
      ZeroIsMerkleize(hs, depth - 1);
      MerkleizePadded(hs, [], [], [], depth - 1);
    }
  }

  lemma MerkleizePadded<W>(hs: Hasher<W>, leaves: seq<W>, l: seq<W>, r: seq<W>, depth: nat)
    requires |l| <= Pow2(depth) && |r| <= Pow2(depth) && leaves == l + r
    requires |l| == Pow2(depth) || r == []
    ensures Merkleize(hs, Pad(hs, leaves, depth + 1), depth + 1) ==
            hs.combine(Merkleize(hs, Pad(hs, l, depth), depth), Merkleize(hs, Pad(hs, r, depth), depth))
  {
    assert Pad(hs, leaves, depth + 1) == Pad(hs, l, depth) + Pad(hs, r, depth);
    MerkleizeHalves(hs, Pad(hs, l, depth), Pad(hs, r, depth), depth);
  }

  // --- Pushing leaves one at a time ---

  function PushLeaf<W>(hs: Hasher<W>, t: Tree<W>, elem: W, depth: nat): MerkleResult<Tree<W>>
    decreases depth
  {
    if depth == 0 then Err(DepthTooSmall)
    else
      match t
      case Leaf(_) => Err(LeafReached)
      case Zero(_) => Ok(Create(hs, [elem], depth))
      case Finalized(_) => Err(FinalizedNodePushed)
      case Node(_, left, right) =>
        if (left.Leaf? || left.Finalized?) && right.Leaf? then Err(MerkleTreeFull)
        else if (left.Node? || left.Finalized?) && right.Node? then
          match PushLeaf(hs, right, elem, depth - 1)
          case Err(e) => Err(e)
          case Ok(r) => Ok(MakeNode(hs, left, r))
        else if left.Zero? && right.Zero? then Ok(MakeNode(hs, Create(hs, [elem], depth - 1), right))
        else if (left.Leaf? || left.Finalized?) && right.Zero? then
          Ok(MakeNode(hs, left, Create(hs, [elem], depth - 1)))
        else if left.Node? && right.Zero? then
          match PushLeaf(hs, left, elem, depth - 1)
          case Ok(l) => Ok(MakeNode(hs, l, right))
          case Err(e) =>
            if e.MerkleTreeFull? then Ok(MakeNode(hs, left, Create(hs, [elem], depth - 1))) else Err(e)
        else Err(Invalid)
  }

  /** Pushing is appending: the tree of the longer list, or full at exactly `2^depth` leaves. */
  lemma {:induction false} PushLeafAppends<W>(hs: Hasher<W>, leaves: seq<W>, elem: W, depth: nat)
    requires |leaves| <= Pow2(depth)
    ensures PushLeaf(hs, Create(hs, leaves, depth), elem, depth) ==
            if depth == 0 then Err(DepthTooSmall)
            else if |leaves| == Pow2(depth) then Err(MerkleTreeFull)
            else Ok(Create(hs, leaves + [elem], depth))
    decreases depth
  {
    hide Create, PushLeaf;
    if depth == 0 {
      PushAtDepthZero(hs, Create(hs, leaves, depth), elem);
    } else if leaves == [] {
      PushFirst(hs, elem, depth);
      assert leaves + [elem] == [elem];
    } else {
      var (l, r) := Split(leaves, depth - 1);
      if depth > 1 {
        PushLeafAppends(hs, l, elem, depth - 1);
        PushLeafAppends(hs, r, elem, depth - 1);
      }
      if r == [] && |l| < Pow2(depth - 1) {
        PushLeft(hs, l, elem, depth - 1);
        assert l + [] == leaves && l + [elem] + [] == leaves + [elem];
      } else {
        PushRight(hs, l, r, elem, depth - 1);
        assert l + (r + [elem]) == leaves + [elem];
      }
    }
  }

  /** What is no tree of leaves is refused, each case with its own error. */
  lemma PushLeafRefused<W>(hs: Hasher<W>, t: Tree<W>, elem: W, depth: nat)
    requires depth > 0
    ensures t.Leaf? ==> PushLeaf(hs, t, elem, depth) == Err(LeafReached)
    ensures t.Finalized? ==> PushLeaf(hs, t, elem, depth) == Err(FinalizedNodePushed)
    ensures t.Node? && t.left.Zero? && !t.right.Zero? ==> PushLeaf(hs, t, elem, depth) == Err(Invalid)
    ensures t.Node? && t.right.Finalized? ==> PushLeaf(hs, t, elem, depth) == Err(Invalid)
  {
  }

  lemma PushAtDepthZero<W>(hs: Hasher<W>, t: Tree<W>, elem: W)
    ensures PushLeaf(hs, t, elem, 0) == Err(DepthTooSmall)
  {
  }

  lemma PushFirst<W>(hs: Hasher<W>, elem: W, depth: nat)
    requires depth > 0
    ensures PushLeaf(hs, Create(hs, [], depth), elem, depth) == Ok(Create(hs, [elem], depth))
  {
  }

  lemma PushLeft<W>(hs: Hasher<W>, l: seq<W>, elem: W, depth: nat)
    requires 0 < |l| < Pow2(depth)
    requires PushLeaf(hs, Create(hs, l, depth), elem, depth) == Ok(Create(hs, l + [elem], depth))
    ensures PushLeaf(hs, Create(hs, l + [], depth + 1), elem, depth + 1) ==
            Ok(Create(hs, l + [elem] + [], depth + 1))
  {
    CreateNode(hs, l, [], depth);
    CreateNode(hs, l + [elem], [], depth);
    hide Create;
    CreateShape(hs, l, depth);
    CreateShape(hs, [], depth);
  }

  lemma PushRight<W>(hs: Hasher<W>, l: seq<W>, r: seq<W>, elem: W, depth: nat)
    requires |r| <= |l| == Pow2(depth)
    requires depth > 0 ==> PushLeaf(hs, Create(hs, l, depth), elem, depth) == Err(MerkleTreeFull)
    requires depth > 0 ==> PushLeaf(hs, Create(hs, r, depth), elem, depth) ==
                           if |r| == Pow2(depth) then Err(MerkleTreeFull) else Ok(Create(hs, r + [elem], depth))
    ensures PushLeaf(hs, Create(hs, l + r, depth + 1), elem, depth + 1) ==
            if |r| == Pow2(depth) then Err(MerkleTreeFull)
            else Ok(Create(hs, l + (r + [elem]), depth + 1))
  {
    CreateNode(hs, l, r, depth);
    if |r| < Pow2(depth) {
      CreateNode(hs, l, r + [elem], depth);
    }
    hide Create;
    CreateShape(hs, l, depth);
    CreateShape(hs, r, depth);
    if r == [] {
      assert r + [elem] == [elem];
    }
  }

  lemma CreateNode<W>(hs: Hasher<W>, l: seq<W>, r: seq<W>, depth: nat)
    requires l != [] && |l| <= Pow2(depth) && |r| <= Pow2(depth)
    requires |l| == Pow2(depth) || r == []
    ensures Create(hs, l + r, depth + 1) == MakeNode(hs, Create(hs, l, depth), Create(hs, r, depth))
  {
    assert Split(l + r, depth) == (l, r) by {
      if |l + r| <= Pow2(depth) {
        assert r == [] && l + r == l;
      }
    }
  }

  lemma CreateShape<W>(hs: Hasher<W>, leaves: seq<W>, depth: nat)
    requires |leaves| <= Pow2(depth)
    ensures var t := Create(hs, leaves, depth);
            if leaves == [] then t == Zero(depth) else if depth == 0 then t.Leaf? else t.Node?
  {
  }

  // --- Proofs ---

  /** `left_and_right_branches`, for the trees that have them. */
  predicate HasBranches<W>(t: Tree<W>)
  {
    t.Node? || (t.Zero? && t.depth > 0)
  }

  function LeftOf<W>(t: Tree<W>): Tree<W>
    requires HasBranches(t)
  {
    if t.Node? then t.left else Zero(t.depth - 1)
  }

  function RightOf<W>(t: Tree<W>): Tree<W>
    requires HasBranches(t)
  {
    if t.Node? then t.right else Zero(t.depth - 1)
  }

  /** The leaf at `index` and its siblings from the leaf upwards. */
  function ProofFor<W>(hs: Hasher<W>, t: Tree<W>, index: nat, depth: nat): MerkleResult<(W, seq<W>)>
    decreases depth
  {
    if depth == 0 then Ok((TreeHash(hs, t), []))
    else if t.Finalized? then Err(ProofEncounteredFinalizedNode)
    else if !HasBranches(t) then Err(Panic)
    else
      var right := Bit(index, depth - 1);
      var (next, sibling) := if right then (RightOf(t), LeftOf(t)) else (LeftOf(t), RightOf(t));
      match ProofFor(hs, next, index, depth - 1)
      case Err(e) => Err(e)
      case Ok((leaf, proof)) => Ok((leaf, proof + [TreeHash(hs, sibling)]))
  }

  function Reverse<T>(s: seq<T>): seq<T>
  {
    if s == [] then [] else Reverse(s[1..]) + [s[0]]
  }

  lemma {:induction false} ReverseAppend<T>(s: seq<T>, x: T)
    ensures Reverse(s + [x]) == [x] + Reverse(s)
  {
    if s == [] {
      assert s + [x] == [x];
    } else {
      ReverseAppend(s[1..], x);
      assert (s + [x])[1..] == s[1..] + [x];
    }
  }

  /** `generate_proof`: siblings are pushed from the root down, then reversed. */
  method GenerateProof<W>(hs: Hasher<W>, t: Tree<W>, index: nat, depth: nat) returns (r: MerkleResult<(W, seq<W>)>)
    ensures r == ProofFor(hs, t, index, depth)
    ensures depth > 0 && t.Finalized? ==> r == Err(ProofEncounteredFinalizedNode)
  {
    var proof: seq<W> := [];
    var node := t;
    var d := depth;
    ghost var whole := ProofFor(hs, t, index, depth);
    assert whole.Ok? ==> whole.value.1 + Reverse(proof) == whole.value.1;
    while d > 0
      invariant ProofFor(hs, t, index, depth) ==
                match ProofFor(hs, node, index, d)
                case Err(e) => Err(e)
                case Ok((leaf, p)) => Ok((leaf, p + Reverse(proof)))
    {
      if node.Finalized? {
        return Err(ProofEncounteredFinalizedNode);
      }
      if !HasBranches(node) {
        return Err(Panic);
      }
      ghost var before := proof;
      if Bit(index, d - 1) {
        ReverseAppend(proof, TreeHash(hs, LeftOf(node)));
        proof := proof + [TreeHash(hs, LeftOf(node))];
        node := RightOf(node);
      } else {
        ReverseAppend(proof, TreeHash(hs, RightOf(node)));
        proof := proof + [TreeHash(hs, RightOf(node))];
        node := LeftOf(node);
      }
      d := d - 1;
      ghost var lower := ProofFor(hs, node, index, d);
      if lower.Ok? {
        assert lower.value.1 + Reverse(proof) == lower.value.1 + [proof[|before|]] + Reverse(before);
      }
    }
    assert [] + Reverse(proof) == Reverse(proof);
    r := Ok((TreeHash(hs, node), Reverse(proof)));
  }

  function CombineWith<W>(hs: Hasher<W>, node: W, sibling: W, onRight: bool): W
  {
    if onRight then hs.combine(sibling, node) else hs.combine(node, sibling)
  }

  /** The root a branch leads to; the lowest bit of `index` belongs to the lowest level. */
  function RootFromBranch<W>(hs: Hasher<W>, leaf: W, branch: seq<W>, index: nat): W
    decreases |branch|
  {
    if branch == [] then leaf
    else RootFromBranch(hs, CombineWith(hs, leaf, branch[0], index % 2 == 1), branch[1..], index / 2)
  }

  lemma {:induction false} RootFromLongerBranch<W>(hs: Hasher<W>, leaf: W, branch: seq<W>, sibling: W, index: nat)
    ensures RootFromBranch(hs, leaf, branch + [sibling], index) ==
            CombineWith(hs, RootFromBranch(hs, leaf, branch, index), sibling, Bit(index, |branch|))
    decreases |branch|
  {
    var longer := branch + [sibling];
    if branch == [] {
      assert longer[1..] == [];
    } else {
      assert longer[1..] == branch[1..] + [sibling];
      RootFromLongerBranch(hs, CombineWith(hs, leaf, branch[0], index % 2 == 1), branch[1..], sibling, index / 2);
    }
  }

  /** `merkle_root_from_branch`. */
  method MerkleRootFromBranch<W>(hs: Hasher<W>, leaf: W, branch: seq<W>, index: nat) returns (root: W)
    ensures root == RootFromBranch(hs, leaf, branch, index)
  {
    root := leaf;
    for i := 0 to |branch|
      invariant root == RootFromBranch(hs, leaf, branch[..i], index)
    {
      assert branch[..i + 1] == branch[..i] + [branch[i]];
      RootFromLongerBranch(hs, leaf, branch[..i], branch[i], index);
      root := CombineWith(hs, root, branch[i], Bit(index, i));
    }
    assert branch[..|branch|] == branch;
  }

  /** `verify_merkle_proof`. */
  predicate VerifyMerkleProof<W(==)>(hs: Hasher<W>, leaf: W, branch: seq<W>, depth: nat, index: nat, root: W)
  {
    |branch| == depth && RootFromBranch(hs, leaf, branch, index) == root
  }

  // --- Completeness ---

  /** Only the `depth` lowest bits of an index matter, here and in `RootFromBranch`. */
  lemma {:induction false} ProofIgnoresHighBits<W>(hs: Hasher<W>, t: Tree<W>, index: nat, depth: nat, top: nat)
    requires depth <= top
    ensures ProofFor(hs, t, index + Pow2(top), depth) == ProofFor(hs, t, index, depth)
    decreases depth
  {
    if depth > 0 {
      BitBelow(index, top, depth - 1);
      if HasBranches(t) {
        ProofIgnoresHighBits(hs, LeftOf(t), index, depth - 1, top);
        ProofIgnoresHighBits(hs, RightOf(t), index, depth - 1, top);
      }
    }
  }

  lemma {:induction false} BitBelow(n: nat, top: nat, k: nat)
    requires k < top
    ensures Bit(n + Pow2(top), k) == Bit(n, k)
    decreases k
  {
    assert (n + Pow2(top)) / 2 == n / 2 + Pow2(top - 1);
    if k > 0 {
      BitBelow(n / 2, top - 1, k - 1);
    }
  }

  lemma {:induction false} TopBit(n: nat, k: nat)
    requires n < Pow2(k + 1)
    ensures Bit(n, k) <==> n >= Pow2(k)
    decreases k
  {
    if k > 0 {
      TopBit(n / 2, k - 1);
    }
  }

  lemma {:induction false} RootIgnoresHighBits<W>(hs: Hasher<W>, leaf: W, branch: seq<W>, index: nat)
    ensures RootFromBranch(hs, leaf, branch, index + Pow2(|branch|)) == RootFromBranch(hs, leaf, branch, index)
    decreases |branch|
  {
    if branch != [] {
      assert (index + Pow2(|branch|)) / 2 == index / 2 + Pow2(|branch| - 1);
      assert (index + Pow2(|branch|)) % 2 == index % 2;
      RootIgnoresHighBits(hs, CombineWith(hs, leaf, branch[0], index % 2 == 1), branch[1..], index / 2);
    }
  }

  /** For every leaf of every tree: the generated proof is for that leaf, has one word per
      level, and leads back to the root. */
  lemma {:induction false} ProofComplete<W>(hs: Hasher<W>, leaves: seq<W>, index: nat, depth: nat)
    requires |leaves| <= Pow2(depth) && index < |leaves|
    ensures var t := Create(hs, leaves, depth);
            var r := ProofFor(hs, t, index, depth);
            && r.Ok? && r.value.0 == leaves[index]
            && VerifyMerkleProof(hs, leaves[index], r.value.1, depth, index, TreeHash(hs, t))
    decreases depth
  {
    hide Create, ProofFor, Bit, RootFromBranch, TreeHash;
    if depth == 0 {
      SingleLeafProof(hs, leaves);
    } else {
      var (l, r) := Split(leaves, depth - 1);
      CreateNode(hs, l, r, depth - 1);
      TopBit(index, depth - 1);
      if index < Pow2(depth - 1) {
        ProofComplete(hs, l, index, depth - 1);
        ProofExtends(hs, Create(hs, leaves, depth), index, depth, leaves[index]);
      } else {
        var low := index - Pow2(depth - 1);
        var right := Create(hs, r, depth - 1);
        ProofComplete(hs, r, low, depth - 1);
        ProofIgnoresHighBits(hs, right, low, depth - 1, depth - 1);
        RootIgnoresHighBits(hs, leaves[index], ProofFor(hs, right, low, depth - 1).value.1, low);
        ProofExtends(hs, Create(hs, leaves, depth), index, depth, leaves[index]);
      }
    }
  }

  lemma SingleLeafProof<W>(hs: Hasher<W>, leaves: seq<W>)
    requires |leaves| == 1
    ensures TreeHash(hs, Create(hs, leaves, 0)) == leaves[0]
    ensures ProofFor(hs, Create(hs, leaves, 0), 0, 0) == Ok((leaves[0], []))
    ensures RootFromBranch(hs, leaves[0], [], 0) == leaves[0]
  {
  }

  /** A good proof in the subtree that holds the leaf gives a good proof in the whole tree. */
  lemma ProofExtends<W>(hs: Hasher<W>, t: Tree<W>, index: nat, depth: nat, leaf: W)
    requires depth > 0 && t.Node? && t == MakeNode(hs, t.left, t.right)
    requires var next := if Bit(index, depth - 1) then t.right else t.left;
             var r := ProofFor(hs, next, index, depth - 1);
             r.Ok? && r.value.0 == leaf
             && VerifyMerkleProof(hs, leaf, r.value.1, depth - 1, index, TreeHash(hs, next))
    ensures var r := ProofFor(hs, t, index, depth);
            r.Ok? && r.value.0 == leaf
            && VerifyMerkleProof(hs, leaf, r.value.1, depth, index, TreeHash(hs, t))
  {
    var onRight := Bit(index, depth - 1);
    var (next, sibling) := if onRight then (t.right, t.left) else (t.left, t.right);
    var lower := ProofFor(hs, next, index, depth - 1).value.1;
    RootFromLongerBranch(hs, leaf, lower, TreeHash(hs, sibling), index);
  }

  // --- Soundness ---

  datatype Collision<W> = Collision(a: (W, W), b: (W, W))

  predicate IsCollision<W(==)>(hs: Hasher<W>, c: Collision<W>)
  {
    c.a != c.b && hs.combine(c.a.0, c.a.1) == hs.combine(c.b.0, c.b.1)
  }

  function InOrder<W>(node: W, sibling: W, onRight: bool): (W, W)
  {
    if onRight then (sibling, node) else (node, sibling)
  }

  /** Walks up from the leaf to the first level where the branch meets the honest tree. */
  function Extract<W(==)>(hs: Hasher<W>, leaf: W, branch: seq<W>, index: nat, chunks: seq<W>, depth: nat): Collision<W>
    requires |branch| == depth && |chunks| == Pow2(depth) && index < |chunks|
    decreases depth
  {
    if depth == 0 then Collision((leaf, leaf), (leaf, leaf))
    else
      var onRight := index % 2 == 1;
      var up := PairUp(hs, chunks);
      var node := CombineWith(hs, leaf, branch[0], onRight);
      if node == up[index / 2]
      then Collision(InOrder(leaf, branch[0], onRight), (chunks[index / 2 * 2], chunks[index / 2 * 2 + 1]))
      else Extract(hs, node, branch[1..], index / 2, up, depth - 1)
  }

  /** A branch that leads to the root of `chunks` proves the chunk at its index, or yields a
      collision. */
  lemma {:induction false} ProofSound<W>(hs: Hasher<W>, leaf: W, branch: seq<W>, index: nat, chunks: seq<W>, depth: nat)
    requires |chunks| == Pow2(depth) && index < |chunks|
    requires VerifyMerkleProof(hs, leaf, branch, depth, index, Merkleize(hs, chunks, depth))
    ensures leaf == chunks[index] || IsCollision(hs, Extract(hs, leaf, branch, index, chunks, depth))
    decreases depth
  {
    hide Merkleize, PairUp;
    if depth == 0 {
      MerkleizeOne(hs, chunks);
    } else {
      MerkleizeLayer(hs, chunks, depth - 1);
      var node := CombineWith(hs, leaf, branch[0], index % 2 == 1);
      var k := index / 2;
      var up := PairUp(hs, chunks);
      assert index == 2 * k || index == 2 * k + 1;
      PairUpAt(hs, chunks, k);
      ProofSound(hs, node, branch[1..], k, up, depth - 1);
    }
  }

  lemma NoPadding<W>(hs: Hasher<W>, chunks: seq<W>, depth: nat)
    requires |chunks| == Pow2(depth)
    ensures Pad(hs, chunks, depth) == chunks
  {
  }

  /** A collision between two lists of chunks that differ at `i`, from the branch of the first. */
  function ExtractBetween<W(==)>(hs: Hasher<W>, a: seq<W>, b: seq<W>, i: nat, depth: nat): Collision<W>
    requires |a| == |b| == Pow2(depth) && i < |a|
  {
    var r := ProofFor(hs, Create(hs, a, depth), i, depth);
    if r.Ok? && |r.value.1| == depth then Extract(hs, a[i], r.value.1, i, b, depth)
    else Collision((a[i], a[i]), (a[i], a[i]))
  }

  /** A root commits to its chunks: two lists with the same root agree at every index, or yield a
      collision. */
  lemma RootBindsChunks<W>(hs: Hasher<W>, a: seq<W>, b: seq<W>, i: nat, depth: nat)
    requires |a| == |b| == Pow2(depth) && i < |a|
    requires Merkleize(hs, a, depth) == Merkleize(hs, b, depth)
    ensures a[i] == b[i] || IsCollision(hs, ExtractBetween(hs, a, b, i, depth))
  {
    hide Merkleize, Create, ProofFor, RootFromBranch, TreeHash, Extract, Pad;
    ProofComplete(hs, a, i, depth);
    CreateIsMerkleize(hs, a, depth);
    NoPadding(hs, a, depth);
    ProofSound(hs, a[i], ProofFor(hs, Create(hs, a, depth), i, depth).value.1, i, b, depth);
  }
}
