/** The binary hash tree the oracle builds with `sortPairs: true` and no
    other option: leaves are taken as given (not hashed again, not sorted),
    adjacent nodes are paired level by level, a parent is the hash of its two
    children concatenated in ascending `Buffer.compare` order, and a lone
    last node on a level of odd length is carried up unchanged. Proofs are
    the sibling path from a leaf to the root; a verifier folds them with the
    same sorted-pair rule. The hash function is a parameter of every
    operation. */
module MerkleTree {
  import opened Wrappers
  import opened Encoding

  /** A 32-byte Keccak-256 digest. */
  type Digest = s: seq<byte> | |s| == 32 witness seq(32, _ => 0)

  /** The hash function: any function from bytes to 32-byte digests. */
  type Hasher = seq<byte> -> Digest

  /** The two siblings concatenated smaller first, as `[a, b].sort(Buffer.compare)`. */
  function SortedConcat(a: seq<byte>, b: seq<byte>): (r: seq<byte>)
    ensures (r == a + b && LexLe(a, b)) || (r == b + a && LexLe(b, a))
  {
    LexTotal(a, b);
    if LexLe(a, b) then a + b else b + a
  }

  /** Sorting the pair makes the concatenation independent of sibling order. */
  lemma SortedConcatSymmetric(a: seq<byte>, b: seq<byte>)
    ensures SortedConcat(a, b) == SortedConcat(b, a)
  {
    LexTotal(a, b);
    if LexLe(a, b) && LexLe(b, a) {
      LexAntisymmetric(a, b);
    }
  }

  /** The parent of two sibling nodes. */
  function HashPair(h: Hasher, a: seq<byte>, b: seq<byte>): Digest {
    h(SortedConcat(a, b))
  }

  /** Swapping two siblings never changes their parent. */
  lemma HashPairSymmetric(h: Hasher, a: seq<byte>, b: seq<byte>)
    ensures HashPair(h, a, b) == HashPair(h, b, a)
  {
    SortedConcatSymmetric(a, b);
  }

  /** The level above `nodes`: node `2k` paired with node `2k + 1`, and a lone
      last node promoted unchanged. */
  function NextLevel(h: Hasher, nodes: seq<seq<byte>>): (r: seq<seq<byte>>)
    ensures |r| == (|nodes| + 1) / 2
    ensures |nodes| > 1 ==> |r| < |nodes|
  {
    seq((|nodes| + 1) / 2, k requires 0 <= k < (|nodes| + 1) / 2 =>
      if 2 * k + 1 < |nodes| then HashPair(h, nodes[2 * k], nodes[2 * k + 1]) else nodes[2 * k])
  }

  /** All levels, from the leaves up to a level of at most one node. */
  function Layers(h: Hasher, nodes: seq<seq<byte>>): (ls: seq<seq<seq<byte>>>)
    ensures |ls| >= 1 && ls[0] == nodes
    decreases |nodes|
  {
    if |nodes| <= 1 then [nodes] else [nodes] + Layers(h, NextLevel(h, nodes))
  }

  /** Each level above the first is the pairing of a level of more than one
      node, and the top level has at most one node. */
  lemma {:induction false} LayersShape(h: Hasher, nodes: seq<seq<byte>>)
    ensures var ls := Layers(h, nodes);
      && |ls[|ls| - 1]| <= 1
      && forall i :: 0 <= i < |ls| - 1 ==> |ls[i]| > 1 && ls[i + 1] == NextLevel(h, ls[i])
    decreases |nodes|
  {
    if |nodes| > 1 {
      var up := Layers(h, NextLevel(h, nodes));
      LayersShape(h, NextLevel(h, nodes));
      var ls := Layers(h, nodes);
      assert ls == [nodes] + up;
      assert forall i :: 1 <= i < |ls| ==> ls[i] == up[i - 1];
    }
  }

  /** A built tree: the leaves it was given and every level above them. */
  datatype Tree = Tree(leaves: seq<seq<byte>>, layers: seq<seq<seq<byte>>>)

  /** `new MerkleTree(leaves, keccak256, { sortPairs: true })`. */
  function Build(h: Hasher, leaves: seq<seq<byte>>): (t: Tree)
    ensures t.leaves == leaves && |t.layers| >= 1 && t.layers[0] == leaves
    ensures |t.layers[|t.layers| - 1]| <= 1
    ensures forall i :: 0 <= i < |t.layers| - 1 ==>
      |t.layers[i]| > 1 && t.layers[i + 1] == NextLevel(h, t.layers[i])
  {
    LayersShape(h, leaves);
    Tree(leaves, Layers(h, leaves))
  }

  /** `tree.getRoot()`: the single node of the top level, or no bytes for an
      empty tree. */
  function GetRoot(t: Tree): (r: seq<byte>)
    ensures t.layers != [] && |t.layers[|t.layers| - 1]| == 1 ==> r == t.layers[|t.layers| - 1][0]
    ensures r != [] ==> t.layers != [] && r in t.layers[|t.layers| - 1]
  {
    if t.layers == [] then []
    else
      var top := t.layers[|t.layers| - 1];
      if top == [] then [] else top[0]
  }

  /** The siblings met on the way up from position `index`, one per level that
      has a node beside it; a promoted node adds nothing for its level. */
  function PathFrom(layers: seq<seq<seq<byte>>>, index: nat): seq<seq<byte>> {
    if layers == [] then []
    else
      var level := layers[0];
      (if Sibling(index) < |level| then [level[Sibling(index)]] else [])
        + PathFrom(layers[1..], index / 2)
  }

  /** The position of the last leaf equal to `leaf`, if any. */
  function LastIndexOf(leaves: seq<seq<byte>>, leaf: seq<byte>): (r: Option<nat>)
    ensures r.None? <==> leaf !in leaves
    ensures r.Some? ==> r.value < |leaves| && leaves[r.value] == leaf
    ensures r.Some? ==> forall j :: r.value < j < |leaves| ==> leaves[j] != leaf
  {
    if leaves == [] then None
    else if leaves[|leaves| - 1] == leaf then Some(|leaves| - 1)
    else LastIndexOf(leaves[..|leaves| - 1], leaf)
  }

  /** `tree.getProof(leaf)`: the sibling path of the last matching leaf, or
      no elements when the leaf is not in the tree. */
  function GetProof(t: Tree, leaf: seq<byte>): (p: seq<seq<byte>>)
    ensures leaf !in t.leaves ==> p == []
    ensures leaf in t.leaves ==>
      exists i :: 0 <= i < |t.leaves| && t.leaves[i] == leaf && p == PathFrom(t.layers, i)
        && forall j :: i < j < |t.leaves| ==> t.leaves[j] != leaf
  {
    match LastIndexOf(t.leaves, leaf)
    case None => []
    case Some(i) => PathFrom(t.layers, i)
  }

  /** The root a verifier recomputes: the leaf folded with each proof element
      under the sorted-pair rule. */
  function ProofRoot(h: Hasher, leaf: seq<byte>, proof: seq<seq<byte>>): (r: seq<byte>)
    ensures proof == [] ==> r == leaf
    ensures proof != [] ==> |r| == 32
    decreases |proof|
  {
    if proof == [] then leaf else ProofRoot(h, HashPair(h, leaf, proof[0]), proof[1..])
  }

  /** Folding a proof in two parts: the second part continues from the node
      the first part reaches. */
  lemma {:induction false} ProofRootConcat(h: Hasher, leaf: seq<byte>, p: seq<seq<byte>>, q: seq<seq<byte>>)
    ensures ProofRoot(h, leaf, p + q) == ProofRoot(h, ProofRoot(h, leaf, p), q)
    decreases |p|
  {
    if p == [] {
      assert p + q == q;
    } else {
      assert (p + q)[0] == p[0] && (p + q)[1..] == p[1..] + q;
      ProofRootConcat(h, HashPair(h, leaf, p[0]), p[1..], q);
    }
  }

  /** The proof elements folded one at a time, in order: each step hashes the
      current node with the next sibling, whichever side it is on. */
  lemma ProofRootSnoc(h: Hasher, leaf: seq<byte>, p: seq<seq<byte>>, x: seq<byte>)
    ensures ProofRoot(h, leaf, p + [x]) == HashPair(h, ProofRoot(h, leaf, p), x)
    ensures ProofRoot(h, leaf, p + [x]) == HashPair(h, x, ProofRoot(h, leaf, p))
  {
    ProofRootConcat(h, leaf, p, [x]);
    assert ProofRoot(h, ProofRoot(h, leaf, p), [x]) == ProofRoot(h, HashPair(h, ProofRoot(h, leaf, p), x), []);
    HashPairSymmetric(h, ProofRoot(h, leaf, p), x);
  }

  /** `tree.verify(proof, leaf, root)` under the sorted-pair rule. */
  predicate Verify(h: Hasher, proof: seq<seq<byte>>, leaf: seq<byte>, root: seq<byte>) {
    ProofRoot(h, leaf, proof) == root
  }

  /** Every level above the leaves has been through the pairing; the top holds
      the root of the level below. */
  lemma {:induction false} RootOfNextLevel(h: Hasher, nodes: seq<seq<byte>>)
    requires |nodes| > 1
    ensures GetRoot(Build(h, nodes)) == GetRoot(Build(h, NextLevel(h, nodes)))
  {
    var ls := Layers(h, nodes);
    var up := Layers(h, NextLevel(h, nodes));
    assert ls == [nodes] + up;
    assert ls[|ls| - 1] == up[|up| - 1];
  }

  /** The position beside `i` on its level, as `getProof` computes it. */
  function Sibling(i: nat): nat {
    if i % 2 == 1 then i - 1 else i + 1
  }

  /** The node above position `i` is the pair of `i` and its sibling when the
      sibling exists, and the node itself when it was promoted. */
  lemma NodeAbove(h: Hasher, nodes: seq<seq<byte>>, i: nat)
    requires i < |nodes|
    ensures i / 2 < |NextLevel(h, nodes)|
    ensures NextLevel(h, nodes)[i / 2]
         == if Sibling(i) < |nodes| then HashPair(h, nodes[i], nodes[Sibling(i)]) else nodes[i]
  {
    var k := i / 2;
    var r := NextLevel(h, nodes);
    if i % 2 == 1 {
      assert i == 2 * k + 1 && Sibling(i) == 2 * k;
      assert r[k] == HashPair(h, nodes[2 * k], nodes[i]);
      HashPairSymmetric(h, nodes[i], nodes[2 * k]);
    } else {
      assert i == 2 * k && Sibling(i) == 2 * k + 1;
    }
  }

  lemma PathFromLayers(h: Hasher, nodes: seq<seq<byte>>, i: nat)
    requires 1 < |nodes|
    ensures PathFrom(Layers(h, nodes), i)
         == (if Sibling(i) < |nodes| then [nodes[Sibling(i)]] else [])
            + PathFrom(Layers(h, NextLevel(h, nodes)), i / 2)
  {
    var ls := Layers(h, nodes);
    assert ls[1..] == Layers(h, NextLevel(h, nodes));
  }

  /** One level of the round trip: folding the first sibling (if any) turns
      the leaf into its node on the next level, and the rest of the path is
      that node's path. */
  lemma PathStep(h: Hasher, nodes: seq<seq<byte>>, i: nat)
    requires 1 < |nodes| && i < |nodes|
    ensures i / 2 < |NextLevel(h, nodes)|
    ensures ProofRoot(h, nodes[i], PathFrom(Layers(h, nodes), i))
         == ProofRoot(h, NextLevel(h, nodes)[i / 2], PathFrom(Layers(h, NextLevel(h, nodes)), i / 2))
  {
    var rest := PathFrom(Layers(h, NextLevel(h, nodes)), i / 2);
    NodeAbove(h, nodes, i);
    PathFromLayers(h, nodes, i);
    if Sibling(i) < |nodes| {
      var p := [nodes[Sibling(i)]] + rest;
      assert p[0] == nodes[Sibling(i)] && p[1..] == rest;
    } else {
      assert PathFrom(Layers(h, nodes), i) == rest;
    }
  }

  /** The proof round trip: from every leaf position, folding the leaf with its
      sibling path yields the root. */
  lemma {:induction false} PathRoundTrip(h: Hasher, nodes: seq<seq<byte>>, i: nat)
    requires i < |nodes|
    ensures ProofRoot(h, nodes[i], PathFrom(Layers(h, nodes), i)) == GetRoot(Build(h, nodes))
    decreases |nodes|
  {
    if |nodes| == 1 {
      assert PathFrom(Layers(h, nodes), i) == [];
      assert GetRoot(Build(h, nodes)) == nodes[0];
    } else {
      PathStep(h, nodes, i);
      PathRoundTrip(h, NextLevel(h, nodes), i / 2);
      RootOfNextLevel(h, nodes);
    }
  }

  /** For every leaf of a tree, `getProof` returns a path that verifies against
      `getRoot`. */
  lemma GetProofVerifies(h: Hasher, leaves: seq<seq<byte>>, leaf: seq<byte>)
    requires leaf in leaves
    ensures Verify(h, GetProof(Build(h, leaves), leaf), leaf, GetRoot(Build(h, leaves)))
  {
    var i := LastIndexOf(leaves, leaf).value;
    PathRoundTrip(h, leaves, i);
  }

  /** Over digests, every level is made of digests and the root is one. */
  lemma {:induction false} RootIsDigest(h: Hasher, nodes: seq<seq<byte>>)
    requires |nodes| > 0
    requires forall k :: 0 <= k < |nodes| ==> |nodes[k]| == 32
    ensures |GetRoot(Build(h, nodes))| == 32
    decreases |nodes|
  {
    if |nodes| > 1 {
      var next := NextLevel(h, nodes);
      RootIsDigest(h, next);
      RootOfNextLevel(h, nodes);
    }
  }
}
