/** The merkle tree of src/merkle.cpp: bottom-up levels in which an unpaired tail is promoted. */
module Merkle {
  import opened Wire

  type Hash = h: Data | |h| == 32 witness Zeros(32)

  /** The internal-node hash is a parameter: nothing below depends on what it computes. */
  type PairHash = (Hash, Hash) -> Hash

  function Reduce(hp: PairHash, level: seq<Hash>): (next: seq<Hash>)
    ensures |next| == (|level| + 1) / 2
  {
    seq((|level| + 1) / 2, k requires 0 <= k < (|level| + 1) / 2 =>
      if 2 * k + 1 < |level| then hp(level[2 * k], level[2 * k + 1]) else level[2 * k])
  }

  method ReduceLevel(hp: PairHash, level: seq<Hash>) returns (next: seq<Hash>)
    ensures next == Reduce(hp, level)
  {
    next := [];
    var i := 0;
    while i + 1 < |level|
      invariant 0 <= i <= |level| && i % 2 == 0 && |next| == i / 2
      invariant next == Reduce(hp, level)[..i / 2]
    {
      next := next + [hp(level[i], level[i + 1])];
      i := i + 2;
    }
    if i < |level| {
      next := next + [level[i]];
    }
  }

  // ---- the tree, top down: sections 2.1 and 2.1.1 of RFC 6962 without the hash prefixes ----

  predicate PowerOfTwo(k: nat) {
    k == 1 || (k > 1 && k % 2 == 0 && PowerOfTwo(k / 2))
  }

  /** The largest power of two below n. */
  function Split(n: nat): (k: nat)
    requires n >= 2
    ensures PowerOfTwo(k) && k < n <= 2 * k
  {
    if n == 2 then 1 else 2 * Split((n + 1) / 2)
  }

  function TreeRoot(hp: PairHash, leaves: seq<Hash>): Hash
    requires leaves != []
    decreases |leaves|
  {
    if |leaves| == 1 then leaves[0] else
      var k := Split(|leaves|);
      hp(TreeRoot(hp, leaves[..k]), TreeRoot(hp, leaves[k..]))
  }

  function AuditPath(hp: PairHash, leaves: seq<Hash>, i: nat): seq<Hash>
    requires i < |leaves|
    decreases |leaves|
  {
    if |leaves| == 1 then [] else
      var k := Split(|leaves|);
      if i < k then AuditPath(hp, leaves[..k], i) + [TreeRoot(hp, leaves[k..])]
      else AuditPath(hp, leaves[k..], i - k) + [TreeRoot(hp, leaves[..k])]
  }

  /** Reducing a level and splitting it commute. */
  lemma ReduceSplits(hp: PairHash, level: seq<Hash>, k: nat)
    requires k <= |level| && k % 2 == 0
    ensures Reduce(hp, level)[..k / 2] == Reduce(hp, level[..k])
    ensures Reduce(hp, level)[k / 2..] == Reduce(hp, level[k..])
  {
  }

  lemma {:induction false} ReduceKeepsTreeRoot(hp: PairHash, level: seq<Hash>)
    requires level != []
    ensures TreeRoot(hp, Reduce(hp, level)) == TreeRoot(hp, level)
    decreases |level|
  {
    var n := |level|;
    if n == 1 {
      assert Reduce(hp, level) == level;
    } else if n == 2 {
      assert Reduce(hp, level) == [hp(level[0], level[1])];
      assert TreeRoot(hp, level[..1]) == level[0] && TreeRoot(hp, level[1..]) == level[1];
    } else {
      var k := Split(n);
      assert k / 2 == Split((n + 1) / 2);
      ReduceSplits(hp, level, k);
      ReduceKeepsTreeRoot(hp, level[..k]);
      ReduceKeepsTreeRoot(hp, level[k..]);
    }
  }

  predicate PromotedTail(i: nat, n: nat) {
    i == n - 1 && n % 2 == 1
  }

  function Sibling(i: nat): nat {
    if i % 2 == 0 then i + 1 else i - 1
  }

  function PathHead(level: seq<Hash>, i: nat): seq<Hash>
    requires i < |level|
  {
    if PromotedTail(i, |level|) then [] else [level[Sibling(i)]]
  }

  /** Both halves of a split level reduce on their own: the facts a step of the audit path needs. */
  lemma HalvesReduce(hp: PairHash, level: seq<Hash>)
    requires |level| > 2
    ensures var k := Split(|level|); var up := Reduce(hp, level);
            && k % 2 == 0 && |up| >= 2 && Split(|up|) == k / 2
            && up[..k / 2] == Reduce(hp, level[..k])
            && up[k / 2..] == Reduce(hp, level[k..])
            && TreeRoot(hp, up[..k / 2]) == TreeRoot(hp, level[..k])
            && TreeRoot(hp, up[k / 2..]) == TreeRoot(hp, level[k..])
  {
    var k := Split(|level|);
    ReduceSplits(hp, level, k);
    ReduceKeepsTreeRoot(hp, level[..k]);
    ReduceKeepsTreeRoot(hp, level[k..]);
  }

  /** A node keeps its sibling in whichever half of an evenly split level it lies. */
  lemma PathHeadInHalf(level: seq<Hash>, k: nat, i: nat)
    requires i < |level| && 0 < k < |level| && k % 2 == 0
    ensures i < k ==> PathHead(level[..k], i) == PathHead(level, i) && i / 2 < k / 2
    ensures i >= k ==> PathHead(level[k..], i - k) == PathHead(level, i) && (i - k) / 2 == i / 2 - k / 2
  {
  }

  lemma PathAbove(hp: PairHash, up: seq<Hash>, j: nat)
    requires j < |up| && |up| > 1
    ensures var k := Split(|up|);
            && (j < k ==> AuditPath(hp, up, j) == AuditPath(hp, up[..k], j) + [TreeRoot(hp, up[k..])])
            && (j >= k ==> AuditPath(hp, up, j) == AuditPath(hp, up[k..], j - k) + [TreeRoot(hp, up[..k])])
  {
  }

  /** One level of the audit path: the sibling, if there is one, then the path one level up. */
  lemma {:induction false} AuditPathStep(hp: PairHash, level: seq<Hash>, i: nat)
    requires i < |level| && |level| > 1
    ensures AuditPath(hp, level, i) == PathHead(level, i) + AuditPath(hp, Reduce(hp, level), i / 2)
    decreases |level|, 1
  {
    if |level| == 2 {
      PathAbove(hp, level, i);
      assert AuditPath(hp, level[..1], 0) == [] && AuditPath(hp, level[1..], 0) == [];
    } else if i < Split(|level|) {
      AuditPathStepLeft(hp, level, i);
    } else {
      AuditPathStepRight(hp, level, i);
    }
  }

  lemma {:induction false} AuditPathStepLeft(hp: PairHash, level: seq<Hash>, i: nat)
    requires |level| > 2 && i < Split(|level|)
    ensures AuditPath(hp, level, i) == PathHead(level, i) + AuditPath(hp, Reduce(hp, level), i / 2)
    decreases |level|, 0
  {
    var k, up := Split(|level|), Reduce(hp, level);
    HalvesReduce(hp, level);
    PathHeadInHalf(level, k, i);
    PathAbove(hp, level, i);
    PathAbove(hp, up, i / 2);
    AuditPathStep(hp, level[..k], i);
    AppendedPath(PathHead(level, i), AuditPath(hp, up[..k / 2], i / 2), TreeRoot(hp, level[k..]),
      AuditPath(hp, level, i), AuditPath(hp, up, i / 2));
  }

  lemma {:induction false} AuditPathStepRight(hp: PairHash, level: seq<Hash>, i: nat)
    requires |level| > 2 && Split(|level|) <= i < |level|
    ensures AuditPath(hp, level, i) == PathHead(level, i) + AuditPath(hp, Reduce(hp, level), i / 2)
    decreases |level|, 0
  {
    var k, up := Split(|level|), Reduce(hp, level);
    HalvesReduce(hp, level);
    PathHeadInHalf(level, k, i);
    HalfPathStep(hp, level[k..], i - k);
    var below := AuditPath(hp, level[k..], i - k);
    var above := AuditPath(hp, up[k / 2..], i / 2 - k / 2);
    var last := TreeRoot(hp, level[..k]);
    assert AuditPath(hp, level, i) == below + [last] by { PathAbove(hp, level, i); }
    assert AuditPath(hp, up, i / 2) == above + [last] by { PathAbove(hp, up, i / 2); }
    AppendedPath(PathHead(level, i), above, last, AuditPath(hp, level, i), AuditPath(hp, up, i / 2));
  }

  /** The right half may be a single promoted node, which a level change leaves alone. */
  lemma {:induction false} HalfPathStep(hp: PairHash, half: seq<Hash>, i: nat)
    requires i < |half|
    ensures AuditPath(hp, half, i) == PathHead(half, i) + AuditPath(hp, Reduce(hp, half), i / 2)
    decreases |half|, 2
  {
    if |half| == 1 {
      assert Reduce(hp, half) == half;
    } else {
      AuditPathStep(hp, half, i);
    }
  }

  lemma AppendedPath<T>(head: seq<T>, rest: seq<T>, last: T, path: seq<T>, above: seq<T>)
    requires path == head + rest + [last] && above == rest + [last]
    ensures path == head + above
  {
  }

  method MerkleRoot(hp: PairHash, leaves: seq<Hash>) returns (root: Hash)
    ensures root == if leaves == [] then Zeros(32) else TreeRoot(hp, leaves)
  {
    if leaves == [] {
      return Zeros(32);
    }
    var level := leaves;
    while |level| > 1
      invariant level != [] && TreeRoot(hp, level) == TreeRoot(hp, leaves)
      decreases |level|
    {
      ReduceKeepsTreeRoot(hp, level);
      level := ReduceLevel(hp, level);
    }
    root := level[0];
  }

  lemma Appended<T>(a: seq<T>, b: seq<T>, c: seq<T>, bc: seq<T>)
    requires bc == b + c
    ensures a + b + c == a + bc
  {
  }

  method PushSibling(proof: seq<Hash>, level: seq<Hash>, idx: nat) returns (longer: seq<Hash>)
    requires idx < |level|
    ensures longer == proof + PathHead(level, idx)
  {
    longer := proof;
    if !PromotedTail(idx, |level|) {
      var sib := if idx % 2 == 0 then idx + 1 else idx - 1;
      longer := proof + [level[sib]];
    }
  }

  method MerkleProof(hp: PairHash, leaves: seq<Hash>, index: nat) returns (proof: seq<Hash>)
    ensures proof == if index >= |leaves| then [] else AuditPath(hp, leaves, index)
  {
    proof := [];
    if index >= |leaves| {
      return;
    }
    var level, idx: nat := leaves, index;
    while |level| > 1
      invariant idx < |level|
      invariant proof + AuditPath(hp, level, idx) == AuditPath(hp, leaves, index)
      decreases |level|
    {
      AuditPathStep(hp, level, idx);
      Appended(proof, PathHead(level, idx), AuditPath(hp, Reduce(hp, level), idx / 2), AuditPath(hp, level, idx));
      proof := PushSibling(proof, level, idx);
      idx := idx / 2;
      level := ReduceLevel(hp, level);
    }
    assert AuditPath(hp, level, idx) == [];
  }

  // ---- verification: the shape of the tree is rebuilt from (index, count) alone ----

  /** The root that `leaf` at `i` of `n` folds up to; None when the proof has the wrong length. */
  function FoldUp(hp: PairHash, leaf: Hash, i: nat, n: nat, proof: seq<Hash>): Option<Hash>
    requires i < n
    decreases n
  {
    if n == 1 then (if proof == [] then Some(leaf) else None)
    else if PromotedTail(i, n) then FoldUp(hp, leaf, i / 2, (n + 1) / 2, proof)
    else if proof == [] then None
    else FoldUp(hp, Merge(hp, leaf, i, proof[0]), i / 2, (n + 1) / 2, proof[1..])
  }

  function Merge(hp: PairHash, h: Hash, i: nat, sibling: Hash): Hash {
    if i % 2 == 0 then hp(h, sibling) else hp(sibling, h)
  }

  predicate Verify(hp: PairHash, leaf: Hash, i: nat, n: nat, proof: seq<Hash>, root: Hash) {
    i < n && FoldUp(hp, leaf, i, n, proof) == Some(root)
  }

  method MerkleVerify(hp: PairHash, leaf: Hash, index: nat, leafCount: nat, proof: seq<Hash>, root: Hash)
    returns (ok: bool)
    ensures ok <==> Verify(hp, leaf, index, leafCount, proof, root)
  {
    if leafCount == 0 || index >= leafCount {
      return false;
    }
    var h: Hash, idx: nat, count: nat, p := leaf, index, leafCount, 0;
    while count > 1
      invariant 0 <= idx < count && 0 <= p <= |proof|
      invariant FoldUp(hp, h, idx, count, proof[p..]) == FoldUp(hp, leaf, index, leafCount, proof)
      decreases count
    {
      if !PromotedTail(idx, count) {
        if p >= |proof| {
          return false;
        }
        var sib := proof[p];
        assert proof[p..][1..] == proof[p + 1..];
        p := p + 1;
        h := if idx % 2 == 0 then hp(h, sib) else hp(sib, h);
      }
      idx := idx / 2;
      count := (count + 1) / 2;
    }
    ok := p == |proof| && h == root;
  }

  lemma FoldUpStep(hp: PairHash, level: seq<Hash>, i: nat, rest: seq<Hash>)
    requires i < |level| && |level| > 1
    ensures FoldUp(hp, level[i], i, |level|, PathHead(level, i) + rest) ==
            FoldUp(hp, Reduce(hp, level)[i / 2], i / 2, (|level| + 1) / 2, rest)
  {
    hide TreeRoot, AuditPath;
    if PromotedTail(i, |level|) {
      assert PathHead(level, i) + rest == rest;
    } else {
      assert PathHead(level, i) + rest == [level[Sibling(i)]] + rest;
      assert (PathHead(level, i) + rest)[1..] == rest;
    }
  }

  /** Completeness: the path read off the real levels is what the shape-only verifier expects. */
  lemma {:induction false} Completeness(hp: PairHash, leaves: seq<Hash>, i: nat)
    requires i < |leaves|
    ensures Verify(hp, leaves[i], i, |leaves|, AuditPath(hp, leaves, i), TreeRoot(hp, leaves))
    decreases |leaves|
  {
    if |leaves| > 1 {
      var up := Reduce(hp, leaves);
      AuditPathStep(hp, leaves, i);
      ReduceKeepsTreeRoot(hp, leaves);
      FoldUpStep(hp, leaves, i, AuditPath(hp, up, i / 2));
      Completeness(hp, up, i / 2);
    }
  }

  // ---- soundness ----

  datatype Collision = Collision(a: (Hash, Hash), b: (Hash, Hash))

  predicate Collides(hp: PairHash, c: Collision) {
    c.a != c.b && hp(c.a.0, c.a.1) == hp(c.b.0, c.b.1)
  }

  function Ordered(h: Hash, i: nat, sibling: Hash): (Hash, Hash) {
    if i % 2 == 0 then (h, sibling) else (sibling, h)
  }

  /** Walk two proofs for the same position upwards and return the last pair of nodes that differ. */
  function FindCollision(hp: PairHash, x: Hash, p: seq<Hash>, y: Hash, q: seq<Hash>, i: nat, n: nat): Option<Collision>
    requires i < n
    decreases n
  {
    if n == 1 then None
    else if PromotedTail(i, n) then FindCollision(hp, x, p, y, q, i / 2, (n + 1) / 2)
    else if p == [] || q == [] then None
    else
      var a, b := Ordered(x, i, p[0]), Ordered(y, i, q[0]);
      var above := FindCollision(hp, Merge(hp, x, i, p[0]), p[1..], Merge(hp, y, i, q[0]), q[1..], i / 2, (n + 1) / 2);
      if above.Some? || a == b then above else Some(Collision(a, b))
  }

  /** Two accepted (leaf, proof) pairs for one position and one root are equal, or they yield a collision. */
  lemma {:induction false} PositionBinding(hp: PairHash, x: Hash, p: seq<Hash>, y: Hash, q: seq<Hash>, i: nat, n: nat, root: Hash)
    requires Verify(hp, x, i, n, p, root) && Verify(hp, y, i, n, q, root)
    ensures var c := FindCollision(hp, x, p, y, q, i, n);
            if x == y && p == q then c == None else c.Some? && Collides(hp, c.value)
    decreases n
  {
    if n > 1 {
      if PromotedTail(i, n) {
        PositionBinding(hp, x, p, y, q, i / 2, (n + 1) / 2, root);
      } else {
        PositionBinding(hp, Merge(hp, x, i, p[0]), p[1..], Merge(hp, y, i, q[0]), q[1..], i / 2, (n + 1) / 2, root);
        assert p == [p[0]] + p[1..] && q == [q[0]] + q[1..];
      }
    }
  }

  /** Soundness: whatever the verifier accepts at position i is the leaf and the path of the real tree,
      or a collision of the pair hash can be computed from what was accepted. */
  lemma Soundness(hp: PairHash, x: Hash, i: nat, p: seq<Hash>, leaves: seq<Hash>)
    requires leaves != [] && Verify(hp, x, i, |leaves|, p, TreeRoot(hp, leaves))
    ensures var c := FindCollision(hp, x, p, leaves[i], AuditPath(hp, leaves, i), i, |leaves|);
            (x == leaves[i] && p == AuditPath(hp, leaves, i)) || (c.Some? && Collides(hp, c.value))
  {
    Completeness(hp, leaves, i);
    PositionBinding(hp, x, p, leaves[i], AuditPath(hp, leaves, i), i, |leaves|, TreeRoot(hp, leaves));
  }

  // ---- proof length ----

  function PathLength(i: nat, n: nat): nat
    requires i < n
    decreases n
  {
    if n == 1 then 0
    else (if PromotedTail(i, n) then 0 else 1) + PathLength(i / 2, (n + 1) / 2)
  }

  lemma {:induction false} OnlyExactLengthFolds(hp: PairHash, leaf: Hash, i: nat, n: nat, proof: seq<Hash>)
    requires i < n
    ensures FoldUp(hp, leaf, i, n, proof).Some? <==> |proof| == PathLength(i, n)
    decreases n
  {
    if n > 1 {
      if PromotedTail(i, n) {
        OnlyExactLengthFolds(hp, leaf, i / 2, (n + 1) / 2, proof);
      } else if proof != [] {
        OnlyExactLengthFolds(hp, Merge(hp, leaf, i, proof[0]), i / 2, (n + 1) / 2, proof[1..]);
      }
    }
  }

  function Pow2(k: nat): (p: nat)
    ensures p >= 1
  {
    if k == 0 then 1 else 2 * Pow2(k - 1)
  }

  lemma {:induction false} PathLengthBound(i: nat, n: nat, k: nat)
    requires i < n <= Pow2(k)
    ensures PathLength(i, n) <= k
    decreases k
  {
    if n > 1 {
      assert k > 0;
      PathLengthBound(i / 2, (n + 1) / 2, k - 1);
    }
  }

  /** The honest proof has the length the verifier insists on, at most 16 hashes for a 16-bit leaf count. */
  lemma ProofLength(hp: PairHash, leaves: seq<Hash>, i: nat)
    requires i < |leaves|
    ensures |AuditPath(hp, leaves, i)| == PathLength(i, |leaves|)
    ensures |leaves| <= 0xFFFF ==> |AuditPath(hp, leaves, i)| <= 16
  {
    Completeness(hp, leaves, i);
    OnlyExactLengthFolds(hp, leaves[i], i, |leaves|, AuditPath(hp, leaves, i));
    if |leaves| <= 0xFFFF {
      assert Pow2(8) == 0x100;
      assert Pow2(16) == 0x1_0000;
      PathLengthBound(i, |leaves|, 16);
    }
  }
}
