/** How a payload is cut into hashed blocks, on both sides of the wire. */
module Blocks {
  import opened Wire
  import opened Merkle

  /** SHA-256 as every caller sees it; the transport does not depend on what it computes. */
  type HashFn = Data -> Hash

  /** hash_pair of src/merkle.cpp hashes the two children one after the other. */
  function PairOf(h: HashFn): PairHash {
    (l: Hash, r: Hash) => h(l + r)
  }

  function BlocksOf(payload: Data, bs: nat): seq<Data>
    requires bs > 0
    decreases |payload|
  {
    if payload == [] then [] else
      var n := Min(bs, |payload|);
      [payload[..n]] + BlocksOf(payload[n..], bs)
  }

  function LeavesOf(h: HashFn, blocks: seq<Data>): (leaves: seq<Hash>)
    ensures |leaves| == |blocks|
    ensures forall i | 0 <= i < |blocks| :: leaves[i] == h(blocks[i])
  {
    seq(|blocks|, i requires 0 <= i < |blocks| => h(blocks[i]))
  }

  /** The root written into the manifest. */
  function RootOf(h: HashFn, blocks: seq<Data>): Hash {
    if blocks == [] then Zeros(32) else TreeRoot(PairOf(h), LeavesOf(h, blocks))
  }

  lemma {:induction false} BlocksJoin(payload: Data, bs: nat)
    requires bs > 0
    ensures Join(BlocksOf(payload, bs)) == payload
    decreases |payload|
  {
    if payload != [] {
      BlocksJoin(payload[Min(bs, |payload|)..], bs);
    }
  }

  /** Block i starts at i * bs and is full unless it is the last. */
  lemma {:induction false} BlockAt(payload: Data, bs: nat, i: nat)
    requires bs > 0 && i < |BlocksOf(payload, bs)|
    ensures 0 <= i * bs < |payload|
    ensures BlocksOf(payload, bs)[i] == payload[i * bs..Min(i * bs + bs, |payload|)]
    ensures i * bs + bs < |payload| <==> i + 1 < |BlocksOf(payload, bs)|
    decreases |payload|
  {
    var n := Min(bs, |payload|);
    var rest := payload[n..];
    if i > 0 {
      BlockAt(rest, bs, i - 1);
      assert (i - 1) * bs == i * bs - bs;
      assert rest[(i - 1) * bs..Min(i * bs, |rest|)] == payload[i * bs..Min(i * bs + bs, |payload|)];
    }
  }

  /** The number of blocks is the length divided by the block size, rounded up. */
  lemma {:induction false} BlockCount(payload: Data, bs: nat)
    requires bs > 0
    ensures var n := |BlocksOf(payload, bs)|; n * bs < |payload| + bs && |payload| <= n * bs
    decreases |payload|
  {
    if payload != [] {
      var rest := payload[Min(bs, |payload|)..];
      BlockCount(rest, bs);
      var n := |BlocksOf(rest, bs)|;
      assert (n + 1) * bs == n * bs + bs;
    }
  }

  lemma MulMonotone(a: nat, b: nat, c: nat)
    requires a <= b
    ensures a * c <= b * c
  {
  }

  /** In 16-bit geometry no 32-bit sum of an offset and a block size can wrap. */
  lemma NoWrap(payload: Data, bs: U16)
    requires bs > 0 && |BlocksOf(payload, bs)| <= 0xFFFF
    ensures forall i: nat | i < |BlocksOf(payload, bs)| :: i * bs + bs <= 0xFFFF * 0xFFFF < WRAP
    ensures |payload| <= 0xFFFF * 0xFFFF
  {
    var n := |BlocksOf(payload, bs)|;
    BlockCount(payload, bs);
    MulMonotone(n, 0xFFFF, bs);
    forall i: nat | i < n
      ensures i * bs + bs <= 0xFFFF * 0xFFFF
    {
      assert i * bs + bs == (i + 1) * bs;
      MulMonotone(i + 1, 0xFFFF, bs);
    }
  }

  /** The leaf loop of the seeder (offsets in 32 bits) and of the packager. */
  method LeavesFor(h: HashFn, payload: Data, bs: nat) returns (leaves: seq<Hash>)
    requires bs > 0
    ensures leaves == LeavesOf(h, BlocksOf(payload, bs))
  {
    leaves := [];
    var off := 0;
    ghost var blocks := BlocksOf(payload, bs);
    ghost var done := 0;
    while off < |payload|
      invariant 0 <= off && 0 <= done <= |blocks|
      invariant off < |payload| ==> BlocksOf(payload[off..], bs) == blocks[done..]
      invariant off >= |payload| ==> done == |blocks|
      invariant leaves == LeavesOf(h, blocks)[..done]
    {
      var n := Min(off + bs, |payload|);
      assert payload[off..][..n - off] == payload[off..n];
      assert payload[off..][n - off..] == payload[n..];
      assert blocks[done..][0] == blocks[done] && blocks[done..][1..] == blocks[done + 1..];
      leaves := leaves + [h(payload[off..n])];
      done := done + 1;
      off := off + bs;
    }
  }

  // ---- collisions ----

  /** Two different inputs with one hash. */
  datatype Twins = Twins(x: Data, y: Data)

  predicate Twin(h: HashFn, t: Twins) {
    t.x != t.y && h(t.x) == h(t.y)
  }

  lemma PairTwins(h: HashFn, c: Collision)
    requires Collides(PairOf(h), c)
    ensures Twin(h, Twins(c.a.0 + c.a.1, c.b.0 + c.b.1))
  {
    if c.a.0 + c.a.1 == c.b.0 + c.b.1 {
      HalvesAgree(c.a.0, c.a.1, c.b.0, c.b.1);
    }
  }

  lemma HalvesAgree(a: Hash, b: Hash, c: Hash, d: Hash)
    requires a + b == c + d
    ensures a == c && b == d
  {
    assert (a + b)[..32] == a && (a + b)[32..] == b && (c + d)[..32] == c && (c + d)[32..] == d;
  }

  /** The two colliding inputs hidden in an accepted block that is not the real one. */
  function Forgery(h: HashFn, blocks: seq<Data>, i: nat, block: Data, proof: seq<Hash>): Twins
    requires i < |blocks|
  {
    var leaves := LeavesOf(h, blocks);
    if h(block) == leaves[i] then Twins(block, blocks[i]) else
      var c := FindCollision(PairOf(h), h(block), proof, leaves[i], AuditPath(PairOf(h), leaves, i), i, |leaves|);
      if c.None? then Twins([], []) else Twins(c.value.a.0 + c.value.a.1, c.value.b.0 + c.value.b.1)
  }

  /** A block that passes verification is the block of the payload, or two inputs with one hash can be computed from it. */
  lemma AcceptedBlock(h: HashFn, blocks: seq<Data>, i: nat, block: Data, proof: seq<Hash>)
    requires i < |blocks| && Verify(PairOf(h), h(block), i, |blocks|, proof, RootOf(h, blocks))
    ensures block == blocks[i] || Twin(h, Forgery(h, blocks, i, block, proof))
  {
    var leaves := LeavesOf(h, blocks);
    Soundness(PairOf(h), h(block), i, proof, leaves);
    if h(block) != leaves[i] {
      PairTwins(h, FindCollision(PairOf(h), h(block), proof, leaves[i], AuditPath(PairOf(h), leaves, i), i, |leaves|).value);
    }
  }
}
