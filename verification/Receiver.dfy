/** The receiver of src/transport.cpp: fields updated in place, frames as bytes, loops over blocks and hashes. */
module Receivers {
  import opened Wire
  import opened Merkle
  import opened Blocks
  import opened Package
  import opened Frames
  import opened Stores
  import opened Protocol

  lemma EncodeAllAppend(a: seq<Frame>, b: seq<Frame>)
    ensures EncodeAll(a + b) == EncodeAll(a) + EncodeAll(b)
  {
    hide Encode;
  }

  class OtaReceiver {
    const env: Env
    const store: BlockStore
    var haveGeometry: bool
    var blockSize: U16
    var blockCount: U16
    var payloadLength: U32
    const manifestRe: Reassembler
    var manifestReady: bool
    var manifest: Manifest
    var merkleRoot: Hash
    const blockRe: Reassembler
    var blockInFlight: U16
    const proofRe: Reassembler
    var proofInFlight: U16
    var proofs: map<U16, seq<Hash>>
    var readyBlocks: map<U16, Unit>
    var complete: bool
    var aborted: bool
    /** Frames handed to the radio, oldest first. */
    var outbox: seq<Data>
    ghost var sent: seq<Frame>

    ghost function Repr(): set<object> {
      {this, manifestRe, blockRe, proofRe} + store.Repr()
    }

    ghost predicate Valid()
      reads Repr()
    {
      && manifestRe != blockRe && manifestRe != proofRe && blockRe != proofRe
      && manifestRe.Valid() && blockRe.Valid() && proofRe.Valid() && store.Valid()
      && {this, manifestRe, blockRe, proofRe} !! store.Repr()
      && merkleRoot == (if manifestReady then manifest.root else Zeros(32))
      && outbox == EncodeAll(sent)
    }

    /** The value of the state machine this object implements. */
    ghost function State(): Receiver
      requires Valid()
      reads Repr()
    {
      Receiver(haveGeometry, blockSize, blockCount, payloadLength,
        manifestRe.View(), if manifestReady then Some(manifest) else None,
        blockRe.View(), blockInFlight, proofRe.View(), proofInFlight,
        proofs, readyBlocks, complete, aborted, store.View())
    }

    constructor (env: Env, store: BlockStore)
      requires store.Valid()
      ensures Valid() && this.env == env && this.store == store && fresh(Repr() - store.Repr())
      ensures State() == Fresh(store.View()) && outbox == []
    {
      this.env, this.store := env, store;
      haveGeometry, blockSize, blockCount, payloadLength := false, 0, 0, 0;
      manifestReady, merkleRoot := false, Zeros(32);
      manifest := Manifest(0, 0, 0, [], [], [], 0, 0, 0, Zeros(32), 0, Zeros(32), 0, 0);
      manifestRe := new Reassembler();
      blockRe := new Reassembler();
      proofRe := new Reassembler();
      blockInFlight, proofInFlight := INDEX_MANIFEST, INDEX_MANIFEST;
      proofs, readyBlocks := map[], map[];
      complete, aborted, outbox, sent := false, false, [], [];
    }

    method SendSimple(kind: Byte, index: U16)
      requires Valid()
      modifies `outbox, `sent
      ensures Valid() && State() == old(State()) && sent == old(sent) + [Simple(env, kind, index)]
    {
      var f := Frame(kind, env.session, index, 0, 0, []);
      EncodeAllAppend(sent, [f]);
      outbox := outbox + [Encode(f)];
      sent := sent + [f];
    }

    method NextNeededBlock() returns (need: U16)
      requires Valid()
      ensures var k := Lowest(store.View(), 0, blockCount); need == if k == blockCount then INDEX_MANIFEST else k
    {
      var i := 0;
      while i < blockCount
        invariant 0 <= i <= blockCount
        invariant Lowest(store.View(), i, blockCount) == Lowest(store.View(), 0, blockCount)
      {
        var stored := store.HasBlock(i);
        if !stored {
          return i;
        }
        i := i + 1;
      }
      need := INDEX_MANIFEST;
    }

    method RequestNext()
      requires Valid()
      modifies `outbox, `sent, `complete
      ensures Valid()
      ensures var o := Protocol.RequestNext(env, old(State())); State() == o.r && sent == old(sent) + o.sent
    {
      hide EncodeAll;
      if !manifestReady {
        SendSimple(REQUEST, INDEX_MANIFEST);
        return;
      }
      var need := NextNeededBlock();
      if need == INDEX_MANIFEST {
        complete := true;
        SendSimple(DONE, 0);
        return;
      }
      SendSimple(REQUEST, need);
    }

    method Poll()
      requires Valid()
      modifies `outbox, `sent, `complete
      ensures Valid()
      ensures var o := Protocol.Poll(env, old(State())); State() == o.r && sent == old(sent) + o.sent
    {
      hide Protocol.RequestNext, EncodeAll;
      if !aborted && !complete {
        RequestNext();
      }
    }

    /** Verify a block whose proof has arrived; store it and acknowledge it if it is genuine. */
    method VerifyAndStore(index: U16) returns (ghost acks: seq<Frame>)
      requires Valid() && manifestReady && index in readyBlocks && index in proofs
      modifies `outbox, `sent, store.Repr()
      ensures Valid() && sent == old(sent) + acks
      ensures var r := old(State()); var v := Verified(index, r.ready[index], r.proofs[index]);
              && State() == r.(store := if Verifies(env, r, v) then Put(r.store, index, v.block).s else r.store)
              && acks == if Verifies(env, r, v) then [Simple(env, ACK, index)] else []
    {
      hide EncodeAll, Verify, Put;
      var block := readyBlocks[index];
      var ok := MerkleVerify(PairOf(env.h), env.h(block), index, blockCount, proofs[index], merkleRoot);
      acks := [];
      if ok {
        var stored := store.PutBlock(index, block);
        SendSimple(ACK, index);
        acks := [Simple(env, ACK, index)];
      }
    }

    /** Whether verified or not, the working copies are dropped. */
    method Drop(index: U16)
      requires Valid()
      modifies `readyBlocks, `proofs
      ensures Valid() && sent == old(sent)
      ensures var r := old(State()); State() == r.(ready := r.ready - {index}, proofs := r.proofs - {index})
    {
      hide EncodeAll;
      readyBlocks := readyBlocks - {index};
      proofs := proofs - {index};
    }

    method TryFinishBlock(index: U16)
      requires Valid() && manifestReady
      modifies `outbox, `sent, `complete, `proofs, `readyBlocks, store.Repr()
      ensures Valid()
      ensures var o := TryFinish(env, old(State()), index); State() == o.r && sent == old(sent) + o.sent
    {
      hide Protocol.RequestNext, EncodeAll, Verifies, Put;
      if index !in readyBlocks || index !in proofs {
        return;
      }
      ghost var acks := VerifyAndStore(index);
      Drop(index);
      ghost var next := Protocol.RequestNext(env, State()).sent;
      RequestNext();
      assert old(sent) + acks + next == old(sent) + (acks + next);
    }

    method NoteGeometry(s: StartInfo)
      requires Valid()
      modifies `haveGeometry, `blockSize, `blockCount, `payloadLength
      ensures Valid() && sent == old(sent)
      ensures State() == old(State()).(haveGeometry := true, blockSize := s.blockSize, blockCount := s.blockCount,
                                       payloadLength := s.payloadLength)
    {
      hide EncodeAll;
      blockSize := s.blockSize;
      blockCount := s.blockCount;
      payloadLength := s.payloadLength;
      haveGeometry := true;
    }

    method HandleStart(body: Data)
      requires Valid()
      modifies `haveGeometry, `blockSize, `blockCount, `payloadLength, `outbox, `sent, `complete
      ensures Valid()
      ensures var o := OnStart(env, old(State()), body); State() == o.r && sent == old(sent) + o.sent
    {
      hide Protocol.RequestNext, EncodeAll, DecodeStart;
      var s := DecodeStart(body);
      if s.None? {
        return;
      }
      NoteGeometry(s.value);
      RequestNext();
    }

    method NarrowGeometry(m: Manifest)
      requires Valid()
      modifies `blockSize, `blockCount, `payloadLength
      ensures Valid() && sent == old(sent)
      ensures State() == old(State()).(blockSize := m.blockSize % 0x1_0000, blockCount := m.blockCount % 0x1_0000,
                                       payloadLength := m.payloadLength)
    {
      hide EncodeAll;
      blockSize := m.blockSize % 0x1_0000;
      blockCount := m.blockCount % 0x1_0000;
      payloadLength := m.payloadLength;
    }

    method KeepManifest(m: Manifest)
      requires Valid() && !manifestReady
      modifies `manifestReady, `manifest, `merkleRoot
      ensures Valid() && manifestReady && sent == old(sent) && State() == old(State()).(manifest := Some(m))
    {
      hide EncodeAll;
      manifest := m;
      merkleRoot := m.root;
      manifestReady := true;
    }

    method AdoptManifest(m: Manifest)
      requires Valid() && !manifestReady
      modifies `blockSize, `blockCount, `payloadLength, `manifestReady, `manifest, `merkleRoot, manifestRe
      ensures Valid() && manifestReady && State() == Adopt(old(State()), m) && sent == old(sent)
    {
      hide EncodeAll;
      if !haveGeometry {
        NarrowGeometry(m);
      }
      KeepManifest(m);
      manifestRe.Deactivate();
    }

    /** A complete manifest unit: check format, signature and announced geometry, then adopt it. */
    method FinishManifest(buf: Data)
      requires Valid() && !manifestReady
      modifies `blockSize, `blockCount, `payloadLength, `manifestReady, `manifest, `merkleRoot, `aborted, `complete, `outbox, `sent, manifestRe
      ensures Valid()
      ensures var o := AcceptManifest(env, old(State()), buf); State() == o.r && sent == old(sent) + o.sent
    {
      hide Protocol.RequestNext, EncodeAll, UnpackManifest, Adopt;
      if |buf| < MANIFEST_SIZE {
        aborted := true;
        return;
      }
      var m := UnpackManifest(buf[..MANIFEST_SIZE]);
      if m.magic != MANIFEST_MAGIC || m.format != MANIFEST_FORMAT {
        aborted := true;
        return;
      }
      if env.verifier.Some? && !env.verifier.value(buf[..MANIFEST_SIZE], buf[MANIFEST_SIZE..]) {
        aborted := true;
        return;
      }
      if haveGeometry && (m.blockSize != blockSize || m.blockCount != blockCount || m.payloadLength != payloadLength) {
        aborted := true;
        return;
      }
      AdoptManifest(m);
      RequestNext();
    }

    method HandleManifest(f: Frame)
      requires Valid()
      modifies `haveGeometry, `blockSize, `blockCount, `payloadLength, `manifestReady, `manifest, `merkleRoot, `aborted, `complete, `outbox, `sent, manifestRe
      ensures Valid()
      ensures var o := OnManifest(env, old(State()), f); State() == o.r && sent == old(sent) + o.sent
    {
      hide EncodeAll, AcceptManifest;
      if manifestReady {
        return;
      }
      if f.off == 0 {
        manifestRe.Reset(f.total);
      }
      var done := manifestRe.Feed(f.off, f.body);
      if done {
        FinishManifest(manifestRe.buf);
      }
    }

    method FeedBlock(f: Frame) returns (done: bool)
      requires Valid()
      modifies `blockInFlight, blockRe
      ensures Valid() && sent == old(sent)
      ensures var r := old(State());
              var fed := Take(if r.blockInFlight == f.index then r.blockRe else Partial(true, f.total, []), f);
              && done == fed.done && State() == r.(blockInFlight := f.index, blockRe := fed.re)
              && (done ==> blockRe.buf == fed.re.got)
    {
      hide EncodeAll;
      if f.off == 0 || blockInFlight != f.index {
        blockRe.Reset(f.total);
        blockInFlight := f.index;
      }
      done := blockRe.Feed(f.off, f.body);
    }

    /** A complete block waits for its proof. */
    method HoldBlock(index: U16)
      requires Valid()
      modifies `readyBlocks, blockRe
      ensures Valid() && sent == old(sent)
      ensures State() == old(State()).(ready := old(readyBlocks)[index := old(blockRe.buf)], blockRe := old(blockRe.View()).(active := false))
    {
      hide EncodeAll;
      readyBlocks := readyBlocks[index := blockRe.buf];
      blockRe.Deactivate();
    }

    method HandleBlock(f: Frame)
      requires Valid()
      modifies `blockInFlight, `readyBlocks, `proofs, `complete, `outbox, `sent, blockRe, store.Repr()
      ensures Valid()
      ensures var o := OnBlock(env, old(State()), f); State() == o.r && sent == old(sent) + o.sent
    {
      hide EncodeAll, TryFinish, Take;
      var stored := store.HasBlock(f.index);
      if !manifestReady || stored {
        return;
      }
      var done := FeedBlock(f);
      if done {
        HoldBlock(f.index);
        TryFinishBlock(f.index);
      }
    }

    method FeedProof(f: Frame) returns (done: bool)
      requires Valid()
      modifies `proofInFlight, proofRe
      ensures Valid() && sent == old(sent)
      ensures var r := old(State());
              var fed := Take(if r.proofInFlight == f.index then r.proofRe else Partial(true, f.total, []), f);
              && done == fed.done && State() == r.(proofInFlight := f.index, proofRe := fed.re)
              && (done ==> proofRe.buf == fed.re.got)
    {
      hide EncodeAll;
      if f.off == 0 || proofInFlight != f.index {
        proofRe.Reset(f.total);
        proofInFlight := f.index;
      }
      done := proofRe.Feed(f.off, f.body);
    }

    method CloseProof()
      requires Valid()
      modifies proofRe
      ensures Valid() && sent == old(sent) && proofRe.buf == old(proofRe.buf)
      ensures State() == old(State()).(proofRe := old(proofRe.View()).(active := false))
    {
      hide EncodeAll;
      proofRe.Deactivate();
    }

    method HoldProof(index: U16, proof: seq<Hash>)
      requires Valid()
      modifies `proofs
      ensures Valid() && sent == old(sent) && State() == old(State()).(proofs := old(proofs)[index := proof])
    {
      hide EncodeAll;
      proofs := proofs[index := proof];
    }

    /** The proof is complete: take it apart unless its length is no whole number of hashes. */
    method FinishProof(index: U16)
      requires Valid() && manifestReady
      modifies `readyBlocks, `proofs, `complete, `outbox, `sent, proofRe, store.Repr()
      ensures Valid()
      ensures var r := old(State()); var closed := r.(proofRe := r.proofRe.(active := false));
              var unit := old(proofRe.buf);
              var o := if |unit| % 32 != 0 then Out(closed, [], [])
                       else TryFinish(env, closed.(proofs := r.proofs[index := SplitHashes(unit)]), index);
              State() == o.r && sent == old(sent) + o.sent
    {
      hide EncodeAll, TryFinish, SplitHashes;
      CloseProof();
      if |proofRe.buf| % 32 == 0 {
        var proof := HashesOf(proofRe.buf);
        HoldProof(index, proof);
        TryFinishBlock(index);
      }
    }

    method HandleProof(f: Frame)
      requires Valid()
      modifies `proofInFlight, `readyBlocks, `proofs, `complete, `outbox, `sent, proofRe, store.Repr()
      ensures Valid()
      ensures var o := OnProof(env, old(State()), f); State() == o.r && sent == old(sent) + o.sent
    {
      hide EncodeAll, TryFinish, Take, SplitHashes;
      var stored := store.HasBlock(f.index);
      if !manifestReady || stored {
        return;
      }
      if f.total == 0 {
        HoldProof(f.index, []);
        TryFinishBlock(f.index);
        return;
      }
      var done := FeedProof(f);
      if done {
        FinishProof(f.index);
      }
    }

    /** One received frame, as bytes: malformed, foreign and late frames are ignored. */
    method OnFrame(data: Data)
      requires Valid()
      modifies Repr()
      ensures Valid()
      ensures var f := Decode(data);
              var o := if f.Some? then Protocol.OnFrame(env, old(State()), f.value) else Out(old(State()), [], []);
              State() == o.r && sent == old(sent) + o.sent
      ensures |data| < 8 || data[1] != env.session || old(aborted) || old(complete) ==> State() == old(State()) && outbox == old(outbox)
    {
      hide EncodeAll, OnStart, OnManifest, OnBlock, OnProof;
      var h := Decode(data);
      if h.None? {
        return;
      }
      var f := h.value;
      if f.session != env.session {
        return;
      }
      if aborted || complete {
        return;
      }
      if f.kind == START {
        HandleStart(f.body);
      } else if f.kind == MANIFEST {
        HandleManifest(f);
      } else if f.kind == BLOCK {
        HandleBlock(f);
      } else if f.kind == PROOF {
        HandleProof(f);
      } else if f.kind == ABORT {
        aborted := true;
      }
    }

    /** The application's part of the loop: give the accepted manifest to the store. */
    method PrimeStore()
      requires Valid()
      modifies store.Repr()
      ensures Valid() && State() == Prime(old(State())) && sent == old(sent)
    {
      if manifestReady {
        store.SetManifest(manifest);
      }
    }
  }

  /** Cut a proof into its hashes. */
  method HashesOf(buf: Data) returns (proof: seq<Hash>)
    requires |buf| % 32 == 0
    ensures proof == SplitHashes(buf)
  {
    proof := [];
    for i := 0 to |buf| / 32
      invariant proof == SplitHashes(buf)[..i]
    {
      SplitHashesAt(buf, i);
      proof := proof + [buf[32 * i..32 * i + 32]];
    }
  }

  lemma {:induction false} SplitHashesAt(buf: Data, i: nat)
    requires |buf| % 32 == 0 && i < |buf| / 32
    ensures SplitHashes(buf)[i] == buf[32 * i..32 * i + 32]
    decreases i
  {
    if i > 0 {
      SplitHashesAt(buf[32..], i - 1);
      assert buf[32..][32 * (i - 1)..32 * (i - 1) + 32] == buf[32 * i..32 * i + 32];
    }
  }
}
