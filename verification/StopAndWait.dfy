/** When the protocol is stop-and-wait: exactly which receivers never have two requests in flight, nor one while an answer
    to an earlier one is still on its way. */
module StopAndWait {
  import opened Wire
  import opened Merkle
  import opened Blocks
  import opened Package
  import opened Frames
  import opened Stores
  import opened Protocol
  import opened Safety
  import opened Delivery
  import opened Convergence
  import opened Completion

  predicate IsRequest(env: Env, f: Frame) {
    f.session == env.session && f.kind == REQUEST
  }

  predicate NoRequest(env: Env, frames: seq<Frame>) {
    forall k | 0 <= k < |frames| :: !IsRequest(env, frames[k])
  }

  predicate AtMostOneRequest(env: Env, frames: seq<Frame>) {
    forall a, b | 0 <= a < b < |frames| :: !(IsRequest(env, frames[a]) && IsRequest(env, frames[b]))
  }

  /** The next delivery provokes at most one request, and only if it is the last frame on its way. */
  ghost predicate Patient(s: Session, l: Line) {
    l.queue != [] ==>
      var sent := Recv(s.env, l.r, l.queue[0]).sent;
      AtMostOneRequest(s.env, sent) && (NoRequest(s.env, sent) || |l.queue| == 1)
  }

  ghost predicate PatientFor(s: Session, l: Line, k: nat) {
    forall j: nat | j < k :: Patient(s, Moves(s, l, j))
  }

  lemma PatientAdd(s: Session, l: Line, a: nat, b: nat)
    requires PatientFor(s, l, a) && PatientFor(s, Moves(s, l, a), b)
    ensures PatientFor(s, l, a + b)
  {
    hide Shaped, Moves, Patient;
    forall j: nat | j < a + b
      ensures Patient(s, Moves(s, l, j))
    {
      if j >= a {
        MovesAdd(s, l, a, j - a);
      }
    }
  }

  /** A batch that keeps the receiver silent until its last frame. */
  ghost predicate Silent(env: Env, r: Receiver, batch: seq<Frame>) {
    forall j | 0 <= j < |batch| :: RecvAll(env, r, batch[..j]).sent == []
  }

  lemma SilentIsPatient(s: Session, r: Receiver, batch: seq<Frame>, behind: seq<Frame>)
    requires Silent(s.env, r, batch)
    requires var sent := RecvAll(s.env, r, batch).sent;
             AtMostOneRequest(s.env, sent) && (NoRequest(s.env, sent) || behind == [])
    ensures PatientFor(s, Line(r, batch + behind), |batch|)
  {
    hide Shaped, Moves, Recv, RespondTo, Silent;
    forall j: nat | j < |batch|
      ensures Patient(s, Moves(s, Line(r, batch + behind), j))
    {
      SilentAt(s, r, batch, behind, j);
    }
  }

  /** Before its frame j a silent batch has provoked nothing. */
  lemma SilentReaches(s: Session, r: Receiver, batch: seq<Frame>, behind: seq<Frame>, j: nat) returns (l: Line)
    requires Silent(s.env, r, batch) && j < |batch|
    ensures l == Moves(s, Line(r, batch + behind), j) && l.queue == batch[j..] + behind
    ensures Recv(s.env, l.r, batch[j]).sent == RecvAll(s.env, r, batch[..j + 1]).sent
  {
    hide Shaped, Moves, Recv, RespondTo;
    var head, tail := batch[..j], batch[j..];
    assert batch + behind == head + (tail + behind);
    MovesBatch(s, r, head, tail + behind);
    NoReply(s);
    assert tail + behind + [] == tail + behind;
    l := Line(RecvAll(s.env, r, head).r, tail + behind);
    assert batch[..j + 1] == head + [batch[j]];
    RecvAllAppend(s.env, r, head, [batch[j]]);
    RecvOne(s.env, l.r, batch[j]);
  }

  lemma SilentAt(s: Session, r: Receiver, batch: seq<Frame>, behind: seq<Frame>, j: nat)
    requires Silent(s.env, r, batch) && j < |batch|
    requires var sent := RecvAll(s.env, r, batch).sent;
             AtMostOneRequest(s.env, sent) && (NoRequest(s.env, sent) || behind == [])
    ensures Patient(s, Moves(s, Line(r, batch + behind), j))
  {
    hide Shaped, Moves, Recv, RespondTo, RecvAll, AtMostOneRequest, NoRequest;
    var l := SilentReaches(s, r, batch, behind, j);
    assert l.queue[0] == batch[j];
    if j + 1 == |batch| {
      assert batch[..j + 1] == batch;
    } else {
      NothingRequested(s.env);
    }
  }

  /** A batch whose last frame provokes a request while more is behind it. */
  lemma RequestBeforeTheEnd(s: Session, r: Receiver, batch: seq<Frame>, behind: seq<Frame>)
    requires Silent(s.env, r, batch) && batch != [] && behind != []
    requires !NoRequest(s.env, RecvAll(s.env, r, batch).sent)
    ensures !Patient(s, Moves(s, Line(r, batch + behind), |batch| - 1))
  {
    hide Shaped, Moves, Recv, RespondTo, RecvAll, NoRequest, Silent, AtMostOneRequest;
    var j := |batch| - 1;
    var l := SilentReaches(s, r, batch, behind, j);
    assert batch[..j + 1] == batch && l.queue[0] == batch[j] && |l.queue| == 1 + |behind|;
  }

  lemma RecvOne(env: Env, r: Receiver, f: Frame)
    ensures [] + RecvAll(env, r, [f]).sent == Recv(env, r, f).sent
  {
    hide Recv;
    RecvFirst(env, r, f, []);
    assert [f] + [] == [f];
  }

  lemma NothingRequested(env: Env)
    ensures NoRequest(env, []) && AtMostOneRequest(env, [])
  {
  }

  // ---- every unit keeps the receiver silent until its last fragment ----

  lemma SilentStep(env: Env, r: Receiver, f: Frame, rest: seq<Frame>)
    requires Recv(env, r, f).sent == [] && Recv(env, r, f).verified == [] && Silent(env, Recv(env, r, f).r, rest)
    ensures Silent(env, r, [f] + rest)
  {
    hide Recv;
    var frames := [f] + rest;
    forall j | 0 <= j < |frames|
      ensures RecvAll(env, r, frames[..j]).sent == []
    {
      if j > 0 {
        assert frames[..j] == [f] + rest[..j - 1];
        RecvFirst(env, r, f, rest[..j - 1]);
      }
    }
  }

  lemma SilentSingle(env: Env, r: Receiver, f: Frame)
    ensures Silent(env, r, [f])
  {
    hide Recv;
    assert [f][..0] == [];
  }

  lemma {:induction false} BlockSilent(env: Env, r: Receiver, i: U16, unit: Unit, off: nat, frag: nat)
    requires Live(r) && !Has(r.store, i) && frag > 0 && off < |unit|
    requires off > 0 ==> r.blockInFlight == i && r.blockRe == Partial(true, |unit|, unit[..off])
    ensures Silent(env, r, Fragments(BLOCK, env.session, i, unit, off, frag))
    decreases |unit| - off
  {
    hide TryFinish, Recv, Silent;
    var n := Min(frag, |unit| - off);
    var f := Frame(BLOCK, env.session, i, off, |unit|, unit[off..off + n]);
    OneBlockFrame(env, r, f, unit, off, n);
    if off + n < |unit| {
      BlockSilent(env, Recv(env, r, f).r, i, unit, off + n, frag);
      SilentStep(env, r, f, Fragments(BLOCK, env.session, i, unit, off + n, frag));
    } else {
      SilentSingle(env, r, f);
      assert [f] + [] == [f];
    }
  }

  lemma {:induction false} ProofSilent(env: Env, r: Receiver, i: U16, unit: Unit, proof: seq<Hash>, off: nat, frag: nat)
    requires Live(r) && !Has(r.store, i) && frag > 0 && off < |unit|
    requires |unit| % 32 == 0 && SplitHashes(unit) == proof
    requires off > 0 ==> r.proofInFlight == i && r.proofRe == Partial(true, |unit|, unit[..off])
    ensures Silent(env, r, Fragments(PROOF, env.session, i, unit, off, frag))
    decreases |unit| - off
  {
    hide TryFinish, Recv, Silent, SplitHashes;
    var n := Min(frag, |unit| - off);
    var f := Frame(PROOF, env.session, i, off, |unit|, unit[off..off + n]);
    OneProofFrame(env, r, f, unit, proof, off, n);
    if off + n < |unit| {
      ProofSilent(env, Recv(env, r, f).r, i, unit, proof, off + n, frag);
      SilentStep(env, r, f, Fragments(PROOF, env.session, i, unit, off + n, frag));
    } else {
      SilentSingle(env, r, f);
      assert [f] + [] == [f];
    }
  }

  lemma {:induction false} ManifestSilent(env: Env, r: Receiver, unit: Unit, off: nat, frag: Positive)
    requires r.manifest.None? && !r.complete && !r.aborted && off < |unit|
    requires off > 0 ==> r.manifestRe == Partial(true, |unit|, unit[..off])
    ensures Silent(env, r, Fragments(MANIFEST, env.session, INDEX_MANIFEST, unit, off, frag))
    decreases |unit| - off
  {
    hide AcceptManifest, Recv, Silent;
    var n := Min(frag, |unit| - off);
    var f := Frame(MANIFEST, env.session, INDEX_MANIFEST, off, |unit|, unit[off..off + n]);
    OneManifestFrame(env, r, f, unit, off, n);
    if off + n < |unit| {
      ManifestSilent(env, Recv(env, r, f).r, unit, off + n, frag);
      SilentStep(env, r, f, Fragments(MANIFEST, env.session, INDEX_MANIFEST, unit, off + n, frag));
    } else {
      SilentSingle(env, r, f);
      assert [f] + [] == [f];
    }
  }

  // ---- whole sessions ----

  lemma FinishAsksOnce(env: Env, r: Receiver, i: U16)
    ensures AtMostOneRequest(env, TryFinish(env, r, i).sent)
  {
    hide Put, Verifies;
  }

  lemma OneFrameAsksOnce(env: Env, frames: seq<Frame>)
    requires |frames| == 1
    ensures AtMostOneRequest(env, frames)
  {
  }

  lemma ProofHalfSilent(s: Session, r: Receiver, i: U16)
    requires Ready(s, r) && Low(r) == i < r.blockCount
    ensures Silent(s.env, r, ProofFrames(s.env, s.p, i, s.frag))
  {
    hide Regular, BlocksOf, Recv, Fragments, AuditPath, Silent, Informed;
    var unit, proof := ProofUnit(s.env.h, s.p, i), HonestProof(s.env.h, s.p, i);
    HashesSurvive(proof);
    if unit == [] {
      SilentSingle(s.env, r, Simple(s.env, PROOF, i));
    } else {
      ProofSilent(s.env, r, i, unit, proof, 0, s.frag);
    }
  }

  lemma BlockHalfSilent(s: Session, r: Receiver, i: U16)
    requires Ready(s, r) && Low(r) == i < |BlocksIn(s.p)|
    ensures Silent(s.env, r, BlockFrames(s.env, s.p, i, s.frag))
  {
    hide BlocksOf, Recv, Fragments, Silent, Regular;
    BlockFits(s.env.h, s.p, i);
    BlockSilent(s.env, r, i, BlocksIn(s.p)[i], 0, s.frag);
  }

  // ---- which receivers are calm ----

  /** The block passes verification with its proof, and its slot has room for it. */
  predicate Storable(s: Session, flash: bool, i: nat, block: Data) {
    var m := s.p.m;
    && Verify(PairOf(s.env.h), s.env.h(block), i, m.blockCount, HonestProof(s.env.h, s.p, i), m.root)
    && i * m.blockSize + |block| <= Room(flash, m)
  }

  ghost predicate LastMissing(s: Session, store: Store, i: nat) {
    forall k: nat | i < k < s.p.m.blockCount :: Has(store, k)
  }

  /** The transfer gets as far as block j: there is room for every missing block below it. */
  ghost predicate Reached(s: Session, store: Store, j: nat) {
    forall k: nat | k < j && !Has(store, k) :: HasRoom(s, store, k)
  }

  /** No complete block the transfer reaches waits for its proof, unless it is the last one missing and will be stored. */
  ghost predicate Calm(s: Session, r: Receiver) {
    forall j <- r.ready | j < s.p.m.blockCount && !Has(r.store, j) && Reached(s, r.store, j) ::
      LastMissing(s, r.store, j) && Storable(s, r.store.flash, j, r.ready[j])
  }

  ghost predicate AlwaysPatient(s: Session, l: Line) {
    forall j: nat :: Patient(s, Moves(s, l, j))
  }

  lemma PatientLater(s: Session, l: Line, a: nat, j: nat)
    requires PatientFor(s, l, a) && (j >= a ==> Patient(s, Moves(s, Moves(s, l, a), j - a)))
    ensures Patient(s, Moves(s, l, j))
  {
    hide Shaped, Moves, Patient;
    if j >= a {
      MovesAdd(s, l, a, j - a);
    }
  }

  lemma RestIsPatient(s: Session, l: Line, j: nat)
    requires l.queue == []
    ensures Patient(s, Moves(s, l, j))
  {
    hide Shaped, Moves, Recv;
    AtRest(s, l, j);
  }

  /** Storing the lowest missing block, with none waiting for it, makes a receiver no more and no less calm. */
  lemma CalmAfterLowest(s: Session, r: Receiver, o: Out, i: nat)
    requires Ready(s, r) && Low(r) == i < r.blockCount && i !in r.ready && OnlyStored(r, o.r, i) && HasRoom(s, r.store, i)
    ensures Calm(s, o.r) <==> Calm(s, r)
  {
    hide Shaped, Sound, Storable, HasRoom;
    LowBelowCount(s, r, r);
    assert HasRoom(s, o.r.store, i) by { RoomAlike(s, r.store, o.r.store, i); }
    forall j <- r.ready | j < s.p.m.blockCount && !Has(r.store, j)
      ensures i < j && !Has(o.r.store, j) && (LastMissing(s, o.r.store, j) <==> LastMissing(s, r.store, j))
      ensures Reached(s, o.r.store, j) <==> Reached(s, r.store, j)
    {
      forall k: nat ensures HasRoom(s, o.r.store, k) <==> HasRoom(s, r.store, k) {
        RoomAlike(s, r.store, o.r.store, k);
      }
    }
  }

  lemma RoomAlike(s: Session, a: Store, b: Store, k: nat)
    requires a.flash == b.flash
    ensures HasRoom(s, a, k) <==> HasRoom(s, b, k)
  {
    hide Shaped, BlocksOf;
  }

  /** With no block waiting for it, one train stores the lowest missing block, or finds no room for it, and provokes the next
      request with its last frame. */
  lemma BareExchange(s: Session, r: Receiver, i: U16) returns (k: nat, o: Out)
    requires Valid(s) && Ready(s, r) && Low(r) == i < r.blockCount && i !in r.ready
    ensures Resting(s, Moves(s, Line(r, Train(s, i)), k), [], o) && PatientFor(s, Line(r, Train(s, i)), k) && k > 0
    ensures if HasRoom(s, r.store, i) then OnlyStored(r, o.r, i) else SameHoldings(r, o.r)
  {
    hide Shaped, GoodPackage, RecvAll, Train, ProofFrames, BlockFrames, RespondTo, Clean, Genuine, Moves, Regular,
         Informed, HonestProof, Silent, PatientFor, TryFinish, Continues, Has, HasRoom;
    TrainParts(s, r, i);
    HalvesNotEmpty(s, i);
    var proofs, blocks := ProofFrames(s.env, s.p, i, s.frag), BlockFrames(s.env, s.p, i, s.frag);
    var start := Line(r, Train(s, i));
    var half := ProofDelivered(s, r, i);
    ProofHalfSilent(s, r, i);
    NothingRequested(s.env);
    SilentIsPatient(s, r, proofs, blocks);
    var k1, l1 := DeliverBatch(s, start, proofs, blocks, half);
    NoReply(s);
    assert blocks + [] == blocks;
    var k2;
    k2, o := BareSecondHalf(s, half.r, i);
    MovesAdd(s, start, k1, k2);
    PatientAdd(s, start, k1, k2);
    k := k1 + k2;
  }

  /** Block i, and nothing else, has been stored, and what waits still waits. */
  ghost predicate OnlyStored(r: Receiver, r': Receiver, i: nat) {
    && r'.ready == r.ready && r'.store.flash == r.store.flash && Has(r'.store, i)
    && forall k: nat | k != i :: Has(r'.store, k) <==> Has(r.store, k)
  }

  lemma BareSecondHalf(s: Session, r: Receiver, i: U16) returns (k: nat, o: Out)
    requires Valid(s) && Ready(s, r) && Low(r) == i < |BlocksIn(s.p)| && i !in r.ready
    requires i in r.proofs && r.proofs[i] == HonestProof(s.env.h, s.p, i)
    ensures var l := Line(r, BlockFrames(s.env, s.p, i, s.frag)); Resting(s, Moves(s, l, k), [], o) && PatientFor(s, l, k)
    ensures if HasRoom(s, r.store, i) then OnlyStored(r, o.r, i) else SameHoldings(r, o.r)
  {
    hide Shaped, GoodPackage, RecvAll, BlockFrames, RespondTo, Clean, Moves, HonestProof, Silent, PatientFor, TryFinish, Continues, BlocksOf, HasRoom;
    var frames := BlockFrames(s.env, s.p, i, s.frag);
    BlockFits(s.env.h, s.p, i);
    var w := WithBlock(r, i, BlocksIn(s.p)[i]);
    o := TryFinish(s.env, w, i);
    BlockReceived(s.env, r, i, BlocksIn(s.p)[i], 0, s.frag);
    BlockHalfSilent(s, r, i);
    SecondHalfHoldings(s, r, i, w);
    FinishAsksOnce(s.env, w, i);
    BlockFramesAre(s, i);
    SilentIsPatient(s, r, frames, []);
    assert frames + [] == frames;
    var l;
    k, l := DeliverBatch(s, Line(r, frames), frames, [], o);
  }

  lemma BlockFramesAre(s: Session, i: U16)
    requires i < |BlocksIn(s.p)| && |BlocksIn(s.p)[i]| <= 0xFFFF
    ensures BlockFrames(s.env, s.p, i, s.frag) == Fragments(BLOCK, s.env.session, i, BlocksIn(s.p)[i], 0, s.frag)
  {
    hide Shaped, BlocksOf, Fragments;
  }

  lemma SecondHalfHoldings(s: Session, r: Receiver, i: U16, w: Receiver)
    requires Valid(s) && Ready(s, r) && Low(r) == i < |BlocksIn(s.p)| && i !in r.ready && |BlocksIn(s.p)[i]| <= 0xFFFF
    requires i in r.proofs && r.proofs[i] == HonestProof(s.env.h, s.p, i) && w == WithBlock(r, i, BlocksIn(s.p)[i])
    ensures var o := TryFinish(s.env, w, i);
            Continues(s, o) && if HasRoom(s, r.store, i) then OnlyStored(r, o.r, i) else SameHoldings(r, o.r)
  {
    hide Shaped, RootOf, BlocksOf, RespondTo, HonestProof, TryFinish, Continues, Regular, Put, Verify, OnlyTrusts, HoldsPrefix;
    var block := BlocksIn(s.p)[i];
    FinishContinues(s, w, i);
    FinishFocused(s, w, i);
    HonestVerifies(s, i);
    LowBelowCount(s, r, r);
    FinishedStore(s.env, w, i);
    LowestStored(s, r, i, block);
    assert w.ready - {i} == r.ready;
  }

  /** Put as the lowest missing block, anything that fits is stored. */
  lemma LowestStored(s: Session, r: Receiver, i: U16, data: Data)
    requires Ready(s, r) && Low(r) == i < r.blockCount
    ensures Has(Put(r.store, i, data).s, i) <==> i * s.p.m.blockSize + |data| <= Room(r.store.flash, s.p.m)
  {
    hide Shaped, BlocksOf, Put, OnlyTrusts, HoldsPrefix, Regular;
    LowBelowCount(s, r, r);
    LowestIsNext(s, r);
    BlockStartFits(s.p, i);
    PutStoresExactly(r.store, s.p.m, i, data);
  }

  lemma LowestIsNext(s: Session, r: Receiver)
    requires Ready(s, r) && Low(r) < r.blockCount
    ensures !Has(r.store, Low(r)) && (r.store.flash ==> Low(r) == r.store.next)
  {
    hide Shaped, BlocksOf, Marked, OnlyTrusts, HoldsPrefix;
    var i := Low(r);
    if r.store.flash && r.store.began && i > 0 {
      assert Has(r.store, i - 1);
    }
  }

  // ---- a block that waits meets its proof ----

  lemma WaitingBlockStored(s: Session, r: Receiver, i: U16, w: Receiver)
    requires Valid(s) && Ready(s, r) && Low(r) == i < r.blockCount && i in r.ready
    requires w == WithProof(r, i, ProofUnit(s.env.h, s.p, i), HonestProof(s.env.h, s.p, i))
    ensures Has(TryFinish(s.env, w, i).r.store, i) <==> Storable(s, r.store.flash, i, r.ready[i])
  {
    hide Shaped, Regular, BlocksOf, Put, Verify, HonestProof, ProofUnit, OnlyTrusts, HoldsPrefix;
    LowBelowCount(s, r, r);
    LowestStored(s, r, i, r.ready[i]);
    if Verifies(s.env, w, Verified(i, w.ready[i], w.proofs[i])) {
      FinishedStore(s.env, w, i);
    }
  }

  lemma BlockStartFits(p: Pkg, i: nat)
    requires i < p.m.blockCount
    ensures i * p.m.blockSize < WRAP
  {
    hide BlocksOf;
    SlotFits(p.m, p.payload, i);
  }

  lemma CompleteAsksNothing(env: Env, r: Receiver, i: U16)
    requires !r.complete && TryFinish(env, r, i).r.complete
    ensures NoRequest(env, TryFinish(env, r, i).sent)
  {
    hide Put, Verify;
  }

  lemma OpenAsks(s: Session, o: Out)
    requires Continues(s, o) && !o.r.complete
    ensures !NoRequest(s.env, o.sent)
  {
    hide Shaped, Sound, Ready, RespondTo, Train;
    var f := Simple(s.env, REQUEST, Low(o.r));
    var k :| 0 <= k < |o.sent| && o.sent[k] == f;
    assert IsRequest(s.env, o.sent[k]);
  }

  /** A waiting block's proof half ends the transfer if the block was the last one missing and is stored, and asks again if not. */
  lemma ProofHalfEnds(s: Session, r: Receiver, i: U16) returns (half: Out)
    requires Valid(s) && Ready(s, r) && Low(r) == i < r.blockCount && i in r.ready
    ensures half == RecvAll(s.env, r, ProofFrames(s.env, s.p, i, s.frag)) && AtMostOneRequest(s.env, half.sent)
    ensures if LastMissing(s, r.store, i) && Storable(s, r.store.flash, i, r.ready[i])
            then half.r.complete && NoRequest(s.env, half.sent) && Continues(s, half) else !NoRequest(s.env, half.sent)
  {
    hide Shaped, Regular, BlocksOf, TryFinish, HonestProof, ProofUnit, RecvAll, ProofFrames, Storable, NoRequest, Train, RespondTo, OnlyTrusts, HoldsPrefix;
    half := ProofDelivered(s, r, i);
    var w := WithProof(r, i, ProofUnit(s.env.h, s.p, i), HonestProof(s.env.h, s.p, i));
    WaitingBlockStored(s, r, i, w);
    FinishAsksOnce(s.env, w, i);
    FinishFocused(s, w, i);
    LowBelowCount(s, r, r);
    if Has(half.r.store, i) {
      if LastMissing(s, r.store, i) {
        EndsWhenAllStored(s, r, i, half);
        CompleteAsksNothing(s.env, w, i);
      } else {
        StaysOpen(s, r, i, half);
        OpenAsks(s, half);
      }
    } else {
      RequestAsks(s.env, half.sent, i);
    }
  }

  lemma EndsWhenAllStored(s: Session, r: Receiver, i: U16, o: Out)
    requires Ready(s, r) && Low(r) == i < r.blockCount && LastMissing(s, r.store, i) && Continues(s, o)
    requires Has(o.r.store, i) && forall k: nat | k != i :: Has(o.r.store, k) <==> Has(r.store, k)
    ensures o.r.complete
  {
    hide Shaped, Regular, RespondTo, Train, BlocksOf;
    if !o.r.complete {
      LowBelowCount(s, o.r, r);
    }
  }

  lemma StaysOpen(s: Session, r: Receiver, i: U16, o: Out)
    requires Ready(s, r) && Low(r) == i < r.blockCount && !LastMissing(s, r.store, i) && Continues(s, o)
    requires Has(o.r.store, i) && forall k: nat | k != i :: Has(o.r.store, k) <==> Has(r.store, k)
    ensures !o.r.complete
  {
    hide Shaped, Regular, RespondTo, Train, BlocksOf;
    var k: nat :| i < k < s.p.m.blockCount && !Has(r.store, k);
    assert !Has(o.r.store, k);
  }

  lemma RequestAsks(env: Env, sent: seq<Frame>, i: U16)
    requires Simple(env, REQUEST, i) in sent
    ensures !NoRequest(env, sent)
  {
    var k :| 0 <= k < |sent| && sent[k] == Simple(env, REQUEST, i);
    assert IsRequest(env, sent[k]);
  }

  lemma HalvesNotEmpty(s: Session, i: U16)
    requires i < |BlocksIn(s.p)|
    ensures ProofFrames(s.env, s.p, i, s.frag) != [] && BlockFrames(s.env, s.p, i, s.frag) != []
  {
    hide Shaped, BlocksOf, ProofUnit;
    BlockFits(s.env.h, s.p, i);
  }

  lemma CompleteIsSilent(env: Env, r: Receiver, frames: seq<Frame>)
    requires Prime(r) == r && r.complete
    ensures Silent(env, r, frames) && RecvAll(env, r, frames) == Out(r, [], [])
  {
    hide Recv;
    forall j | 0 <= j < |frames| ensures RecvAll(env, r, frames[..j]).sent == [] {
      IgnoredFrames(env, r, frames[..j]);
    }
    IgnoredFrames(env, r, frames);
  }

  /** The last missing block was waiting: its proof ends the transfer, and the rest of the answer is not heard. */
  lemma LastWaiting(s: Session, r: Receiver, i: U16) returns (k: nat)
    requires Valid(s) && Ready(s, r) && Low(r) == i < r.blockCount && i in r.ready
    requires LastMissing(s, r.store, i) && Storable(s, r.store.flash, i, r.ready[i])
    ensures var l := Line(r, Train(s, i)); Finished(s, Moves(s, l, k)) && PatientFor(s, l, k)
  {
    hide Shaped, GoodPackage, RecvAll, Train, ProofFrames, BlockFrames, RespondTo, Moves, Ready, Silent, PatientFor, Storable, Sound,
         LastMissing, NoRequest, AtMostOneRequest;
    TrainParts(s, r, i);
    var proofs, blocks := ProofFrames(s.env, s.p, i, s.frag), BlockFrames(s.env, s.p, i, s.frag);
    var start := Line(r, Train(s, i));
    var half := ProofHalfEnds(s, r, i);
    ProofHalfSilent(s, r, i);
    SilentIsPatient(s, r, proofs, blocks);
    var k1, l1 := DeliverBatch(s, start, proofs, blocks, half);
    CompleteIsSilent(s.env, half.r, blocks);
    NothingRequested(s.env);
    SilentIsPatient(s, half.r, blocks, []);
    assert blocks + [] == blocks;
    NoReply(s);
    var k2, l2 := DeliverBatch(s, l1, blocks, [], Out(half.r, [], []));
    MovesAdd(s, start, k1, k2);
    PatientAdd(s, start, k1, k2);
    k := k1 + k2;
  }

  /** A waiting block that is not the last one missing, or will not be stored: its proof provokes the next request while the
      block's frames are still arriving. */
  lemma WaitingOverlaps(s: Session, r: Receiver, i: U16) returns (k: nat)
    requires Valid(s) && Ready(s, r) && Low(r) == i < r.blockCount && i in r.ready
    requires !(LastMissing(s, r.store, i) && Storable(s, r.store.flash, i, r.ready[i]))
    ensures !Patient(s, Moves(s, Line(r, Train(s, i)), k))
  {
    hide Shaped, GoodPackage, RecvAll, Train, ProofFrames, BlockFrames, Moves, Ready, Silent, Storable, LastMissing, NoRequest, Patient;
    TrainParts(s, r, i);
    HalvesNotEmpty(s, i);
    ProofHalfSilent(s, r, i);
    var half := ProofHalfEnds(s, r, i);
    var proofs := ProofFrames(s.env, s.p, i, s.frag);
    RequestBeforeTheEnd(s, r, proofs, BlockFrames(s.env, s.p, i, s.frag));
    k := |proofs| - 1;
  }

  lemma CalmAtLowest(s: Session, r: Receiver, i: U16)
    requires Ready(s, r) && Low(r) == i < r.blockCount && i in r.ready
    ensures LastMissing(s, r.store, i) && Storable(s, r.store.flash, i, r.ready[i]) ==> Calm(s, r)
    ensures Calm(s, r) ==> LastMissing(s, r.store, i) && Storable(s, r.store.flash, i, r.ready[i])
  {
    hide Shaped, Sound, Storable;
    LowBelowCount(s, r, r);
    assert !Has(r.store, i);
  }

  /** A calm receiver asks one thing at a time, as long as the transfer lasts. */
  lemma {:induction false} CalmIsPatient(s: Session, o: Out, j: nat)
    requires Valid(s) && Continues(s, o) && Calm(s, o.r)
    ensures Patient(s, Moves(s, Line(o.r, RespondTo(s, o.sent)), j))
    decreases j
  {
    hide Shaped, GoodPackage, RespondTo, Regular, Informed, Train, Patient, PatientFor, Moves, Calm, LastMissing, Storable, HasRoom;
    var l := Line(o.r, RespondTo(s, o.sent));
    if o.r.complete {
      RestIsPatient(s, l, j);
    } else {
      var i := Low(o.r);
      if i !in o.r.ready {
        var k, next := BareExchange(s, o.r, i);
        if HasRoom(s, o.r.store, i) {
          CalmAfterLowest(s, o.r, next, i);
        } else {
          CalmSame(s, next.r, o.r);
        }
        assert [] + RespondTo(s, next.sent) == RespondTo(s, next.sent);
        if j >= k {
          CalmIsPatient(s, next, j - k);
        }
        PatientLater(s, l, k, j);
      } else {
        CalmAtLowest(s, o.r, i);
        var k := LastWaiting(s, o.r, i);
        if j >= k {
          RestIsPatient(s, Moves(s, l, k), j - k);
        }
        PatientLater(s, l, k, j);
      }
    }
  }

  lemma CompleteIsCalm(s: Session, r: Receiver)
    requires Sound(s.env, s.p, r) && r.complete
    ensures Calm(s, r)
  {
    hide Shaped, Regular, Informed, Storable;
  }

  /** A receiver that is not calm breaks the pattern sooner or later. */
  lemma {:induction false} RestlessOverlaps(s: Session, o: Out) returns (k: nat)
    requires Valid(s) && Continues(s, o) && !Calm(s, o.r)
    ensures !Patient(s, Moves(s, Line(o.r, RespondTo(s, o.sent)), k))
    decreases if o.r.complete then 0 else 1 + |BlocksIn(s.p)| - Low(o.r)
  {
    hide Shaped, GoodPackage, RespondTo, Regular, Informed, Train, Patient, Move, Calm, LastMissing, Storable, HasRoom;
    if o.r.complete {
      CompleteIsCalm(s, o.r);
    }
    var i := Low(o.r);
    LowBelowCount(s, o.r, o.r);
    if i !in o.r.ready {
      StuckIsCalm(s, o.r, i);
      var k2, next := BareExchange(s, o.r, i);
      CalmAfterLowest(s, o.r, next, i);
      if next.r.complete {
        CompleteIsCalm(s, next.r);
      }
      StoredRises(s, o.r, next.r);
      LowBelowCount(s, next.r, o.r);
      assert [] + RespondTo(s, next.sent) == RespondTo(s, next.sent);
      var k3 := RestlessOverlaps(s, next);
      MovesAdd(s, Line(o.r, RespondTo(s, o.sent)), k2, k3);
      k := k2 + k3;
    } else {
      CalmAtLowest(s, o.r, i);
      k := WaitingOverlaps(s, o.r, i);
    }
  }

  /** A transfer that stops at its lowest missing block never gets to one that waits. */
  lemma StuckIsCalm(s: Session, r: Receiver, i: nat)
    requires Ready(s, r) && Low(r) == i < r.blockCount && i !in r.ready
    ensures !HasRoom(s, r.store, i) ==> Calm(s, r)
  {
    hide Shaped, Sound, Storable, HasRoom;
    if !HasRoom(s, r.store, i) {
      assert !Has(r.store, i);
      forall j <- r.ready | !Has(r.store, j) ensures !Reached(s, r.store, j) {
        assert i < j;
      }
    }
  }

  lemma StoredRises(s: Session, r: Receiver, r': Receiver)
    requires Ready(s, r) && Ready(s, r') && Low(r) < r.blockCount && OnlyStored(r, r', Low(r))
    ensures Low(r) < Low(r')
  {
    hide Shaped, Regular, BlocksOf;
    LowBelowCount(s, r, r');
  }

  // ---- whole sessions ----

  lemma CalmSame(s: Session, a: Receiver, b: Receiver)
    requires SameHoldings(a, b)
    ensures Calm(s, a) <==> Calm(s, b)
  {
    hide Shaped, Storable, HasRoom;
    forall k: nat ensures HasRoom(s, a.store, k) <==> HasRoom(s, b.store, k) {
      RoomAlike(s, a.store, b.store, k);
    }
    forall j: nat ensures Reached(s, a.store, j) <==> Reached(s, b.store, j) {
    }
  }

  lemma ManifestIsPatient(s: Session, r: Receiver) returns (k: nat)
    requires Valid(s) && Open(s, r) && NotMisled(s, r) && r.manifest.None?
    ensures var l := Line(r, RespondTo(s, RequestNext(s.env, r).sent));
            var o := Primed(AcceptManifest(s.env, WithManifest(r, ManifestUnit(s.p)), ManifestUnit(s.p)));
            PatientFor(s, l, k) && Moves(s, l, k) == Line(o.r, RespondTo(s, o.sent)) && Continues(s, o) && SameHoldings(r, o.r)
  {
    hide Shaped, GoodPackage, RespondTo, Moves, Regular, Informed, Train, Fragments, AcceptManifest, Continues, PackManifest, RecvAll,
         BlocksOf, Faithful, Trusted, Silent, PatientFor;
    PollAsksManifest(s, r);
    var unit := ManifestUnit(s.p);
    var batch := Fragments(MANIFEST, s.env.session, INDEX_MANIFEST, unit, 0, s.frag);
    ManifestReceived(s.env, r, unit, 0, s.frag);
    ManifestSilent(s.env, r, unit, 0, s.frag);
    ManifestAccepted(s, r);
    var o := Primed(AcceptManifest(s.env, WithManifest(r, unit), unit));
    OneFrameAsksOnce(s.env, o.sent);
    SilentIsPatient(s, r, batch, []);
    assert batch + [] == batch;
    var l;
    k, l := DeliverBatch(s, Line(r, batch), batch, [], o);
    assert [] + RespondTo(s, o.sent) == RespondTo(s, o.sent);
  }

  /** Nothing is asked twice until the transfer goes on. */
  lemma AskingIsPatient(s: Session, r: Receiver) returns (k: nat, o: Out)
    requires Valid(s) && Open(s, r) && NotMisled(s, r)
    ensures var first := Primed(RequestNext(s.env, r)); var l := Line(first.r, RespondTo(s, first.sent));
            PatientFor(s, l, k) && Moves(s, l, k) == Line(o.r, RespondTo(s, o.sent)) && Continues(s, o) && SameHoldings(r, o.r)
  {
    hide Shaped, GoodPackage, RespondTo, Regular, Informed, Train, Continues, PackManifest, Trusted, Faithful, Open, AcceptManifest, Patient;
    if r.manifest.None? {
      PollAsksManifest(s, r);
      k := ManifestIsPatient(s, r);
      o := Primed(AcceptManifest(s.env, WithManifest(r, ManifestUnit(s.p)), ManifestUnit(s.p)));
    } else {
      PrimedIsReady(s, r);
      PrimeCommutes(s.env, r);
      NextContinues(s, Prime(r));
      k, o := 0, Primed(RequestNext(s.env, r));
    }
  }

  lemma StartIsPatient(s: Session, r: Receiver) returns (k: nat, o: Out)
    requires Valid(s) && Open(s, r)
    ensures var l := Line(r, [StartFrame(s.env, s.p)]);
            PatientFor(s, l, k) && Moves(s, l, k) == Line(o.r, RespondTo(s, o.sent)) && Continues(s, o) && SameHoldings(r, o.r)
  {
    hide GoodPackage, RespondTo, Moves, Regular, RequestNext, PackManifest, BlocksOf, Faithful, Trusted, EncodeStart, DecodeStart,
         PatientFor, Silent, Continues, OnlyTrusts;
    var m := s.p.m;
    StartRoundTrip(StartInfo(m.blockSize, m.blockCount, m.payloadLength, MANIFEST_SIZE, |s.p.signature|));
    var told := r.(haveGeometry := true, blockSize := m.blockSize, blockCount := m.blockCount, payloadLength := m.payloadLength);
    var f := StartFrame(s.env, s.p);
    var first := Primed(RequestNext(s.env, told));
    assert Recv(s.env, r, f) == first;
    NextSendsOne(s.env, told);
    var rest;
    rest, o := AskingIsPatient(s, told);
    assert [f][1..] == [] && [] + RespondTo(s, first.sent) == RespondTo(s, first.sent);
    FirstIsPatient(s, Line(r, [f]));
    MovesOnce(s, Line(r, [f]));
    MovesAdd(s, Line(r, [f]), 1, rest);
    PatientAdd(s, Line(r, [f]), 1, rest);
    k := 1 + rest;
  }

  lemma NextSendsOne(env: Env, r: Receiver)
    ensures |RequestNext(env, r).sent| == 1
  {
  }

  lemma FirstIsPatient(s: Session, l: Line)
    requires |l.queue| == 1 && |Recv(s.env, l.r, l.queue[0]).sent| <= 1
    ensures PatientFor(s, l, 1)
  {
    hide Shaped, Recv;
    assert Moves(s, l, 0) == l;
  }

  // ---- the network ----

  /** At most one request is under way, and while it is nothing is under way to the receiver. */
  ghost predicate OneInFlight(env: Env, n: Net) {
    AtMostOneRequest(env, n.toSeeder) && (n.toReceiver == [] || NoRequest(env, n.toSeeder))
  }

  lemma AdvanceOneInFlight(s: Session, n: Net, receiverFirst: bool)
    requires OneInFlight(s.env, n) && Patient(s, LineOf(s, n))
    ensures OneInFlight(s.env, Advance(s, n, receiverFirst))
  {
    hide Shaped, Recv, ProofFrames, BlockFrames, Fragments, RespondTo;
    if ReceiverMoves(n, receiverFirst) {
      assert LineOf(s, n).queue[0] == n.toReceiver[0];
    }
  }

  lemma OpeningIsPatient(s: Session, r: Receiver, n: Net) returns (k: nat, o: Out)
    requires Valid(s) && Open(s, r) && Opening(s, r, n)
    ensures PatientFor(s, LineOf(s, n), k) && Moves(s, LineOf(s, n), k) == Line(o.r, RespondTo(s, o.sent))
    ensures Continues(s, o) && SameHoldings(r, o.r)
  {
    hide Shaped, Moves, Sound, SameHoldings, RequestNext, StartFrame, Trusted, PackManifest, Respond, PatientFor, Continues;
    NoReply(s);
    if n == Net(r, [StartFrame(s.env, s.p)], [], false) {
      assert [StartFrame(s.env, s.p)] + [] == [StartFrame(s.env, s.p)];
      k, o := StartIsPatient(s, r);
    } else {
      var reply := RespondTo(s, RequestNext(s.env, r).sent);
      assert [] + reply == reply;
      k, o := AskingIsPatient(s, r);
    }
  }

  lemma CalmOpening(s: Session, r: Receiver, n: Net)
    requires Valid(s) && Open(s, r) && Opening(s, r, n) && Calm(s, r)
    ensures AlwaysPatient(s, LineOf(s, n))
  {
    hide Shaped, Moves, Open, Opening, Calm, SameHoldings, RespondTo, Patient, PatientFor, Continues, LineOf;
    var k, o := OpeningIsPatient(s, r, n);
    CalmSame(s, r, o.r);
    forall j: nat ensures Patient(s, Moves(s, LineOf(s, n), j)) {
      if j >= k {
        CalmIsPatient(s, o, j - k);
      }
      PatientLater(s, LineOf(s, n), k, j);
    }
  }

  lemma RestlessOpening(s: Session, r: Receiver, n: Net) returns (k: nat)
    requires Valid(s) && Open(s, r) && Opening(s, r, n) && !Calm(s, r)
    ensures !Patient(s, Moves(s, LineOf(s, n), k))
  {
    hide Shaped, Moves, Open, Opening, Calm, SameHoldings, RespondTo, Patient, PatientFor, Continues, LineOf;
    var k1, o := OpeningIsPatient(s, r, n);
    CalmSame(s, r, o.r);
    var k2 := RestlessOverlaps(s, o);
    MovesAdd(s, LineOf(s, n), k1, k2);
    k := k1 + k2;
  }

  lemma {:induction false} RunOneInFlight(s: Session, n: Net, pick: Scheduler, t: nat)
    requires OneInFlight(s.env, n) && AlwaysPatient(s, LineOf(s, n))
    ensures OneInFlight(s.env, Run(s, n, pick, t))
    decreases t
  {
    hide Shaped, Moves, Advance, OneInFlight, Patient, LineOf;
    if t > 0 {
      RunOneInFlight(s, n, pick, t - 1);
      var j := RunIsMoves(s, n, pick, t - 1);
      AdvanceOneInFlight(s, Run(s, n, pick, t - 1), pick(t - 1));
    }
  }

  // ---- a broken pattern shows under every scheduler ----

  lemma {:induction false} SilentReply(s: Session, frames: seq<Frame>)
    requires NoRequest(s.env, frames)
    ensures RespondTo(s, frames) == []
    decreases |frames|
  {
    hide Shaped, ProofFrames, BlockFrames, Fragments;
    if frames != [] {
      assert !IsRequest(s.env, frames[0]);
      forall k | 0 <= k < |frames[1..]| ensures !IsRequest(s.env, frames[1..][k]) {
        assert frames[1..][k] == frames[k + 1];
      }
      SilentReply(s, frames[1..]);
    }
  }

  /** Every frame that will be delivered is delivered at some time, whatever the scheduler does. */
  lemma {:induction false} DeliveredSomeTime(s: Session, n: Net, pick: Scheduler, k: nat) returns (t: nat)
    requires Moves(s, LineOf(s, n), k).queue != []
    ensures var at := Run(s, n, pick, t); LineOf(s, at) == Moves(s, LineOf(s, n), k) && ReceiverMoves(at, pick(t))
    decreases k, |n.toSeeder|
  {
    hide Shaped, Respond, Recv, Finishes, Advance, RespondTo;
    if Quiet(n) {
      NoReply(s);
      AtRest(s, LineOf(s, n), k);
    }
    if ReceiverMoves(n, pick(0)) && k == 0 {
      t := 0;
    } else {
      var later: Scheduler := (i: nat) => pick(i + 1);
      var rest: nat;
      if ReceiverMoves(n, pick(0)) {
        DeliveryMoves(s, n, pick(0));
        rest := DeliveredSomeTime(s, Advance(s, n, pick(0)), later, k - 1);
      } else {
        ReplyKeepsLine(s, n, pick(0));
        rest := DeliveredSomeTime(s, Advance(s, n, pick(0)), later, k);
      }
      RunFrom(s, n, pick, rest);
      t := rest + 1;
    }
  }

  lemma ImpatienceShows(s: Session, n: Net, receiverFirst: bool)
    requires ReceiverMoves(n, receiverFirst) && !Patient(s, LineOf(s, n))
    ensures !OneInFlight(s.env, n) || !OneInFlight(s.env, Advance(s, n, receiverFirst))
  {
    hide Shaped, Recv, Respond, RespondTo;
    var sent := Recv(s.env, n.r, n.toReceiver[0]).sent;
    assert LineOf(s, n).queue[0] == n.toReceiver[0];
    var after := Advance(s, n, receiverFirst);
    assert after.toSeeder == n.toSeeder + sent && after.toReceiver == n.toReceiver[1..];
    if NoRequest(s.env, n.toSeeder) {
      SilentReply(s, n.toSeeder);
      if !AtMostOneRequest(s.env, sent) {
        var a, b :| 0 <= a < b < |sent| && IsRequest(s.env, sent[a]) && IsRequest(s.env, sent[b]);
        assert IsRequest(s.env, after.toSeeder[|n.toSeeder| + a]) && IsRequest(s.env, after.toSeeder[|n.toSeeder| + b]);
      } else {
        var a :| 0 <= a < |sent| && IsRequest(s.env, sent[a]);
        assert IsRequest(s.env, after.toSeeder[|n.toSeeder| + a]);
      }
    }
  }

  /** Stop-and-wait, exactly: in a lossless session, under every scheduler, it holds at every moment that at most one request is
      under way, and none while an answer to an earlier one is, if and only if the receiver is calm at the start. */
  lemma RequestsOneAtATime(s: Session, r: Receiver, n: Net, pick: Scheduler)
    requires Valid(s) && Open(s, r) && Opening(s, r, n)
    ensures (forall t: nat :: OneInFlight(s.env, Run(s, n, pick, t))) <==> Calm(s, r)
  {
    hide Shaped, Moves, Run, PatientFor, LineOf, Open, Opening, Sound, Calm, Patient, Advance, OneInFlight, AlwaysPatient;
    if Calm(s, r) {
      OpeningOneInFlight(s, r, n);
      CalmOpening(s, r, n);
      forall t: nat ensures OneInFlight(s.env, Run(s, n, pick, t)) {
        RunOneInFlight(s, n, pick, t);
      }
    } else {
      var k := RestlessOpening(s, r, n);
      ImpatientHasQueue(s, Moves(s, LineOf(s, n), k));
      var t := DeliveredSomeTime(s, n, pick, k);
      ImpatienceShows(s, Run(s, n, pick, t), pick(t));
      RunOne(s, n, pick, t);
      assert !OneInFlight(s.env, Run(s, n, pick, t)) || !OneInFlight(s.env, Run(s, n, pick, t + 1));
    }
  }

  lemma RunOne(s: Session, n: Net, pick: Scheduler, t: nat)
    ensures Run(s, n, pick, t + 1) == Advance(s, Run(s, n, pick, t), pick(t))
  {
    hide Shaped, Advance;
  }

  lemma ImpatientHasQueue(s: Session, l: Line)
    requires !Patient(s, l)
    ensures l.queue != []
  {
    hide Shaped, Recv;
  }

  lemma OpeningOneInFlight(s: Session, r: Receiver, n: Net)
    requires Opening(s, r, n)
    ensures OneInFlight(s.env, n)
  {
    hide Shaped, StartFrame;
  }

  /** For example, let the proof of the lowest missing block be lost and its block arrive, with another block still missing:
      after the poll that follows, every scheduler comes to a moment at which a request overtakes an answer. */
  lemma LostProofOverlaps(s: Session, r: Receiver, i: U16, pick: Scheduler) returns (n: Net, t: nat)
    requires Valid(s) && Open(s, r) && Ready(s, r) && Low(r) == i < r.blockCount && i !in r.proofs && !LastMissing(s, r.store, i)
    ensures var heard := RecvAll(s.env, r, BlockFrames(s.env, s.p, i, s.frag));
            heard.sent == [] && n == Net(heard.r, [], Poll(s.env, heard.r).sent, false)
    ensures !OneInFlight(s.env, Run(s, n, pick, t))
  {
    hide Shaped, BlocksOf, Moves, Run, Regular, Respond, BlockFrames, RecvAll, TryFinish, Storable, Informed, Trusted, PackManifest,
         OneInFlight, LastMissing;
    LowBelowCount(s, r, r);
    var o := BlockDelivered(s, r, i);
    BlockFits(s.env.h, s.p, i);
    HalfWaits(s.env, WithBlock(r, i, BlocksIn(s.p)[i]), i);
    n := Net(o.r, [], Poll(s.env, o.r).sent, false);
    assert !Calm(s, o.r) by {
      assert i in o.r.ready && !Has(o.r.store, i);
    }
    RequestsOneAtATime(s, o.r, n, pick);
    t :| !OneInFlight(s.env, Run(s, n, pick, t));
  }
}
