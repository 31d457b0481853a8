/** Over a lossless radio every session finishes: whatever stale fragments, blocks or proofs the receiver holds,
    the lowest missing block is stored after at most two exchanges. */
module Convergence {
  import opened Wire
  import opened Merkle
  import opened Blocks
  import opened Package
  import opened Frames
  import opened Stores
  import opened Protocol
  import opened Safety
  import opened Delivery

  /** In the middle of a transfer: the manifest is accepted and the store knows it. */
  predicate Live(r: Receiver) {
    r.manifest.Some? && r.store.manifest == r.manifest && !r.complete && !r.aborted
  }

  lemma PutKeepsManifest(s: Store, i: nat, data: Data)
    ensures Put(s, i, data).s.manifest == s.manifest && Put(s, i, data).s.flash == s.flash
  {
  }

  lemma FinishKeepsManifest(env: Env, r: Receiver, i: U16)
    requires Live(r)
    ensures var o := TryFinish(env, r, i); Prime(o.r) == o.r && o.r.manifest == r.manifest == o.r.store.manifest
  {
    hide Put, Verify;
    if i in r.ready {
      PutKeepsManifest(r.store, i, r.ready[i]);
    }
  }

  // ---- one unit, fragment by fragment ----

  lemma TakePiece(re: Partial, f: Frame, unit: Unit, off: nat, n: nat)
    requires 0 < n && off + n <= |unit|
    requires f.off == off && f.total == |unit| && f.body == unit[off..off + n]
    requires off > 0 ==> re == Partial(true, |unit|, unit[..off])
    ensures Take(re, f) == Fed(Partial(true, |unit|, unit[..off + n]), off + n == |unit|)
  {
    assert unit[..off] + unit[off..off + n] == unit[..off + n];
  }

  function WithBlock(r: Receiver, i: U16, unit: Unit): Receiver {
    r.(blockInFlight := i, blockRe := Partial(false, |unit|, unit), ready := r.ready[i := unit])
  }

  lemma OneBlockFrame(env: Env, r: Receiver, f: Frame, unit: Unit, off: nat, n: nat)
    requires Live(r) && !Has(r.store, f.index) && f.kind == BLOCK && f.session == env.session
    requires 0 < n && off + n <= |unit| && f.off == off && f.total == |unit| && f.body == unit[off..off + n]
    requires off > 0 ==> r.blockInFlight == f.index && r.blockRe == Partial(true, |unit|, unit[..off])
    ensures Recv(env, r, f) ==
            if off + n == |unit| then TryFinish(env, WithBlock(r, f.index, unit), f.index)
            else Out(r.(blockInFlight := f.index, blockRe := Partial(true, |unit|, unit[..off + n])), [], [])
  {
    hide Take, TryFinish;
    TakePiece(if r.blockInFlight == f.index then r.blockRe else Partial(true, f.total, []), f, unit, off, n);
    assert unit[..|unit|] == unit;
    FinishKeepsManifest(env, WithBlock(r, f.index, unit), f.index);
  }

  /** A whole block, whatever was left in its reassembler. */
  lemma {:induction false} BlockReceived(env: Env, r: Receiver, i: U16, unit: Unit, off: nat, frag: Positive)
    requires Live(r) && !Has(r.store, i) && frag > 0 && off < |unit|
    requires off > 0 ==> r.blockInFlight == i && r.blockRe == Partial(true, |unit|, unit[..off])
    ensures RecvAll(env, r, Fragments(BLOCK, env.session, i, unit, off, frag)) == TryFinish(env, WithBlock(r, i, unit), i)
    decreases |unit| - off
  {
    hide TryFinish, Recv;
    var n := Min(frag, |unit| - off);
    var f := Frame(BLOCK, env.session, i, off, |unit|, unit[off..off + n]);
    var rest := Fragments(BLOCK, env.session, i, unit, off + n, frag);
    OneBlockFrame(env, r, f, unit, off, n);
    RecvFirst(env, r, f, rest);
    if off + n < |unit| {
      BlockReceived(env, Recv(env, r, f).r, i, unit, off + n, frag);
    }
  }

  lemma RecvFirst(env: Env, r: Receiver, f: Frame, rest: seq<Frame>)
    ensures var o := Recv(env, r, f); var x := RecvAll(env, o.r, rest);
            RecvAll(env, r, [f] + rest) == Out(x.r, o.sent + x.sent, o.verified + x.verified)
    ensures rest == [] ==> RecvAll(env, r, [f] + rest) == Recv(env, r, f)
    ensures Recv(env, r, f).sent == [] && Recv(env, r, f).verified == [] ==>
              RecvAll(env, r, [f] + rest) == RecvAll(env, Recv(env, r, f).r, rest)
  {
    hide Recv;
    assert ([f] + rest)[1..] == rest;
  }

  function WithProof(r: Receiver, i: U16, unit: Unit, proof: seq<Hash>): Receiver {
    if unit == [] then r.(proofs := r.proofs[i := proof])
    else r.(proofInFlight := i, proofRe := Partial(false, |unit|, unit), proofs := r.proofs[i := proof])
  }

  lemma {:induction false} HashesSurvive(hs: seq<Hash>)
    ensures |Wire.Join(hs)| == 32 * |hs| && SplitHashes(Wire.Join(hs)) == hs
    decreases |hs|
  {
    if hs != [] {
      HashesSurvive(hs[1..]);
      assert Wire.Join(hs)[..32] == hs[0] && Wire.Join(hs)[32..] == Wire.Join(hs[1..]);
    }
  }

  lemma OneProofFrame(env: Env, r: Receiver, f: Frame, unit: Unit, proof: seq<Hash>, off: nat, n: nat)
    requires Live(r) && !Has(r.store, f.index) && f.kind == PROOF && f.session == env.session
    requires |unit| % 32 == 0 && SplitHashes(unit) == proof
    requires 0 < n && off + n <= |unit| && f.off == off && f.total == |unit| && f.body == unit[off..off + n]
    requires off > 0 ==> r.proofInFlight == f.index && r.proofRe == Partial(true, |unit|, unit[..off])
    ensures Recv(env, r, f) ==
            if off + n == |unit| then TryFinish(env, WithProof(r, f.index, unit, proof), f.index)
            else Out(r.(proofInFlight := f.index, proofRe := Partial(true, |unit|, unit[..off + n])), [], [])
  {
    hide Take, TryFinish, SplitHashes;
    TakePiece(if r.proofInFlight == f.index then r.proofRe else Partial(true, f.total, []), f, unit, off, n);
    assert unit[..|unit|] == unit;
    FinishKeepsManifest(env, WithProof(r, f.index, unit, proof), f.index);
  }

  lemma {:induction false} ProofReceived(env: Env, r: Receiver, i: U16, unit: Unit, proof: seq<Hash>, off: nat, frag: Positive)
    requires Live(r) && !Has(r.store, i) && frag > 0 && off < |unit|
    requires |unit| % 32 == 0 && SplitHashes(unit) == proof
    requires off > 0 ==> r.proofInFlight == i && r.proofRe == Partial(true, |unit|, unit[..off])
    ensures RecvAll(env, r, Fragments(PROOF, env.session, i, unit, off, frag)) == TryFinish(env, WithProof(r, i, unit, proof), i)
    decreases |unit| - off
  {
    hide TryFinish, Recv, SplitHashes;
    var n := Min(frag, |unit| - off);
    var f := Frame(PROOF, env.session, i, off, |unit|, unit[off..off + n]);
    var rest := Fragments(PROOF, env.session, i, unit, off + n, frag);
    OneProofFrame(env, r, f, unit, proof, off, n);
    RecvFirst(env, r, f, rest);
    if off + n < |unit| {
      ProofReceived(env, Recv(env, r, f).r, i, unit, proof, off + n, frag);
    }
  }

  /** Frames of a block that is already stored change nothing. */
  predicate Ignored(r: Receiver, frames: seq<Frame>) {
    forall f <- frames :: f.kind == BLOCK && Has(r.store, f.index)
  }

  lemma {:induction false} IgnoredFrames(env: Env, r: Receiver, frames: seq<Frame>)
    requires Prime(r) == r && (r.complete || Ignored(r, frames))
    ensures RecvAll(env, r, frames) == Out(r, [], [])
    decreases |frames|
  {
    if frames != [] {
      IgnoredFrames(env, r, frames[1..]);
    }
  }

  // ---- what a finished unit leads to ----

  /** A flash target must be large enough for the payload it receives. */
  predicate Roomy(store: Store, m: Manifest) {
    store.flash ==> m.payloadLength <= m.outputLength
  }

  ghost predicate Ready(s: Session, r: Receiver) {
    Sound(s.env, s.p, r) && Live(r)
  }

  /** The store has room for block i. */
  predicate HasRoom(s: Session, store: Store, i: nat) {
    i < |BlocksIn(s.p)| ==> SlotHasRoom(store.flash, s.p.m, s.p.payload, i)
  }

  /** A store with room for the payload has room for each of its blocks; one without has none for the last. */
  lemma RoomyHasRoom(s: Session, store: Store, i: nat)
    ensures Roomy(store, s.p.m) ==> HasRoom(s, store, i)
    ensures !Roomy(store, s.p.m) ==> BlocksIn(s.p) != [] && !HasRoom(s, store, |BlocksIn(s.p)| - 1)
  {
    hide BlocksOf;
    var m, n := s.p.m, |BlocksIn(s.p)|;
    if i < n {
      SlotFits(m, s.p.payload, i);
    }
    if n == 0 {
      BlockCount(s.p.payload, m.blockSize);
    } else {
      BlockAt(s.p.payload, m.blockSize, n - 1);
    }
  }

  function Low(r: Receiver): nat {
    Lowest(r.store, 0, r.blockCount)
  }

  /** The seeder's answer to a request for block i. */
  function Train(s: Session, i: U16): seq<Frame> {
    Respond(s.env, s.p, s.frag, Simple(s.env, REQUEST, i))
  }

  /** Nothing wrong is stored or waiting to be stored. */
  ghost predicate Clean(s: Session, r: Receiver) {
    Kept(s.p, r.store) && forall j <- r.ready :: j < |BlocksIn(s.p)| ==> r.ready[j] == BlocksIn(s.p)[j]
  }

  /** The receiver asks for block i, and the answer to what it sent is exactly that block's train. */
  ghost predicate Asks(s: Session, o: Out, i: U16) {
    Simple(s.env, REQUEST, i) in o.sent && RespondTo(s, o.sent) == Train(s, i)
  }

  /** The receiver is complete and has said so, or it has asked for its lowest missing block. */
  ghost predicate Continues(s: Session, o: Out) {
    && Sound(s.env, s.p, o.r)
    && if o.r.complete then RespondTo(s, o.sent) == [] && Simple(s.env, DONE, 0) in o.sent && Prime(o.r) == o.r
       else Ready(s, o.r) && Low(o.r) < o.r.blockCount && Asks(s, o, Low(o.r))
  }

  lemma RespondToOne(s: Session, f: Frame)
    ensures RespondTo(s, [f]) == Respond(s.env, s.p, s.frag, f)
    ensures f.kind != REQUEST ==> RespondTo(s, [f]) == []
  {
    hide ProofFrames, BlockFrames, Fragments;
    assert RespondTo(s, [f][1..]) == [];
    assert Respond(s.env, s.p, s.frag, f) + [] == Respond(s.env, s.p, s.frag, f);
  }

  lemma NextContinues(s: Session, r: Receiver)
    requires Valid(s) && Ready(s, r)
    ensures Continues(s, RequestNext(s.env, r)) && RequestNext(s.env, r).r.store == r.store
    ensures RequestNext(s.env, r).r.ready == r.ready && RequestNext(s.env, r).r.proofs == r.proofs
  {
    hide Respond, Regular, Informed, BlocksOf;
    RequestNextKeeps(s.env, s.p, r);
    RespondToOne(s, RequestNext(s.env, r).sent[0]);
  }

  /** Both halves of a block are there: it is tried, dropped from memory, and the transfer goes on. */
  lemma FinishContinues(s: Session, r: Receiver, i: U16)
    requires Valid(s) && Informed(s.env, s.p, r) && Regular(r.store, s.p.m) && Live(r)
    requires i in r.ready && i in r.proofs && forall k <- r.ready :: k in r.proofs ==> k == i
    ensures var o := TryFinish(s.env, r, i);
            && Continues(s, o) && Grows(r, o.r)
            && o.r.ready == r.ready - {i} && o.r.proofs == r.proofs - {i}
            && (!Has(o.r.store, i) ==> forall k: nat :: Has(o.r.store, k) <==> Has(r.store, k))
  {
    hide Respond, Regular, BlocksOf, Put, Verify, RequestNext, Continues, Has;
    TryFinishKeeps(s.env, s.p, r, i);
    var v := Verified(i, r.ready[i], r.proofs[i]);
    var ok := Verifies(s.env, r, v);
    var dropped := r.(ready := r.ready - {i}, proofs := r.proofs - {i},
                      store := if ok then Put(r.store, i, v.block).s else r.store);
    DroppedReady(s, r, i, dropped);
    NextContinues(s, dropped);
    if ok {
      AckIsFree(s, i, RequestNext(s.env, dropped));
    } else {
      assert [] + RequestNext(s.env, dropped).sent == RequestNext(s.env, dropped).sent;
      ContinuesSame(s, RequestNext(s.env, dropped), TryFinish(s.env, r, i));
    }
  }

  lemma DroppedReady(s: Session, r: Receiver, i: U16, dropped: Receiver)
    requires Valid(s) && Informed(s.env, s.p, r) && Regular(r.store, s.p.m) && Live(r)
    requires i in r.ready && i in r.proofs && forall k <- r.ready :: k in r.proofs ==> k == i
    requires var v := Verified(i, r.ready[i], r.proofs[i]);
             dropped == r.(ready := r.ready - {i}, proofs := r.proofs - {i},
                           store := if Verifies(s.env, r, v) then Put(r.store, i, v.block).s else r.store)
    ensures Ready(s, dropped)
    ensures !Has(dropped.store, i) ==> forall k: nat :: Has(dropped.store, k) <==> Has(r.store, k)
  {
    hide Regular, BlocksOf, Put, Verify;
    var v := Verified(i, r.ready[i], r.proofs[i]);
    if Verifies(s.env, r, v) {
      VerifiedIsBacked(s.env, s.p, r, v);
      PutKeepsManifest(r.store, i, v.block);
      PutRegular(r.store, s.p.m, i, v.block);
    }
  }

  lemma AckIsFree(s: Session, i: U16, next: Out)
    requires Valid(s) && Continues(s, next)
    ensures forall v :: Continues(s, Out(next.r, [Simple(s.env, ACK, i)] + next.sent, v))
  {
    hide Respond, Sound, Ready;
    RespondToAppend(s, [Simple(s.env, ACK, i)], next.sent);
    RespondToOne(s, Simple(s.env, ACK, i));
    assert [] + RespondTo(s, next.sent) == RespondTo(s, next.sent);
  }

  lemma ContinuesSame(s: Session, a: Out, b: Out)
    requires Valid(s) && Continues(s, a) && b.r == a.r && b.sent == a.sent
    ensures Continues(s, b)
  {
  }

  /** The lowest missing block is one either store can take, if it has room for it. */
  lemma LowestAccepted(s: Session, r: Receiver)
    requires Valid(s) && Ready(s, r) && Low(r) < r.blockCount && HasRoom(s, r.store, Low(r))
    ensures Low(r) < |BlocksIn(s.p)| && Accepts(r.store, s.p.m, s.p.payload, Low(r)) && !Has(r.store, Low(r))
  {
    hide BlocksOf, Marked;
    var i := Low(r);
    if r.store.flash && r.store.began {
      assert i <= r.store.next by {
        if i > 0 {
          assert Has(r.store, i - 1);
        }
      }
    }
  }

  lemma HonestVerifies(s: Session, i: nat)
    requires Valid(s) && i < |BlocksIn(s.p)|
    ensures Verify(PairOf(s.env.h), s.env.h(BlocksIn(s.p)[i]), i, |BlocksIn(s.p)|, HonestProof(s.env.h, s.p, i), RootOf(s.env.h, BlocksIn(s.p)))
  {
    hide BlocksOf, Verify, AuditPath, TreeRoot;
    Completeness(PairOf(s.env.h), LeavesOf(s.env.h, BlocksIn(s.p)), i);
  }

  /** Both halves of the lowest missing block are there, and genuine: it is stored. */
  lemma FinishStores(s: Session, r: Receiver, i: U16)
    requires Valid(s) && Informed(s.env, s.p, r) && Regular(r.store, s.p.m) && Live(r)
    requires i < |BlocksIn(s.p)| && Accepts(r.store, s.p.m, s.p.payload, i)
    requires i in r.ready && r.ready[i] == BlocksIn(s.p)[i]
    requires i in r.proofs && r.proofs[i] == HonestProof(s.env.h, s.p, i)
    ensures Has(TryFinish(s.env, r, i).r.store, i)
  {
    hide Regular, BlocksOf, Put, Verify, HonestProof, RootOf, Accepts, RequestNext;
    var block := BlocksIn(s.p)[i];
    HonestVerifies(s, i);
    PutRegular(r.store, s.p.m, i, block);
    PutAccepted(r.store, s.p.m, s.p.payload, i);
    FinishedStore(s.env, r, i);
  }

  lemma FinishedStore(env: Env, r: Receiver, i: U16)
    requires i in r.ready && i in r.proofs && Verifies(env, r, Verified(i, r.ready[i], r.proofs[i]))
    ensures TryFinish(env, r, i).r.store == Put(r.store, i, r.ready[i]).s
  {
    hide Put, Verify;
  }

  lemma FinishClean(s: Session, r: Receiver, i: U16)
    requires Valid(s) && Informed(s.env, s.p, r) && Regular(r.store, s.p.m) && Live(r) && Clean(s, r)
    ensures Clean(s, TryFinish(s.env, r, i).r)
  {
    hide Regular, BlocksOf, Put, Verify, HonestProof, RootOf, Faithful;
    if i in r.ready && i in r.proofs && Verifies(s.env, r, Verified(i, r.ready[i], r.proofs[i])) {
      VerifiedIsBacked(s.env, s.p, r, Verified(i, r.ready[i], r.proofs[i]));
      PutFaithful(r.store, s.p.m, s.p.payload, i);
      FinishedStore(s.env, r, i);
    }
  }

  // ---- the two halves of an exchange ----

  /** After the proof the block is either stored, or proof-only, or a stale block has been dropped and asked for again. */
  ghost predicate AfterProof(s: Session, r: Receiver, i: U16, o: Out) {
    if Has(o.r.store, i) then Continues(s, o) else
      && Ready(s, o.r) && Low(o.r) == i && i !in o.r.ready
      && if i in r.ready then i !in o.r.proofs && Asks(s, o, i)
         else o.sent == [] && i in o.r.proofs && o.r.proofs[i] == HonestProof(s.env.h, s.p, i)
  }

  lemma LowUnchanged(a: Store, b: Store, i: nat, n: nat)
    requires i <= n && forall k: nat :: Has(a, k) <==> Has(b, k)
    ensures Lowest(a, i, n) == Lowest(b, i, n)
  {
  }

  lemma HalfWaits(env: Env, r: Receiver, i: U16)
    requires i !in r.ready || i !in r.proofs
    ensures TryFinish(env, r, i) == Out(r, [], [])
  {
  }

  /** A dropped block is asked for again. */
  lemma AskedAgain(s: Session, r: Receiver, i: U16, w: Receiver, o: Out)
    requires Valid(s) && Ready(s, r) && Low(r) == i < r.blockCount && Continues(s, o)
    requires w.store == r.store && !Has(o.r.store, i) && forall k: nat :: Has(o.r.store, k) <==> Has(w.store, k)
    ensures Ready(s, o.r) && Low(o.r) == i && Asks(s, o, i)
  {
    hide Regular, BlocksOf, Respond;
    LowUnchanged(o.r.store, r.store, 0, r.blockCount);
  }

  lemma ProofAlone(s: Session, r: Receiver, i: U16, w: Receiver)
    requires Valid(s) && Ready(s, r) && Low(r) == i < r.blockCount && i !in r.ready
    requires w == WithProof(r, i, ProofUnit(s.env.h, s.p, i), HonestProof(s.env.h, s.p, i))
    ensures AfterProof(s, r, i, TryFinish(s.env, w, i))
    ensures Clean(s, r) ==> Clean(s, TryFinish(s.env, w, i).r)
  {
    hide Regular, BlocksOf, HonestProof, ProofUnit, Respond, Faithful;
    HalfWaits(s.env, w, i);
  }

  lemma ProofMeetsBlock(s: Session, r: Receiver, i: U16, w: Receiver)
    requires Valid(s) && Ready(s, r) && Low(r) == i < r.blockCount && i in r.ready
    requires w == WithProof(r, i, ProofUnit(s.env.h, s.p, i), HonestProof(s.env.h, s.p, i))
    ensures AfterProof(s, r, i, TryFinish(s.env, w, i))
  {
    hide Regular, BlocksOf, HonestProof, ProofUnit, Respond, TryFinish, Continues;
    FinishContinues(s, w, i);
    var o := TryFinish(s.env, w, i);
    if !Has(o.r.store, i) {
      AskedAgain(s, r, i, w, o);
    }
  }

  lemma ProofStage(s: Session, r: Receiver, i: U16, w: Receiver)
    requires Valid(s) && Ready(s, r) && Low(r) == i < r.blockCount
    requires w == WithProof(r, i, ProofUnit(s.env.h, s.p, i), HonestProof(s.env.h, s.p, i))
    ensures AfterProof(s, r, i, TryFinish(s.env, w, i))
    ensures Clean(s, r) ==> Clean(s, TryFinish(s.env, w, i).r)
    ensures i in r.ready && r.ready[i] == BlocksIn(s.p)[i] && HasRoom(s, r.store, i) ==> Has(TryFinish(s.env, w, i).r.store, i)
  {
    hide Regular, BlocksOf, HonestProof, ProofUnit, Respond, TryFinish, AfterProof, Faithful, Accepts;
    if i in r.ready {
      ProofMeetsBlock(s, r, i, w);
      if Clean(s, r) {
        FinishClean(s, w, i);
      }
      if r.ready[i] == BlocksIn(s.p)[i] && HasRoom(s, r.store, i) {
        LowestAccepted(s, r);
        FinishStores(s, w, i);
      }
    } else {
      ProofAlone(s, r, i, w);
    }
  }

  /** After the block it is stored if its proof was there, and otherwise waits, genuine, for the proof. */
  ghost predicate AfterBlock(s: Session, r: Receiver, i: U16, o: Out)
    requires i < |BlocksIn(s.p)|
  {
    if i in r.proofs then Has(o.r.store, i) && Continues(s, o)
    else !Has(o.r.store, i) && o.sent == [] && Ready(s, o.r) && Low(o.r) == i && i in o.r.ready && o.r.ready[i] == BlocksIn(s.p)[i]
  }

  lemma BlockAlone(s: Session, r: Receiver, i: U16, w: Receiver)
    requires Valid(s) && Ready(s, r) && Low(r) == i < |BlocksIn(s.p)| && i !in r.proofs && |BlocksIn(s.p)[i]| <= 0xFFFF
    requires w == WithBlock(r, i, BlocksIn(s.p)[i])
    ensures AfterBlock(s, r, i, TryFinish(s.env, w, i))
  {
    hide Regular, BlocksOf, Respond, Faithful;
    HalfWaits(s.env, w, i);
  }

  lemma BlockMeetsProof(s: Session, r: Receiver, i: U16, w: Receiver)
    requires Valid(s) && Ready(s, r) && Low(r) == i < |BlocksIn(s.p)| && |BlocksIn(s.p)[i]| <= 0xFFFF
    requires i in r.proofs && r.proofs[i] == HonestProof(s.env.h, s.p, i) && HasRoom(s, r.store, i)
    requires w == WithBlock(r, i, BlocksIn(s.p)[i])
    ensures AfterBlock(s, r, i, TryFinish(s.env, w, i))
  {
    hide Regular, BlocksOf, HonestProof, Respond, TryFinish, Continues, Accepts;
    LowestAccepted(s, r);
    FinishContinues(s, w, i);
    FinishStores(s, w, i);
  }

  lemma BlockStage(s: Session, r: Receiver, i: U16, w: Receiver)
    requires Valid(s) && Ready(s, r) && Low(r) == i < |BlocksIn(s.p)| && |BlocksIn(s.p)[i]| <= 0xFFFF
    requires i in r.proofs ==> r.proofs[i] == HonestProof(s.env.h, s.p, i) && HasRoom(s, r.store, i)
    requires w == WithBlock(r, i, BlocksIn(s.p)[i])
    ensures AfterBlock(s, r, i, TryFinish(s.env, w, i))
    ensures Clean(s, r) ==> Clean(s, TryFinish(s.env, w, i).r)
  {
    hide Regular, BlocksOf, HonestProof, Respond, TryFinish, AfterBlock, Faithful;
    if i in r.proofs {
      BlockMeetsProof(s, r, i, w);
    } else {
      BlockAlone(s, r, i, w);
    }
    if Clean(s, r) {
      FinishClean(s, w, i);
    }
  }

  // ---- nothing else is touched ----

  /** Between r and r' only block i can have been stored, and only genuine blocks have come to wait. */
  ghost predicate Focused(s: Session, r: Receiver, r': Receiver, i: nat) {
    && r'.store.flash == r.store.flash
    && (forall k: nat | k != i :: Has(r'.store, k) <==> Has(r.store, k))
    && (forall j <- r'.ready | j < |BlocksIn(s.p)| ::
          (j in r.ready && r'.ready[j] == r.ready[j]) || r'.ready[j] == BlocksIn(s.p)[j])
  }

  lemma FocusedTwice(s: Session, a: Receiver, b: Receiver, c: Receiver, i: nat)
    requires Focused(s, a, b, i) && Focused(s, b, c, i)
    ensures Focused(s, a, c, i)
  {
    hide Shaped, BlocksOf, Has;
  }

  lemma FinishFocused(s: Session, w: Receiver, i: U16)
    requires Valid(s) && Informed(s.env, s.p, w) && Regular(w.store, s.p.m) && Live(w)
    ensures Focused(s, w, TryFinish(s.env, w, i).r, i)
  {
    hide Shaped, Regular, BlocksOf, Put, Verify, OnlyTrusts, HoldsPrefix;
    if i in w.ready && i in w.proofs && Verifies(s.env, w, Verified(i, w.ready[i], w.proofs[i])) {
      VerifiedIsBacked(s.env, s.p, w, Verified(i, w.ready[i], w.proofs[i]));
      PutRegular(w.store, s.p.m, i, w.ready[i]);
      FinishedStore(s.env, w, i);
    }
  }

  lemma ProofFocused(s: Session, r: Receiver, i: U16, w: Receiver)
    requires Valid(s) && Ready(s, r)
    requires w == WithProof(r, i, ProofUnit(s.env.h, s.p, i), HonestProof(s.env.h, s.p, i))
    ensures Focused(s, r, TryFinish(s.env, w, i).r, i)
  {
    hide Shaped, Regular, BlocksOf, HonestProof, ProofUnit, TryFinish, OnlyTrusts, HoldsPrefix;
    FinishFocused(s, w, i);
  }

  // ---- whole trains ----

  /** The proof half of a train, delivered. */
  lemma ProofDelivered(s: Session, r: Receiver, i: U16) returns (o: Out)
    requires Valid(s) && Ready(s, r) && Low(r) == i < r.blockCount
    ensures o == RecvAll(s.env, r, ProofFrames(s.env, s.p, i, s.frag))
    ensures AfterProof(s, r, i, o) && (Clean(s, r) ==> Clean(s, o.r))
    ensures i in r.ready && r.ready[i] == BlocksIn(s.p)[i] && HasRoom(s, r.store, i) ==> Has(o.r.store, i)
    ensures Focused(s, r, o.r, i)
    ensures i !in r.ready ==> o.sent == [] && o.r.ready == r.ready && o.r.store == r.store
    ensures o == TryFinish(s.env, WithProof(r, i, ProofUnit(s.env.h, s.p, i), HonestProof(s.env.h, s.p, i)), i)
  {
    hide Regular, BlocksOf, AfterProof, TryFinish, Recv, Fragments, Sound, Clean, AuditPath, Focused, HasRoom;
    var unit, proof := ProofUnit(s.env.h, s.p, i), HonestProof(s.env.h, s.p, i);
    var w := WithProof(r, i, unit, proof);
    ProofStage(s, r, i, w);
    HashesSurvive(proof);
    if unit == [] {
      EmptyProof(s.env, r, i);
    } else {
      ProofReceived(s.env, r, i, unit, proof, 0, s.frag);
    }
    o := TryFinish(s.env, w, i);
    ProofFocused(s, r, i, w);
    if i !in r.ready {
      HalfWaits(s.env, w, i);
    }
  }

  lemma EmptyProof(env: Env, r: Receiver, i: U16)
    requires Live(r) && !Has(r.store, i)
    ensures RecvAll(env, r, [Simple(env, PROOF, i)]) == TryFinish(env, r.(proofs := r.proofs[i := []]), i)
  {
    hide TryFinish;
    var f := Simple(env, PROOF, i);
    FinishKeepsManifest(env, r.(proofs := r.proofs[i := []]), i);
    RecvFirst(env, r, f, []);
    assert [f] + [] == [f];
  }

  lemma BlockDelivered(s: Session, r: Receiver, i: U16) returns (o: Out)
    requires Valid(s) && Ready(s, r) && Low(r) == i < |BlocksIn(s.p)|
    requires i in r.proofs ==> r.proofs[i] == HonestProof(s.env.h, s.p, i) && HasRoom(s, r.store, i)
    ensures o == RecvAll(s.env, r, BlockFrames(s.env, s.p, i, s.frag))
    ensures AfterBlock(s, r, i, o) && (Clean(s, r) ==> Clean(s, o.r))
    ensures o == TryFinish(s.env, WithBlock(r, i, BlocksIn(s.p)[i]), i) && Focused(s, r, o.r, i)
  {
    hide Regular, BlocksOf, AfterBlock, TryFinish, Recv, Fragments, Clean, HonestProof;
    BlockFits(s.env.h, s.p, i);
    var unit := BlocksIn(s.p)[i];
    var w := WithBlock(r, i, unit);
    BlockStage(s, r, i, w);
    BlockReceived(s.env, r, i, unit, 0, s.frag);
    o := TryFinish(s.env, w, i);
    FinishFocused(s, w, i);
  }

  lemma BlockFramesIgnored(s: Session, o: Out, i: U16)
    requires Valid(s) && Continues(s, o) && Has(o.r.store, i)
    ensures RecvAll(s.env, o.r, BlockFrames(s.env, s.p, i, s.frag)) == Out(o.r, [], [])
    ensures Ignored(o.r, BlockFrames(s.env, s.p, i, s.frag))
  {
    hide Shaped, Sound, Fragments, RespondTo, Train;
    if i < |BlocksIn(s.p)| {
      BlockFits(s.env.h, s.p, i);
      FragmentsArePieces(BLOCK, s.env.session, i, BlocksIn(s.p)[i], 0, s.frag);
    }
    IgnoredFrames(s.env, o.r, BlockFrames(s.env, s.p, i, s.frag));
  }

  lemma TrainParts(s: Session, r: Receiver, i: U16)
    requires Ready(s, r) && i < r.blockCount
    ensures i < |BlocksIn(s.p)| && Train(s, i) == ProofFrames(s.env, s.p, i, s.frag) + BlockFrames(s.env, s.p, i, s.frag)
  {
    hide ProofFrames, BlockFrames, Regular, BlocksOf;
  }

  /** One exchange: the seeder's whole answer to the request for the lowest missing block, which the store has room for. Unless a stale block spoiled it,
      the block is stored; if one did, the receiver has asked again and holds the genuine block. */
  lemma FullExchange(s: Session, r: Receiver, i: U16) returns (o: Out)
    requires Valid(s) && Ready(s, r) && Low(r) == i < r.blockCount && HasRoom(s, r.store, i)
    ensures o == RecvAll(s.env, r, Train(s, i))
    ensures Has(o.r.store, i) || (i in r.ready && Ready(s, o.r) && Low(o.r) == i && Simple(s.env, REQUEST, i) in o.sent
                                  && i in o.r.ready && i < |BlocksIn(s.p)| && o.r.ready[i] == BlocksIn(s.p)[i])
    ensures i in r.ready && i < |BlocksIn(s.p)| && r.ready[i] == BlocksIn(s.p)[i] ==> Has(o.r.store, i)
    ensures Focused(s, r, o.r, i)
  {
    hide Shaped, Ready, RecvAll, Train, ProofFrames, BlockFrames, RespondTo, Continues, HonestProof;
    TrainParts(s, r, i);
    var proofs, blocks := ProofFrames(s.env, s.p, i, s.frag), BlockFrames(s.env, s.p, i, s.frag);
    var half := ProofDelivered(s, r, i);
    RecvAllAppend(s.env, r, proofs, blocks);
    o := RecvAll(s.env, r, Train(s, i));
    if Has(half.r.store, i) {
      BlockFramesIgnored(s, half, i);
    } else {
      var whole := BlockDelivered(s, half.r, i);
      FocusedTwice(s, r, half.r, whole.r, i);
    }
  }

  /** Self-healing: from any state of a transfer, whatever stale fragments, blocks or proofs it holds, the lowest missing
      block, if there is room for it, is stored after the answer to one poll, or after the answer to the one request that answer provokes. */
  lemma TwoExchangesHeal(s: Session, r: Receiver)
    requires Valid(s) && Ready(s, r) && Low(r) < r.blockCount && HasRoom(s, r.store, Low(r))
    ensures Protocol.Poll(s.env, r).sent == [Simple(s.env, REQUEST, Low(r))] && Protocol.Poll(s.env, r).r == r
    ensures var first := RecvAll(s.env, r, Train(s, Low(r)));
            var second := RecvAll(s.env, first.r, Train(s, Low(r)));
            Has(first.r.store, Low(r)) || (Simple(s.env, REQUEST, Low(r)) in first.sent && Has(second.r.store, Low(r)))
  {
    hide Shaped, Sound, RecvAll, Train;
    var i := Low(r);
    var first := FullExchange(s, r, i);
    if !Has(first.r.store, i) {
      LowBelowCount(s, first.r, r);
      var second := FullExchange(s, first.r, i);
    }
  }

  lemma LowBelowCount(s: Session, a: Receiver, b: Receiver)
    requires Ready(s, a) && Ready(s, b)
    ensures a.blockCount == b.blockCount == |BlocksIn(s.p)| == s.p.m.blockCount
  {
    hide BlocksOf, Regular;
  }
}
