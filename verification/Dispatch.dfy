/** What the receiver and the seeder do with each kind of frame, by the bytes: whose session, which type, which manifest. */
module Dispatch {
  import opened Wire
  import opened Merkle
  import opened Blocks
  import opened Package
  import opened Frames
  import opened Stores
  import opened Protocol
  import opened Delivery
  import opened Convergence
  import opened Completion
  import opened Formats

  // ---- whose session ----

  /** Frames of other sessions change nothing and are not answered. */
  lemma ForeignIsIgnored(env: Env, r: Receiver, f: Frame)
    requires f.session != env.session
    ensures OnFrame(env, r, f) == Out(r, [], [])
  {
  }

  function OwnFrames(env: Env, frames: seq<Frame>): (own: seq<Frame>)
    ensures forall f <- own :: f in frames && f.session == env.session
  {
    if frames == [] then []
    else (if frames[0].session == env.session then [frames[0]] else []) + OwnFrames(env, frames[1..])
  }

  /** Whatever sessions share the air, a receiver does what it would do if it heard its own alone. */
  lemma {:induction false} OnlyOwnSession(env: Env, r: Receiver, frames: seq<Frame>)
    requires Prime(r) == r
    ensures RecvAll(env, r, frames) == RecvAll(env, r, OwnFrames(env, frames))
    decreases |frames|
  {
    hide OnFrame;
    if frames != [] {
      var f, rest := frames[0], frames[1..];
      if f.session == env.session {
        var next := Recv(env, r, f).r;
        PrimedTwice(OnFrame(env, r, f).r);
        OnlyOwnSession(env, next, rest);
        RecvFirst(env, r, f, OwnFrames(env, rest));
      } else {
        ForeignIsIgnored(env, r, f);
        OnlyOwnSession(env, r, rest);
        assert [] + OwnFrames(env, rest) == OwnFrames(env, rest);
      }
    }
  }

  lemma PrimedTwice(r: Receiver)
    ensures Prime(Prime(r)) == Prime(r)
  {
  }

  // ---- which type ----

  /** By the number of its type: 8 aborts; 3 and 4 are for a receiver that has the manifest, 2 for one that has not, 1 for one that
      can read it; nothing else is for the receiver. */
  lemma ByType(env: Env, r: Receiver, f: Frame)
    requires f.session == env.session && !r.complete && !r.aborted
    ensures f.kind == 8 ==> OnFrame(env, r, f) == Out(r.(aborted := true), [], [])
    ensures f.kind !in {1, 2, 3, 4, 8} ==> OnFrame(env, r, f) == Out(r, [], [])
    ensures f.kind in {3, 4} && r.manifest.None? ==> OnFrame(env, r, f) == Out(r, [], [])
    ensures f.kind in {3, 4} && Has(r.store, f.index) ==> OnFrame(env, r, f) == Out(r, [], [])
    ensures f.kind == 2 && r.manifest.Some? ==> OnFrame(env, r, f) == Out(r, [], [])
    ensures f.kind == 1 && |f.body| < 12 ==> OnFrame(env, r, f) == Out(r, [], [])
  {
    hide Take, TryFinish;
  }

  /** A readable START sets the three sizes, whatever else it says, and makes the receiver ask. */
  lemma StartIsTaken(env: Env, r: Receiver, f: Frame)
    requires f.session == env.session && !r.complete && !r.aborted && f.kind == 1 && |f.body| >= 12
    ensures Little(f.body[0..2]) < 0x1_0000 && Little(f.body[2..4]) < 0x1_0000 && Little(f.body[4..8]) < WRAP
    ensures OnFrame(env, r, f) ==
            RequestNext(env, r.(haveGeometry := true, blockSize := Little(f.body[0..2]), blockCount := Little(f.body[2..4]),
                                payloadLength := Little(f.body[4..8])))
  {
    hide DecodeStart, RequestNext, Little;
    StartAsRead(f.body);
  }

  /** What a receiver asks for: the manifest as long as it has none, then the lowest missing block; when none is missing it says
      that it is done. */
  lemma AsksFor(env: Env, r: Receiver)
    ensures var o := RequestNext(env, r);
            if r.manifest.None? then o == Out(r, [Frame(5, env.session, 0xFFFF, 0, 0, [])], [])
            else if forall i: nat | i < r.blockCount :: Has(r.store, i)
            then o == Out(r.(complete := true), [Frame(7, env.session, 0, 0, 0, [])], [])
            else Low(r) < r.blockCount && !Has(r.store, Low(r)) && (forall i: nat | i < Low(r) :: Has(r.store, i))
                 && o == Out(r, [Frame(5, env.session, Low(r), 0, 0, [])], [])
  {
  }

  /** After an ABORT of its own session an open receiver is aborted for the rest of the run, with everything else as it was. */
  lemma AbortIsFinal(env: Env, r: Receiver, before: seq<Frame>, abort: Frame, rest: seq<Frame>)
    requires abort.session == env.session && abort.kind == 8
    ensures var x := RecvAll(env, r, before); var o := RecvAll(env, r, before + [abort] + rest);
            !x.r.complete && Prime(x.r) == x.r ==>
              o.r == x.r.(aborted := true) && o.sent == x.sent && o.verified == x.verified
  {
    hide OnFrame, RecvAll;
    var x := RecvAll(env, r, before);
    if !x.r.complete && Prime(x.r) == x.r {
      RecvAllAppend(env, r, before + [abort], rest);
      RecvAllAppend(env, r, before, [abort]);
      RecvFirst(env, x.r, abort, []);
      assert [abort] + [] == [abort];
      AbortHeard(env, x.r, abort);
      NothingMore(env, x.r.(aborted := true), rest);
    }
  }

  lemma AbortHeard(env: Env, r: Receiver, abort: Frame)
    requires abort.session == env.session && abort.kind == 8 && !r.complete && Prime(r) == r
    ensures Recv(env, r, abort) == Out(r.(aborted := true), [], [])
  {
  }

  lemma {:induction false} NothingMore(env: Env, r: Receiver, frames: seq<Frame>)
    requires r.aborted && Prime(r) == r
    ensures RecvAll(env, r, frames) == Out(r, [], [])
    decreases |frames|
  {
    if frames != [] {
      NothingMore(env, r, frames[1..]);
    }
  }

  // ---- which manifest ----

  /** A manifest unit the receiver may adopt: long enough, marked as a manifest of format 1, signed as the verifier wants it, and
      with the sizes a START has announced. */
  predicate Acceptable(env: Env, r: Receiver, unit: Data) {
    && |unit| >= 192 && Little(unit[0..4]) == 0x4E414D4D && Little(unit[4..6]) == 1
    && (env.verifier.Some? ==> env.verifier.value(unit[..192], unit[192..]))
    && (r.haveGeometry ==> Little(unit[104..108]) == r.blockSize && Little(unit[108..112]) == r.blockCount
                           && Little(unit[112..116]) == r.payloadLength)
  }

  predicate SizesFrom(r: Receiver, d: Data, r': Receiver)
    requires |d| == 192
  {
    && r'.blockSize == (if r.haveGeometry then r.blockSize else Little(d[104..108]) % 0x1_0000)
    && r'.blockCount == (if r.haveGeometry then r.blockCount else Little(d[108..112]) % 0x1_0000)
    && r'.payloadLength == Little(d[112..116])
  }

  /** The manifest in these bytes is known, with its root and sizes; the store has been given it and nothing else, and the receiver
      asks for what it needs first. */
  ghost predicate Adopts(env: Env, r: Receiver, d: Data, o: Out)
    requires |d| == 192
  {
    && !o.r.aborted && o.r.manifest == Some(UnpackManifest(d)) && Root(o.r) == d[116..148] && SizesFrom(r, d, o.r)
    && o.r.store == r.store.(manifest := o.r.manifest) && o.r.ready == r.ready && o.r.proofs == r.proofs
    && (o.r.complete <==> forall i: nat | i < o.r.blockCount :: Has(r.store, i))
    && o.sent == [if o.r.complete then Simple(env, DONE, 0) else Simple(env, REQUEST, Low(o.r))]
  }

  lemma AcceptedOrNot(env: Env, r: Receiver, unit: Unit)
    requires r.manifest.None?
    ensures var o := AcceptManifest(env, r, unit);
            if Acceptable(env, r, unit) then o == RequestNext(env, Adopt(r, UnpackManifest(unit[..192])))
            else o == Out(r.(aborted := true), [], [])
  {
    hide Little, UnpackManifest, RequestNext;
    if |unit| >= 192 {
      var d := unit[..192];
      ManifestAsRead(d);
      assert d[0..4] == unit[0..4] && d[4..6] == unit[4..6];
      assert d[104..108] == unit[104..108] && d[108..112] == unit[108..112] && d[112..116] == unit[112..116];
    }
  }

  /** Every unit sent as a manifest, in fragments of any size, to a receiver that has none: it is adopted exactly when it is acceptable,
      and then the receiver knows its root and sizes and asks for what it needs first; otherwise the receiver is aborted, knows no
      manifest, has said nothing, and its store is as it was. */
  lemma ManifestDecides(env: Env, r: Receiver, unit: Unit, frag: Positive)
    requires r.manifest.None? && !r.complete && !r.aborted && unit != []
    ensures var o := RecvAll(env, r, Fragments(MANIFEST, env.session, INDEX_MANIFEST, unit, 0, frag));
            if Acceptable(env, r, unit) then Adopts(env, r, unit[..192], o)
            else o.r.aborted && !o.r.complete && o.r.manifest.None? && o.r.store == r.store && o.sent == [] && o.verified == []
  {
    hide Little, UnpackManifest, RecvAll, Fragments, AcceptManifest, Acceptable, Adopts;
    ManifestReceived(env, r, unit, 0, frag);
    var w := WithManifest(r, unit);
    AcceptedOrNot(env, w, unit);
    SameAcceptable(env, r, w, unit);
    if Acceptable(env, r, unit) {
      AdoptedSays(env, r, w, unit);
    }
  }

  lemma SameAcceptable(env: Env, r: Receiver, w: Receiver, unit: Unit)
    requires w.haveGeometry == r.haveGeometry && w.blockSize == r.blockSize && w.blockCount == r.blockCount && w.payloadLength == r.payloadLength
    ensures Acceptable(env, r, unit) <==> Acceptable(env, w, unit)
  {
    hide Little;
  }

  lemma AdoptedSays(env: Env, r: Receiver, w: Receiver, unit: Unit)
    requires r.manifest.None? && !r.complete && !r.aborted && w == WithManifest(r, unit) && Acceptable(env, r, unit)
    ensures Adopts(env, r, unit[..192], Primed(RequestNext(env, Adopt(w, UnpackManifest(unit[..192])))))
  {
    hide Little, UnpackManifest, RequestNext;
    var d := unit[..192];
    ManifestAsRead(d);
    assert d[104..108] == unit[104..108] && d[108..112] == unit[108..112] && d[112..116] == unit[112..116];
    var adopted := Adopt(w, UnpackManifest(d));
    AsksFor(env, adopted);
    LowUnchanged(adopted.store, Prime(adopted).store, 0, adopted.blockCount);
  }

  // ---- which block ----

  /** A whole block, in fragments of any size, whose proof is held: either it verifies against the root, is put, and acknowledged
      before anything else is said, or the store is as it was and nothing is acknowledged. Both copies are dropped either way. */
  lemma BlockDecides(env: Env, r: Receiver, i: U16, unit: Unit, frag: Positive)
    requires Live(r) && !Has(r.store, i) && unit != [] && i in r.proofs
    ensures var o := RecvAll(env, r, Fragments(BLOCK, env.session, i, unit, 0, frag));
            var ok := Verify(PairOf(env.h), env.h(unit), i, r.blockCount, r.proofs[i], Root(r));
            && i !in o.r.ready && i !in o.r.proofs && (forall j | j != i :: j in o.r.ready <==> j in r.ready)
            && o.r.store == (if ok then Put(r.store, i, unit).s else r.store)
            && (ok ==> |o.sent| == 2 && o.sent[0] == Frame(6, env.session, i, 0, 0, []) && o.verified == [Verified(i, unit, r.proofs[i])])
            && (!ok ==> |o.sent| == 1 && o.sent[0].kind in {5, 7} && o.verified == [])
            && Acks(o.sent) == (if ok then [i] else [])
  {
    hide RecvAll, Fragments, Verify, Put, Has;
    BlockReceived(env, r, i, unit, 0, frag);
    TrialAcks(env, WithBlock(r, i, unit), i);
  }

  /** The indices of the ACK frames, oldest first. */
  function Acks(frames: seq<Frame>): seq<U16> {
    if frames == [] then [] else (if frames[0].kind == 6 then [frames[0].index] else []) + Acks(frames[1..])
  }

  lemma {:induction false} AcksAppend(a: seq<Frame>, b: seq<Frame>)
    ensures Acks(a + b) == Acks(a) + Acks(b)
    decreases |a|
  {
    if a == [] {
      assert a + b == b;
    } else {
      AcksAppend(a[1..], b);
      assert (a + b)[1..] == a[1..] + b;
    }
  }

  /** Over any run, whatever is heard, the blocks acknowledged are the blocks verified, one by one and in that order. */
  lemma {:induction false} AcknowledgedAreVerified(env: Env, r: Receiver, frames: seq<Frame>)
    ensures var o := RecvAll(env, r, frames); Acks(o.sent) == seq(|o.verified|, k requires 0 <= k < |o.verified| => o.verified[k].index)
    decreases |frames|
  {
    hide OnFrame;
    if frames != [] {
      var o := OnFrame(env, r, frames[0]);
      var rest := RecvAll(env, Recv(env, r, frames[0]).r, frames[1..]);
      StepAcks(env, r, frames[0]);
      AcknowledgedAreVerified(env, Recv(env, r, frames[0]).r, frames[1..]);
      AcksAppend(o.sent, rest.sent);
    }
  }

  lemma StepAcks(env: Env, r: Receiver, f: Frame)
    ensures var o := OnFrame(env, r, f); Acks(o.sent) == seq(|o.verified|, k requires 0 <= k < |o.verified| => o.verified[k].index)
  {
    hide Take, TryFinish, RequestNext, DecodeStart, UnpackManifest, Trusted, Has, Acks;
    forall x: Receiver ensures Acks(RequestNext(env, x).sent) == [] && RequestNext(env, x).verified == [] {
      AsksNoAck(env, x);
    }
    forall x: Receiver
      ensures var o := TryFinish(env, x, f.index);
              Acks(o.sent) == seq(|o.verified|, k requires 0 <= k < |o.verified| => o.verified[k].index)
    {
      TrialAcks(env, x, f.index);
    }
    NoAcks();
  }

  lemma NoAcks()
    ensures Acks([]) == []
  {
  }

  lemma AsksNoAck(env: Env, r: Receiver)
    ensures Acks(RequestNext(env, r).sent) == [] && RequestNext(env, r).verified == []
  {
    hide Has;
  }

  lemma TrialAcks(env: Env, r: Receiver, i: U16)
    ensures var o := TryFinish(env, r, i);
            Acks(o.sent) == seq(|o.verified|, k requires 0 <= k < |o.verified| => o.verified[k].index)
  {
    hide RequestNext, Put, Verify;
    forall x: Receiver ensures Acks(RequestNext(env, x).sent) == [] {
      AsksNoAck(env, x);
    }
    forall a: Frame, b: seq<Frame> ensures Acks([a] + b) == Acks([a]) + Acks(b) {
      AcksAppend([a], b);
    }
    forall b: seq<Frame> ensures [] + b == b {
    }
    assert Acks([Simple(env, ACK, i)]) == [i] by { assert Acks([]) == []; }
  }

  // ---- which proof ----

  lemma UnevenFrame(env: Env, r: Receiver, f: Frame, unit: Unit, off: nat, n: nat)
    requires Live(r) && !Has(r.store, f.index) && f.kind == PROOF && f.session == env.session && |unit| % 32 != 0
    requires 0 < n && off + n <= |unit| && f.off == off && f.total == |unit| && f.body == unit[off..off + n]
    requires off > 0 ==> r.proofInFlight == f.index && r.proofRe == Partial(true, |unit|, unit[..off])
    ensures Recv(env, r, f) ==
            Out(r.(proofInFlight := f.index, proofRe := Partial(off + n < |unit|, |unit|, unit[..off + n])), [], [])
  {
    hide Take, TryFinish, SplitHashes;
    TakePiece(if r.proofInFlight == f.index then r.proofRe else Partial(true, f.total, []), f, unit, off, n);
  }

  /** A proof that is no whole number of hashes is dropped when it is complete: nothing is tried, kept of it or said. */
  lemma {:induction false} UnevenProofIsDropped(env: Env, r: Receiver, i: U16, unit: Unit, off: nat, frag: Positive)
    requires Live(r) && !Has(r.store, i) && off < |unit| && |unit| % 32 != 0
    requires off > 0 ==> r.proofInFlight == i && r.proofRe == Partial(true, |unit|, unit[..off])
    ensures RecvAll(env, r, Fragments(PROOF, env.session, i, unit, off, frag)) ==
            Out(r.(proofInFlight := i, proofRe := Partial(false, |unit|, unit)), [], [])
    decreases |unit| - off
  {
    hide Recv;
    var n := Min(frag, |unit| - off);
    var f := Frame(PROOF, env.session, i, off, |unit|, unit[off..off + n]);
    var rest := Fragments(PROOF, env.session, i, unit, off + n, frag);
    UnevenFrame(env, r, f, unit, off, n);
    RecvFirst(env, r, f, rest);
    if off + n < |unit| {
      UnevenProofIsDropped(env, Recv(env, r, f).r, i, unit, off + n, frag);
    } else {
      assert unit[..|unit|] == unit;
    }
  }

  // ---- the seeder ----

  /** The seeder answers requests of its own session and nothing else, and stops on DONE and on ABORT. */
  lemma SeederHears(env: Env, p: Pkg, frag: Positive, f: Frame)
    ensures f.session != env.session || f.kind != 5 ==> Respond(env, p, frag, f) == []
    ensures Finishes(env, f) <==> f.session == env.session && f.kind in {7, 8}
    ensures f.session == env.session && f.kind == 5 && f.index == 0xFFFF ==>
              Respond(env, p, frag, f) == Fragments(2, env.session, 0xFFFF, ManifestUnit(p), 0, frag)
    ensures ManifestUnit(p) == PackManifest(p.m) + p.signature
    ensures f.session == env.session && f.kind == 5 && f.index != 0xFFFF && f.index >= |BlocksIn(p)| ==>
              Respond(env, p, frag, f) == [Frame(4, env.session, f.index, 0, 0, [])]
  {
    hide Fragments, BlocksOf, PackManifest;
    if f.index >= |BlocksIn(p)| {
      assert HonestProof(env.h, p, f.index) == [];
      assert [Simple(env, PROOF, f.index)] + [] == [Simple(env, PROOF, f.index)];
    }
  }

  /** A request for a block is answered with all of its audit path and then all of the block. */
  lemma SeederServesBlock(env: Env, p: Pkg, frag: Positive, f: Frame)
    requires f.session == env.session && f.kind == 5 && f.index < |BlocksIn(p)|
    ensures var proof := Wire.Join(AuditPath(PairOf(env.h), LeavesOf(env.h, BlocksIn(p)), f.index));
            && |proof| <= 512 && 0 < |BlocksIn(p)[f.index]| <= 0xFFFF
            && Respond(env, p, frag, f) ==
               (if proof == [] then [Frame(4, env.session, f.index, 0, 0, [])] else Fragments(4, env.session, f.index, proof, 0, frag))
               + Fragments(3, env.session, f.index, BlocksIn(p)[f.index], 0, frag)
  {
    hide Fragments, BlocksOf, AuditPath, Wire.Join;
    BlockFits(env.h, p, f.index);
    ProofUnitFits(env.h, p, f.index);
  }
}
