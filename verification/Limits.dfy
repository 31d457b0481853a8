/** Where the promises of the transport end: what the code does outside the assumptions of the other modules. */
module Limits {
  import opened Wire
  import opened Blocks
  import opened Package
  import opened Frames
  import opened Stores
  import opened Protocol
  import opened Safety
  import opened Delivery
  import opened Convergence
  import opened Completion
  import opened Seeders
  import LeafLoop
  import opened Merkle

  // ---- START ----

  /** START is not checked against a manifest that was accepted before it: the geometry still agrees afterwards
      exactly when the START announces the manifest's geometry. */
  lemma LateStart(env: Env, r: Receiver, s: StartInfo)
    requires r.manifest.Some? && !r.complete && !r.aborted
    ensures var m := r.manifest.value; var o := OnFrame(env, r, StartWith(env, s));
            && (GeometryAgrees(o.r, m)
                <==> s.blockSize == m.blockSize && s.blockCount == m.blockCount && s.payloadLength == m.payloadLength)
            && (o.r.complete <==> forall i: nat | i < s.blockCount :: Has(r.store, i))
  {
    hide EncodeStart, DecodeStart;
    StartRoundTrip(s);
  }

  /** For example, a START that announces no blocks completes a transfer in which nothing has been stored. */
  lemma EmptyStartCompletes(env: Env, r: Receiver)
    requires r.manifest.Some? && !r.complete && !r.aborted
    ensures var o := OnFrame(env, r, StartWith(env, StartInfo(1, 0, 0, MANIFEST_SIZE, SIGNATURE_SIZE)));
            o.r.complete && o.r.store == r.store && o.sent == [Simple(env, DONE, 0)]
  {
    hide EncodeStart, DecodeStart;
    StartRoundTrip(StartInfo(1, 0, 0, MANIFEST_SIZE, SIGNATURE_SIZE));
  }

  /** A START before the manifest is checked against it: the manifest's arrival ends the session exactly when the two disagree. */
  lemma EarlyStart(s: Session, r: Receiver)
    requires Valid(s) && Open(s, r) && r.manifest.None?
    ensures var o := RecvAll(s.env, r, Fragments(MANIFEST, s.env.session, INDEX_MANIFEST, ManifestUnit(s.p), 0, s.frag));
            && (o.r.aborted <==> !NotMisled(s, r)) && (o.r.manifest == Some(s.p.m) <==> NotMisled(s, r))
  {
    hide Shaped, Sound, GoodPackage, RecvAll, Fragments, RequestNext, PackManifest, UnpackManifest, Trusted;
    var unit := ManifestUnit(s.p);
    ManifestReceived(s.env, r, unit, 0, s.frag);
    ShapedManifest(s.p);
    PackThenUnpack(s.p.m);
    assert unit[..MANIFEST_SIZE] == PackManifest(s.p.m) && unit[MANIFEST_SIZE..] == s.p.signature;
    var w := WithManifest(r, unit);
    if NotMisled(s, r) {
      NextKeepsManifest(s.env, Adopt(w, s.p.m));
    }
  }

  lemma ShapedManifest(p: Pkg)
    ensures Sized(p.m) && p.m.magic == MANIFEST_MAGIC && p.m.format == MANIFEST_FORMAT && |p.signature| == SIGNATURE_SIZE
  {
  }

  lemma NextKeepsManifest(env: Env, r: Receiver)
    ensures RequestNext(env, r).r.manifest == r.manifest && RequestNext(env, r).r.aborted == r.aborted
  {
  }

  // ---- a manifest the verifier refuses ----

  /** A session with a receiver that has no manifest yet is delivered if there is no verifier or it accepts the signature; if not, it comes to
      rest with the receiver aborted, knowing no manifest, and its store as it was. */
  lemma DeliveredIfTrusted(s: Session, r: Receiver, pick: Scheduler) returns (k: nat)
    requires Valid(s) && Sound(s.env, s.p, r) && !r.complete && !r.aborted && r.manifest.None? && Servable(s, r.store)
    ensures var e := Run(s, Net(r, [StartFrame(s.env, s.p)], [], false), pick, k);
            if s.env.verifier.None? || s.env.verifier.value(PackManifest(s.p.m), s.p.signature) then Delivered(s, e)
            else Quiet(e) && e.r.aborted && !e.r.complete && e.r.manifest.None? && e.r.store == r.store
  {
    hide Shaped, Sound, GoodPackage, Run, Moves, PackManifest, StartFrame, RespondTo, Servable, Delivered;
    var n := Net(r, [StartFrame(s.env, s.p)], [], false);
    if s.env.verifier.None? || s.env.verifier.value(PackManifest(s.p.m), s.p.signature) {
      k := LosslessDelivery(s, r, n, pick);
    } else {
      NoReply(s);
      assert [StartFrame(s.env, s.p)] + [] == [StartFrame(s.env, s.p)];
      var moves, last := UntrustedRefused(s, r);
      k := Drain(s, n, pick, moves);
    }
  }

  lemma UntrustedRefused(s: Session, r: Receiver) returns (k: nat, last: Receiver)
    requires !r.complete && !r.aborted && r.manifest.None? && !Trusted(s.env, PackManifest(s.p.m), s.p.signature)
    ensures Moves(s, Line(r, [StartFrame(s.env, s.p)]), k) == Line(last, [])
    ensures last.aborted && !last.complete && last.manifest.None? && last.store == r.store
  {
    hide Moves, BlocksOf, Trusted, PackManifest, UnpackManifest, RespondTo, EncodeStart, DecodeStart, RecvAll, Fragments;
    var m := s.p.m;
    ShapedManifest(s.p);
    StartRoundTrip(StartInfo(m.blockSize, m.blockCount, m.payloadLength, MANIFEST_SIZE, |s.p.signature|));
    var told := r.(haveGeometry := true, blockSize := m.blockSize, blockCount := m.blockCount, payloadLength := m.payloadLength);
    var f, unit := StartFrame(s.env, s.p), ManifestUnit(s.p);
    var batch := Fragments(MANIFEST, s.env.session, INDEX_MANIFEST, unit, 0, s.frag);
    PollAsksManifest(s, told);
    assert Recv(s.env, r, f) == RequestNext(s.env, told);
    assert [f][1..] == [] && [] + batch == batch && batch + [] == batch;
    assert Move(s, Line(r, [f])) == Line(told, batch);
    PackThenUnpack(m);
    assert unit[..MANIFEST_SIZE] == PackManifest(m) && unit[MANIFEST_SIZE..] == s.p.signature;
    ManifestReceived(s.env, told, unit, 0, s.frag);
    last := WithManifest(told, unit).(aborted := true);
    var rest, l := DeliverBatch(s, Line(told, batch), batch, [], Out(last, [], []));
    NoReply(s);
    MovesFirst(s, Line(r, [f]), rest);
    k := 1 + rest;
  }

  // ---- a block count that is not the manifest's ----

  /** The two nodes below the root, one after the other. */
  function TopNodes(h: HashFn, blocks: seq<Data>): (d: Data)
    requires |blocks| >= 2
    ensures |d| == 64
  {
    var leaves := LeavesOf(h, blocks);
    var k := Split(|leaves|);
    TreeRoot(PairOf(h), leaves[..k]) + TreeRoot(PairOf(h), leaves[k..])
  }

  lemma TopNodesHash(h: HashFn, blocks: seq<Data>)
    requires |blocks| >= 2
    ensures h(TopNodes(h, blocks)) == RootOf(h, blocks)
    ensures Verify(PairOf(h), h(TopNodes(h, blocks)), 0, 1, [], RootOf(h, blocks))
  {
  }

  function TopNodesFrame(env: Env, blocks: seq<Data>): Frame
    requires |blocks| >= 2
  {
    Frame(BLOCK, env.session, 0, 0, 64, TopNodes(env.h, blocks))
  }

  /** A receiver that takes the tree of two or more blocks for a tree of one accepts the two nodes below the root as its
      block, without any collision, and is complete. */
  lemma OneLeafTree(env: Env, r: Receiver, blocks: seq<Data>)
    requires Live(r) && |blocks| >= 2 && r.manifest.value.root == RootOf(env.h, blocks) && r.blockCount == 1
    requires Regular(r.store, r.manifest.value) && !Has(r.store, 0) && 0 !in r.ready
    requires r.manifest.value.blockCount > 0 && 64 <= Room(r.store.flash, r.manifest.value)
    ensures var w := OnFrame(env, r, Simple(env, PROOF, 0)).r; var o := OnFrame(env, w, TopNodesFrame(env, blocks));
            && o.r.complete && Has(o.r.store, 0) && (forall k: nat | k != 0 :: Has(o.r.store, k) <==> Has(r.store, k))
            && 64 <= |o.r.store.image| && o.r.store.image[..64] == TopNodes(env.h, blocks)
  {
    hide Regular, TopNodes, RootOf, Verify, TryFinish, Put;
    var nodes := TopNodes(env.h, blocks);
    var w := r.(proofs := r.proofs[0 := []]);
    HalfWaits(env, w, 0);
    assert OnFrame(env, r, Simple(env, PROOF, 0)).r == w;
    var v := w.(blockInFlight := 0, blockRe := Partial(false, 64, nodes), ready := w.ready[0 := nodes]);
    assert [] + nodes == nodes;
    assert OnFrame(env, w, TopNodesFrame(env, blocks)) == TryFinish(env, v, 0);
    TopNodesHash(env.h, blocks);
    assert Verifies(env, v, Verified(0, nodes, []));
    FinishedStore(env, v, 0);
    FirstSlot(r.store, r.manifest.value, nodes);
    PutRegular(r.store, r.manifest.value, 0, nodes);
    OneBlockCompletes(env, v);
  }

  lemma FirstSlot(s: Store, m: Manifest, data: Data)
    requires Regular(s, m) && s.manifest == Some(m) && !Has(s, 0) && m.blockCount > 0 && |data| <= Room(s.flash, m)
    ensures var o := Put(s, 0, data); o.ok && |data| <= |o.s.image| && o.s.image[..|data|] == data
  {
    hide Marked, Overwrite;
    BeginRegular(s, m);
    var b := Stores.Begin(s);
    OverwriteThere(b.image, 0, data);
  }

  lemma OneBlockCompletes(env: Env, r: Receiver)
    requires r.manifest.Some? && r.blockCount == 1 && 0 in r.ready && 0 in r.proofs && Has(TryFinish(env, r, 0).r.store, 0)
    ensures TryFinish(env, r, 0).r.complete
  {
    hide Put, Verify;
  }

  /** Such a receiver is what a START of one block makes of any transfer. */
  lemma OneBlockStart(env: Env, r: Receiver, blocks: seq<Data>, bs: U16)
    requires Live(r) && |blocks| >= 2 && r.manifest.value.root == RootOf(env.h, blocks)
    requires Regular(r.store, r.manifest.value) && !Has(r.store, 0) && 0 !in r.ready
    requires r.manifest.value.blockCount > 0 && 64 <= Room(r.store.flash, r.manifest.value)
    ensures var told := OnFrame(env, r, StartWith(env, StartInfo(bs, 1, bs, MANIFEST_SIZE, SIGNATURE_SIZE))).r;
            var w := OnFrame(env, told, Simple(env, PROOF, 0)).r; var o := OnFrame(env, w, TopNodesFrame(env, blocks));
            && o.r.complete && (forall k: nat | k != 0 :: Has(o.r.store, k) <==> Has(r.store, k))
            && 64 <= |o.r.store.image| && o.r.store.image[..64] == TopNodes(env.h, blocks)
  {
    hide Regular, TopNodes, RootOf, EncodeStart, DecodeStart, OnBlock, OnProof;
    StartRoundTrip(StartInfo(bs, 1, bs, MANIFEST_SIZE, SIGNATURE_SIZE));
    var told := r.(haveGeometry := true, blockSize := bs, blockCount := 1, payloadLength := bs);
    assert OnFrame(env, r, StartWith(env, StartInfo(bs, 1, bs, MANIFEST_SIZE, SIGNATURE_SIZE))).r == told;
    OneLeafTree(env, told, blocks);
  }

  // ---- geometry beyond 16 bits ----

  /** Without a START the manifest's geometry is narrowed: it is kept exactly when it fits 16 bits.
      With a START a manifest that does not fit is refused. */
  lemma NarrowedGeometry(env: Env, r: Receiver, unit: Data)
    requires r.manifest.None? && !r.complete && !r.aborted && |unit| >= MANIFEST_SIZE
    ensures var m := UnpackManifest(unit[..MANIFEST_SIZE]); var o := AcceptManifest(env, r, unit);
            && (o.r.manifest.Some? && !r.haveGeometry ==>
                  (GeometryAgrees(o.r, m) <==> m.blockSize <= 0xFFFF && m.blockCount <= 0xFFFF))
            && (o.r.manifest.Some? && r.haveGeometry ==> GeometryAgrees(o.r, m))
            && (r.haveGeometry && (m.blockSize > 0xFFFF || m.blockCount > 0xFFFF) ==> o.r.aborted)
  {
    hide UnpackManifest, Trusted;
  }

  /** A new receiver that is sent a trusted manifest, in fragments of any size and without a START, waits for the narrowed
      number of blocks: it is complete at once exactly when the block count is a multiple of 65536. */
  lemma NarrowedCount(env: Env, m: Manifest, signature: Data, frag: Positive, flash: bool) returns (o: Out)
    requires Sized(m) && m.magic == MANIFEST_MAGIC && m.format == MANIFEST_FORMAT && |signature| == SIGNATURE_SIZE
    requires Trusted(env, PackManifest(m), signature)
    ensures o == RecvAll(env, Fresh(EmptyStore(flash)), Fragments(MANIFEST, env.session, INDEX_MANIFEST, Signed(m, signature), 0, frag))
    ensures o.r.manifest == Some(m) == o.r.store.manifest && o.r.store == EmptyStore(flash).(manifest := Some(m))
    ensures o.r.blockCount == NarrowCount(m) && o.r.ready == map[] && !o.r.aborted
    ensures o.r.complete <==> m.blockCount % 0x1_0000 == 0
  {
    hide RecvAll, Fragments, PackManifest, UnpackManifest, Trusted;
    var unit := Signed(m, signature);
    var r := Fresh(EmptyStore(flash));
    PackThenUnpack(m);
    assert unit[..MANIFEST_SIZE] == PackManifest(m) && unit[MANIFEST_SIZE..] == signature;
    ManifestReceived(env, r, unit, 0, frag);
    o := RecvAll(env, r, Fragments(MANIFEST, env.session, INDEX_MANIFEST, unit, 0, frag));
    assert o == Primed(RequestNext(env, Adopt(WithManifest(r, unit), m)));
  }

  /** So a manifest of 65537 blocks opens a tree of one: its two top nodes pass for the payload. */
  lemma WrappedCountIsOneLeaf(env: Env, m: Manifest, signature: Data, frag: Positive, flash: bool, blocks: seq<Data>)
    requires Sized(m) && m.magic == MANIFEST_MAGIC && m.format == MANIFEST_FORMAT && |signature| == SIGNATURE_SIZE
    requires Trusted(env, PackManifest(m), signature)
    requires m.blockCount == |blocks| == 0x1_0001 && m.root == RootOf(env.h, blocks) && 64 <= Room(flash, m)
    ensures var r := RecvAll(env, Fresh(EmptyStore(flash)),
                             Fragments(MANIFEST, env.session, INDEX_MANIFEST, Signed(m, signature), 0, frag)).r;
            var w := OnFrame(env, r, Simple(env, PROOF, 0)).r; var o := OnFrame(env, w, TopNodesFrame(env, blocks));
            o.r.complete && 64 <= |o.r.store.image| && o.r.store.image[..64] == TopNodes(env.h, blocks)
  {
    hide RecvAll, Fragments, PackManifest, Trusted, TopNodes, RootOf, OnFrame;
    var o := NarrowedCount(env, m, signature, frag, flash);
    MarkedAbsent([]);
    OneLeafTree(env, o.r, blocks);
  }

  // ---- stores ----

  /** The result of put_block is not looked at: a verified block is acknowledged in any case. It is then stored exactly when it
      was before or the store has the manifest, it is the block's turn and the data fits; if it is not stored and no lower
      block is missing, it is asked for again. */
  lemma AcknowledgedIsNotStored(env: Env, r: Receiver, i: U16)
    requires r.manifest.Some? && Regular(r.store, r.manifest.value) && i < r.manifest.value.blockCount
    requires i in r.ready && i in r.proofs && Verifies(env, r, Verified(i, r.ready[i], r.proofs[i]))
    ensures var o := TryFinish(env, r, i); var m := r.manifest.value;
            && Simple(env, ACK, i) in o.sent
            && (Has(o.r.store, i) <==>
                Has(r.store, i) || (r.store.manifest.Some? && (r.store.flash ==> i == r.store.next)
                                    && i * m.blockSize % WRAP + |r.ready[i]| <= Room(r.store.flash, m)))
            && (Simple(env, REQUEST, i) in o.sent <==> !Has(o.r.store, i) && i == Low(r) < r.blockCount)
  {
    hide Merkle.Verify, Regular, Put, RequestNext;
    var m := r.manifest.value;
    PutRegular(r.store, m, i, r.ready[i]);
    PutStoresExactly(r.store, m, i, r.ready[i]);
    var dropped := r.(ready := r.ready - {i}, proofs := r.proofs - {i}, store := Put(r.store, i, r.ready[i]).s);
    NextAsksLowest(env, dropped, i);
    if !Has(dropped.store, i) {
      LowUnchanged(dropped.store, r.store, 0, r.blockCount);
    }
  }

  lemma NextAsksLowest(env: Env, r: Receiver, i: U16)
    requires r.manifest.Some?
    ensures Simple(env, REQUEST, i) in RequestNext(env, r).sent <==> i == Low(r) < r.blockCount
    ensures RequestNext(env, r).r.store == r.store
  {
  }

  /** The flash store marks its journal without looking at its length: a write goes past the end exactly for the index after
      the last block, when that one is next and fits. The receiver puts no such index (`Safety.VerifiedIsBacked`). */
  lemma JournalOverrun(s: Store, m: Manifest, i: nat, data: Data)
    requires Regular(s, m) && s.flash
    ensures Put(s, i, data).ok && !Has(Put(s, i, data).s, i) <==>
            i == s.next == m.blockCount && s.manifest.Some? && i * m.blockSize % WRAP + |data| <= m.outputLength
  {
    hide Marked, Overwrite;
    AllMarked(s.have);
    if s.manifest.Some? {
      BeginRegular(s, m);
      AllMarked(Stores.Begin(s).have);
    }
  }

  // ---- packages the seeder cannot serve ----

  /** The parser looks at no size but the payload's: a manifest with any block size and count whatever makes an accepted package. */
  lemma AnyGeometryIsAccepted(m: Manifest, signature: Data, payload: Data)
    requires Sized(m) && GoodManifest(m, payload) && |signature| == SIGNATURE_SIZE
    ensures var buf := Assemble(WRITER_HEADER, PackManifest(m), signature, payload);
            Accepted(buf) && Contents(buf) == Parts(m, signature, payload) && Parsable(Contents(buf))
  {
    hide PackManifest, UnpackManifest, PackHeader, UnpackHeader;
    PackThenUnpack(m);
    SectionsOfAssembled(WRITER_HEADER, PackManifest(m), signature, payload);
  }

  /** Which parsed packages a seeder can be constructed over: its leaf loop ends, having hashed the payload's bytes only,
      exactly when the narrowed block size is not zero (or there is nothing to hash) and the payload rounded up to whole blocks
      stays below 2^32. It then answers every request from the payload exactly when the last block announced does not start
      beyond its end. */
  lemma SeederServes(p: Parts)
    requires Parsable(p)
    ensures var size, bs, count := |p.payload|, NarrowSize(p.m), NarrowCount(p.m);
            && (LeafLoop.Ends(bs, size) && LeafLoop.StaysInside(bs, size) <==> Loadable(p))
            && (Loadable(p) <==> size == 0 || (bs > 0 && LeafLoop.RoundedUp(size, bs) < WRAP))
            && ((forall i: U16 | i < count :: LeafLoop.Inside(LeafLoop.Start(i, bs) % WRAP, bs, size))
                <==> count == 0 || (count - 1) * bs <= size)
  {
    hide LeafLoop.RoundedUp, LeafLoop.Ends, LeafLoop.StaysInside, LeafLoop.Inside;
    LeafLoop.LoopIsSound(NarrowSize(p.m), |p.payload|);
    LeafLoop.RequestsInside(NarrowSize(p.m), NarrowCount(p.m), |p.payload|);
  }

  /** A request is answerable exactly when the source's 32-bit arithmetic stays inside the payload. */
  lemma AnswerableIsInside(env: Env, p: Parts, f: Frame)
    requires |p.payload| < WRAP && AsksBlock(env, f) && f.index < NarrowCount(p.m)
    ensures Answerable(env, p, f) <==>
            LeafLoop.Inside(LeafLoop.Start(f.index, NarrowSize(p.m)) % WRAP, NarrowSize(p.m), |p.payload|)
  {
    hide LeafLoop.Start, LeafLoop.Inside;
    LeafLoop.RequestInside(f.index, NarrowSize(p.m), |p.payload|);
  }

  /** For example, a block size of 65536, which the packager writes without complaint: the parser accepts the package, and the
      leaf loop never leaves offset zero. */
  lemma NarrowedToNothing(h: HashFn, id: Identity, payload: Data, output: Data, delta: bool, k: nat)
    requires Packable(payload, output, 0x1_0000) && payload != []
    ensures var buf := Unsigned(h, id, payload, output, delta, 0x1_0000);
            && Accepted(buf) && !Loadable(Contents(buf)) && !LeafLoop.Ends(NarrowSize(Contents(buf).m), |payload|)
            && LeafLoop.OffsetAfter(NarrowSize(Contents(buf).m), k) == 0
  {
    hide UnpackManifest, PackManifest, UnpackHeader, PackHeader, Unsigned, ManifestFor, LeafLoop.Ends;
    BuildThenParse(h, id, payload, output, delta, 0x1_0000);
    assert ManifestFor(h, id, payload, output, delta, 0x1_0000).blockSize == 0x1_0000 by { BuiltSize(h, id, payload, output, delta); }
    LeafLoop.EndsExactly(0, |payload|);
    LeafLoop.StartOfNothing(k);
  }

  lemma BuiltSize(h: HashFn, id: Identity, payload: Data, output: Data, delta: bool)
    requires Packable(payload, output, 0x1_0000)
    ensures ManifestFor(h, id, payload, output, delta, 0x1_0000).blockSize == 0x1_0000
  {
  }
}
