/** Over a lossless radio a session always comes to rest with everything stored, under every scheduler. */
module Completion {
  import opened Wire
  import opened Merkle
  import opened Blocks
  import opened Package
  import opened Frames
  import opened Stores
  import opened Protocol
  import opened Safety
  import opened Delivery
  import opened Convergence

  /** The receiver is done for good, with every block stored and nothing left to come. */
  ghost predicate Finished(s: Session, l: Line) {
    l.queue == [] && l.r.complete && Sound(s.env, s.p, l.r)
  }

  /** Deliver the frames at the head of the line. */
  lemma DeliverBatch(s: Session, l: Line, batch: seq<Frame>, behind: seq<Frame>, o: Out) returns (k: nat, l': Line)
    requires l.queue == batch + behind && o == RecvAll(s.env, l.r, batch)
    ensures k == |batch| && l' == Moves(s, l, k) && l' == Line(o.r, behind + RespondTo(s, o.sent))
  {
    hide *;
    MovesBatch(s, l.r, batch, behind);
    k, l' := |batch|, Moves(s, l, |batch|);
    assert l == Line(l.r, batch + behind);
  }

  /** Drop ignorable frames at the head of the line. */
  lemma DropBatch(s: Session, l: Line, junk: seq<Frame>, behind: seq<Frame>) returns (k: nat)
    requires l.queue == junk + behind && Prime(l.r) == l.r && (l.r.complete || Ignored(l.r, junk))
    ensures Moves(s, l, k) == Line(l.r, behind)
  {
    hide Shaped, RespondTo, RecvAll;
    IgnoredFrames(s.env, l.r, junk);
    var l';
    k, l' := DeliverBatch(s, l, junk, behind, Out(l.r, [], []));
    NoReply(s);
    assert behind + [] == behind;
  }

  lemma NoReply(s: Session)
    ensures RespondTo(s, []) == []
  {
  }

  /** What the line looks like once a block has been stored: leftovers of its train, then the answer to what was sent. */
  ghost predicate Resting(s: Session, l: Line, junk: seq<Frame>, o: Out) {
    l == Line(o.r, junk + RespondTo(s, o.sent)) && Continues(s, o) && (o.r.complete || Ignored(o.r, junk))
  }

  /** The request is answered: the block is stored, or its proof waits, or a stale block was dropped. */
  lemma HalfWay(s: Session, r: Receiver, i: U16) returns (k: nat, half: Out)
    requires Valid(s) && Ready(s, r) && Low(r) == i < r.blockCount
    ensures i < |BlocksIn(s.p)|
    ensures Moves(s, Line(r, Train(s, i)), k) == Line(half.r, BlockFrames(s.env, s.p, i, s.frag) + RespondTo(s, half.sent))
    ensures AfterProof(s, r, i, half) && Focused(s, r, half.r, i) && (Clean(s, r) ==> Clean(s, half.r))
    ensures i in r.ready && r.ready[i] == BlocksIn(s.p)[i] && HasRoom(s, r.store, i) ==> Has(half.r.store, i)
  {
    hide Shaped, GoodPackage, RecvAll, Train, ProofFrames, BlockFrames, RespondTo, AfterProof, Clean, Genuine, Moves, Regular, Informed;
    TrainParts(s, r, i);
    half := ProofDelivered(s, r, i);
    var l;
    k, l := DeliverBatch(s, Line(r, Train(s, i)), ProofFrames(s.env, s.p, i, s.frag), BlockFrames(s.env, s.p, i, s.frag), half);
  }

  /** The proof waits: its block completes it. */
  lemma ProofThenBlock(s: Session, r: Receiver, i: U16) returns (k: nat, o: Out)
    requires Valid(s) && Ready(s, r) && Low(r) == i < |BlocksIn(s.p)|
    requires i in r.proofs && r.proofs[i] == HonestProof(s.env.h, s.p, i) && HasRoom(s, r.store, i)
    ensures Resting(s, Moves(s, Line(r, BlockFrames(s.env, s.p, i, s.frag)), k), [], o)
    ensures Has(o.r.store, i) && Focused(s, r, o.r, i) && (Clean(s, r) ==> Clean(s, o.r))
  {
    hide Shaped, GoodPackage, RecvAll, BlockFrames, RespondTo, Continues, Clean, Genuine, Moves, Regular, Informed, HonestProof;
    o := BlockDelivered(s, r, i);
    var frames := BlockFrames(s.env, s.p, i, s.frag);
    assert frames + [] == frames;
    var l;
    k, l := DeliverBatch(s, Line(r, frames), frames, [], o);
  }

  /** Neither half is left: the block comes in, and the train that was asked for again completes it. */
  lemma BlockThenTrain(s: Session, r: Receiver, i: U16) returns (k: nat, o: Out)
    requires Valid(s) && Ready(s, r) && Low(r) == i < |BlocksIn(s.p)| && i !in r.proofs && HasRoom(s, r.store, i)
    ensures Resting(s, Moves(s, Line(r, BlockFrames(s.env, s.p, i, s.frag) + Train(s, i)), k), BlockFrames(s.env, s.p, i, s.frag), o)
    ensures Has(o.r.store, i) && Focused(s, r, o.r, i) && (Clean(s, r) ==> Clean(s, o.r))
  {
    hide Shaped, GoodPackage, RecvAll, BlockFrames, RespondTo, Continues, Clean, Genuine, Moves, Regular, Informed, HonestProof, Train;
    var frames := BlockFrames(s.env, s.p, i, s.frag);
    var start := Line(r, frames + Train(s, i));
    var whole := BlockDelivered(s, r, i);
    var k1, l := DeliverBatch(s, start, frames, Train(s, i), whole);
    NoReply(s);
    assert Train(s, i) + [] == Train(s, i);
    LowBelowCount(s, whole.r, r);
    var k2;
    k2, o := HalfWay(s, whole.r, i);
    k := k1 + k2;
    MovesAdd(s, start, k1, k2);
    FocusedTwice(s, r, whole.r, o.r, i);
    BlockFramesIgnored(s, o, i);
  }

  /** From the request for the lowest missing block to the moment it is stored. */
  lemma StoreLowest(s: Session, r: Receiver, i: U16) returns (k: nat, junk: seq<Frame>, o: Out)
    requires Valid(s) && Ready(s, r) && Low(r) == i < r.blockCount && HasRoom(s, r.store, i)
    ensures Resting(s, Moves(s, Line(r, Train(s, i)), k), junk, o)
    ensures Has(o.r.store, i) && Focused(s, r, o.r, i) && (Clean(s, r) ==> Clean(s, o.r))
  {
    hide Shaped, GoodPackage, BlockFrames, RespondTo, Continues, Clean, Moves, Sound, HonestProof, Train;
    var k1, half := HalfWay(s, r, i);
    var frames := BlockFrames(s.env, s.p, i, s.frag);
    var start := Line(r, Train(s, i));
    if Has(half.r.store, i) {
      k, junk, o := k1, frames, half;
      BlockFramesIgnored(s, half, i);
    } else {
      LowBelowCount(s, half.r, r);
      var k2;
      if i in r.ready {
        k2, o := BlockThenTrain(s, half.r, i);
        junk := frames;
      } else {
        NoReply(s);
        assert frames + [] == frames;
        k2, o := ProofThenBlock(s, half.r, i);
        junk := [];
      }
      k := k1 + k2;
      MovesAdd(s, start, k1, k2);
      FocusedTwice(s, r, half.r, o.r, i);
    }
  }

  lemma LowRises(s: Session, r: Receiver, r': Receiver)
    requires Ready(s, r) && Ready(s, r') && Low(r) < r.blockCount && Focused(s, r, r', Low(r)) && Has(r'.store, Low(r))
    ensures Low(r) < Low(r')
  {
    hide Shaped, Regular, BlocksOf;
    LowBelowCount(s, r, r');
  }

  /** Block after block until none is missing. */
  lemma {:induction false} BlocksComplete(s: Session, l: Line, junk: seq<Frame>, o: Out) returns (k: nat)
    requires Valid(s) && Resting(s, l, junk, o) && (o.r.complete || Roomy(o.r.store, s.p.m))
    ensures Finished(s, Moves(s, l, k)) && (Clean(s, o.r) ==> Clean(s, Moves(s, l, k).r))
    decreases if o.r.complete then 0 else 1 + |BlocksIn(s.p)| - Low(o.r)
  {
    hide Shaped, GoodPackage, RespondTo, Clean, Moves, Regular, Informed, Train;
    var k1 := DropBatch(s, l, junk, RespondTo(s, o.sent));
    if o.r.complete {
      k := k1;
    } else {
      LowBelowCount(s, o.r, o.r);
      RoomyHasRoom(s, o.r.store, Low(o.r));
      var k2, junk2, o2 := StoreLowest(s, o.r, Low(o.r));
      var l2 := Moves(s, Line(o.r, Train(s, Low(o.r))), k2);
      if !o2.r.complete {
        LowRises(s, o.r, o2.r);
        LowBelowCount(s, o2.r, o.r);
      }
      var k3 := BlocksComplete(s, l2, junk2, o2);
      MovesAdd(s, l, k1, k2);
      MovesAdd(s, l, k1 + k2, k3);
      k := k1 + k2 + k3;
    }
  }

  // ---- the opening: START, then the manifest ----

  /** A session that may open: nothing refused, and a manifest the verifier trusts.
      The receiver may otherwise hold anything it can have collected. */
  ghost predicate Open(s: Session, r: Receiver) {
    && Sound(s.env, s.p, r) && !r.complete && !r.aborted
    && Trusted(s.env, PackManifest(s.p.m), s.p.signature)
  }

  /** The store has room for the payload, or everything already. */
  ghost predicate Servable(s: Session, store: Store) {
    Roomy(store, s.p.m) || AllStored(s.p, store)
  }

  /** While the manifest is still to come, no START has announced anything but its geometry. */
  predicate NotMisled(s: Session, r: Receiver) {
    r.manifest.None? && r.haveGeometry ==> GeometryAgrees(r, s.p.m)
  }

  function Primed(o: Out): Out {
    o.(r := Prime(o.r))
  }

  lemma PrimeCommutes(env: Env, r: Receiver)
    ensures Primed(RequestNext(env, r)) == RequestNext(env, Prime(r))
  {
    if r.manifest.Some? {
      LowUnchanged(r.store, Prime(r).store, 0, r.blockCount);
    }
  }

  function WithManifest(r: Receiver, unit: Unit): Receiver {
    r.(manifestRe := Partial(true, |unit|, unit))
  }

  lemma OneManifestFrame(env: Env, r: Receiver, f: Frame, unit: Unit, off: nat, n: nat)
    requires r.manifest.None? && !r.complete && !r.aborted && f.kind == MANIFEST && f.session == env.session
    requires 0 < n && off + n <= |unit| && f.off == off && f.total == |unit| && f.body == unit[off..off + n]
    requires off > 0 ==> r.manifestRe == Partial(true, |unit|, unit[..off])
    ensures Recv(env, r, f) ==
            if off + n == |unit| then Primed(AcceptManifest(env, WithManifest(r, unit), unit))
            else Out(r.(manifestRe := Partial(true, |unit|, unit[..off + n])), [], [])
  {
    hide Take, AcceptManifest;
    TakePiece(r.manifestRe, f, unit, off, n);
    assert unit[..|unit|] == unit;
  }

  lemma {:induction false} ManifestReceived(env: Env, r: Receiver, unit: Unit, off: nat, frag: Positive)
    requires r.manifest.None? && !r.complete && !r.aborted && off < |unit|
    requires off > 0 ==> r.manifestRe == Partial(true, |unit|, unit[..off])
    ensures RecvAll(env, r, Fragments(MANIFEST, env.session, INDEX_MANIFEST, unit, off, frag)) ==
            Primed(AcceptManifest(env, WithManifest(r, unit), unit))
    decreases |unit| - off
  {
    hide AcceptManifest, Recv;
    var n := Min(frag, |unit| - off);
    var f := Frame(MANIFEST, env.session, INDEX_MANIFEST, off, |unit|, unit[off..off + n]);
    var rest := Fragments(MANIFEST, env.session, INDEX_MANIFEST, unit, off + n, frag);
    OneManifestFrame(env, r, f, unit, off, n);
    RecvFirst(env, r, f, rest);
    if off + n < |unit| {
      ManifestReceived(env, Recv(env, r, f).r, unit, off + n, frag);
    }
  }

  /** The manifest is accepted, and the transfer asks for its first missing block. */
  lemma ManifestAccepted(s: Session, r: Receiver)
    requires Valid(s) && Open(s, r) && NotMisled(s, r) && r.manifest.None?
    ensures var o := Primed(AcceptManifest(s.env, WithManifest(r, ManifestUnit(s.p)), ManifestUnit(s.p)));
            && Continues(s, o) && (Clean(s, r) ==> Clean(s, o.r)) && o.r.ready == r.ready && |o.sent| == 1
            && o.r.store.flash == r.store.flash && forall k: nat :: Has(o.r.store, k) <==> Has(r.store, k)
  {
    hide GoodPackage, BlocksOf, Regular, Continues, PackManifest, UnpackManifest, Faithful;
    var unit := ManifestUnit(s.p);
    PackThenUnpack(s.p.m);
    assert unit[..MANIFEST_SIZE] == PackManifest(s.p.m) && unit[MANIFEST_SIZE..] == s.p.signature;
    var adopted := Adopt(WithManifest(r, unit), s.p.m);
    AdoptedReady(s, r, adopted);
    PrimeCommutes(s.env, adopted);
    NextContinues(s, Prime(adopted));
  }

  lemma AdoptedReady(s: Session, r: Receiver, adopted: Receiver)
    requires Valid(s) && Open(s, r) && NotMisled(s, r) && r.manifest.None?
    requires adopted == Adopt(WithManifest(r, ManifestUnit(s.p)), s.p.m)
    ensures Ready(s, Prime(adopted)) && (Clean(s, r) ==> Clean(s, Prime(adopted)))
  {
    hide GoodPackage, BlocksOf, Marked, PackManifest, RequestNext, Trusted, Fits;
    assert forall i: nat :: Has(Prime(adopted).store, i) <==> Has(r.store, i);
  }

  lemma PollAsksManifest(s: Session, r: Receiver)
    requires r.manifest.None?
    ensures RequestNext(s.env, r).r == r && Prime(r) == r
    ensures RespondTo(s, RequestNext(s.env, r).sent) ==
            Fragments(MANIFEST, s.env.session, INDEX_MANIFEST, ManifestUnit(s.p), 0, s.frag)
  {
    hide Shaped, Fragments, ManifestUnit;
    RespondToOne(s, Simple(s.env, REQUEST, INDEX_MANIFEST));
  }

  /** Nothing has been stored or come to wait. */
  ghost predicate SameHoldings(r: Receiver, r': Receiver) {
    r'.ready == r.ready && r'.store.flash == r.store.flash && forall k: nat :: Has(r'.store, k) <==> Has(r.store, k)
  }

  /** After a poll the transfer goes on from what the receiver holds, once the manifest has arrived. */
  lemma AskingContinues(s: Session, r: Receiver) returns (k: nat, o: Out)
    requires Valid(s) && Open(s, r) && NotMisled(s, r)
    ensures var first := Primed(RequestNext(s.env, r));
            Moves(s, Line(first.r, RespondTo(s, first.sent)), k) == Line(o.r, RespondTo(s, o.sent))
    ensures Continues(s, o) && SameHoldings(r, o.r) && (Clean(s, r) ==> Clean(s, o.r))
  {
    hide Shaped, GoodPackage, RespondTo, Regular, Informed, Train, Fragments, AcceptManifest, Continues, PackManifest, RecvAll, BlocksOf, Faithful, Trusted;
    if r.manifest.None? {
      PollAsksManifest(s, r);
      var unit := ManifestUnit(s.p);
      var batch := Fragments(MANIFEST, s.env.session, INDEX_MANIFEST, unit, 0, s.frag);
      ManifestReceived(s.env, r, unit, 0, s.frag);
      ManifestAccepted(s, r);
      o := Primed(AcceptManifest(s.env, WithManifest(r, unit), unit));
      assert batch + [] == batch && [] + RespondTo(s, o.sent) == RespondTo(s, o.sent);
      var l;
      k, l := DeliverBatch(s, Line(r, batch), batch, [], o);
    } else {
      PrimedIsReady(s, r);
      PrimeCommutes(s.env, r);
      NextContinues(s, Prime(r));
      k, o := 0, Primed(RequestNext(s.env, r));
    }
  }

  lemma PrimedIsReady(s: Session, r: Receiver)
    requires Valid(s) && Open(s, r) && r.manifest.Some?
    ensures Ready(s, Prime(r)) && (Clean(s, r) ==> Clean(s, Prime(r))) && SameHoldings(r, Prime(r))
  {
    hide Shaped, Marked, PackManifest, Trusted, BlocksOf, GoodPackage, OnlyTrusts, Faithful, Regular;
    PrimeKeeps(s.env, s.p, r);
  }

  /** START makes the receiver ask, with the geometry noted. */
  lemma StartContinues(s: Session, r: Receiver) returns (k: nat, o: Out)
    requires Valid(s) && Open(s, r)
    ensures Moves(s, Line(r, [StartFrame(s.env, s.p)]), k) == Line(o.r, RespondTo(s, o.sent))
    ensures Continues(s, o) && SameHoldings(r, o.r) && (Clean(s, r) ==> Clean(s, o.r))
  {
    hide GoodPackage, RespondTo, Moves, Regular, RequestNext, PackManifest, BlocksOf, Faithful, Trusted, EncodeStart, DecodeStart, Continues, OnlyTrusts;
    var m := s.p.m;
    StartRoundTrip(StartInfo(m.blockSize, m.blockCount, m.payloadLength, MANIFEST_SIZE, |s.p.signature|));
    var told := r.(haveGeometry := true, blockSize := m.blockSize, blockCount := m.blockCount, payloadLength := m.payloadLength);
    var f := StartFrame(s.env, s.p);
    var first := Primed(RequestNext(s.env, told));
    assert Recv(s.env, r, f) == first;
    var rest;
    rest, o := AskingContinues(s, told);
    assert [f][1..] == [] && [] + RespondTo(s, first.sent) == RespondTo(s, first.sent);
    assert Move(s, Line(r, [f])) == Line(first.r, RespondTo(s, first.sent));
    k := 1 + rest;
    MovesFirst(s, Line(r, [f]), rest);
  }

  lemma MovesFirst(s: Session, l: Line, k: nat)
    ensures Moves(s, l, 1 + k) == Moves(s, Move(s, l), k)
  {
  }

  // ---- the network ----

  /** A complete receiver's DONE is on its way, or has arrived. */
  ghost predicate Announced(s: Session, n: Net) {
    n.r.complete ==> n.done || exists f <- n.toSeeder :: Finishes(s.env, f)
  }

  lemma CompletionIsAnnounced(env: Env, r: Receiver, f: Frame)
    requires !r.complete && OnFrame(env, r, f).r.complete
    ensures Simple(env, DONE, 0) in OnFrame(env, r, f).sent
  {
    hide DecodeStart, Take, UnpackManifest, Verify, Put, SplitHashes, Trusted;
  }

  lemma AdvanceAnnounces(s: Session, n: Net, receiverFirst: bool)
    requires Announced(s, n)
    ensures Announced(s, Advance(s, n, receiverFirst))
  {
    hide Shaped, OnFrame, Respond;
    var a := Advance(s, n, receiverFirst);
    if ReceiverMoves(n, receiverFirst) {
      if a.r.complete && !n.r.complete {
        CompletionIsAnnounced(s.env, n.r, n.toReceiver[0]);
        assert Finishes(s.env, Simple(s.env, DONE, 0)) && Simple(s.env, DONE, 0) in a.toSeeder;
      } else if a.r.complete && !n.done {
        var f :| f in n.toSeeder && Finishes(s.env, f);
        assert f in a.toSeeder;
      }
    } else if n.toSeeder != [] && a.r.complete && !a.done {
      var f :| f in n.toSeeder && Finishes(s.env, f);
      assert n.toSeeder == [n.toSeeder[0]] + n.toSeeder[1..];
      assert f in a.toSeeder;
    }
  }

  lemma {:induction false} RunAnnounces(s: Session, n: Net, pick: Scheduler, k: nat)
    requires Announced(s, n)
    ensures Announced(s, Run(s, n, pick, k))
    decreases k
  {
    hide Shaped, Advance, Announced;
    if k > 0 {
      RunAnnounces(s, n, pick, k - 1);
      AdvanceAnnounces(s, Run(s, n, pick, k - 1), pick(k - 1));
    }
  }

  /** The two ways a session starts: the seeder sends START, or the receiver polls a seeder that has gone quiet. */
  predicate Opening(s: Session, r: Receiver, n: Net) {
    || n == Net(r, [StartFrame(s.env, s.p)], [], false)
    || (n == Net(Prime(Poll(s.env, r).r), [], Poll(s.env, r).sent, false) && NotMisled(s, r))
  }

  ghost predicate Delivered(s: Session, n: Net) {
    && Quiet(n) && n.r.complete && n.done
    && Sound(s.env, s.p, n.r) && AllStored(s.p, n.r.store)
  }

  /** Every lossless session over a store that can be served ends: for every package, fragment size and scheduler, from any
      receiver that is not refused, both queues drain with the receiver complete, the seeder done and every block stored; and
      if nothing wrong was stored or waiting at the start, the store then holds the payload. */
  lemma LosslessDelivery(s: Session, r: Receiver, n: Net, pick: Scheduler) returns (k: nat)
    requires Valid(s) && Open(s, r) && Servable(s, r.store) && Opening(s, r, n)
    ensures var e := Run(s, n, pick, k);
            && Delivered(s, e)
            && (Clean(s, r) ==> |s.p.payload| <= |e.r.store.image| && e.r.store.image[..|s.p.payload|] == s.p.payload)
  {
    hide Shaped, Moves, Run, Advance, RespondTo, Regular, Informed, RequestNext, OnFrame, Trusted, PackManifest, StartFrame, BlocksOf, Faithful, Servable;
    var moves := OpeningSettles(s, r, n);
    k := Drain(s, n, pick, moves);
    var e := Run(s, n, pick, k);
    OpeningAnnounced(s, r, n);
    RunAnnounces(s, n, pick, k);
    if Clean(s, r) {
      CompleteHoldsPayload(s, e.r);
    }
  }

  /** However a session opens, it comes to the point where the transfer goes on from what the receiver holds. */
  lemma OpeningContinues(s: Session, r: Receiver, n: Net) returns (k: nat, o: Out)
    requires Valid(s) && Open(s, r) && Opening(s, r, n)
    ensures Moves(s, LineOf(s, n), k) == Line(o.r, RespondTo(s, o.sent))
    ensures Continues(s, o) && SameHoldings(r, o.r) && (Clean(s, r) ==> Clean(s, o.r))
  {
    hide Shaped, Moves, Sound, Clean, Continues, SameHoldings, RequestNext, StartFrame, Trusted, PackManifest, Respond;
    NoReply(s);
    if n == Net(r, [StartFrame(s.env, s.p)], [], false) {
      assert [StartFrame(s.env, s.p)] + [] == [StartFrame(s.env, s.p)];
      k, o := StartContinues(s, r);
    } else {
      var reply := RespondTo(s, RequestNext(s.env, r).sent);
      assert [] + reply == reply;
      k, o := AskingContinues(s, r);
    }
  }

  lemma AllStoredCompletes(s: Session, o: Out)
    requires Continues(s, o) && AllStored(s.p, o.r.store)
    ensures o.r.complete
  {
    hide Shaped, Regular, RespondTo, Train, BlocksOf, Asks, OnlyTrusts;
  }

  lemma OpeningSettles(s: Session, r: Receiver, n: Net) returns (k: nat)
    requires Valid(s) && Open(s, r) && Servable(s, r.store) && Opening(s, r, n)
    ensures var l := Moves(s, LineOf(s, n), k); Finished(s, l) && (Clean(s, r) ==> Clean(s, l.r))
  {
    hide Shaped, Moves, Open, Opening, Clean, Continues, Finished, RespondTo, Has;
    var k1, o := OpeningContinues(s, r, n);
    if AllStored(s.p, r.store) {
      AllStoredCompletes(s, o);
    }
    var l := Moves(s, LineOf(s, n), k1);
    assert [] + RespondTo(s, o.sent) == RespondTo(s, o.sent);
    var k2 := BlocksComplete(s, l, [], o);
    MovesAdd(s, LineOf(s, n), k1, k2);
    k := k1 + k2;
  }

  lemma OpeningAnnounced(s: Session, r: Receiver, n: Net)
    requires Open(s, r) && Opening(s, r, n)
    ensures Announced(s, n)
  {
    hide Shaped, Sound, Trusted, PackManifest, StartFrame;
    if n.r.complete {
      assert Finishes(s.env, Simple(s.env, DONE, 0)) && Simple(s.env, DONE, 0) in n.toSeeder;
    }
  }

  lemma CompleteHoldsPayload(s: Session, r: Receiver)
    requires Sound(s.env, s.p, r) && r.complete && Clean(s, r)
    ensures |s.p.payload| <= |r.store.image| && r.store.image[..|s.p.payload|] == s.p.payload
  {
    hide Regular, Informed, BlocksOf, Faithful;
    FullStoreHoldsPayload(r.store, s.p.payload, s.p.m.blockSize);
  }

  // ---- schedulers cannot be told apart by the receiver ----

  lemma {:induction false} RunIsMoves(s: Session, n: Net, pick: Scheduler, k: nat) returns (j: nat)
    ensures LineOf(s, Run(s, n, pick, k)) == Moves(s, LineOf(s, n), j)
    decreases k
  {
    hide Shaped, RespondTo, Recv, Respond, Move;
    if k == 0 {
      j := 0;
    } else {
      var before := Run(s, n, pick, k - 1);
      var i := RunIsMoves(s, n, pick, k - 1);
      if Quiet(before) {
        j := i;
      } else if ReceiverMoves(before, pick(k - 1)) {
        DeliveryMoves(s, before, pick(k - 1));
        j := i + 1;
        MovesAdd(s, LineOf(s, n), i, 1);
        MovesOnce(s, LineOf(s, before));
      } else {
        ReplyKeepsLine(s, before, pick(k - 1));
        j := i;
      }
    }
  }

  lemma MovesOnce(s: Session, l: Line)
    ensures Moves(s, l, 1) == Move(s, l)
  {
    hide Move;
  }

  /** Any two runs from the same network that have come to rest have left the receiver in the same state. */
  lemma SchedulersAgree(s: Session, n: Net, pick: Scheduler, k: nat, pick': Scheduler, k': nat)
    requires Quiet(Run(s, n, pick, k)) && Quiet(Run(s, n, pick', k'))
    ensures Run(s, n, pick, k).r == Run(s, n, pick', k').r
  {
    hide Shaped, Moves, Run, Respond;
    var l := LineOf(s, n);
    var j := RunIsMoves(s, n, pick, k);
    var j' := RunIsMoves(s, n, pick', k');
    if j <= j' {
      MovesAdd(s, l, j, j' - j);
      AtRest(s, Moves(s, l, j), j' - j);
    } else {
      MovesAdd(s, l, j', j - j');
      AtRest(s, Moves(s, l, j'), j - j');
    }
  }
}
