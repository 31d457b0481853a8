/** Exactly which lossless sessions come to rest: a store that turns the lowest missing block away is asked for it for ever. */
module Stalls {
  import opened Wire
  import opened Merkle
  import opened Blocks
  import opened Package
  import opened Frames
  import opened Stores
  import opened Protocol
  import opened Safety
  import opened Delivery
  import opened Convergence
  import opened Completion

  predicate TurnedAway(store: Store, i: nat, data: Data)
    requires store.manifest.Some?
  {
    Put(store, i, data) == Outcome(Stores.Begin(store), false)
  }

  /** The block passes verification with the genuine proof of its index. */
  predicate Passes(s: Session, r: Receiver, i: U16, block: Unit) {
    Verify(PairOf(s.env.h), s.env.h(block), i, r.blockCount, HonestProof(s.env.h, s.p, i), Root(r))
  }

  /** The store takes neither the genuine lowest missing block nor one that waits in its place and passes verification. */
  predicate Stuck(s: Session, r: Receiver, i: U16) {
    && Live(r) && Low(r) == i < r.blockCount && i < |BlocksIn(s.p)|
    && (r.store.began || r.store.have == [])
    && TurnedAway(r.store, i, BlocksIn(s.p)[i])
    && (i in r.ready ==> TurnedAway(r.store, i, r.ready[i]) || !Passes(s, r, i, r.ready[i]))
  }

  lemma StillStuck(s: Session, r: Receiver, i: U16, r': Receiver)
    requires Stuck(s, r, i) && r'.manifest == r.manifest && r'.blockCount == r.blockCount && !r'.complete && !r'.aborted
    requires r'.store == r.store || r'.store == Stores.Begin(r.store)
    requires i in r'.ready ==> r'.ready[i] == BlocksIn(s.p)[i] || (i in r.ready && r'.ready[i] == r.ready[i])
    ensures Stuck(s, r', i)
  {
    hide Shaped, BlocksOf, Overwrite, Offset, HonestProof, Verify;
    assert forall k: nat :: Has(Stores.Begin(r.store), k) <==> Has(r.store, k);
    LowUnchanged(r.store, r'.store, 0, r.blockCount);
  }

  lemma StuckTrain(s: Session, r: Receiver, i: U16, o: Out)
    requires Stuck(s, r, i) && RequestNext(s.env, r) == o
    ensures o.r == r && o.sent == [Simple(s.env, REQUEST, i)] && RespondTo(s, o.sent) == Train(s, i)
  {
    hide Shaped, Respond, BlocksOf, Put, HonestProof;
    RespondToOne(s, Simple(s.env, REQUEST, i));
  }

  /** Both halves are there, and the block is tried in vain: it is dropped and asked for again. */
  lemma TriedInVain(s: Session, r: Receiver, i: U16) returns (o: Out)
    requires Stuck(s, r, i) && i in r.ready && i in r.proofs
    requires TurnedAway(r.store, i, r.ready[i]) || r.proofs[i] == HonestProof(s.env.h, s.p, i)
    ensures o == TryFinish(s.env, r, i) && Stuck(s, o.r, i) && RespondTo(s, o.sent) == Train(s, i)
    ensures i !in o.r.ready && i !in o.r.proofs
  {
    hide Shaped, Respond, BlocksOf, Put, Verify, HonestProof, RequestNext, Train;
    o := TryFinish(s.env, r, i);
    var ok := Verifies(s.env, r, Verified(i, r.ready[i], r.proofs[i]));
    var dropped := r.(ready := r.ready - {i}, proofs := r.proofs - {i},
                      store := if ok then Put(r.store, i, r.ready[i]).s else r.store);
    StillStuck(s, r, i, dropped);
    var next := RequestNext(s.env, dropped);
    StuckTrain(s, dropped, i, next);
    if ok {
      RespondToAppend(s, [Simple(s.env, ACK, i)], next.sent);
      RespondToOne(s, Simple(s.env, ACK, i));
      assert [] + Train(s, i) == Train(s, i);
    } else {
      assert [] + next.sent == next.sent;
    }
  }

  lemma TrainHalves(s: Session, i: U16)
    requires i < |BlocksIn(s.p)|
    ensures Train(s, i) == ProofFrames(s.env, s.p, i, s.frag) + BlockFrames(s.env, s.p, i, s.frag) && Train(s, i) != []
  {
    hide ProofUnit, BlocksOf;
  }

  lemma ProofHeard(s: Session, r: Receiver, i: U16) returns (w: Receiver)
    requires Stuck(s, r, i)
    ensures w == WithProof(r, i, ProofUnit(s.env.h, s.p, i), HonestProof(s.env.h, s.p, i)) && Stuck(s, w, i)
    ensures i in w.proofs && w.proofs[i] == HonestProof(s.env.h, s.p, i) && w.ready == r.ready
    ensures RecvAll(s.env, r, ProofFrames(s.env, s.p, i, s.frag)) == TryFinish(s.env, w, i)
  {
    hide Shaped, BlocksOf, TryFinish, Recv, Fragments, AuditPath, Put;
    var unit, proof := ProofUnit(s.env.h, s.p, i), HonestProof(s.env.h, s.p, i);
    w := WithProof(r, i, unit, proof);
    StillStuck(s, r, i, w);
    HashesSurvive(proof);
    if unit == [] {
      EmptyProof(s.env, r, i);
    } else {
      ProofReceived(s.env, r, i, unit, proof, 0, s.frag);
    }
  }

  lemma BlockHeard(s: Session, r: Receiver, i: U16) returns (w: Receiver)
    requires Stuck(s, r, i)
    ensures |BlocksIn(s.p)[i]| <= 0xFFFF && w == WithBlock(r, i, BlocksIn(s.p)[i]) && Stuck(s, w, i)
    ensures i in w.ready && w.proofs == r.proofs && w.store.manifest.Some? && TurnedAway(w.store, i, w.ready[i])
    ensures RecvAll(s.env, r, BlockFrames(s.env, s.p, i, s.frag)) == TryFinish(s.env, w, i)
  {
    hide Shaped, BlocksOf, TryFinish, Recv, Fragments, Put;
    BlockFits(s.env.h, s.p, i);
    w := WithBlock(r, i, BlocksIn(s.p)[i]);
    StillStuck(s, r, i, w);
    BlockReceived(s.env, r, i, BlocksIn(s.p)[i], 0, s.frag);
  }

  /** One whole train leaves the receiver stuck, with the same train ahead of it. */
  lemma TrainInVain(s: Session, r: Receiver, i: U16) returns (r': Receiver)
    requires Stuck(s, r, i)
    ensures Stuck(s, r', i) && Moves(s, Line(r, Train(s, i)), |Train(s, i)|) == Line(r', Train(s, i))
  {
    hide Shaped, BlocksOf, TryFinish, RecvAll, RespondTo, Moves, ProofFrames, BlockFrames, Train, Stuck, ProofUnit, HonestProof;
    assert i < |BlocksIn(s.p)| by { StuckBelow(s, r, i); }
    TrainHalves(s, i);
    var proofs, blocks, train := ProofFrames(s.env, s.p, i, s.frag), BlockFrames(s.env, s.p, i, s.frag), Train(s, i);
    var w := ProofHeard(s, r, i);
    var half: Out, behind: seq<Frame>;
    NoReply(s);
    if i in r.ready {
      half := TriedInVain(s, w, i);
      behind := train;
    } else {
      HalfWaits(s.env, w, i);
      half := Out(w, [], []);
      behind := [];
    }
    MovesBatch(s, r, proofs, blocks);
    assert blocks + [] == blocks;
    var v := BlockHeard(s, half.r, i);
    var whole: Out;
    if i in r.ready {
      HalfWaits(s.env, v, i);
      whole := Out(v, [], []);
    } else {
      whole := TriedInVain(s, v, i);
    }
    MovesBatch(s, half.r, blocks, behind);
    assert train + [] == train && [] + train == train;
    MovesAdd(s, Line(r, train), |proofs|, |blocks|);
    r' := whole.r;
  }

  lemma StuckBelow(s: Session, r: Receiver, i: U16)
    requires Stuck(s, r, i)
    ensures i < |BlocksIn(s.p)|
  {
  }

  /** The same train comes round and round. */
  lemma {:induction false} ServedAgain(s: Session, r: Receiver, i: U16, rounds: nat) returns (r': Receiver)
    requires Stuck(s, r, i)
    ensures rounds * |Train(s, i)| >= 0
    ensures Stuck(s, r', i) && Moves(s, Line(r, Train(s, i)), rounds * |Train(s, i)|) == Line(r', Train(s, i))
    decreases rounds
  {
    hide Shaped, Train, Stuck, Move;
    var n := |Train(s, i)|;
    if rounds == 0 {
      r' := r;
    } else {
      var once := TrainInVain(s, r, i);
      r' := ServedAgain(s, once, i, rounds - 1);
      assert rounds * n == n + (rounds - 1) * n;
      MovesAdd(s, Line(r, Train(s, i)), n, (rounds - 1) * n);
    }
  }

  lemma {:induction false} QueueLasts(s: Session, l: Line, k: nat)
    ensures |Moves(s, l, k).queue| >= |l.queue| - k
    decreases k
  {
    hide Shaped, Recv, RespondTo;
    if k > 0 {
      QueueLasts(s, Move(s, l), k - 1);
    }
  }

  /** A stuck receiver's line is never empty. */
  lemma {:induction false} NeverRests(s: Session, r: Receiver, i: U16, k: nat)
    requires Stuck(s, r, i)
    ensures Moves(s, Line(r, Train(s, i)), k).queue != []
    decreases k
  {
    hide Shaped, Moves, Train, Stuck, BlocksOf;
    var n := |Train(s, i)|;
    StuckBelow(s, r, i);
    TrainHalves(s, i);
    if k < n {
      QueueLasts(s, Line(r, Train(s, i)), k);
    } else {
      var r' := TrainInVain(s, r, i);
      NeverRests(s, r', i, k - n);
      MovesAdd(s, Line(r, Train(s, i)), n, k - n);
    }
  }

  /** From its request on, a stuck receiver's network is never quiet, whatever the scheduler does. */
  lemma NeverQuiet(s: Session, r: Receiver, i: U16, pick: Scheduler, t: nat)
    requires Stuck(s, r, i)
    ensures !Quiet(Run(s, Net(r, [], [Simple(s.env, REQUEST, i)], false), pick, t))
  {
    hide Shaped, Moves, Train, Stuck, Run, Respond;
    var n := Net(r, [], [Simple(s.env, REQUEST, i)], false);
    RespondToOne(s, Simple(s.env, REQUEST, i));
    assert [] + Train(s, i) == Train(s, i) by { TrainIsReply(s, i); }
    assert LineOf(s, n) == Line(r, Train(s, i)) by { TrainIsReply(s, i); }
    var j := RunIsMoves(s, n, pick, t);
    NeverRests(s, r, i, j);
    NoReply(s);
  }

  lemma TrainIsReply(s: Session, i: U16)
    ensures Train(s, i) == Respond(s.env, s.p, s.frag, Simple(s.env, REQUEST, i))
  {
  }

  // ---- a flash target that is too small ----

  lemma NoRoomIsStuck(s: Session, r: Receiver, i: U16)
    requires Valid(s) && Ready(s, r) && Low(r) == i < r.blockCount && !HasRoom(s, r.store, i) && Unforged(s, r)
    ensures Stuck(s, r, i)
  {
    hide Shaped, BlocksOf, OnlyTrusts, HoldsPrefix, Verify, HonestProof, GoodPackage, Marked, Overwrite;
    LowBelowCount(s, r, r);
    RefusedForRoom(s, r, i);
  }

  lemma RefusedForRoom(s: Session, r: Receiver, i: U16)
    requires Live(r) && Regular(r.store, s.p.m) && r.blockCount == s.p.m.blockCount && Low(r) == i < r.blockCount
    requires i < |BlocksIn(s.p)| && !HasRoom(s, r.store, i)
    ensures TurnedAway(r.store, i, BlocksIn(s.p)[i]) && (r.store.began || r.store.have == [])
  {
    hide BlocksOf, Marked, Overwrite, Offset;
    SlotFits(s.p.m, s.p.payload, i);
    BeginRegular(r.store, s.p.m);
    OffsetIs(Stores.Begin(r.store), s.p.m, i);
  }

  lemma CountIsBlocks(p: Pkg)
    ensures p.m.blockCount == |BlocksIn(p)|
  {
  }

  /** From the request for a block its flash target has no room for, a receiver's network is never quiet. */
  lemma SmallTargetStalls(s: Session, r: Receiver, i: U16, pick: Scheduler, t: nat)
    requires Live(r) && Regular(r.store, s.p.m) && r.blockCount == s.p.m.blockCount && Low(r) == i < r.blockCount && i !in r.ready
    requires r.store.flash && i * s.p.m.blockSize + |BlocksIn(s.p)[i]| > s.p.m.outputLength
    ensures !Quiet(Run(s, Net(r, [], [Simple(s.env, REQUEST, i)], false), pick, t))
  {
    hide Shaped, BlocksOf, Regular, Run, TurnedAway;
    CountIsBlocks(s.p);
    RefusedForRoom(s, r, i);
    NeverQuiet(s, r, i, pick, t);
  }

  /** No waiting block is a forgery: what passes verification is the payload's own. */
  ghost predicate Unforged(s: Session, r: Receiver) {
    forall j <- r.ready | j < |BlocksIn(s.p)| && PassesFor(s, j, r.ready[j]) :: r.ready[j] == BlocksIn(s.p)[j]
  }

  predicate PassesFor(s: Session, j: nat, block: Data) {
    Verify(PairOf(s.env.h), s.env.h(block), j, s.p.m.blockCount, HonestProof(s.env.h, s.p, j), s.p.m.root)
  }

  lemma StillUnforged(s: Session, r: Receiver, r': Receiver, i: nat)
    requires Unforged(s, r) && Focused(s, r, r', i)
    ensures Unforged(s, r')
  {
    hide Shaped, BlocksOf, PassesFor, Has;
  }

  lemma StillNonEmpty(s: Session, l: Line, a: nat, k: nat)
    requires Moves(s, l, a).queue != [] && k <= a
    ensures Moves(s, l, k).queue != []
  {
    hide Shaped, Moves;
    MovesAdd(s, l, k, a - k);
    if Moves(s, l, k).queue == [] {
      AtRest(s, Moves(s, l, k), a - k);
    }
  }

  /** Over too small a target the last block is never stored, so that storing another does not complete the transfer. */
  lemma NeverComplete(s: Session, r: Receiver, i: U16, o: Out)
    requires Valid(s) && Ready(s, r) && Low(r) == i < r.blockCount && !Roomy(r.store, s.p.m) && HasRoom(s, r.store, i)
    requires Continues(s, o) && Focused(s, r, o.r, i)
    ensures !o.r.complete && !Roomy(o.r.store, s.p.m)
  {
    hide Shaped, BlocksOf, RespondTo, Asks, Marked, OnlyTrusts, HoldsPrefix, SlotHasRoom, GoodPackage;
    LowBelowCount(s, r, r);
    RoomyHasRoom(s, r.store, i);
    var last := |BlocksIn(s.p)| - 1;
    assert !Has(r.store, last) by {
      assert !Has(r.store, i) && i <= last;
    }
    assert !Has(o.r.store, last);
  }

  lemma {:induction false} NeverSettles(s: Session, l: Line, junk: seq<Frame>, o: Out, k: nat)
    requires Valid(s) && Resting(s, l, junk, o) && !o.r.complete && !Roomy(o.r.store, s.p.m) && Unforged(s, o.r)
    ensures Moves(s, l, k).queue != []
    decreases |BlocksIn(s.p)| - Low(o.r)
  {
    hide Shaped, GoodPackage, RespondTo, Moves, Sound, Train, Unforged, Clean, HasRoom, Stuck, BlocksOf;
    var i := Low(o.r);
    LowBelowCount(s, o.r, o.r);
    TrainHalves(s, i);
    var k1 := DropBatch(s, l, junk, RespondTo(s, o.sent));
    if k <= k1 {
      StillNonEmpty(s, l, k1, k);
    } else if HasRoom(s, o.r.store, i) {
      var k2, junk2, o2 := StoreLowest(s, o.r, i);
      var l2 := Moves(s, Line(o.r, Train(s, i)), k2);
      NeverComplete(s, o.r, i, o2);
      StillUnforged(s, o.r, o2.r, i);
      LowRises(s, o.r, o2.r);
      LowBelowCount(s, o2.r, o.r);
      MovesAdd(s, l, k1, k2);
      if k <= k1 + k2 {
        NeverSettles(s, l2, junk2, o2, 0);
        MovesNone(s, l2);
        StillNonEmpty(s, l, k1 + k2, k);
      } else {
        NeverSettles(s, l2, junk2, o2, k - k1 - k2);
        MovesAdd(s, l, k1 + k2, k - k1 - k2);
      }
    } else {
      NoRoomIsStuck(s, o.r, i);
      NeverRests(s, o.r, i, k - k1);
      MovesAdd(s, l, k1, k - k1);
    }
  }

  lemma MovesNone(s: Session, l: Line)
    ensures Moves(s, l, 0) == l
  {
  }

  lemma {:induction false} NotComplete(s: Session, o: Out, r: Receiver)
    requires Continues(s, o) && SameHoldings(r, o.r) && !AllStored(s.p, r.store)
    ensures !o.r.complete
  {
    hide Shaped, RespondTo, Regular, BlocksOf, Asks, OnlyTrusts, HoldsPrefix;
  }

  lemma NeverQuietIfSmall(s: Session, r: Receiver, n: Net, pick: Scheduler, t: nat)
    requires Valid(s) && Open(s, r) && Opening(s, r, n) && !Servable(s, r.store) && Unforged(s, r)
    ensures !Quiet(Run(s, n, pick, t))
  {
    hide Shaped, Moves, Run, Open, Opening, Continues, PassesFor, BlocksOf, RespondTo, Has;
    var k, o := OpeningContinues(s, r, n);
    NotComplete(s, o, r);
    var l := Line(o.r, RespondTo(s, o.sent));
    assert [] + RespondTo(s, o.sent) == RespondTo(s, o.sent);
    var j := RunIsMoves(s, n, pick, t);
    if j <= k {
      NeverSettles(s, l, [], o, 0);
      MovesNone(s, l);
      StillNonEmpty(s, LineOf(s, n), k, j);
    } else {
      NeverSettles(s, l, [], o, j - k);
      MovesAdd(s, LineOf(s, n), k, j - k);
    }
    NoReply(s);
  }

  /** Exactly when a lossless session comes to rest, under any scheduler: when the store has room for the whole payload, or
      everything already. The one exception would be a waiting block that passes verification without being the payload's,
      and that yields two inputs with the same hash. */
  lemma RestsExactly(s: Session, r: Receiver, n: Net, pick: Scheduler) returns (forged: Option<Verified>)
    requires Valid(s) && Open(s, r) && Opening(s, r, n)
    ensures match forged
            case None => (exists k: nat :: Quiet(Run(s, n, pick, k))) <==> Servable(s, r.store)
            case Some(v) => v.index in r.ready && v.block == r.ready[v.index] && v.index < |BlocksIn(s.p)|
                            && Twin(s.env.h, Forgery(s.env.h, BlocksIn(s.p), v.index, v.block, v.proof))
  {
    hide Shaped, Run, Open, Opening, Servable, BlocksOf, Forgery, Twin, Quiet, Unforged;
    forged := None;
    if Servable(s, r.store) {
      var k := LosslessDelivery(s, r, n, pick);
      assert Quiet(Run(s, n, pick, k));
    } else if Unforged(s, r) {
      forall k: nat ensures !Quiet(Run(s, n, pick, k)) {
        NeverQuietIfSmall(s, r, n, pick, k);
      }
    } else {
      var v := ForgedWaiting(s, r);
      forged := Some(v);
    }
  }

  lemma ForgedWaiting(s: Session, r: Receiver) returns (v: Verified)
    requires Valid(s) && !Unforged(s, r)
    ensures v.index in r.ready && v.block == r.ready[v.index] && v.index < |BlocksIn(s.p)|
    ensures Twin(s.env.h, Forgery(s.env.h, BlocksIn(s.p), v.index, v.block, v.proof))
  {
    hide BlocksOf, Forgery, Twin, Verify, HonestProof, RootOf;
    var j :| j in r.ready && j < |BlocksIn(s.p)| && PassesFor(s, j, r.ready[j]) && r.ready[j] != BlocksIn(s.p)[j];
    v := Verified(j, r.ready[j], HonestProof(s.env.h, s.p, j));
    AcceptedBlock(s.env.h, BlocksIn(s.p), j, r.ready[j], HonestProof(s.env.h, s.p, j));
  }

  // ---- a store that is never given the manifest ----

  /** The receive loop of an application that does not hand the manifest to its store. */
  function Hear(s: Session, l: Line): Line {
    if l.queue == [] then l else
      var o := OnFrame(s.env, l.r, l.queue[0]);
      Line(o.r, l.queue[1..] + RespondTo(s, o.sent))
  }

  function Hears(s: Session, l: Line, k: nat): Line
    decreases k
  {
    if k == 0 then l else Hears(s, Hear(s, l), k - 1)
  }

  /** A store with the same journal that has the manifest and still takes nothing. */
  function DeafStore(store: Store, m: Option<Manifest>): Store {
    store.(manifest := m, flash := true, began := true, next := 0x1_0000)
  }

  function Deaf(r: Receiver): Receiver {
    r.(store := DeafStore(r.store, r.manifest))
  }

  predicate Unprimed(r: Receiver) {
    r.manifest.Some? && r.store.manifest.None?
  }

  /** The step left the store and the manifest alone, and the deaf receiver makes the same step. */
  predicate Alike(r: Receiver, o: Out, deaf: Out) {
    o.r.store == r.store && o.r.manifest == r.manifest && deaf == o.(r := Deaf(o.r))
  }

  lemma DeafHas(store: Store, m: Option<Manifest>)
    ensures forall k: nat :: Has(DeafStore(store, m), k) <==> Has(store, k)
    ensures DeafStore(store, m).manifest == m
  {
  }

  lemma NextAlike(env: Env, r: Receiver)
    requires Unprimed(r)
    ensures Alike(r, RequestNext(env, r), RequestNext(env, Deaf(r)))
  {
    hide DeafStore;
    DeafHas(r.store, r.manifest);
    LowUnchanged(r.store, Deaf(r).store, 0, r.blockCount);
  }

  lemma FinishAlike(env: Env, r: Receiver, i: U16)
    requires Unprimed(r) && !Has(r.store, i)
    ensures Alike(r, TryFinish(env, r, i), TryFinish(env, Deaf(r), i))
  {
    hide Verify, RequestNext;
    NextAlike(env, r.(ready := r.ready - {i}, proofs := r.proofs - {i}));
  }

  lemma BlockAlike(env: Env, r: Receiver, f: Frame)
    requires Unprimed(r)
    ensures Alike(r, OnBlock(env, r, f), OnBlock(env, Deaf(r), f))
  {
    hide TryFinish, Take, DeafStore, Has;
    DeafHas(r.store, r.manifest);
    if !Has(r.store, f.index) {
      var fed := Take(if r.blockInFlight == f.index then r.blockRe else Partial(true, f.total, []), f);
      var taken := r.(blockInFlight := f.index, blockRe := fed.re);
      FinishAlike(env, taken.(ready := r.ready[f.index := fed.re.got], blockRe := fed.re.(active := false)), f.index);
    }
  }

  lemma ProofAlike(env: Env, r: Receiver, f: Frame)
    requires Unprimed(r)
    ensures Alike(r, OnProof(env, r, f), OnProof(env, Deaf(r), f))
  {
    hide TryFinish, Take, SplitHashes, DeafStore, Has;
    DeafHas(r.store, r.manifest);
    if !Has(r.store, f.index) {
      if f.total == 0 {
        FinishAlike(env, r.(proofs := r.proofs[f.index := []]), f.index);
      } else {
        var fed := Take(if r.proofInFlight == f.index then r.proofRe else Partial(true, f.total, []), f);
        if fed.done && |fed.re.got| % 32 == 0 {
          FinishAlike(env, r.(proofInFlight := f.index, proofRe := fed.re.(active := false),
                              proofs := r.proofs[f.index := SplitHashes(fed.re.got)]), f.index);
        }
      }
    }
  }

  /** Without the manifest a store behaves like the deaf one. */
  lemma HeardAlike(env: Env, r: Receiver, f: Frame)
    requires Unprimed(r)
    ensures Alike(r, OnFrame(env, r, f), OnFrame(env, Deaf(r), f)) && Recv(env, Deaf(r), f) == OnFrame(env, Deaf(r), f)
  {
    hide OnBlock, OnProof, DecodeStart, RequestNext, DeafStore;
    if f.kind == START && DecodeStart(f.body).Some? {
      var s := DecodeStart(f.body).value;
      NextAlike(env, r.(haveGeometry := true, blockSize := s.blockSize, blockCount := s.blockCount, payloadLength := s.payloadLength));
    }
    BlockAlike(env, r, f);
    ProofAlike(env, r, f);
    DeafIsPrimed(OnFrame(env, r, f).r);
  }

  lemma DeafIsPrimed(r: Receiver)
    ensures Prime(Deaf(r)) == Deaf(r)
  {
  }

  lemma {:induction false} HearsAlike(s: Session, l: Line, k: nat)
    requires Unprimed(l.r)
    ensures Hears(s, l, k).queue == Moves(s, Line(Deaf(l.r), l.queue), k).queue
    decreases k
  {
    hide Shaped, OnFrame, Recv, RespondTo;
    if k > 0 {
      if l.queue != [] {
        HeardAlike(s.env, l.r, l.queue[0]);
      }
      HearsAlike(s, Hear(s, l), k - 1);
    }
  }

  /** An application that never gives its store the manifest is served the lowest missing block for ever: each time the whole
      answer has been heard, the same answer is on its way again, and there is never nothing on its way. */
  lemma UnprimedNeverRests(s: Session, r: Receiver, i: U16, k: nat, rounds: nat)
    requires Unprimed(r) && !r.complete && !r.aborted && Low(r) == i < r.blockCount && i < |BlocksIn(s.p)|
    ensures Hears(s, Line(r, Train(s, i)), k).queue != []
    ensures rounds * |Train(s, i)| >= 0 && Hears(s, Line(r, Train(s, i)), rounds * |Train(s, i)|).queue == Train(s, i)
  {
    hide Shaped, BlocksOf, Hears, Moves, Train;
    DeafIsStuck(s, r, i);
    NeverRests(s, Deaf(r), i, k);
    var last := ServedAgain(s, Deaf(r), i, rounds);
    HearsAlike(s, Line(r, Train(s, i)), k);
    HearsAlike(s, Line(r, Train(s, i)), rounds * |Train(s, i)|);
  }

  lemma DeafIsStuck(s: Session, r: Receiver, i: U16)
    requires Unprimed(r) && !r.complete && !r.aborted && Low(r) == i < r.blockCount && i < |BlocksIn(s.p)|
    ensures Stuck(s, Deaf(r), i)
  {
    hide Shaped, BlocksOf, Passes;
    DeafHas(r.store, r.manifest);
    LowUnchanged(r.store, Deaf(r).store, 0, r.blockCount);
  }

  /** One delivery in a network whose application does not hand the manifest on. */
  function AdvanceUnprimed(s: Session, n: Net, receiverFirst: bool): Net {
    if ReceiverMoves(n, receiverFirst) then
      var o := OnFrame(s.env, n.r, n.toReceiver[0]);
      n.(r := o.r, toReceiver := n.toReceiver[1..], toSeeder := n.toSeeder + o.sent)
    else Advance(s, n, receiverFirst)
  }

  function RunUnprimed(s: Session, n: Net, pick: Scheduler, k: nat): Net
    decreases k
  {
    if k == 0 then n else AdvanceUnprimed(s, RunUnprimed(s, n, pick, k - 1), pick(k - 1))
  }

  lemma AdvanceAlike(s: Session, n: Net, receiverFirst: bool)
    requires Unprimed(n.r)
    ensures var a := AdvanceUnprimed(s, n, receiverFirst);
            Unprimed(a.r) && Advance(s, n.(r := Deaf(n.r)), receiverFirst) == a.(r := Deaf(a.r))
  {
    hide Shaped, OnFrame, Recv, Respond, Deaf;
    if ReceiverMoves(n, receiverFirst) {
      HeardAlike(s.env, n.r, n.toReceiver[0]);
    }
  }

  lemma {:induction false} RunAlike(s: Session, n: Net, pick: Scheduler, k: nat)
    requires Unprimed(n.r)
    ensures var a := RunUnprimed(s, n, pick, k); Unprimed(a.r) && Run(s, n.(r := Deaf(n.r)), pick, k) == a.(r := Deaf(a.r))
    decreases k
  {
    hide Shaped, Advance, AdvanceUnprimed, Deaf;
    if k > 0 {
      RunAlike(s, n, pick, k - 1);
      AdvanceAlike(s, RunUnprimed(s, n, pick, k - 1), pick(k - 1));
    }
  }

  /** After a poll such a network comes to rest, under any scheduler, exactly when no block is missing. */
  lemma UnprimedRestsExactly(s: Session, r: Receiver, n: Net, pick: Scheduler)
    requires Unprimed(r) && !r.complete && !r.aborted && r.blockCount <= |BlocksIn(s.p)|
    requires n == Net(Poll(s.env, r).r, [], Poll(s.env, r).sent, false)
    ensures (exists k: nat :: Quiet(RunUnprimed(s, n, pick, k))) <==> Low(r) == r.blockCount
  {
    hide Shaped, BlocksOf, RunUnprimed, Run, AdvanceUnprimed;
    if Low(r) == r.blockCount {
      QuietAfterDone(s, n, pick);
      assert Quiet(RunUnprimed(s, n, pick, 1));
    } else {
      var i: U16 := Low(r);
      DeafIsStuck(s, r, i);
      forall k: nat ensures !Quiet(RunUnprimed(s, n, pick, k)) {
        RunAlike(s, n, pick, k);
        NeverQuiet(s, Deaf(r), i, pick, k);
      }
    }
  }

  lemma QuietAfterDone(s: Session, n: Net, pick: Scheduler)
    requires n.toReceiver == [] && n.toSeeder == [Simple(s.env, DONE, 0)]
    ensures Quiet(RunUnprimed(s, n, pick, 1))
  {
    hide Shaped, ProofFrames, BlockFrames, Fragments;
    assert RunUnprimed(s, n, pick, 0) == n;
  }
}
