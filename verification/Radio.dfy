/** Runs over a bad radio: frames are lost, repeated, reordered and damaged, and the receiver may reboot. */
module Radio {
  import opened Wire
  import opened Merkle
  import opened Blocks
  import opened Package
  import opened Frames
  import opened Stores
  import opened Protocol
  import opened Safety

  /** Everything ever sent in either direction stays available for delivery: a frame may be delivered never,
      once or often, in any order. `forgedEnd` records that the seeder was told to stop by a frame the receiver never
      sent, `verified` the blocks that passed verification. */
  datatype World = World(r: Receiver, fromSeeder: set<Frame>, fromReceiver: set<Frame>, done: bool, forgedEnd: bool,
                         rebooted: bool, verified: seq<Verified>)

  datatype Event = Begin | Poll | Prime | Reboot | ReceiverGets(f: Frame) | SeederGets(f: Frame)

  /** The receiver gets what the seeder sent, or a frame damaged or made up within the bounds of `Deliverable`;
      the seeder may get anything. */
  ghost predicate Enabled(env: Env, p: Pkg, w: World, e: Event) {
    match e
    case ReceiverGets(f) => f in w.fromSeeder || Deliverable(env, p, w.r, f)
    case _ => true
  }

  function SetOf(frames: seq<Frame>): set<Frame> {
    set f | f in frames
  }

  function After(w: World, o: Out): World {
    w.(r := o.r, fromReceiver := w.fromReceiver + SetOf(o.sent), verified := w.verified + o.verified)
  }

  function Apply(env: Env, p: Pkg, frag: Positive, w: World, e: Event): World {
    match e
    case Begin => w.(fromSeeder := w.fromSeeder + {StartFrame(env, p)})
    case Poll => After(w, Protocol.Poll(env, w.r))
    case Prime => w.(r := Protocol.Prime(w.r))
    case Reboot => w.(r := Fresh(w.r.store), rebooted := true)
    case ReceiverGets(f) => After(w, OnFrame(env, w.r, f))
    case SeederGets(f) =>
      w.(fromSeeder := w.fromSeeder + SetOf(Respond(env, p, frag, f)), done := w.done || Finishes(env, f),
         forgedEnd := w.forgedEnd || (Finishes(env, f) && f !in w.fromReceiver))
  }

  function Play(env: Env, p: Pkg, frag: Positive, w: World, events: seq<Event>): World
    decreases |events|
  {
    if events == [] then w else
      var k := |events| - 1;
      Apply(env, p, frag, Play(env, p, frag, w, events[..k]), events[k])
  }

  ghost predicate Possible(env: Env, p: Pkg, frag: Positive, w: World, events: seq<Event>)
    decreases |events|
  {
    if events == [] then true else
      var k := |events| - 1;
      Possible(env, p, frag, w, events[..k]) && Enabled(env, p, Play(env, p, frag, w, events[..k]), events[k])
  }

  /** Before anything happened: a new receiver over an empty or surviving store, nothing on the air. */
  function Initial(store: Store): World {
    World(Fresh(store), {}, {}, false, false, false, [])
  }

  ghost predicate HonestSoFar(env: Env, p: Pkg, w: World) {
    forall v <- w.verified :: Honest(env, p, v)
  }

  /** The global invariant of a run. */
  ghost predicate Holds(env: Env, p: Pkg, w: World) {
    && Sound(env, p, w.r)
    && (forall f <- w.fromSeeder :: Genuine(env, p, f))
    && (forall f <- w.fromReceiver :: f.kind in {REQUEST, ACK, DONE})
    && ((w.done && !w.forgedEnd) || (exists f <- w.fromReceiver :: f.kind == DONE) ==>
          AllStored(p, w.r.store) && (w.rebooted || w.r.complete))
    && (forall v <- w.verified :: Backed(env, p, v))
    && (HonestSoFar(env, p, w) ==> Kept(p, w.r.store))
  }

  lemma StepHolds(env: Env, p: Pkg, w: World, o: Out)
    requires GoodPackage(env.h, p) && Holds(env, p, w) && StepKeeps(env, p, w.r, o)
    ensures Holds(env, p, After(w, o))
  {
    hide BlocksOf, RootOf, Regular, Faithful, Backed, Honest, Genuine, Informed;
    var a := After(w, o);
    assert HonestSoFar(env, p, a) ==> HonestSoFar(env, p, w) && (forall v <- o.verified :: Honest(env, p, v)) by {
      assert forall v <- w.verified :: v in a.verified;
      assert forall v <- o.verified :: v in a.verified;
    }
  }

  lemma RespondGenuine(env: Env, p: Pkg, frag: Positive, f: Frame)
    requires GoodPackage(env.h, p)
    ensures forall g <- Respond(env, p, frag, f) :: Genuine(env, p, g)
  {
    hide BlocksOf, RootOf, Fragments, ProofUnit;
    if f.session == env.session && f.kind == REQUEST {
      if f.index == INDEX_MANIFEST {
        FragmentsArePieces(MANIFEST, env.session, INDEX_MANIFEST, ManifestUnit(p), 0, frag);
      } else {
        FragmentsArePieces(PROOF, env.session, f.index, ProofUnit(env.h, p, f.index), 0, frag);
        if f.index < |BlocksIn(p)| {
          BlockFits(env.h, p, f.index);
          FragmentsArePieces(BLOCK, env.session, f.index, BlocksIn(p)[f.index], 0, frag);
        }
      }
    }
  }

  lemma ApplyHolds(env: Env, p: Pkg, frag: Positive, w: World, e: Event)
    requires GoodPackage(env.h, p) && Holds(env, p, w) && Enabled(env, p, w, e)
    ensures Holds(env, p, Apply(env, p, frag, w, e))
  {
    hide BlocksOf, RootOf, Regular, Faithful, StepKeeps, Respond, OnFrame, Protocol.Poll, Backed, Informed;
    match e
    case Begin =>
    case Poll =>
      PollKeeps(env, p, w.r);
      StepHolds(env, p, w, Protocol.Poll(env, w.r));
    case Prime => PrimeHolds(env, p, w);
    case Reboot => RebootHolds(env, p, w);
    case ReceiverGets(f) =>
      if f in w.fromSeeder {
        GenuineIsDeliverable(env, p, w.r, f);
      }
      FrameKeeps(env, p, w.r, f);
      StepHolds(env, p, w, OnFrame(env, w.r, f));
    case SeederGets(f) => RespondGenuine(env, p, frag, f);
  }

  lemma PrimeHolds(env: Env, p: Pkg, w: World)
    requires GoodPackage(env.h, p) && Holds(env, p, w)
    ensures Holds(env, p, w.(r := Protocol.Prime(w.r)))
  {
    hide BlocksOf, RootOf, Regular, Faithful, Backed, Honest, Genuine, Informed;
    PrimeKeeps(env, p, w.r);
  }

  lemma RebootHolds(env: Env, p: Pkg, w: World)
    requires GoodPackage(env.h, p) && Holds(env, p, w)
    ensures Holds(env, p, w.(r := Fresh(w.r.store), rebooted := true))
  {
    hide BlocksOf, RootOf, Regular, Faithful, Backed, Honest, Genuine, Informed;
    FreshSound(env, p, w.r.store);
  }

  /** The invariant holds in every reachable state. */
  lemma RunHolds(env: Env, p: Pkg, frag: Positive, store: Store, events: seq<Event>)
    requires GoodPackage(env.h, p) && Regular(store, p.m) && Kept(p, store)
    requires Possible(env, p, frag, Initial(store), events)
    ensures Holds(env, p, Play(env, p, frag, Initial(store), events))
  {
    hide Shaped, BlocksOf, Regular, Faithful, Holds, Apply, GoodPackage, Play, Possible;
    InitialHolds(env, p, store);
    KindKept(env, p, frag, Initial(store), events);
  }

  lemma InitialHolds(env: Env, p: Pkg, store: Store)
    requires GoodPackage(env.h, p) && Regular(store, p.m) && Kept(p, store)
    ensures Holds(env, p, Initial(store))
  {
    hide BlocksOf, RootOf, Regular, Faithful;
    FreshSound(env, p, store);
  }

  /** Unless a forged frame stops it, the seeder stops only when every block is stored; without a reboot the receiver then knows it is complete. */
  lemma DoneMeansComplete(env: Env, p: Pkg, frag: Positive, store: Store, events: seq<Event>)
    requires GoodPackage(env.h, p) && Regular(store, p.m) && Kept(p, store)
    requires Possible(env, p, frag, Initial(store), events)
    ensures var w := Play(env, p, frag, Initial(store), events);
            && ((w.done && !w.forgedEnd) || w.r.complete ==> AllStored(p, w.r.store))
            && (w.done && !w.forgedEnd && !w.rebooted ==> w.r.complete)
  {
    hide BlocksOf, RootOf, Regular, Faithful, GoodPackage, Play, Possible;
    RunHolds(env, p, frag, store, events);
  }

  /** End to end: in every run, every block in the store is the payload's own, and a complete store is the payload;
      or among the blocks verified in the run there is one from which two inputs with the same hash are computed. */
  lemma StoredBlocksAreGenuine(env: Env, p: Pkg, frag: Positive, store: Store, events: seq<Event>) returns (forged: Option<Verified>)
    requires GoodPackage(env.h, p) && Regular(store, p.m) && Kept(p, store)
    requires Possible(env, p, frag, Initial(store), events)
    ensures var w := Play(env, p, frag, Initial(store), events);
            match forged
            case None => Kept(p, w.r.store) && (w.r.complete ==> |p.payload| <= |w.r.store.image| && w.r.store.image[..|p.payload|] == p.payload)
            case Some(v) => v in w.verified && v.index < |BlocksIn(p)| && Twin(env.h, Forgery(env.h, BlocksIn(p), v.index, v.block, v.proof))
  {
    hide BlocksOf, RootOf, Regular, Faithful, Play, Possible, Forgery;
    RunHolds(env, p, frag, store, events);
    var w := Play(env, p, frag, Initial(store), events);
    forged := ForgedIn(env, p, w);
    if forged.None? && w.r.complete {
      CompleteIsPayload(env, p, w.r);
    }
  }

  /** A verified block that is not the payload's own, if there was one. */
  lemma ForgedIn(env: Env, p: Pkg, w: World) returns (forged: Option<Verified>)
    requires Holds(env, p, w)
    ensures match forged
            case None => HonestSoFar(env, p, w)
            case Some(v) => v in w.verified && v.index < |BlocksIn(p)| && Twin(env.h, Forgery(env.h, BlocksIn(p), v.index, v.block, v.proof))
  {
    hide BlocksOf, RootOf, Sound, Kept, Forgery;
    if HonestSoFar(env, p, w) {
      forged := None;
    } else {
      var v :| v in w.verified && !Honest(env, p, v);
      AcceptedBlock(env.h, BlocksIn(p), v.index, v.block, v.proof);
      forged := Some(v);
    }
  }

  lemma CompleteIsPayload(env: Env, p: Pkg, r: Receiver)
    requires GoodPackage(env.h, p) && Sound(env, p, r) && r.complete && Kept(p, r.store)
    ensures |p.payload| <= |r.store.image| && r.store.image[..|p.payload|] == p.payload
  {
    hide BlocksOf, RootOf, Regular, Faithful;
    FullStoreHoldsPayload(r.store, p.payload, p.m.blockSize);
  }

  // ---- runs that end with a full store ----

  /** What one frame does to the store is the put of the block it verified, if any. */
  lemma FrameStore(env: Env, r: Receiver, f: Frame)
    ensures var o := OnFrame(env, r, f);
            |o.verified| <= 1 && o.r.store == if o.verified == [] then r.store else Put(r.store, o.verified[0].index, o.verified[0].block).s
  {
    hide Put, Take, Verify, SplitHashes, DecodeStart, UnpackManifest, Trusted;
  }

  /** Beyond the payload nothing has changed. */
  ghost predicate SameEnd(p: Pkg, s: Store, s': Store) {
    && s'.flash == s.flash && EndOf(s', p.m) == EndOf(s, p.m)
    && (p.m.blockCount == 0 ==> s'.began == s.began)
  }

  lemma VerifiedKeepsEnd(env: Env, p: Pkg, s: Store, v: Verified)
    requires Regular(s, p.m) && Backed(env, p, v) && Honest(env, p, v)
    ensures SameEnd(p, s, Put(s, v.index, v.block).s)
  {
    hide BlocksOf, Regular, RootOf, Verify, Put, EndOf;
    PutKeepsEnd(s, p.m, p.payload, v.index);
    PutRegular(s, p.m, v.index, v.block);
  }

  lemma EventKeepsEnd(env: Env, p: Pkg, frag: Positive, w: World, e: Event)
    requires GoodPackage(env.h, p) && Holds(env, p, w) && Enabled(env, p, w, e)
    requires HonestSoFar(env, p, Apply(env, p, frag, w, e))
    ensures HonestSoFar(env, p, w) && SameEnd(p, w.r.store, Apply(env, p, frag, w, e).r.store)
  {
    hide Shaped, BlocksOf, Respond, OnFrame, Informed, Regular, Honest, Kept, Emits, GoodPackage, RequestNext, Put, Backed;
    var after := Apply(env, p, frag, w, e);
    assert forall v <- w.verified :: v in after.verified;
    match e
    case ReceiverGets(f) =>
      FrameStore(env, w.r, f);
      if f in w.fromSeeder {
        GenuineIsDeliverable(env, p, w.r, f);
      }
      FrameKeeps(env, p, w.r, f);
      var verified := OnFrame(env, w.r, f).verified;
      if verified != [] {
        assert verified[0] in after.verified && verified[0] in verified;
        VerifiedKeepsEnd(env, p, w.r.store, verified[0]);
      }
    case Poll => PollStore(env, w.r);
    case _ =>
  }

  lemma PollStore(env: Env, r: Receiver)
    ensures Protocol.Poll(env, r).r.store == r.store && Protocol.Poll(env, r).verified == []
  {
  }

  lemma {:induction false} RunKeepsEnd(env: Env, p: Pkg, frag: Positive, w: World, events: seq<Event>)
    requires GoodPackage(env.h, p) && Holds(env, p, w) && Possible(env, p, frag, w, events)
    requires HonestSoFar(env, p, Play(env, p, frag, w, events))
    ensures SameEnd(p, w.r.store, Play(env, p, frag, w, events).r.store)
    decreases |events|
  {
    hide Shaped, BlocksOf, Holds, Apply, GoodPackage, HonestSoFar, EndOf;
    if events != [] {
      var k := |events| - 1;
      KindKept(env, p, frag, w, events[..k]);
      EventKeepsEnd(env, p, frag, Play(env, p, frag, w, events[..k]), events[k]);
      RunKeepsEnd(env, p, frag, w, events[..k]);
    }
  }

  /** Resuming loses nothing: two runs over one package that both end complete, one of them cut by any number of reboots at
      any points, leave the same bytes and the same journal in their stores, to the end of the flash target; or a block verified
      in one of them yields two inputs with the same hash. */
  lemma ResumedRunsEndAlike(env: Env, p: Pkg, frag: Positive, store: Store, smooth: seq<Event>, cut: seq<Event>)
    returns (forged: Option<Verified>)
    requires GoodPackage(env.h, p) && Regular(store, p.m) && Kept(p, store)
    requires Possible(env, p, frag, Initial(store), smooth) && Possible(env, p, frag, Initial(store), cut)
    requires Play(env, p, frag, Initial(store), smooth).r.complete && Play(env, p, frag, Initial(store), cut).r.complete
    ensures var a, b := Play(env, p, frag, Initial(store), smooth), Play(env, p, frag, Initial(store), cut);
            match forged
            case None => a.r.store.image == b.r.store.image && a.r.store.have == b.r.store.have && a.r.store.count == b.r.store.count
                         && |p.payload| <= |a.r.store.image| && a.r.store.image[..|p.payload|] == p.payload
            case Some(v) => (v in a.verified || v in b.verified) && v.index < |BlocksIn(p)|
                            && Twin(env.h, Forgery(env.h, BlocksIn(p), v.index, v.block, v.proof))
  {
    hide Shaped, BlocksOf, Regular, Faithful, Play, Possible, GoodPackage, Informed, Forgery, Twin, EndOf, HonestSoFar;
    InitialHolds(env, p, store);
    KindKept(env, p, frag, Initial(store), smooth);
    KindKept(env, p, frag, Initial(store), cut);
    var a, b := Play(env, p, frag, Initial(store), smooth), Play(env, p, frag, Initial(store), cut);
    forged := ForgedIn(env, p, a);
    if forged.None? {
      forged := ForgedIn(env, p, b);
    }
    if forged.None? {
      ShapedGeometry(p);
      RunKeepsEnd(env, p, frag, Initial(store), smooth);
      RunKeepsEnd(env, p, frag, Initial(store), cut);
      FullStoresEqual(a.r.store, b.r.store, p.m, p.payload);
    }
  }

  lemma ShapedGeometry(p: Pkg)
    ensures Geometry(p.m, p.payload)
  {
  }

  lemma {:induction false} KindKept(env: Env, p: Pkg, frag: Positive, w: World, events: seq<Event>)
    requires GoodPackage(env.h, p) && Holds(env, p, w) && Possible(env, p, frag, w, events)
    ensures Play(env, p, frag, w, events).r.store.flash == w.r.store.flash
    ensures Holds(env, p, Play(env, p, frag, w, events))
    decreases |events|
  {
    hide Shaped, BlocksOf, Holds, Apply, GoodPackage;
    if events != [] {
      var k := |events| - 1;
      KindKept(env, p, frag, w, events[..k]);
      var before := Play(env, p, frag, w, events[..k]);
      ApplyHolds(env, p, frag, before, events[k]);
      KindKeptByOne(env, p, frag, before, events[k]);
    }
  }

  lemma KindKeptByOne(env: Env, p: Pkg, frag: Positive, w: World, e: Event)
    requires GoodPackage(env.h, p) && Holds(env, p, w) && Enabled(env, p, w, e)
    ensures Apply(env, p, frag, w, e).r.store.flash == w.r.store.flash
  {
    hide Shaped, BlocksOf, Respond, OnFrame, Protocol.Poll, Sound, Backed, Honest, Kept, Emits, GoodPackage;
    match e
    case Poll => PollKeeps(env, p, w.r);
    case ReceiverGets(f) =>
      if f in w.fromSeeder {
        GenuineIsDeliverable(env, p, w.r, f);
      }
      FrameKeeps(env, p, w.r, f);
    case _ =>
  }
}
