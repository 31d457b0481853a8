/** The objects of both sides wired together: from an image to the same image in the other device's store. */
module EndToEnd {
  import opened Wire
  import opened Merkle
  import opened Blocks
  import opened Package
  import opened Frames
  import opened Stores
  import opened Protocol
  import opened Safety
  import opened Delivery
  import opened Convergence
  import opened Completion
  import opened Receivers
  import opened Seeders
  import Sha256

  // ---- the pump ----

  /** The network the two objects form when the first i and j frames of their outboxes have been delivered. */
  ghost function NetOf(seeder: OtaSeeder, receiver: OtaReceiver, i: nat, j: nat): Net
    requires seeder.Valid() && receiver.Valid() && i <= |seeder.sent| && j <= |receiver.sent|
    reads seeder, receiver, receiver.Repr()
  {
    Net(receiver.State(), seeder.sent[i..], receiver.sent[j..], seeder.done)
  }

  ghost predicate Wired(s: Session, seeder: OtaSeeder, receiver: OtaReceiver)
    reads seeder, receiver, receiver.Repr()
  {
    && seeder.Valid() && receiver.Valid() && seeder !in receiver.Repr()
    && seeder.valid && seeder.Offer() == s.p && seeder.frag == s.frag
    && seeder.env == receiver.env == s.env
  }

  method ToReceiver(ghost s: Session, seeder: OtaSeeder, receiver: OtaReceiver, i: nat, ghost j: nat)
    requires Wired(s, seeder, receiver) && i < |seeder.outbox| && j <= |receiver.sent|
    modifies receiver.Repr()
    ensures Wired(s, seeder, receiver) && j <= |receiver.sent| && seeder.sent == old(seeder.sent)
    ensures NetOf(seeder, receiver, i + 1, j) == Advance(s, old(NetOf(seeder, receiver, i, j)), true)
  {
    hide Shaped, Protocol.OnFrame, Decode, Encode, EncodeAll, Loadable, SeedLeaves, PackManifest, NarrowSize, NarrowCount;
    FrameRoundTrip(seeder.sent[i]);
    receiver.OnFrame(seeder.outbox[i]);
    receiver.PrimeStore();
    assert seeder.sent[i..][1..] == seeder.sent[i + 1..];
  }

  method ToSeeder(ghost s: Session, seeder: OtaSeeder, receiver: OtaReceiver, ghost i: nat, j: nat)
    requires Wired(s, seeder, receiver) && i <= |seeder.sent| && j < |receiver.outbox|
    modifies seeder`outbox, seeder`sent, seeder`done
    ensures Wired(s, seeder, receiver) && i <= |seeder.sent| && receiver.sent == old(receiver.sent)
    ensures NetOf(seeder, receiver, i, j + 1) == Advance(s, old(NetOf(seeder, receiver, i, j)), false)
  {
    hide Shaped, Respond, Decode, Encode, Finishes, EncodeAll, PackManifest, Geometry, Loadable, SeedLeaves, NarrowSize, NarrowCount, Answer, Answerable;
    FrameRoundTrip(receiver.sent[j]);
    ShapedAnswer(s.env, s.p, s.frag, receiver.sent[j]);
    seeder.OnFrame(receiver.outbox[j]);
    assert receiver.sent[j..][1..] == receiver.sent[j + 1..];
  }

  /** What is still ahead: the line of the network comes to rest at `last` in `left` deliveries. */
  ghost predicate Heading(s: Session, n: Net, left: nat, last: Line) {
    Moves(s, LineOf(s, n), left) == last && last.queue == [] && Announced(s, n)
  }

  lemma HeadingAfterDelivery(s: Session, n: Net, left: nat, last: Line) returns (left': nat)
    requires Heading(s, n, left, last) && n.toReceiver != []
    ensures left' < left && Heading(s, Advance(s, n, true), left', last)
  {
    hide Shaped, Move, Advance, Announced, RespondTo;
    DeliveryMoves(s, n, true);
    AdvanceAnnounces(s, n, true);
    assert LineOf(s, n).queue != [];
    left' := left - 1;
  }

  lemma HeadingAfterReply(s: Session, n: Net, left: nat, last: Line)
    requires Heading(s, n, left, last) && n.toSeeder != []
    ensures Heading(s, Advance(s, n, false), left, last)
  {
    hide Shaped, Moves, Advance, Announced, RespondTo;
    ReplyKeepsLine(s, n, false);
    AdvanceAnnounces(s, n, false);
  }

  lemma HeadingHome(s: Session, n: Net, left: nat, last: Line)
    requires Heading(s, n, left, last) && Quiet(n)
    ensures n.r == last.r && Announced(s, n)
  {
    hide Shaped, Moves, Announced;
    NoReply(s);
    AtRest(s, LineOf(s, n), left);
  }

  /** The store's image starts with the payload and has the size the manifest gave it. */
  predicate Received(p: Pkg, store: Store) {
    && |p.payload| <= |store.image| && store.image[..|p.payload|] == p.payload
    && (p.payload != [] ==> |store.image| == if store.flash then p.m.outputLength else |p.payload|)
  }

  lemma CompleteIsReceived(s: Session, r: Receiver)
    requires Sound(s.env, s.p, r) && r.complete && Clean(s, r)
    ensures Received(s.p, r.store)
  {
    hide Marked, Faithful, BlocksOf;
    CompleteHoldsPayload(s, r);
    if s.p.payload != [] {
      BlockCount(s.p.payload, s.p.m.blockSize);
      assert s.p.m.blockCount > 0;
      assert Has(r.store, 0);
    }
  }

  /** Deliver frames in both directions until nothing is in flight. */
  method Pump(ghost s: Session, seeder: OtaSeeder, receiver: OtaReceiver)
    requires Wired(s, seeder, receiver) && Valid(s) && Open(s, receiver.State()) && Servable(s, receiver.State().store)
    requires seeder.sent == [StartFrame(s.env, s.p)] && receiver.sent == [] && !seeder.done
    modifies seeder`outbox, seeder`sent, seeder`done, receiver.Repr()
    ensures Wired(s, seeder, receiver) && receiver.complete && seeder.done && AllStored(s.p, receiver.store.View())
    ensures old(Clean(s, receiver.State())) ==> Received(s.p, receiver.store.View())
  {
    hide Shaped, GoodPackage, Sound, Clean, Received, Heading, Moves, RespondTo, StartFrame, Trusted, Advance, EncodeAll, Servable, Finished, Open, LineOf, Loadable, SeedLeaves,
         PackManifest, NarrowSize, NarrowCount;
    ghost var start := NetOf(seeder, receiver, 0, 0);
    ghost var left := PumpStarts(s, receiver.State(), start);
    ghost var last := Moves(s, LineOf(s, start), left);
    var i, j := 0, 0;
    while i < |seeder.outbox| || j < |receiver.outbox|
      invariant Wired(s, seeder, receiver) && 0 <= i <= |seeder.sent| && 0 <= j <= |receiver.sent|
      invariant Heading(s, NetOf(seeder, receiver, i, j), left, last)
      decreases left, |receiver.sent| - j
    {
      SameLengths(seeder, receiver);
      if i < |seeder.outbox| {
        left := HeadingAfterDelivery(s, NetOf(seeder, receiver, i, j), left, last);
        ToReceiver(s, seeder, receiver, i, j);
        i := i + 1;
      }
      SameLengths(seeder, receiver);
      if j < |receiver.outbox| {
        HeadingAfterReply(s, NetOf(seeder, receiver, i, j), left, last);
        ToSeeder(s, seeder, receiver, i, j);
        j := j + 1;
      }
    }
    SameLengths(seeder, receiver);
    PumpEnds(s, NetOf(seeder, receiver, i, j), left, last);
    if old(Clean(s, receiver.State())) {
      CompleteIsReceived(s, receiver.State());
    }
  }

  lemma SameLengths(seeder: OtaSeeder, receiver: OtaReceiver)
    requires seeder.Valid() && receiver.Valid()
    ensures |seeder.outbox| == |seeder.sent| && |receiver.outbox| == |receiver.sent|
  {
    hide Shaped;
  }

  lemma PumpStarts(s: Session, r: Receiver, n: Net) returns (left: nat)
    requires Valid(s) && Open(s, r) && Servable(s, r.store) && n == Net(r, [StartFrame(s.env, s.p)], [], false)
    ensures var l := Moves(s, LineOf(s, n), left);
            Heading(s, n, left, l) && Finished(s, l) && (Clean(s, r) ==> Clean(s, l.r))
  {
    hide Shaped, GoodPackage, Open, Moves, RespondTo, StartFrame, Clean, Sound, Announced, Servable;
    left := OpeningSettles(s, r, n);
    OpeningAnnounced(s, r, n);
  }

  lemma PumpEnds(s: Session, n: Net, left: nat, last: Line)
    requires Heading(s, n, left, last) && Quiet(n) && Finished(s, last)
    ensures n.r == last.r && n.r.complete && n.done && AllStored(s.p, n.r.store) && Sound(s.env, s.p, n.r)
  {
    hide Shaped, Moves, Informed, Regular, RespondTo;
    HeadingHome(s, n, left, last);
  }

  // ---- from an image to the store of the other device ----

  /** A built and signed package, as the seeder reads it. */
  ghost predicate Offers(buf: Data, p: Pkg) {
    Package.Accepted(buf) && Contents(buf) == p
  }

  /** What the packager builds and an operator signs is a good package for the transport. */
  lemma BuiltIsGood(h: HashFn, id: Identity, payload: Data, output: Data, delta: bool, bs: U16, signature: Data) returns (p: Pkg)
    requires Packable(payload, output, bs) && |BlocksOf(payload, bs)| <= 0xFFFF && |signature| == SIGNATURE_SIZE
    ensures p == Parts(ManifestFor(h, id, payload, output, delta, bs), signature, payload) && GoodPackage(h, p)
    ensures Offers(AttachSignature(Unsigned(h, id, payload, output, delta, bs), signature).value, p)
  {
    hide BlocksOf, RootOf, UnpackManifest, PackManifest, UnpackHeader, PackHeader, Fixed, Unsigned, AttachSignature;
    var buf := Unsigned(h, id, payload, output, delta, bs);
    BuildThenParse(h, id, payload, output, delta, bs);
    SigningTouchesOnlySignature(buf, signature);
    p := Parts(ManifestFor(h, id, payload, output, delta, bs), signature, payload);
  }

  /** A new receiver over an empty store can open a session with any trusted good package. */
  lemma NewReceiverOpens(s: Session, flash: bool)
    requires Valid(s) && Trusted(s.env, PackManifest(s.p.m), s.p.signature)
    requires flash ==> s.p.m.payloadLength <= s.p.m.outputLength
    ensures Open(s, Fresh(EmptyStore(flash))) && Clean(s, Fresh(EmptyStore(flash))) && Servable(s, EmptyStore(flash))
  {
    hide GoodPackage, BlocksOf, PackManifest, Trusted, Slot;
    MarkedAbsent([]);
    FreshSound(s.env, s.p, EmptyStore(flash));
  }

  method BuildSigned(h: HashFn, id: Identity, payload: Data, output: Data, delta: bool, bs: U16, signature: Data)
    returns (package: Data, ghost p: Pkg)
    requires Packable(payload, output, bs) && |BlocksOf(payload, bs)| <= 0xFFFF && |signature| == SIGNATURE_SIZE
    ensures p == Parts(ManifestFor(h, id, payload, output, delta, bs), signature, payload)
    ensures GoodPackage(h, p) && Offers(package, p)
  {
    hide BlocksOf, GoodPackage, PackManifest, UnpackManifest, ManifestFor, Unsigned, Offers;
    var built := Build(h, id, payload, output, delta, bs);
    p := BuiltIsGood(h, id, payload, output, delta, bs, signature);
    package := AttachSignature(built.value, signature).value;
  }

  method OpenSeeder(env: Env, package: Data, ghost p: Pkg, fragmentSize: nat) returns (seeder: OtaSeeder)
    requires Offers(package, p) && GoodPackage(env.h, p)
    ensures fresh(seeder) && seeder.Valid() && seeder.valid && seeder.Offer() == p && seeder.env == env && !seeder.done
    ensures seeder.sent == [StartFrame(env, p)]
  {
    hide BlocksOf, GoodPackage, PackManifest, UnpackManifest, EncodeAll, StartFrame, Announcement;
    ShapedIsLoadable(p);
    ShapedAnswer(env, p, 1, Simple(env, DONE, 0));
    seeder := new OtaSeeder(env, package, fragmentSize);
    seeder.Begin();
  }

  /** One session over a package: the store of a new receiver ends up holding the payload. */
  method Serve(env: Env, package: Data, ghost p: Pkg, fragmentSize: nat, store: BlockStore)
    requires Offers(package, p) && GoodPackage(env.h, p) && Trusted(env, PackManifest(p.m), p.signature)
    requires store.Valid() && store.View() == EmptyStore(store.Streamed?)
    requires store.Streamed? ==> |p.payload| <= p.m.outputLength
    modifies store.Repr()
    ensures Received(p, store.View())
  {
    hide BlocksOf, GoodPackage, PackManifest, UnpackManifest, Trusted, Clean, Sound, EncodeAll, Respond, StartFrame, Received, Open, Geometry;
    assert p.m.payloadLength == |p.payload| by { GeometryLength(p); }
    var seeder := OpenSeeder(env, package, p, fragmentSize);
    var receiver := new OtaReceiver(env, store);
    ghost var s := Session(env, p, seeder.frag);
    NewReceiverOpens(s, store.Streamed?);
    Pump(s, seeder, receiver);
  }

  lemma GeometryLength(p: Pkg)
    ensures p.m.payloadLength == |p.payload|
  {
  }

  /** Build, sign, seed and receive: whatever the payload, block size and fragment size, the store ends up holding the payload. */
  method Transfer(env: Env, id: Identity, payload: Data, output: Data, delta: bool, bs: U16, signature: Data,
                  fragmentSize: nat, store: BlockStore)
    requires Packable(payload, output, bs) && |BlocksOf(payload, bs)| <= 0xFFFF && |signature| == SIGNATURE_SIZE
    requires store.Valid() && store.View() == EmptyStore(store.Streamed?)
    requires store.Streamed? ==> |payload| <= |output|
    requires Trusted(env, PackManifest(ManifestFor(env.h, id, payload, output, delta, bs)), signature)
    modifies store.Repr()
    ensures var image := store.View().image;
            && |payload| <= |image| && image[..|payload|] == payload
            && (payload != [] ==> |image| == if store.Streamed? then |output| else |payload|)
  {
    hide BlocksOf, GoodPackage, PackManifest, Trusted, Offers, Shaped;
    var package, p := BuildSigned(env.h, id, payload, output, delta, bs, signature);
    Serve(env, package, p, fragmentSize, store);
  }

  // ---- down to the compression function ----

  function Sha(c: Sha256.Compress): HashFn {
    (d: Data) => Sha256.Digest(c, d)
  }

  /** With SHA-256 as the hash, an accepted block that is not the payload's own breaks the compression function:
      two different inputs to it with one output are found by comparing the two padded messages. */
  lemma ForgeryBreaksCompression(c: Sha256.Compress, blocks: seq<Data>, i: nat, block: Unit, proof: seq<Hash>)
    requires i < |blocks| && |blocks[i]| <= 0xFFFF && block != blocks[i]
    requires Verify(PairOf(Sha(c)), Sha(c)(block), i, |blocks|, proof, RootOf(Sha(c), blocks))
    ensures var t := Forgery(Sha(c), blocks, i, block, proof);
            var x := Sha256.LastDifference(c, Sha256.Padded(t.x), Sha256.Padded(t.y));
            x.Some? && Sha256.BlocksCollide(c, x.value)
  {
    hide Sha256.Digest, Sha256.LastDifference, Sha256.Padded, Sha256.BlocksCollide, Verify, RootOf, FindCollision, AuditPath;
    AcceptedBlock(Sha(c), blocks, i, block, proof);
    var t := Forgery(Sha(c), blocks, i, block, proof);
    assert Sha(c)(t.x) == Sha256.Digest(c, t.x) && Sha(c)(t.y) == Sha256.Digest(c, t.y);
    Sha256.HashCollisionIsBlockCollision(c, t.x, t.y);
  }
}
