/** After any amount of bad radio, one poll over a radio that has become lossless finishes the transfer. */
module Recovery {
  import opened Wire
  import opened Blocks
  import opened Package
  import opened Stores
  import opened Protocol
  import opened Safety
  import opened Radio
  import opened Delivery
  import opened Completion

  /** The two ends of the network are in the world's state, and what is on its way was really sent. */
  ghost predicate Mirrors(w: World, n: Net) {
    && w.r == n.r
    && (forall f <- n.toReceiver :: f in w.fromSeeder)
    && (forall f <- n.toSeeder :: f in w.fromReceiver)
  }

  ghost predicate Reaches(s: Session, store: Store, events: seq<Event>, n: Net) {
    Possible(s.env, s.p, s.frag, Initial(store), events) && Mirrors(Play(s.env, s.p, s.frag, Initial(store), events), n)
  }

  lemma PlayOneMore(s: Session, w: World, events: seq<Event>, e: Event)
    requires Possible(s.env, s.p, s.frag, w, events) && Enabled(s.env, s.p, Play(s.env, s.p, s.frag, w, events), e)
    ensures Possible(s.env, s.p, s.frag, w, events + [e])
    ensures Play(s.env, s.p, s.frag, w, events + [e]) == Apply(s.env, s.p, s.frag, Play(s.env, s.p, s.frag, w, events), e)
  {
    hide Shaped, Enabled, Apply;
    assert (events + [e])[..|events|] == events;
  }

  /** A lossless delivery is a possible step of the bad radio. */
  lemma AdvanceIsPossible(s: Session, store: Store, events: seq<Event>, n: Net, receiverFirst: bool) returns (more: seq<Event>)
    requires Reaches(s, store, events, n)
    ensures Reaches(s, store, more, Advance(s, n, receiverFirst))
  {
    hide Shaped, Possible, Play, OnFrame, Respond, Finishes, Deliverable, Protocol.Prime;
    var start, w := Initial(store), Play(s.env, s.p, s.frag, Initial(store), events);
    if ReceiverMoves(n, receiverFirst) {
      var f := n.toReceiver[0];
      PlayOneMore(s, start, events, ReceiverGets(f));
      PlayOneMore(s, start, events + [ReceiverGets(f)], Event.Prime);
      more := events + [ReceiverGets(f)] + [Event.Prime];
    } else if n.toSeeder != [] {
      var f := n.toSeeder[0];
      PlayOneMore(s, start, events, SeederGets(f));
      more := events + [SeederGets(f)];
    } else {
      more := events;
    }
  }

  lemma {:induction false} RunIsPossible(s: Session, store: Store, events: seq<Event>, n: Net, pick: Scheduler, k: nat)
    returns (more: seq<Event>)
    requires Reaches(s, store, events, n)
    ensures Reaches(s, store, more, Run(s, n, pick, k))
    decreases k
  {
    hide Shaped, Reaches, Advance;
    if k == 0 {
      more := events;
    } else {
      var before := RunIsPossible(s, store, events, n, pick, k - 1);
      more := AdvanceIsPossible(s, store, before, Run(s, n, pick, k - 1), pick(k - 1));
    }
  }

  lemma PollIsPossible(s: Session, store: Store, events: seq<Event>) returns (more: seq<Event>)
    requires Possible(s.env, s.p, s.frag, Initial(store), events)
    ensures var r := Play(s.env, s.p, s.frag, Initial(store), events).r;
            Reaches(s, store, more, Net(Protocol.Prime(Protocol.Poll(s.env, r).r), [], Protocol.Poll(s.env, r).sent, false))
  {
    hide Shaped, Possible, Play, Protocol.Poll, Protocol.Prime;
    PlayOneMore(s, Initial(store), events, Event.Poll);
    PlayOneMore(s, Initial(store), events + [Event.Poll], Event.Prime);
    more := events + [Event.Poll] + [Event.Prime];
  }

  /** Whatever a bad radio has done to a transfer that is neither complete nor refused nor misled, however many blocks, genuine or
      not, it has left waiting: once frames are neither lost nor damaged, one poll is enough. Under every scheduler the
      transfer comes to rest delivered, and the store holds the payload, or two inputs with one hash are computed from
      a block that was verified. */
  lemma OnePollRecovers(s: Session, store: Store, events: seq<Event>, pick: Scheduler) returns (k: nat, forged: Option<Verified>)
    requires Valid(s) && Regular(store, s.p.m) && Kept(s.p, store)
    requires Possible(s.env, s.p, s.frag, Initial(store), events) && Trusted(s.env, PackManifest(s.p.m), s.p.signature)
    requires var r := Play(s.env, s.p, s.frag, Initial(store), events).r;
             !r.complete && !r.aborted && NotMisled(s, r) && Servable(s, r.store)
    ensures var r := Play(s.env, s.p, s.frag, Initial(store), events).r;
            var e := Run(s, Net(Protocol.Prime(Protocol.Poll(s.env, r).r), [], Protocol.Poll(s.env, r).sent, false), pick, k);
            && Delivered(s, e)
            && match forged
               case None => |s.p.payload| <= |e.r.store.image| && e.r.store.image[..|s.p.payload|] == s.p.payload
               case Some(v) => v.index < |BlocksIn(s.p)| && Twin(s.env.h, Forgery(s.env.h, BlocksIn(s.p), v.index, v.block, v.proof))
  {
    hide Shaped, BlocksOf, Possible, Play, Run, Regular, Kept, Protocol.Poll, Protocol.Prime, Trusted, PackManifest, NotMisled, Servable,
         Forgery, Twin, Informed;
    var r := Play(s.env, s.p, s.frag, Initial(store), events).r;
    RunHolds(s.env, s.p, s.frag, store, events);
    var n := Net(Protocol.Prime(Protocol.Poll(s.env, r).r), [], Protocol.Poll(s.env, r).sent, false);
    k := LosslessDelivery(s, r, n, pick);
    var polled := PollIsPossible(s, store, events);
    var more := RunIsPossible(s, store, polled, n, pick, k);
    forged := StoredBlocksAreGenuine(s.env, s.p, s.frag, store, more);
  }
}
