/** Runs over a lossless radio: two FIFO queues, any interleaving. */
module Delivery {
  import opened Frames
  import opened Protocol

  /** A session on a given package with a given fragment size. */
  datatype Session = Session(env: Env, p: Pkg, frag: Positive)

  ghost predicate Valid(s: Session) {
    GoodPackage(s.env.h, s.p)
  }

  datatype Net = Net(r: Receiver, toReceiver: seq<Frame>, toSeeder: seq<Frame>, done: bool)

  /** The receive loop: handle the frame, then hand the manifest to the store if there is one. */
  function Recv(env: Env, r: Receiver, f: Frame): Out {
    var o := OnFrame(env, r, f);
    o.(r := Prime(o.r))
  }

  function RespondTo(s: Session, frames: seq<Frame>): seq<Frame>
    decreases |frames|
  {
    if frames == [] then [] else Respond(s.env, s.p, s.frag, frames[0]) + RespondTo(s, frames[1..])
  }

  /** One delivery; the scheduler decides which queue moves when both can. */
  function Advance(s: Session, n: Net, receiverFirst: bool): Net {
    if ReceiverMoves(n, receiverFirst) then
      var o := Recv(s.env, n.r, n.toReceiver[0]);
      n.(r := o.r, toReceiver := n.toReceiver[1..], toSeeder := n.toSeeder + o.sent)
    else if n.toSeeder != [] then
      n.(toSeeder := n.toSeeder[1..], toReceiver := n.toReceiver + Respond(s.env, s.p, s.frag, n.toSeeder[0]),
         done := n.done || Finishes(s.env, n.toSeeder[0]))
    else n
  }

  type Scheduler = nat -> bool

  function Run(s: Session, n: Net, pick: Scheduler, k: nat): Net
    decreases k
  {
    if k == 0 then n else Advance(s, Run(s, n, pick, k - 1), pick(k - 1))
  }

  predicate Quiet(n: Net) {
    n.toReceiver == [] && n.toSeeder == []
  }

  // ---- the seeder keeps no state, so every interleaving is one deterministic run of the receiver ----

  /** The receiver and every frame that is, or will be, on its way to it. */
  datatype Line = Line(r: Receiver, queue: seq<Frame>)

  function LineOf(s: Session, n: Net): Line {
    Line(n.r, n.toReceiver + RespondTo(s, n.toSeeder))
  }

  function Move(s: Session, l: Line): Line {
    if l.queue == [] then l else
      var o := Recv(s.env, l.r, l.queue[0]);
      Line(o.r, l.queue[1..] + RespondTo(s, o.sent))
  }

  function Moves(s: Session, l: Line, k: nat): Line
    decreases k
  {
    if k == 0 then l else Moves(s, Move(s, l), k - 1)
  }

  lemma {:induction false} RespondToAppend(s: Session, a: seq<Frame>, b: seq<Frame>)
    ensures RespondTo(s, a + b) == RespondTo(s, a) + RespondTo(s, b)
    decreases |a|
  {
    hide Shaped, Respond;
    if a == [] {
      assert a + b == b;
    } else {
      assert (a + b)[0] == a[0] && (a + b)[1..] == a[1..] + b;
      RespondToAppend(s, a[1..], b);
    }
  }

  predicate ReceiverMoves(n: Net, receiverFirst: bool) {
    n.toReceiver != [] && (receiverFirst || n.toSeeder == [])
  }

  /** A delivery to the receiver moves the line by one. */
  lemma DeliveryMoves(s: Session, n: Net, receiverFirst: bool)
    requires ReceiverMoves(n, receiverFirst)
    ensures LineOf(s, n).queue != [] && LineOf(s, Advance(s, n, receiverFirst)) == Move(s, LineOf(s, n))
  {
    hide Shaped, Respond, Recv, Finishes;
    var o := Recv(s.env, n.r, n.toReceiver[0]);
    RespondToAppend(s, n.toSeeder, o.sent);
    assert LineOf(s, n).queue[1..] == n.toReceiver[1..] + RespondTo(s, n.toSeeder);
    Assoc(n.toReceiver[1..], RespondTo(s, n.toSeeder), RespondTo(s, o.sent), RespondTo(s, n.toSeeder + o.sent));
  }

  /** A delivery to the seeder leaves the line as it is. */
  lemma ReplyKeepsLine(s: Session, n: Net, receiverFirst: bool)
    requires !Quiet(n) && !ReceiverMoves(n, receiverFirst)
    ensures var a := Advance(s, n, receiverFirst); LineOf(s, a) == LineOf(s, n) && |a.toSeeder| < |n.toSeeder|
  {
    hide Shaped, Respond, Recv, Finishes;
    Assoc(n.toReceiver, Respond(s.env, s.p, s.frag, n.toSeeder[0]), RespondTo(s, n.toSeeder[1..]), RespondTo(s, n.toSeeder));
  }

  lemma Assoc(a: seq<Frame>, b: seq<Frame>, c: seq<Frame>, bc: seq<Frame>)
    requires bc == b + c
    ensures a + b + c == a + bc
  {
  }

  lemma {:induction false} RunFrom(s: Session, n: Net, pick: Scheduler, k: nat)
    ensures Run(s, n, pick, k + 1) == Run(s, Advance(s, n, pick(0)), (i: nat) => pick(i + 1), k)
    decreases k
  {
    hide Shaped, Advance;
    if k > 0 {
      RunFrom(s, n, pick, k - 1);
    }
  }

  /** If the line comes to rest, then under every scheduler the network does, in the same receiver state. */
  lemma {:induction false} Drain(s: Session, n: Net, pick: Scheduler, moves: nat) returns (k: nat)
    requires Moves(s, LineOf(s, n), moves).queue == []
    ensures Quiet(Run(s, n, pick, k)) && Run(s, n, pick, k).r == Moves(s, LineOf(s, n), moves).r
    decreases moves, |n.toSeeder|
  {
    hide Shaped, Respond, Recv, Finishes, Advance;
    if Quiet(n) {
      k := 0;
      AtRest(s, LineOf(s, n), moves);
    } else {
      var later: Scheduler := (i: nat) => pick(i + 1);
      var rest: nat;
      if ReceiverMoves(n, pick(0)) {
        DeliveryMoves(s, n, pick(0));
        rest := Drain(s, Advance(s, n, pick(0)), later, moves - 1);
      } else {
        ReplyKeepsLine(s, n, pick(0));
        rest := Drain(s, Advance(s, n, pick(0)), later, moves);
      }
      RunFrom(s, n, pick, rest);
      k := rest + 1;
    }
  }

  lemma {:induction false} AtRest(s: Session, l: Line, moves: nat)
    requires l.queue == []
    ensures Moves(s, l, moves) == l
    decreases moves
  {
    hide Shaped, Respond, Recv;
    if moves > 0 {
      AtRest(s, l, moves - 1);
    }
  }

  // ---- big steps ----

  /** Receive a whole batch of frames. */
  function RecvAll(env: Env, r: Receiver, frames: seq<Frame>): Out
    decreases |frames|
  {
    if frames == [] then Out(r, [], []) else
      var first := Recv(env, r, frames[0]);
      var rest := RecvAll(env, first.r, frames[1..]);
      Out(rest.r, first.sent + rest.sent, first.verified + rest.verified)
  }

  lemma {:induction false} MovesBatch(s: Session, r: Receiver, batch: seq<Frame>, behind: seq<Frame>)
    ensures var o := RecvAll(s.env, r, batch);
            Moves(s, Line(r, batch + behind), |batch|) == Line(o.r, behind + RespondTo(s, o.sent))
    decreases |batch|
  {
    hide Shaped, Respond, Recv;
    if batch == [] {
      assert batch + behind == behind && behind + [] == behind;
    } else {
      var first := Recv(s.env, r, batch[0]);
      var rest := RecvAll(s.env, first.r, batch[1..]);
      var reply := RespondTo(s, first.sent);
      assert (batch + behind)[0] == batch[0] && (batch + behind)[1..] == batch[1..] + behind;
      Assoc(batch[1..], behind, reply, behind + reply);
      MovesBatch(s, first.r, batch[1..], behind + reply);
      RespondToAppend(s, first.sent, rest.sent);
      Assoc(behind, reply, RespondTo(s, rest.sent), reply + RespondTo(s, rest.sent));
    }
  }

  lemma {:induction false} MovesAdd(s: Session, l: Line, a: nat, b: nat)
    ensures Moves(s, l, a + b) == Moves(s, Moves(s, l, a), b)
    decreases a
  {
    hide Shaped, Move;
    if a > 0 {
      MovesAdd(s, Move(s, l), a - 1, b);
    }
  }

  lemma {:induction false} RecvAllAppend(env: Env, r: Receiver, a: seq<Frame>, b: seq<Frame>)
    ensures var x := RecvAll(env, r, a); var y := RecvAll(env, x.r, b);
            RecvAll(env, r, a + b) == Out(y.r, x.sent + y.sent, x.verified + y.verified)
    decreases |a|
  {
    hide Shaped, Recv;
    if a == [] {
      assert a + b == b;
    } else {
      assert (a + b)[0] == a[0] && (a + b)[1..] == a[1..] + b;
      RecvAllAppend(env, Recv(env, r, a[0]).r, a[1..], b);
    }
  }
}
