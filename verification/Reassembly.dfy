/** Reassembly under loss, repetition and reordering: what the receiver puts together, and what it tries. */
module Reassembly {
  import opened Wire
  import opened Merkle
  import opened Blocks
  import opened Package
  import opened Frames
  import opened Stores
  import opened Protocol
  import opened Safety
  import opened Delivery
  import opened Convergence

  // ---- any frames at all ----

  /** The bodies of frames, one after the other. */
  function Bodies(chain: seq<Frame>): Data {
    if chain == [] then [] else Bodies(chain[..|chain| - 1]) + chain[|chain| - 1].body
  }

  /** Each frame starts where the one before it ended, the first at 0. */
  predicate Linked(chain: seq<Frame>) {
    chain == [] || (Linked(chain[..|chain| - 1]) && chain[|chain| - 1].off == |Bodies(chain[..|chain| - 1])|)
  }

  /** The frames of the chain were heard in this order, with others in between. */
  predicate Among(chain: seq<Frame>, heard: seq<Frame>)
    decreases |heard|
  {
    if chain == [] || heard == [] then chain == [] else
      var n := |heard| - 1;
      Among(chain, heard[..n]) || (chain[|chain| - 1] == heard[n] && Among(chain[..|chain| - 1], heard[..n]))
  }

  /** What a new reassembler holds after these frames. */
  function TakeEach(heard: seq<Frame>): Fed
    decreases |heard|
  {
    if heard == [] then Fed(IDLE, false) else
      var n := |heard| - 1;
      Take(TakeEach(heard[..n]).re, heard[n])
  }

  /** Whatever frames a reassembler hears, genuine or not, what it holds is a chain of their bodies from offset 0 on, never longer than
      announced, and it calls the unit complete only with the last frame of a chain of exactly that length. */
  lemma {:induction false} HeldIsAChain(heard: seq<Frame>) returns (chain: seq<Frame>)
    ensures Linked(chain) && Among(chain, heard)
    ensures var fed := TakeEach(heard);
            && fed.re.got == Bodies(chain) && |fed.re.got| <= fed.re.total && (chain != [] ==> fed.re.active && fed.re.total == chain[0].total)
            && (fed.done ==> |fed.re.got| == fed.re.total && chain != [] && heard != [] && chain[|chain| - 1] == heard[|heard| - 1])
    decreases |heard|
  {
    hide Take, Fill, Bodies, Linked;
    if heard == [] {
      chain := [];
      EmptyChain();
    } else {
      var n := |heard| - 1;
      var before := HeldIsAChain(heard[..n]);
      chain := OneMorePiece(heard, before);
    }
  }

  lemma EmptyChain()
    ensures Linked([]) && Bodies([]) == []
  {
  }

  lemma OneMorePiece(heard: seq<Frame>, before: seq<Frame>) returns (chain: seq<Frame>)
    requires heard != [] && Linked(before) && Among(before, heard[..|heard| - 1])
    requires var was := TakeEach(heard[..|heard| - 1]);
             was.re.got == Bodies(before) && |was.re.got| <= was.re.total && (before != [] ==> was.re.active && was.re.total == before[0].total)
    ensures Linked(chain) && Among(chain, heard)
    ensures var fed := Take(TakeEach(heard[..|heard| - 1]).re, heard[|heard| - 1]);
            && fed.re.got == Bodies(chain) && |fed.re.got| <= fed.re.total && (chain != [] ==> fed.re.active && fed.re.total == chain[0].total)
            && (fed.done ==> |fed.re.got| == fed.re.total && chain != [] && chain[|chain| - 1] == heard[|heard| - 1])
  {
    hide TakeEach;
    var n := |heard| - 1;
    var f, was := heard[n], TakeEach(heard[..n]).re;
    var re, kept := if f.off == 0 then Partial(true, f.total, []) else was, if f.off == 0 then [] else before;
    AmongNone(heard[..n]);
    if re.active && f.off == |re.got| && f.off + |f.body| <= re.total {
      chain := kept + [f];
      assert chain[..|kept|] == kept;
    } else {
      chain := kept;
    }
  }

  lemma AmongNone(heard: seq<Frame>)
    ensures Among([], heard)
  {
  }

  // ---- what the seeder sends, in any order ----

  /** Of its own session the receiver hears only what the seeder sends: pieces of any block, of any proof and of the manifest, of
      whatever sizes, and the START. Frames of other sessions may be anything. */
  ghost predicate Honestly(s: Session, f: Frame) {
    f.session == s.env.session ==>
      && Genuine(s.env, s.p, f)
      && (f.kind == BLOCK ==> f.index < |BlocksIn(s.p)| && PieceOf(f, BlocksIn(s.p)[f.index]))
      && (f.kind == PROOF ==> PieceOf(f, ProofUnit(s.env.h, s.p, f.index)))
  }

  /** Whatever is held or half held belongs to the package. */
  ghost predicate OnlyGenuine(s: Session, r: Receiver) {
    && (r.blockRe.active ==> r.blockInFlight < |BlocksIn(s.p)| && PrefixOf(r.blockRe, BlocksIn(s.p)[r.blockInFlight]))
    && (r.proofRe.active ==> PrefixOf(r.proofRe, ProofUnit(s.env.h, s.p, r.proofInFlight)))
    && (forall j <- r.ready :: j < |BlocksIn(s.p)| && r.ready[j] == BlocksIn(s.p)[j])
    && (forall j <- r.proofs :: r.proofs[j] == HonestProof(s.env.h, s.p, j))
  }

  predicate PrefixOf(re: Partial, unit: Data) {
    re.total == |unit| && re.got <= unit
  }

  /** Only the payload's own blocks were verified, each with its own audit path; and no pair of block and proof was tried in vain. */
  ghost predicate TriesGenuine(s: Session, f: Frame, o: Out) {
    && (forall v <- o.verified :: Honest(s.env, s.p, v) && v.proof == HonestProof(s.env.h, s.p, v.index))
    && (f.kind in {BLOCK, PROOF} && o.sent != [] ==> o.verified != [])
  }

  lemma FinishGenuine(s: Session, r: Receiver, i: U16, f: Frame)
    requires Valid(s) && Informed(s.env, s.p, r) && r.manifest.Some? && OnlyGenuine(s, r)
    ensures var o := TryFinish(s.env, r, i); OnlyGenuine(s, o.r) && TriesGenuine(s, f, o)
  {
    hide Shaped, BlocksOf, Put, Verify, HonestProof, ProofUnit, OnlyTrusts, HoldsPrefix, RootOf;
    if i in r.ready && i in r.proofs {
      HonestVerifies(s, i);
      assert Verifies(s.env, r, Verified(i, r.ready[i], r.proofs[i])) by { CountIs(s.p); }
    }
  }

  lemma CountIs(p: Pkg)
    ensures p.m.blockCount == |BlocksIn(p)|
  {
  }

  lemma PieceTaken(re: Partial, f: Frame, unit: Unit)
    requires PieceOf(f, unit) && (re.active ==> PrefixOf(re, unit))
    ensures var fed := Take(re, f); (fed.re.active ==> PrefixOf(fed.re, unit)) && (fed.done ==> fed.re.got == unit)
  {
    hide Take, PieceOf;
    PieceKeepsPrefix(re, f, unit);
  }

  lemma BlockGenuine(s: Session, r: Receiver, f: Frame)
    requires Valid(s) && Informed(s.env, s.p, r) && OnlyGenuine(s, r) && f.kind == BLOCK && f.session == s.env.session && Honestly(s, f)
    ensures var o := OnBlock(s.env, r, f); OnlyGenuine(s, o.r) && TriesGenuine(s, f, o)
  {
    hide Shaped, BlocksOf, TryFinish, Take, HonestProof, ProofUnit, OnlyTrusts, HoldsPrefix, GoodPackage, PieceOf, PrefixOf;
    if r.manifest.Some? && !Has(r.store, f.index) {
      BlockFits(s.env.h, s.p, f.index);
      var re := if r.blockInFlight == f.index then r.blockRe else Partial(true, f.total, []);
      NewIsPrefix(f, BlocksIn(s.p)[f.index]);
      PieceTaken(re, f, BlocksIn(s.p)[f.index]);
      var fed := Take(re, f);
      var taken := r.(blockInFlight := f.index, blockRe := fed.re);
      if fed.done {
        FinishGenuine(s, taken.(ready := r.ready[f.index := fed.re.got], blockRe := fed.re.(active := false)), f.index, f);
      }
    }
  }

  lemma NewIsPrefix(f: Frame, unit: Data)
    requires PieceOf(f, unit)
    ensures PrefixOf(Partial(true, f.total, []), unit)
  {
  }

  lemma ProofGenuine(s: Session, r: Receiver, f: Frame)
    requires Valid(s) && Informed(s.env, s.p, r) && OnlyGenuine(s, r) && f.kind == PROOF && f.session == s.env.session && Honestly(s, f)
    ensures var o := OnProof(s.env, r, f); OnlyGenuine(s, o.r) && TriesGenuine(s, f, o)
  {
    hide Shaped, BlocksOf, TryFinish, Take, HonestProof, ProofUnit, OnlyTrusts, HoldsPrefix, GoodPackage, PieceOf, PrefixOf, SplitHashes, OnlyGenuine,
         Honest, TriesGenuine, Has;
    PieceSize(f, ProofUnit(s.env.h, s.p, f.index));
    if r.manifest.None? || Has(r.store, f.index) {
      NothingTried(s, f, r);
    } else if f.total == 0 {
      NoHashes(s, f.index);
      HeldProofGenuine(s, r, r.(proofs := r.proofs[f.index := []]), f.index);
      FinishGenuine(s, r.(proofs := r.proofs[f.index := []]), f.index, f);
    } else {
      var fed := Take(if r.proofInFlight == f.index then r.proofRe else Partial(true, f.total, []), f);
      TakenProofGenuine(s, r, f, fed);
      NothingTried(s, f, r);
      if fed.done {
        FinishGenuine(s, r.(proofInFlight := f.index, proofRe := fed.re.(active := false),
                            proofs := r.proofs[f.index := SplitHashes(fed.re.got)]), f.index, f);
      }
    }
  }

  lemma NothingTried(s: Session, f: Frame, r: Receiver)
    ensures forall x: Receiver :: TriesGenuine(s, f, Out(x, [], []))
  {
  }

  lemma NoHashes(s: Session, i: nat)
    ensures |ProofUnit(s.env.h, s.p, i)| == 0 ==> HonestProof(s.env.h, s.p, i) == []
  {
    hide HonestProof;
  }

  lemma HeldProofGenuine(s: Session, r: Receiver, w: Receiver, i: U16)
    requires OnlyGenuine(s, r) && w == r.(proofs := r.proofs[i := HonestProof(s.env.h, s.p, i)])
    ensures OnlyGenuine(s, w)
  {
    hide Shaped, BlocksOf, HonestProof, ProofUnit, PrefixOf;
  }

  lemma TakenProofGenuine(s: Session, r: Receiver, f: Frame, fed: Fed)
    requires OnlyGenuine(s, r) && PieceOf(f, ProofUnit(s.env.h, s.p, f.index))
    requires fed == Take(if r.proofInFlight == f.index then r.proofRe else Partial(true, f.total, []), f)
    ensures OnlyGenuine(s, r.(proofInFlight := f.index, proofRe := fed.re))
    ensures fed.done ==> |fed.re.got| % 32 == 0
    ensures fed.done ==> OnlyGenuine(s, r.(proofInFlight := f.index, proofRe := fed.re.(active := false),
                                           proofs := r.proofs[f.index := SplitHashes(fed.re.got)]))
  {
    hide Shaped, BlocksOf, Take, HonestProof, PieceOf, PrefixOf, SplitHashes;
    var unit := ProofUnit(s.env.h, s.p, f.index);
    NewIsPrefix(f, unit);
    PieceTaken(if r.proofInFlight == f.index then r.proofRe else Partial(true, f.total, []), f, unit);
    HashesSurvive(HonestProof(s.env.h, s.p, f.index));
  }

  lemma PieceSize(f: Frame, unit: Data)
    requires PieceOf(f, unit)
    ensures f.total == |unit|
  {
  }

  /** Nothing but blocks and proofs touches what is held of them. */
  lemma OthersLeave(env: Env, r: Receiver, f: Frame)
    requires f.kind != BLOCK && f.kind != PROOF
    ensures var o := OnFrame(env, r, f);
            && o.r == r.(haveGeometry := o.r.haveGeometry, blockSize := o.r.blockSize, blockCount := o.r.blockCount,
                         payloadLength := o.r.payloadLength, manifestRe := o.r.manifestRe, manifest := o.r.manifest,
                         complete := o.r.complete, aborted := o.r.aborted)
            && o.verified == []
  {
    hide DecodeStart, Take, UnpackManifest, Trusted, Has;
  }

  /** A step on such a frame: what is held stays genuine, and a block that is tried is verified. */
  lemma StepGenuine(s: Session, r: Receiver, f: Frame)
    requires Valid(s) && Informed(s.env, s.p, r) && OnlyGenuine(s, r) && Honestly(s, f)
    ensures var o := OnFrame(s.env, r, f); OnlyGenuine(s, o.r) && TriesGenuine(s, f, o)
  {
    hide Shaped, BlocksOf, OnBlock, OnProof, OnStart, OnManifest, Informed, GoodPackage, PieceOf, PrefixOf, HonestProof, ProofUnit, Genuine;
    if f.kind != BLOCK && f.kind != PROOF {
      OthersLeave(s.env, r, f);
    } else if f.session == s.env.session && !r.aborted && !r.complete {
      if f.kind == BLOCK {
        BlockGenuine(s, r, f);
      } else {
        ProofGenuine(s, r, f);
      }
    }
  }

  /** Under loss, repetition and reordering of what the seeder sends, in pieces of any mixture of sizes and among frames of other
      sessions, every unit the receiver puts together is the payload's own block or its own audit path, so no collision
      of the hash can come into it. */
  lemma {:induction false} GenuinePiecesMakeGenuineBlocks(s: Session, r: Receiver, frames: seq<Frame>)
    requires Valid(s) && Sound(s.env, s.p, r) && OnlyGenuine(s, r) && forall f <- frames :: Honestly(s, f)
    ensures var o := RecvAll(s.env, r, frames);
            && Sound(s.env, s.p, o.r) && OnlyGenuine(s, o.r)
            && forall v <- o.verified :: Honest(s.env, s.p, v) && v.proof == HonestProof(s.env.h, s.p, v.index)
    decreases |frames|
  {
    hide Shaped, GoodPackage, Sound, Genuine, OnFrame, Kept, Backed, Honest, Emits, BlocksOf, HonestProof, PieceOf, Deliverable;
    if frames != [] {
      var f := frames[0];
      var o := OnFrame(s.env, r, f);
      SoundIsInformed(s, r);
      StepGenuine(s, r, f);
      HonestIsDeliverable(s, r, f);
      PrimeKeeps(s.env, s.p, o.r);
      OnlyGenuinePrimed(s, o.r);
      GenuinePiecesMakeGenuineBlocks(s, Recv(s.env, r, f).r, frames[1..]);
    }
  }

  lemma SoundIsInformed(s: Session, r: Receiver)
    requires Sound(s.env, s.p, r)
    ensures Informed(s.env, s.p, r)
  {
  }

  lemma OnlyGenuinePrimed(s: Session, r: Receiver)
    requires OnlyGenuine(s, r)
    ensures OnlyGenuine(s, Prime(r))
  {
    hide Shaped, BlocksOf, HonestProof, ProofUnit, PrefixOf;
  }

  lemma HonestIsDeliverable(s: Session, r: Receiver, f: Frame)
    requires Valid(s) && Sound(s.env, s.p, r) && Honestly(s, f)
    ensures StepKeeps(s.env, s.p, r, OnFrame(s.env, r, f))
  {
    hide Shaped, GoodPackage, Informed, Regular, Kept, Backed, Honest, Genuine, PieceOf, BlocksOf, ProofUnit, Deliverable;
    if f.session == s.env.session {
      GenuineIsDeliverable(s.env, s.p, r, f);
      FrameKeeps(s.env, s.p, r, f);
    }
  }
}
