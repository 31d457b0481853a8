/** What every step of the receiver keeps, over a radio that loses, repeats, reorders and damages frames. */
module Safety {
  import opened Wire
  import opened Merkle
  import opened Blocks
  import opened Package
  import opened Frames
  import opened Stores
  import opened Protocol

  ghost predicate AllStored(p: Pkg, s: Store) {
    forall i: nat | i < p.m.blockCount :: Has(s, i)
  }

  /** The verifier trusts no manifest but the package's, as signatures that cannot be forged would have it. */
  ghost predicate OnlyTrusts(env: Env, p: Pkg) {
    forall m: Data, signature: Data | |m| == MANIFEST_SIZE && Trusted(env, m, signature) :: m == PackManifest(p.m)
  }

  /** The part of the receiver's invariant that concerns its copies of the package's facts. What a START announced
      before the manifest was accepted may be anything. */
  ghost predicate Informed(env: Env, p: Pkg, r: Receiver) {
    && (r.manifest.Some? ==> r.manifest.value == p.m && r.blockCount == p.m.blockCount)
    && (OnlyTrusts(env, p) || HoldsPrefix(r.manifestRe, ManifestUnit(p)))
  }

  /** The receiver's invariant: no block and proof of one index wait for each other, and complete means stored. */
  ghost predicate Sound(env: Env, p: Pkg, r: Receiver) {
    && Informed(env, p, r)
    && Regular(r.store, p.m)
    && (forall k <- r.ready :: k !in r.proofs)
    && (r.complete ==> r.manifest.Some? && AllStored(p, r.store))
  }

  /** What no step undoes. */
  ghost predicate Grows(r: Receiver, r': Receiver) {
    && (r.manifest.Some? ==> r'.manifest == r.manifest)
    && (r.complete || r.aborted ==> r' == r)
    && r'.store.flash == r.store.flash
    && (forall i: nat | Has(r.store, i) :: Has(r'.store, i))
  }

  /** A verified block is one of the package's own, as far as its root can tell. */
  ghost predicate Backed(env: Env, p: Pkg, v: Verified) {
    v.index < |BlocksIn(p)| && Verify(PairOf(env.h), env.h(v.block), v.index, |BlocksIn(p)|, v.proof, RootOf(env.h, BlocksIn(p)))
  }

  ghost predicate Honest(env: Env, p: Pkg, v: Verified) {
    v.index < |BlocksIn(p)| && v.block == BlocksIn(p)[v.index]
  }

  /** Frames a receiver may emit in state r: DONE only when complete, requests only for what is missing. */
  ghost predicate Emits(env: Env, r: Receiver, f: Frame) {
    && f.session == env.session && f.kind in {REQUEST, ACK, DONE}
    && (f.kind == DONE ==> r.complete)
    && (f.kind == REQUEST && f.index != INDEX_MANIFEST ==> !Has(r.store, f.index))
  }

  ghost predicate Kept(p: Pkg, s: Store) {
    Faithful(s, p.payload, p.m.blockSize)
  }

  ghost predicate StepKeeps(env: Env, p: Pkg, r: Receiver, o: Out) {
    && Sound(env, p, o.r) && Grows(r, o.r)
    && (forall f <- o.sent :: Emits(env, o.r, f))
    && (forall v <- o.verified :: Backed(env, p, v))
    && ((forall v <- o.verified :: Honest(env, p, v)) && Kept(p, r.store) ==> Kept(p, o.r.store))
  }

  /** What the seeder sends. */
  ghost predicate Genuine(env: Env, p: Pkg, f: Frame) {
    && (f.kind == START ==> f == StartFrame(env, p))
    && (f.kind == MANIFEST ==> PieceOf(f, ManifestUnit(p)))
  }

  predicate Announces(body: Data, blockCount: nat) {
    DecodeStart(body).Some? ==> DecodeStart(body).value.blockCount == blockCount
  }

  /** What the channel may deliver: anything, except that once the manifest is accepted a START must not change the block
      count, and that a manifest must be the package's own unless the verifier can tell. */
  ghost predicate Deliverable(env: Env, p: Pkg, r: Receiver, f: Frame) {
    && (f.kind == START && r.manifest.Some? ==> Announces(f.body, p.m.blockCount))
    && (f.kind == MANIFEST ==> OnlyTrusts(env, p) || PieceOf(f, ManifestUnit(p)))
  }

  lemma GenuineIsDeliverable(env: Env, p: Pkg, r: Receiver, f: Frame)
    requires Genuine(env, p, f)
    ensures Deliverable(env, p, r, f)
  {
    hide EncodeStart, DecodeStart, PieceOf, ManifestUnit, OnlyTrusts;
    var m := p.m;
    StartRoundTrip(StartInfo(m.blockSize, m.blockCount, m.payloadLength, MANIFEST_SIZE, |p.signature|));
  }

  lemma RequestNextKeeps(env: Env, p: Pkg, r: Receiver)
    requires GoodPackage(env.h, p) && Sound(env, p, r) && !r.complete && !r.aborted
    ensures StepKeeps(env, p, r, RequestNext(env, r)) && RequestNext(env, r).verified == []
  {
    hide BlocksOf, RootOf, Regular, Faithful;
  }

  lemma TryFinishKeeps(env: Env, p: Pkg, r: Receiver, i: U16)
    requires GoodPackage(env.h, p) && Informed(env, p, r) && Regular(r.store, p.m) && r.manifest.Some?
    requires (forall k <- r.ready :: k in r.proofs ==> k == i) && !r.complete && !r.aborted
    ensures StepKeeps(env, p, r, TryFinish(env, r, i))
  {
    hide BlocksOf, RootOf, Regular, Faithful, Put, RequestNext, Verify;
    if i in r.ready && i in r.proofs {
      var v := Verified(i, r.ready[i], r.proofs[i]);
      var dropped := r.(ready := r.ready - {i}, proofs := r.proofs - {i});
      if Verifies(env, r, v) {
        var stored := dropped.(store := Put(r.store, i, v.block).s);
        VerifiedIsBacked(env, p, r, v);
        PutRegular(r.store, p.m, i, v.block);
        if Honest(env, p, v) && Kept(p, r.store) {
          PutFaithful(r.store, p.m, p.payload, i);
        }
        RequestNextKeeps(env, p, stored);
        assert TryFinish(env, r, i).r == RequestNext(env, stored).r;
      } else {
        RequestNextKeeps(env, p, dropped);
      }
    }
  }

  lemma VerifiedIsBacked(env: Env, p: Pkg, r: Receiver, v: Verified)
    requires GoodPackage(env.h, p) && Informed(env, p, r) && r.manifest.Some? && Verifies(env, r, v)
    ensures Backed(env, p, v) && v.index < p.m.blockCount
  {
    hide BlocksOf, RootOf;
  }

  lemma StartKeeps(env: Env, p: Pkg, r: Receiver, body: Data)
    requires GoodPackage(env.h, p) && Sound(env, p, r) && !r.complete && !r.aborted
    requires r.manifest.Some? ==> Announces(body, p.m.blockCount)
    ensures StepKeeps(env, p, r, OnStart(env, r, body))
  {
    hide BlocksOf, RootOf, Regular, Faithful, DecodeStart, RequestNext, PieceOf, OnlyTrusts, ManifestUnit;
    var s := DecodeStart(body);
    if s.Some? {
      var told := r.(haveGeometry := true, blockSize := s.value.blockSize, blockCount := s.value.blockCount,
                     payloadLength := s.value.payloadLength);
      RequestNextKeeps(env, p, told);
      assert OnStart(env, r, body) == RequestNext(env, told);
    }
  }

  lemma ManifestKeeps(env: Env, p: Pkg, r: Receiver, f: Frame)
    requires GoodPackage(env.h, p) && Sound(env, p, r) && !r.complete && !r.aborted
    requires OnlyTrusts(env, p) || PieceOf(f, ManifestUnit(p))
    ensures StepKeeps(env, p, r, OnManifest(env, r, f))
  {
    hide BlocksOf, RootOf, Regular, Faithful, RequestNext, PieceOf, AcceptManifest, Take, OnlyTrusts, ManifestUnit, HoldsPrefix;
    if r.manifest.None? {
      var fed := Take(r.manifestRe, f);
      if !OnlyTrusts(env, p) {
        PieceKeepsPrefix(r.manifestRe, f, ManifestUnit(p));
      }
      if fed.done {
        AcceptKeeps(env, p, r, r.(manifestRe := fed.re), fed.re.got);
      }
    }
  }

  lemma AcceptKeeps(env: Env, p: Pkg, before: Receiver, r: Receiver, unit: Unit)
    requires GoodPackage(env.h, p) && Sound(env, p, r) && !r.complete && !r.aborted && r.manifest.None?
    requires before == r.(manifestRe := before.manifestRe) && (OnlyTrusts(env, p) || unit == ManifestUnit(p))
    ensures StepKeeps(env, p, before, AcceptManifest(env, r, unit))
  {
    hide UnpackManifest, PackManifest, BlocksOf, RootOf, Regular, Faithful, RequestNext, Trusted;
    PackThenUnpack(p.m);
    if |unit| >= MANIFEST_SIZE && Trusted(env, unit[..MANIFEST_SIZE], unit[MANIFEST_SIZE..]) {
      assert unit[..MANIFEST_SIZE] == PackManifest(p.m);
      if !r.haveGeometry || GeometryAgrees(r, p.m) {
        RequestNextKeeps(env, p, Adopt(r, p.m));
      }
    }
  }

  lemma BlockKeeps(env: Env, p: Pkg, r: Receiver, f: Frame)
    requires GoodPackage(env.h, p) && Sound(env, p, r) && !r.complete && !r.aborted
    ensures StepKeeps(env, p, r, OnBlock(env, r, f))
  {
    hide BlocksOf, RootOf, Regular, Faithful, TryFinish, Take;
    if r.manifest.Some? && !Has(r.store, f.index) {
      var fed := Take(if r.blockInFlight == f.index then r.blockRe else Partial(true, f.total, []), f);
      var taken := r.(blockInFlight := f.index, blockRe := fed.re);
      if fed.done {
        TryFinishKeeps(env, p, taken.(ready := r.ready[f.index := fed.re.got], blockRe := fed.re.(active := false)), f.index);
      }
    }
  }

  lemma ProofKeeps(env: Env, p: Pkg, r: Receiver, f: Frame)
    requires GoodPackage(env.h, p) && Sound(env, p, r) && !r.complete && !r.aborted
    ensures StepKeeps(env, p, r, OnProof(env, r, f))
  {
    hide BlocksOf, RootOf, Regular, Faithful, TryFinish, Take, SplitHashes;
    if r.manifest.Some? && !Has(r.store, f.index) {
      if f.total == 0 {
        TryFinishKeeps(env, p, r.(proofs := r.proofs[f.index := []]), f.index);
      } else {
        var fed := Take(if r.proofInFlight == f.index then r.proofRe else Partial(true, f.total, []), f);
        if fed.done && |fed.re.got| % 32 == 0 {
          TryFinishKeeps(env, p, r.(proofInFlight := f.index, proofRe := fed.re.(active := false),
                                    proofs := r.proofs[f.index := SplitHashes(fed.re.got)]), f.index);
        }
      }
    }
  }

  /** Whatever the channel delivers, the receiver's invariant survives and nothing already achieved is lost. */
  lemma FrameKeeps(env: Env, p: Pkg, r: Receiver, f: Frame)
    requires GoodPackage(env.h, p) && Sound(env, p, r) && Deliverable(env, p, r, f)
    ensures StepKeeps(env, p, r, OnFrame(env, r, f))
  {
    hide BlocksOf, RootOf, Regular, Faithful, PieceOf, OnlyTrusts, Announces, OnStart, OnManifest, OnBlock, OnProof;
    if f.session == env.session && !r.aborted && !r.complete {
      if f.kind == START {
        StartKeeps(env, p, r, f.body);
      } else if f.kind == MANIFEST {
        ManifestKeeps(env, p, r, f);
      } else if f.kind == BLOCK {
        BlockKeeps(env, p, r, f);
      } else if f.kind == PROOF {
        ProofKeeps(env, p, r, f);
      }
    }
  }

  lemma PollKeeps(env: Env, p: Pkg, r: Receiver)
    requires GoodPackage(env.h, p) && Sound(env, p, r)
    ensures StepKeeps(env, p, r, Poll(env, r))
  {
    hide BlocksOf, RootOf, Regular, Faithful, RequestNext;
    if !r.aborted && !r.complete {
      RequestNextKeeps(env, p, r);
    }
  }

  lemma PrimeKeeps(env: Env, p: Pkg, r: Receiver)
    requires GoodPackage(env.h, p) && Sound(env, p, r)
    ensures Sound(env, p, Prime(r)) && (Kept(p, r.store) <==> Kept(p, Prime(r).store))
    ensures forall i: nat :: Has(Prime(r).store, i) <==> Has(r.store, i)
  {
    hide BlocksOf, RootOf, Marked, PieceOf;
    assert forall i: nat :: Has(Prime(r).store, i) <==> Has(r.store, i);
  }

  /** A fresh receiver may start over whatever store survived. */
  lemma FreshSound(env: Env, p: Pkg, s: Store)
    requires GoodPackage(env.h, p) && Regular(s, p.m)
    ensures Sound(env, p, Fresh(s))
  {
    hide BlocksOf, RootOf, Marked, PieceOf;
  }

  // ---- what is kept whatever is delivered, forged STARTs and manifests included ----

  /** No block and proof of one index wait for each other, and the journal is empty until the first write. */
  ghost predicate Tidy(r: Receiver) {
    (forall k <- r.ready :: k !in r.proofs) && (r.store.began || r.store.have == [])
  }

  /** Completion means that every block announced, if not every block of the package, is stored. */
  ghost predicate AnyStepKeeps(env: Env, r: Receiver, o: Out) {
    && Tidy(o.r) && Grows(r, o.r) && (forall f <- o.sent :: Emits(env, o.r, f))
    && (o.r.complete && !r.complete ==> o.r.manifest.Some? && forall i: nat | i < o.r.blockCount :: Has(o.r.store, i))
  }

  lemma NextKeepsAny(env: Env, r: Receiver)
    requires Tidy(r) && !r.complete && !r.aborted
    ensures AnyStepKeeps(env, r, RequestNext(env, r))
  {
  }

  lemma PutGrows(s: Store, i: nat, data: Data)
    requires s.began || s.have == []
    ensures var o := Put(s, i, data);
            o.s.flash == s.flash && (o.s.began || o.s.have == []) && forall k: nat | Has(s, k) :: Has(o.s, k)
  {
    hide Offset, Overwrite;
  }

  lemma FinishKeepsAny(env: Env, r: Receiver, i: U16)
    requires (forall k <- r.ready :: k in r.proofs ==> k == i) && (r.store.began || r.store.have == []) && !r.complete && !r.aborted
    ensures AnyStepKeeps(env, r, TryFinish(env, r, i))
  {
    hide Put, Verify, RequestNext, Has;
    if i in r.ready && i in r.proofs {
      var v := Verified(i, r.ready[i], r.proofs[i]);
      var dropped := r.(ready := r.ready - {i}, proofs := r.proofs - {i},
                        store := if Verifies(env, r, v) then Put(r.store, i, v.block).s else r.store);
      PutGrows(r.store, i, v.block);
      NextKeepsAny(env, dropped);
    }
  }

  lemma BlockKeepsAny(env: Env, r: Receiver, f: Frame)
    requires Tidy(r) && !r.complete && !r.aborted
    ensures AnyStepKeeps(env, r, OnBlock(env, r, f))
  {
    hide TryFinish, Take, Has;
    if r.manifest.Some? && !Has(r.store, f.index) {
      var fed := Take(if r.blockInFlight == f.index then r.blockRe else Partial(true, f.total, []), f);
      var taken := r.(blockInFlight := f.index, blockRe := fed.re);
      FinishKeepsAny(env, taken.(ready := r.ready[f.index := fed.re.got], blockRe := fed.re.(active := false)), f.index);
    }
  }

  lemma ProofKeepsAny(env: Env, r: Receiver, f: Frame)
    requires Tidy(r) && !r.complete && !r.aborted
    ensures AnyStepKeeps(env, r, OnProof(env, r, f))
  {
    hide TryFinish, Take, SplitHashes, Has;
    if r.manifest.Some? && !Has(r.store, f.index) {
      if f.total == 0 {
        FinishKeepsAny(env, r.(proofs := r.proofs[f.index := []]), f.index);
      } else {
        var fed := Take(if r.proofInFlight == f.index then r.proofRe else Partial(true, f.total, []), f);
        if fed.done && |fed.re.got| % 32 == 0 {
          FinishKeepsAny(env, r.(proofInFlight := f.index, proofRe := fed.re.(active := false),
                                 proofs := r.proofs[f.index := SplitHashes(fed.re.got)]), f.index);
        }
      }
    }
  }

  lemma ManifestKeepsAny(env: Env, r: Receiver, f: Frame)
    requires Tidy(r) && !r.complete && !r.aborted
    ensures AnyStepKeeps(env, r, OnManifest(env, r, f))
  {
    hide Take, UnpackManifest, RequestNext, Trusted, Has;
    if r.manifest.None? {
      var fed := Take(r.manifestRe, f);
      var taken := r.(manifestRe := fed.re);
      if fed.done && |fed.re.got| >= MANIFEST_SIZE {
        NextKeepsAny(env, Adopt(taken, UnpackManifest(fed.re.got[..MANIFEST_SIZE])));
      }
    }
  }

  /** Whatever is delivered in whatever state: an accepted manifest and a stored block are never lost, completion and abort are
      final, DONE is said only when complete, what is stored is not asked for, and completion means that as many blocks
      as the receiver was told of are stored. */
  lemma AnyFrameKeeps(env: Env, r: Receiver, f: Frame)
    requires Tidy(r)
    ensures AnyStepKeeps(env, r, OnFrame(env, r, f))
  {
    hide OnManifest, OnBlock, OnProof, DecodeStart, RequestNext, Has;
    if f.session == env.session && !r.aborted && !r.complete {
      if f.kind == START && DecodeStart(f.body).Some? {
        var s := DecodeStart(f.body).value;
        NextKeepsAny(env, r.(haveGeometry := true, blockSize := s.blockSize, blockCount := s.blockCount, payloadLength := s.payloadLength));
      }
      ManifestKeepsAny(env, r, f);
      BlockKeepsAny(env, r, f);
      ProofKeepsAny(env, r, f);
    }
  }
}
