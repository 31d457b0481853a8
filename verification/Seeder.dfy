/** The seeder of src/transport.cpp: it owns the package bytes and answers requests from them. */
module Seeders {
  import opened Wire
  import opened Merkle
  import opened Blocks
  import opened Package
  import opened Frames
  import opened Protocol
  import opened LeafLoop
  import Receivers

  // ---- what a seeder holds, for any geometry the package announces ----

  /** Both sizes are narrowed to 16 bits. */
  function NarrowSize(m: Manifest): U16 {
    m.blockSize % 0x1_0000
  }

  function NarrowCount(m: Manifest): U16 {
    m.blockCount % 0x1_0000
  }

  /** What a parsed buffer holds. */
  function Contents(buf: Data): (p: Parts)
    requires |buf| >= PAYLOAD_AT
    ensures |p.payload| == |buf| - PAYLOAD_AT
  {
    var s := Sections(buf);
    Parts(UnpackManifest(s.manifest), s.signature, s.payload)
  }

  /** What the parser guarantees of a package. */
  predicate Parsable(p: Parts) {
    Sized(p.m) && |p.signature| == SIGNATURE_SIZE && p.m.payloadLength == |p.payload|
  }

  lemma AcceptedIsParsable(buf: Data)
    requires Accepted(buf)
    ensures Parsable(Contents(buf))
  {
    hide PackManifest, UnpackHeader, UnpackManifest;
    UnpackThenPack(Sections(buf).manifest);
  }

  /** A package the parser accepted, on which the leaf loop ends without leaving the payload. */
  predicate Loadable(p: Parts) {
    Parsable(p) && Hashable(|p.payload|, NarrowSize(p.m))
  }

  function SeedLeaves(h: HashFn, payload: Data, bs: nat): seq<Hash>
    requires payload != [] ==> bs > 0
  {
    if payload == [] then [] else LeavesOf(h, BlocksOf(payload, bs))
  }

  /** The payload's bytes from off on, at most a block of them. */
  function SliceAt(payload: Data, off: nat, bs: U16): (unit: Unit)
    requires off <= |payload|
  {
    payload[off..Min(off + bs, |payload|)]
  }

  lemma LeafStep(payload: Data, bs: U16, off: U32, i: nat)
    requires |payload| < WRAP && Hashable(|payload|, bs) && off == Start(i, bs) && off < |payload|
    ensures i < |BlocksOf(payload, bs)| && Next(off, bs) == Start(i + 1, bs) && Inside(off, bs, |payload|)
    ensures BlocksOf(payload, bs)[i] == payload[off..off + Extent(off, bs, |payload|)] == SliceAt(payload, off, bs)
  {
    hide BlocksOf, Turns, Start;
    var n := Turns(|payload|, bs);
    TurnsAreBlocks(payload, bs);
    LastTurn(|payload|, bs);
    if i >= n {
      StartMonotone(n, i, bs);
    }
    StartMonotone(i + 1, n, bs);
    StartNext(i, bs);
    BlockStart(payload, bs, i);
  }

  /** The 32-bit arithmetic of a block request yields the payload's own bytes. */
  lemma RequestedSlice(payload: Data, bs: U16, i: U16)
    requires Start(i, bs) <= |payload| < WRAP
    ensures i * bs % WRAP == Start(i, bs) && Start(i, bs) + Extent(Start(i, bs), bs, |payload|) <= |payload|
    ensures payload[Start(i, bs)..Start(i, bs) + Extent(Start(i, bs), bs, |payload|)] == SliceAt(payload, Start(i, bs), bs)
  {
    RequestInside(i, bs, |payload|);
  }

  lemma BlockStart(payload: Data, bs: nat, i: nat)
    requires bs > 0 && i < |BlocksOf(payload, bs)|
    ensures 0 <= Start(i, bs) < |payload|
    ensures BlocksOf(payload, bs)[i] == payload[Start(i, bs)..Min(Start(i, bs) + bs, |payload|)]
  {
    BlockAt(payload, bs, i);
  }

  /** The leaf loop with its 32-bit offset. */
  method HashLeaves(h: HashFn, payload: Data, bs: U16) returns (leaves: seq<Hash>)
    requires |payload| < WRAP && Hashable(|payload|, bs)
    ensures leaves == SeedLeaves(h, payload, bs)
  {
    hide BlocksOf, Start, RoundedUp;
    leaves := [];
    var off := 0;
    ghost var done := 0;
    ghost var turns := if payload == [] then 0 else |BlocksOf(payload, bs)|;
    StartNext(0, bs);
    while off < |payload|
      invariant 0 <= off < WRAP && 0 <= done <= turns && off == Start(done, bs)
      invariant leaves == SeedLeaves(h, payload, bs)[..done]
      decreases turns - done
    {
      LeafStep(payload, bs, off, done);
      var end := (off + bs) % WRAP;
      var len := if end <= |payload| then bs else (|payload| - off) % WRAP;
      leaves := leaves + [h(payload[off..off + len])];
      done := done + 1;
      off := end;
    }
    if done < turns {
      BlockStart(payload, bs, done);
    }
  }

  // ---- what it answers ----

  function LeafPath(h: HashFn, p: Parts, i: nat): seq<Hash>
    requires Loadable(p)
  {
    ProofIn(h, SeedLeaves(h, p.payload, NarrowSize(p.m)), i)
  }

  /** No payload of 32-bit length has proofs too long for a unit. */
  lemma LeafPathFits(h: HashFn, p: Parts, i: nat)
    requires Loadable(p)
    ensures |LeafPath(h, p, i)| <= 32 && |Wire.Join(LeafPath(h, p, i))| == 32 * |LeafPath(h, p, i)|
  {
    hide BlocksOf, AuditPath, PathLength, RoundedUp;
    HashesLength(LeafPath(h, p, i));
    var leaves := SeedLeaves(h, p.payload, NarrowSize(p.m));
    if i < |leaves| {
      FewBlocks(p.payload, NarrowSize(p.m));
      ProofLength(PairOf(h), leaves, i);
      WrapIsPow2();
      PathLengthBound(i, |leaves|, 32);
    }
  }

  lemma FewBlocks(payload: Data, bs: nat)
    requires bs > 0
    ensures |BlocksOf(payload, bs)| <= |payload|
  {
    var n := |BlocksOf(payload, bs)|;
    if n > 0 {
      BlockAt(payload, bs, n - 1);
      MulMonotone(1, bs, n - 1);
    }
  }

  function LeafPathUnit(h: HashFn, p: Parts, i: nat): Unit
    requires Loadable(p)
  {
    LeafPathFits(h, p, i);
    Wire.Join(LeafPath(h, p, i))
  }

  function Announcement(env: Env, p: Parts): Frame
    requires Loadable(p)
  {
    StartWith(env, StartInfo(NarrowSize(p.m), NarrowCount(p.m), p.m.payloadLength, MANIFEST_SIZE, SIGNATURE_SIZE))
  }

  predicate AsksBlock(env: Env, f: Frame) {
    f.session == env.session && f.kind == REQUEST && f.index != INDEX_MANIFEST
  }

  /** The block asked for, if it is one the seeder honours, does not start beyond the end of the payload. */
  predicate Answerable(env: Env, p: Parts, f: Frame) {
    AsksBlock(env, f) && f.index < NarrowCount(p.m) ==> Start(f.index, NarrowSize(p.m)) <= |p.payload|
  }

  function AnswerProof(env: Env, p: Parts, frag: Positive, i: U16): seq<Frame>
    requires Loadable(p)
  {
    FramesOfProof(env, i, LeafPathUnit(env.h, p, i), frag)
  }

  function AnswerBlock(env: Env, p: Parts, frag: Positive, i: U16): seq<Frame>
    requires Loadable(p) && (i < NarrowCount(p.m) ==> Start(i, NarrowSize(p.m)) <= |p.payload|)
  {
    if i >= NarrowCount(p.m) then [] else
      Fragments(BLOCK, env.session, i, SliceAt(p.payload, Start(i, NarrowSize(p.m)), NarrowSize(p.m)), 0, frag)
  }

  function Answer(env: Env, p: Parts, frag: Positive, f: Frame): seq<Frame>
    requires Loadable(p) && Answerable(env, p, f)
  {
    if f.session != env.session || f.kind != REQUEST then []
    else if f.index == INDEX_MANIFEST then Fragments(MANIFEST, env.session, INDEX_MANIFEST, Signed(p.m, p.signature), 0, frag)
    else AnswerProof(env, p, frag, f.index) + AnswerBlock(env, p, frag, f.index)
  }

  // ---- a package in 16-bit geometry is loaded and answered as the protocol says ----

  lemma ShapedIsLoadable(p: Pkg)
    ensures Loadable(p) && NarrowSize(p.m) == p.m.blockSize && NarrowCount(p.m) == p.m.blockCount == |BlocksIn(p)|
  {
    hide BlocksOf, Start, Turns;
    TurnsAreBlocks(p.payload, p.m.blockSize);
    InGeometry(p.payload, p.m.blockSize);
  }

  lemma InGeometry(payload: Data, bs: U16)
    requires bs > 0 && |BlocksOf(payload, bs)| <= 0xFFFF
    ensures Start(|BlocksOf(payload, bs)|, bs) < WRAP
  {
    MulMonotone(|BlocksOf(payload, bs)|, 0xFFFF, bs);
  }

  lemma ShapedSlice(p: Pkg, i: nat)
    requires i < |BlocksIn(p)|
    ensures Start(i, p.m.blockSize) <= |p.payload| && SliceAt(p.payload, Start(i, p.m.blockSize), p.m.blockSize) == BlocksIn(p)[i]
  {
    hide BlocksOf;
    BlockStart(p.payload, p.m.blockSize, i);
  }

  lemma ShapedPath(h: HashFn, p: Pkg, i: nat)
    requires Loadable(p) && NarrowSize(p.m) == p.m.blockSize
    ensures LeafPath(h, p, i) == HonestProof(h, p, i)
  {
    hide AuditPath;
    if p.payload == [] {
      assert BlocksIn(p) == [];
    }
  }

  /** Over a package in 16-bit geometry every frame is answerable, and answered as the protocol says. */
  lemma ShapedAnswer(env: Env, p: Pkg, frag: Positive, f: Frame)
    ensures Loadable(p) && Answerable(env, p, f) && Answer(env, p, frag, f) == Respond(env, p, frag, f)
    ensures Announcement(env, p) == StartFrame(env, p)
  {
    hide Shaped, BlocksOf, Start, Fragments, PackManifest, LeafPath, HonestProof, EncodeStart, Loadable, SliceAt;
    ShapedIsLoadable(p);
    ShapedSizes(p);
    if f.index < |BlocksIn(p)| {
      ShapedSlice(p, f.index);
    }
    ShapedPath(env.h, p, f.index);
  }

  lemma ShapedSizes(p: Pkg)
    ensures |p.signature| == SIGNATURE_SIZE && Sized(p.m)
  {
  }

  class OtaSeeder {
    const env: Env
    const frag: Positive
    var valid: bool
    var done: bool
    var manifest: Manifest
    var manifestBytes: Data
    var signature: Data
    var payload: Data
    var blockSize: U16
    var blockCount: U16
    var leaves: seq<Hash>
    /** Frames handed to the radio, oldest first. */
    var outbox: seq<Data>
    ghost var sent: seq<Frame>

    ghost predicate Valid()
      reads this
    {
      && outbox == EncodeAll(sent) && frag <= 225
      && (valid ==>
            && manifestBytes == PackManifest(manifest)
            && Loadable(Parts(manifest, signature, payload))
            && blockSize == NarrowSize(manifest) && blockCount == NarrowCount(manifest)
            && leaves == SeedLeaves(env.h, payload, blockSize))
    }

    ghost function Offer(): (p: Parts)
      requires Valid() && valid
      reads this
      ensures Loadable(p)
    {
      Parts(manifest, signature, payload)
    }

    /** The source hashes the leaves of an accepted package whatever its geometry; `LeafLoop.LoopIsSound` says when that works. */
    constructor (env: Env, package: Data, fragmentSize: nat)
      requires Accepted(package) ==> Hashable(|package| - PAYLOAD_AT, NarrowSize(Contents(package).m))
      ensures Valid() && this.env == env && !done && outbox == [] && sent == []
      ensures frag == if fragmentSize == 0 then 1 else if fragmentSize > 225 then 225 else fragmentSize
      ensures valid <==> Accepted(package)
      ensures valid ==> Offer() == Contents(package)
    {
      hide BlocksOf, UnpackHeader, UnpackManifest, RoundedUp;
      this.env := env;
      var f := if fragmentSize != 0 then fragmentSize else 1;
      frag := if f > MAX_FRAGMENT then MAX_FRAGMENT else f;
      done, valid, outbox, sent := false, false, [], [];
      manifest := Manifest(0, 0, 0, [], [], [], 0, 0, 0, Zeros(32), 0, Zeros(32), 0, 0);
      manifestBytes, signature, payload, blockSize, blockCount, leaves := [], [], [], 0, 0, [];
      new;
      var err, parsed := Parse(package);
      if parsed.Some? {
        Load(parsed.value);
      }
    }

    method Load(p: Parsed)
      requires Valid() && !valid && |p.manifest| == MANIFEST_SIZE && |p.signature| == SIGNATURE_SIZE
      requires UnpackManifest(p.manifest).payloadLength == |p.payload|
      requires Hashable(|p.payload|, NarrowSize(UnpackManifest(p.manifest)))
      modifies `manifest, `manifestBytes, `signature, `payload, `blockSize, `blockCount, `leaves, `valid
      ensures Valid() && valid && Offer() == Parts(UnpackManifest(p.manifest), p.signature, p.payload)
    {
      hide BlocksOf, UnpackManifest, PackManifest, EncodeAll, RoundedUp;
      UnpackThenPack(p.manifest);
      manifest := UnpackManifest(p.manifest);
      manifestBytes, signature, payload := p.manifest, p.signature, p.payload;
      blockSize := manifest.blockSize % 0x1_0000;
      blockCount := manifest.blockCount % 0x1_0000;
      leaves := HashLeaves(env.h, payload, blockSize);
      valid := true;
    }

    method Emit(f: Frame)
      requires Valid() && |Encode(f)| <= 233
      modifies `outbox, `sent
      ensures Valid() && sent == old(sent) + [f]
    {
      hide Loadable, PackManifest, SeedLeaves;
      Receivers.EncodeAllAppend(sent, [f]);
      outbox := outbox + [Encode(f)];
      sent := sent + [f];
    }

    method SendFragments(kind: Byte, index: U16, unit: Unit)
      requires Valid()
      modifies `outbox, `sent
      ensures Valid() && sent == old(sent) + Fragments(kind, env.session, index, unit, 0, frag)
    {
      hide Loadable, PackManifest, EncodeAll, SeedLeaves;
      var off := 0;
      while off < |unit|
        invariant 0 <= off && Valid()
        invariant sent + Fragments(kind, env.session, index, unit, off, frag) == old(sent) + Fragments(kind, env.session, index, unit, 0, frag)
        decreases |unit| - off
      {
        var n := if off + frag <= |unit| then frag else |unit| - off;
        var f := Frame(kind, env.session, index, off, |unit|, unit[off..off + n]);
        ghost var rest := Fragments(kind, env.session, index, unit, off + frag, frag);
        assert sent + ([f] + rest) == sent + [f] + rest;
        Emit(f);
        off := off + frag;
      }
    }

    method Begin()
      requires Valid()
      modifies `outbox, `sent
      ensures Valid() && sent == old(sent) + if valid then [Announcement(env, Offer())] else []
    {
      hide EncodeAll, BlocksOf, PackManifest, EncodeStart;
      if !valid {
        return;
      }
      var body := EncodeStart(StartInfo(blockSize, blockCount, |payload|, MANIFEST_SIZE, |signature|));
      Emit(Frame(START, env.session, 0, 0, 0, body));
    }

    method SendManifest()
      requires Valid() && valid
      modifies `outbox, `sent
      ensures Valid()
      ensures sent == old(sent) + Fragments(MANIFEST, env.session, INDEX_MANIFEST, Signed(Offer().m, Offer().signature), 0, frag)
    {
      hide EncodeAll, BlocksOf, PackManifest, UnpackManifest, Fragments;
      PackThenUnpack(manifest);
      SendFragments(MANIFEST, INDEX_MANIFEST, manifestBytes + signature);
    }

    method SendBlock(index: U16)
      requires Valid() && valid && (index < NarrowCount(Offer().m) ==> Start(index, NarrowSize(Offer().m)) <= |Offer().payload|)
      modifies `outbox, `sent
      ensures Valid() && sent == old(sent) + AnswerBlock(env, Offer(), frag, index)
    {
      hide EncodeAll, BlocksOf, PackManifest, Fragments, SeedLeaves, RoundedUp, Start, SliceAt;
      if index >= blockCount {
        return;
      }
      var base := index * blockSize % WRAP;
      RequestedSlice(payload, blockSize, index);
      var len := if (base + blockSize) % WRAP <= |payload| then blockSize else (|payload| - base) % WRAP;
      SendFragments(BLOCK, index, payload[base..base + len]);
    }

    method SendProof(index: U16)
      requires Valid() && valid
      modifies `outbox, `sent
      ensures Valid() && sent == old(sent) + AnswerProof(env, Offer(), frag, index)
    {
      hide EncodeAll, BlocksOf, PackManifest, Fragments, AuditPath, RoundedUp;
      var proof := MerkleProof(PairOf(env.h), leaves, index);
      LeafPathFits(env.h, Offer(), index);
      var bytes := BytesOf(proof);
      if bytes == [] {
        Emit(Frame(PROOF, env.session, index, 0, 0, []));
        return;
      }
      SendFragments(PROOF, index, bytes);
    }

    /** One received frame, as bytes. */
    method OnFrame(data: Data)
      requires Valid() && (valid && Decode(data).Some? ==> Answerable(env, Offer(), Decode(data).value))
      modifies `outbox, `sent, `done
      ensures Valid()
      ensures var f := Decode(data);
              if valid && f.Some? then
                sent == old(sent) + Answer(env, Offer(), frag, f.value) && done == (old(done) || Finishes(env, f.value))
              else sent == old(sent) && done == old(done)
      ensures |data| < 8 || data[1] != env.session || !valid ==> outbox == old(outbox) && done == old(done)
      ensures valid && |data| >= 8 && data[1] == env.session ==> done == (old(done) || data[0] == 7 || data[0] == 8)
      ensures |data| >= 8 && data[0] != 5 ==> outbox == old(outbox)
    {
      hide EncodeAll, PackManifest, Fragments, AnswerProof, AnswerBlock, Loadable, SeedLeaves;
      if !valid {
        return;
      }
      var h := Decode(data);
      if h.None? {
        return;
      }
      var f := h.value;
      if f.session != env.session {
        return;
      }
      if f.kind == REQUEST {
        if f.index == INDEX_MANIFEST {
          SendManifest();
        } else {
          SendProof(f.index);
          SendBlock(f.index);
          assert old(sent) + AnswerProof(env, Offer(), frag, f.index) + AnswerBlock(env, Offer(), frag, f.index)
            == old(sent) + Answer(env, Offer(), frag, f);
        }
      } else if f.kind == DONE {
        done := true;
      } else if f.kind == ABORT {
        done := true;
      }
    }
  }

  /** A proof laid out as bytes. */
  method BytesOf(proof: seq<Hash>) returns (bytes: Data)
    ensures bytes == Wire.Join(proof)
  {
    bytes := [];
    for i := 0 to |proof|
      invariant bytes + Wire.Join(proof[i..]) == Wire.Join(proof)
    {
      assert proof[i..][0] == proof[i] && proof[i..][1..] == proof[i + 1..];
      bytes := bytes + proof[i];
    }
  }
}
