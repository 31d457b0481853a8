/** The pull protocol as state machines on values: what each side does with one frame. */
module Protocol {
  import opened Wire
  import opened Merkle
  import opened Blocks
  import opened Package
  import opened Frames
  import opened Stores

  /** What is fixed for a session; without a verifier the signature is not checked. */
  datatype Env = Env(h: HashFn, session: Byte, verifier: Option<(Data, Data) -> bool>)

  predicate Trusted(env: Env, manifest: Data, signature: Data) {
    env.verifier.Some? ==> env.verifier.value(manifest, signature)
  }

  // ---- receiver ----

  datatype Receiver = Receiver(
    haveGeometry: bool, blockSize: U16, blockCount: U16, payloadLength: U32,
    manifestRe: Partial, manifest: Option<Manifest>,
    blockRe: Partial, blockInFlight: U16, proofRe: Partial, proofInFlight: U16,
    proofs: map<U16, seq<Hash>>, ready: map<U16, Unit>,
    complete: bool, aborted: bool, store: Store)

  const IDLE := Partial(false, 0, [])

  /** A receiver as constructed over a store that may have survived a reboot. */
  function Fresh(store: Store): Receiver {
    Receiver(false, 0, 0, 0, IDLE, None, IDLE, INDEX_MANIFEST, IDLE, INDEX_MANIFEST, map[], map[], false, false, store)
  }

  /** A block that passed verification, with its proof. */
  datatype Verified = Verified(index: U16, block: Unit, proof: seq<Hash>)

  /** The next state, the frames emitted, and (observed only by the proofs) the blocks verified. */
  datatype Out = Out(r: Receiver, sent: seq<Frame>, verified: seq<Verified>)

  function Simple(env: Env, kind: Byte, index: U16): Frame {
    Frame(kind, env.session, index, 0, 0, [])
  }

  function Lowest(s: Store, i: nat, n: nat): (k: nat)
    requires i <= n
    ensures i <= k <= n && (k < n ==> !Has(s, k)) && forall j: nat | i <= j < k :: Has(s, j)
    decreases n - i
  {
    if i < n && Has(s, i) then Lowest(s, i + 1, n) else i
  }

  function RequestNext(env: Env, r: Receiver): Out {
    if r.manifest.None? then Out(r, [Simple(env, REQUEST, INDEX_MANIFEST)], []) else
      var need := Lowest(r.store, 0, r.blockCount);
      if need == r.blockCount then Out(r.(complete := true), [Simple(env, DONE, 0)], [])
      else Out(r, [Simple(env, REQUEST, need)], [])
  }

  function Poll(env: Env, r: Receiver): Out {
    if r.aborted || r.complete then Out(r, [], []) else RequestNext(env, r)
  }

  function OnFrame(env: Env, r: Receiver, f: Frame): Out {
    if f.session != env.session || r.aborted || r.complete then Out(r, [], [])
    else if f.kind == START then OnStart(env, r, f.body)
    else if f.kind == MANIFEST then OnManifest(env, r, f)
    else if f.kind == BLOCK then OnBlock(env, r, f)
    else if f.kind == PROOF then OnProof(env, r, f)
    else if f.kind == ABORT then Out(r.(aborted := true), [], [])
    else Out(r, [], [])
  }

  function OnStart(env: Env, r: Receiver, body: Data): Out {
    var s := DecodeStart(body);
    if s.None? then Out(r, [], [])
    else RequestNext(env, r.(haveGeometry := true, blockSize := s.value.blockSize,
                             blockCount := s.value.blockCount, payloadLength := s.value.payloadLength))
  }

  function OnManifest(env: Env, r: Receiver, f: Frame): Out {
    if r.manifest.Some? then Out(r, [], []) else
      var fed := Take(r.manifestRe, f);
      var taken := r.(manifestRe := fed.re);
      if fed.done then AcceptManifest(env, taken, fed.re.got) else Out(taken, [], [])
  }

  predicate GeometryAgrees(r: Receiver, m: Manifest) {
    m.blockSize == r.blockSize && m.blockCount == r.blockCount && m.payloadLength == r.payloadLength
  }

  function AcceptManifest(env: Env, r: Receiver, unit: Data): Out {
    var refused := Out(r.(aborted := true), [], []);
    if |unit| < MANIFEST_SIZE then refused else
      var m := UnpackManifest(unit[..MANIFEST_SIZE]);
      if m.magic != MANIFEST_MAGIC || m.format != MANIFEST_FORMAT then refused
      else if !Trusted(env, unit[..MANIFEST_SIZE], unit[MANIFEST_SIZE..]) then refused
      else if r.haveGeometry && !GeometryAgrees(r, m) then refused
      else RequestNext(env, Adopt(r, m))
  }

  /** Without a START the geometry is the manifest's, narrowed to 16 bits. */
  function Adopt(r: Receiver, m: Manifest): Receiver {
    var g := if r.haveGeometry then r
             else r.(blockSize := m.blockSize % 0x1_0000, blockCount := m.blockCount % 0x1_0000,
                     payloadLength := m.payloadLength);
    g.(manifest := Some(m), manifestRe := r.manifestRe.(active := false))
  }

  function OnBlock(env: Env, r: Receiver, f: Frame): Out {
    if r.manifest.None? || Has(r.store, f.index) then Out(r, [], []) else
      var fed := Take(if r.blockInFlight == f.index then r.blockRe else Partial(true, f.total, []), f);
      var taken := r.(blockInFlight := f.index, blockRe := fed.re);
      if fed.done then
        TryFinish(env, taken.(ready := r.ready[f.index := fed.re.got], blockRe := fed.re.(active := false)), f.index)
      else Out(taken, [], [])
  }

  function SplitHashes(d: Data): (hs: seq<Hash>)
    requires |d| % 32 == 0
    ensures |hs| == |d| / 32
    decreases |d|
  {
    if d == [] then [] else [d[..32]] + SplitHashes(d[32..])
  }

  function OnProof(env: Env, r: Receiver, f: Frame): Out {
    if r.manifest.None? || Has(r.store, f.index) then Out(r, [], [])
    else if f.total == 0 then TryFinish(env, r.(proofs := r.proofs[f.index := []]), f.index)
    else
      var fed := Take(if r.proofInFlight == f.index then r.proofRe else Partial(true, f.total, []), f);
      var taken := r.(proofInFlight := f.index, proofRe := fed.re);
      if !fed.done then Out(taken, [], [])
      else
        var closed := taken.(proofRe := fed.re.(active := false));
        if |fed.re.got| % 32 != 0 then Out(closed, [], [])
        else TryFinish(env, closed.(proofs := r.proofs[f.index := SplitHashes(fed.re.got)]), f.index)
  }

  /** merkle_root_ is zero until a manifest is accepted. */
  function Root(r: Receiver): Hash {
    if r.manifest.Some? then r.manifest.value.root else Zeros(32)
  }

  predicate Verifies(env: Env, r: Receiver, v: Verified) {
    Verify(PairOf(env.h), env.h(v.block), v.index, r.blockCount, v.proof, Root(r))
  }

  function TryFinish(env: Env, r: Receiver, i: U16): Out {
    if i !in r.ready || i !in r.proofs then Out(r, [], []) else
      var v := Verified(i, r.ready[i], r.proofs[i]);
      var ok := Verifies(env, r, v);
      var dropped := r.(ready := r.ready - {i}, proofs := r.proofs - {i},
                        store := if ok then Put(r.store, i, v.block).s else r.store);
      var next := RequestNext(env, dropped);
      Out(next.r, (if ok then [Simple(env, ACK, i)] else []) + next.sent, if ok then [v] else [])
  }

  /** The application hands the accepted manifest to the store. */
  function Prime(r: Receiver): Receiver {
    if r.manifest.Some? then r.(store := r.store.(manifest := r.manifest)) else r
  }

  // ---- seeder ----

  /** A package: its manifest (the bytes on the wire are the packing of it), signature and payload. */
  datatype Parts = Parts(m: Manifest, signature: Data, payload: Data)

  predicate Shaped(p: Parts) {
    Sized(p.m) && |p.signature| == SIGNATURE_SIZE && Geometry(p.m, p.payload)
  }

  function Smallest(): (p: Parts)
    ensures Shaped(p)
  {
    Parts(Manifest(MANIFEST_MAGIC, MANIFEST_FORMAT, 0, Zeros(32), Zeros(48), Zeros(16), 1, 0, 0, Zeros(32), 0, Zeros(32), 0, 0),
          Zeros(SIGNATURE_SIZE), [])
  }

  /** Packages in 16-bit geometry: what the transport can carry. */
  type Pkg = p: Parts | Shaped(p) witness Smallest()

  function BlocksIn(p: Pkg): seq<Data> {
    BlocksOf(p.payload, p.m.blockSize)
  }

  /** The manifest carries the root of the payload. */
  ghost predicate GoodPackage(h: HashFn, p: Pkg) {
    p.m.root == RootOf(h, BlocksIn(p))
  }

  type Positive = n: nat | n > 0 witness 1

  function StartWith(env: Env, s: StartInfo): Frame {
    Frame(START, env.session, 0, 0, 0, EncodeStart(s))
  }

  function StartFrame(env: Env, p: Pkg): Frame {
    var m := p.m;
    StartWith(env, StartInfo(m.blockSize, m.blockCount, m.payloadLength, MANIFEST_SIZE, |p.signature|))
  }

  /** The manifest and its signature, as one unit. */
  function Signed(m: Manifest, signature: Data): (u: Unit)
    requires Sized(m) && |signature| == SIGNATURE_SIZE
    ensures |u| == MANIFEST_SIZE + SIGNATURE_SIZE
  {
    PackThenUnpack(m);
    PackManifest(m) + signature
  }

  function ManifestUnit(p: Pkg): (u: Unit)
    ensures |u| == MANIFEST_SIZE + SIGNATURE_SIZE
  {
    Signed(p.m, p.signature)
  }

  function ProofIn(h: HashFn, leaves: seq<Hash>, i: nat): seq<Hash> {
    if i < |leaves| then AuditPath(PairOf(h), leaves, i) else []
  }

  function HonestProof(h: HashFn, p: Pkg, i: nat): seq<Hash> {
    ProofIn(h, LeavesOf(h, BlocksIn(p)), i)
  }

  /** A proof on the wire: its hashes one after the other. */
  function ProofUnit(h: HashFn, p: Pkg, i: nat): (u: Unit)
    ensures |u| == 32 * |HonestProof(h, p, i)|
  {
    ProofUnitFits(h, p, i);
    Wire.Join(HonestProof(h, p, i))
  }

  lemma {:induction false} HashesLength(hs: seq<Hash>)
    ensures |Wire.Join(hs)| == 32 * |hs|
    decreases |hs|
  {
    if hs != [] {
      HashesLength(hs[1..]);
    }
  }

  lemma ProofUnitFits(h: HashFn, p: Pkg, i: nat)
    ensures |HonestProof(h, p, i)| <= 16 && |Wire.Join(HonestProof(h, p, i))| == 32 * |HonestProof(h, p, i)|
  {
    hide BlocksOf, RootOf, AuditPath;
    HashesLength(HonestProof(h, p, i));
    if i < |BlocksIn(p)| {
      ProofLength(PairOf(h), LeavesOf(h, BlocksIn(p)), i);
    }
  }

  /** An empty proof still takes a frame. */
  function FramesOfProof(env: Env, i: U16, unit: Unit, frag: Positive): seq<Frame> {
    if unit == [] then [Simple(env, PROOF, i)] else Fragments(PROOF, env.session, i, unit, 0, frag)
  }

  function ProofFrames(env: Env, p: Pkg, i: U16, frag: Positive): seq<Frame> {
    FramesOfProof(env, i, ProofUnit(env.h, p, i), frag)
  }

  lemma BlockFits(h: HashFn, p: Pkg, i: nat)
    requires i < |BlocksIn(p)|
    ensures 0 < |BlocksIn(p)[i]| <= 0xFFFF
  {
    BlockAt(p.payload, p.m.blockSize, i);
  }

  function BlockFrames(env: Env, p: Pkg, i: U16, frag: Positive): seq<Frame> {
    if i >= |BlocksIn(p)| then [] else
      BlockFits(env.h, p, i);
      Fragments(BLOCK, env.session, i, BlocksIn(p)[i], 0, frag)
  }

  /** The seeder's answer to one frame; it keeps no state but whether it is done. */
  function Respond(env: Env, p: Pkg, frag: Positive, f: Frame): seq<Frame> {
    if f.session != env.session || f.kind != REQUEST then []
    else if f.index == INDEX_MANIFEST then Fragments(MANIFEST, env.session, INDEX_MANIFEST, ManifestUnit(p), 0, frag)
    else ProofFrames(env, p, f.index, frag) + BlockFrames(env, p, f.index, frag)
  }

  predicate Finishes(env: Env, f: Frame) {
    f.session == env.session && (f.kind == DONE || f.kind == ABORT)
  }
}
