/** The update package: writer (tools/packager) and reader (src/package.cpp) over the same bytes. */
module Package {
  import opened Wire
  import opened Merkle
  import opened Blocks

  const MANIFEST_MAGIC: U32 := 0x4E414D4D
  const MANIFEST_FORMAT: U16 := 1
  const FLAG_DELTA: U16 := 0x0001
  const PACKAGE_MAGIC: U32 := 0x41544F4D
  const PACKAGE_FORMAT: U16 := 1

  const HEADER_SIZE := 16
  const MANIFEST_SIZE := 192
  const SIGNATURE_SIZE := 64
  const PAYLOAD_AT := HEADER_SIZE + MANIFEST_SIZE + SIGNATURE_SIZE

  // ---- records ----

  datatype Manifest = Manifest(
    magic: U32, format: U16, flags: U16, env: Data, baseVersion: Data, baseCommit: Data,
    blockSize: U32, blockCount: U32, payloadLength: U32, root: Hash,
    outputLength: U32, outputSha: Hash, reserved0: U32, reserved1: U32)

  const MANIFEST_LAYOUT: seq<nat> := [4, 2, 2, 32, 48, 16, 4, 4, 4, 32, 4, 32, 4, 4]

  predicate Sized(m: Manifest) {
    |m.env| == 32 && |m.baseVersion| == 48 && |m.baseCommit| == 16
  }

  function Fields(m: Manifest): seq<Data> {
    [Put32(m.magic), Put16(m.format), Put16(m.flags), m.env, m.baseVersion, m.baseCommit,
     Put32(m.blockSize), Put32(m.blockCount), Put32(m.payloadLength), m.root,
     Put32(m.outputLength), m.outputSha, Put32(m.reserved0), Put32(m.reserved1)]
  }

  function PackManifest(m: Manifest): Data {
    Join(Fields(m))
  }

  function FromFields(p: seq<Data>): Manifest
    requires Wire.Fits(p, MANIFEST_LAYOUT)
  {
    Manifest(Get32(p[0]), Get16(p[1]), Get16(p[2]), p[3], p[4], p[5],
      Get32(p[6]), Get32(p[7]), Get32(p[8]), p[9], Get32(p[10]), p[11], Get32(p[12]), Get32(p[13]))
  }

  lemma ManifestTotal()
    ensures Total(MANIFEST_LAYOUT) == MANIFEST_SIZE
  {
  }

  function UnpackManifest(d: Data): Manifest
    requires |d| == MANIFEST_SIZE
  {
    ManifestTotal();
    FromFields(Cut(d, MANIFEST_LAYOUT))
  }

  lemma PackThenUnpack(m: Manifest)
    requires Sized(m)
    ensures |PackManifest(m)| == MANIFEST_SIZE && UnpackManifest(PackManifest(m)) == m
  {
    hide Put32, Get32, Put16, Get16, Cut, Join, Total;
    CutJoin(Fields(m), MANIFEST_LAYOUT);
    ManifestTotal();
    forall v: U32 ensures Get32(Put32(v)) == v { Get32Put32(v); }
    forall v: U16 ensures Get16(Put16(v)) == v { Put16IsInverse(v, [0, 0]); }
  }

  /** Every 192 bytes are the packing of what is read from them: readers lose nothing. */
  lemma UnpackThenPack(d: Data)
    requires |d| == MANIFEST_SIZE
    ensures Sized(UnpackManifest(d)) && PackManifest(UnpackManifest(d)) == d
  {
    hide Put32, Get32, Put16, Get16, Cut, Join, Total;
    ManifestTotal();
    var p := Cut(d, MANIFEST_LAYOUT);
    JoinCut(d, MANIFEST_LAYOUT);
    forall w: Data | |w| == 4 ensures Put32(Get32(w)) == w { Put32Get32(w); }
    forall w: Data | |w| == 2 ensures Put16(Get16(w)) == w { Put16IsInverse(0, w); }
    assert Fields(FromFields(p)) == p;
  }

  datatype Header = Header(magic: U32, format: U16, flags: U16, manifestLength: U32, signatureLength: U32)

  const HEADER_LAYOUT: seq<nat> := [4, 2, 2, 4, 4]

  function HeaderFields(h: Header): seq<Data> {
    [Put32(h.magic), Put16(h.format), Put16(h.flags), Put32(h.manifestLength), Put32(h.signatureLength)]
  }

  function PackHeader(h: Header): Data {
    Join(HeaderFields(h))
  }

  lemma HeaderTotal()
    ensures Total(HEADER_LAYOUT) == HEADER_SIZE
  {
  }

  function UnpackHeader(d: Data): Header
    requires |d| == HEADER_SIZE
  {
    HeaderTotal();
    var p := Cut(d, HEADER_LAYOUT);
    Header(Get32(p[0]), Get16(p[1]), Get16(p[2]), Get32(p[3]), Get32(p[4]))
  }

  lemma HeaderRoundTrip(h: Header, d: Data)
    requires |d| == HEADER_SIZE
    ensures |PackHeader(h)| == HEADER_SIZE && UnpackHeader(PackHeader(h)) == h
    ensures PackHeader(UnpackHeader(d)) == d
  {
    hide Put32, Get32, Put16, Get16, Cut, Join, Total;
    CutJoin(HeaderFields(h), HEADER_LAYOUT);
    HeaderTotal();
    JoinCut(d, HEADER_LAYOUT);
    forall v: U32 ensures Get32(Put32(v)) == v { Get32Put32(v); }
    forall v: U16 ensures Get16(Put16(v)) == v { Put16IsInverse(v, [0, 0]); }
    forall w: Data | |w| == 4 ensures Put32(Get32(w)) == w { Put32Get32(w); }
    forall w: Data | |w| == 2 ensures Put16(Get16(w)) == w { Put16IsInverse(0, w); }
    assert HeaderFields(UnpackHeader(d)) == Cut(d, HEADER_LAYOUT);
  }

  // ---- fixed-width text ----

  /** Truncate or pad to n bytes, always leaving a NUL at the end. */
  function Fixed(text: Data, n: nat): (d: Data)
    requires n > 0
    ensures |d| == n
  {
    if |text| >= n then text[..n - 1] + [0] else text + Zeros(n - |text|)
  }

  /** The bytes before the first NUL. */
  function CString(d: Data): Data {
    if d == [] || d[0] == 0 then [] else [d[0]] + CString(d[1..])
  }

  lemma {:induction false} CStringStops(text: Data, rest: Data)
    requires 0 !in text && (rest == [] || rest[0] == 0)
    ensures CString(text + rest) == text
    decreases |text|
  {
    if text == [] {
      assert text + rest == rest;
    } else {
      assert (text + rest)[1..] == text[1..] + rest;
      CStringStops(text[1..], rest);
    }
  }

  lemma {:induction false} CStringIsPrefix(d: Data)
    ensures CString(d) <= d && 0 !in CString(d)
    decreases |d|
  {
    if d != [] && d[0] != 0 {
      CStringIsPrefix(d[1..]);
      assert d == [d[0]] + d[1..];
    }
  }

  /** A text survives its field exactly when it has no NUL and leaves room for one. */
  lemma TextRoundTrip(text: Data, n: nat)
    requires n > 0
    ensures CString(Fixed(text, n)) == text <==> 0 !in text && |text| < n
  {
    CStringIsPrefix(Fixed(text, n));
    if |text| >= n {
      assert Fixed(text, n)[n - 1] == 0;
    } else if 0 !in text {
      CStringStops(text, Zeros(n - |text|));
    }
  }

  /** A text that does not fit is cut to leave room for the NUL, and one with a NUL ends there. */
  lemma TextAsRead(text: Data, n: nat)
    requires n > 0
    ensures CString(Fixed(text, n)) == CString(text[..Min(n - 1, |text|)])
  {
    var kept := text[..Min(n - 1, |text|)];
    assert Fixed(text, n) == kept + Zeros(n - |kept|);
    CStringUpTo(kept, Zeros(n - |kept|));
  }

  lemma {:induction false} CStringUpTo(text: Data, rest: Data)
    requires rest != [] && rest[0] == 0
    ensures CString(text + rest) == CString(text)
    decreases |text|
  {
    if text == [] {
      assert text + rest == rest;
    } else {
      assert (text + rest)[1..] == text[1..] + rest;
      CStringUpTo(text[1..], rest);
    }
  }

  // ---- the writer ----

  function Assemble(header: Header, manifest: Data, signature: Data, payload: Data): Data {
    PackHeader(header) + manifest + signature + payload
  }

  const WRITER_HEADER := Header(PACKAGE_MAGIC, PACKAGE_FORMAT, 0, MANIFEST_SIZE, SIGNATURE_SIZE)

  datatype Identity = Identity(env: Data, version: Data, commit: Data)

  function ManifestFor(h: HashFn, id: Identity, payload: Data, output: Data, delta: bool, bs: U32): Manifest
    requires bs > 0 && |payload| < WRAP && |output| < WRAP && |BlocksOf(payload, bs)| < WRAP
  {
    Manifest(MANIFEST_MAGIC, MANIFEST_FORMAT, if delta then FLAG_DELTA else 0,
      Fixed(id.env, 32), Fixed(id.version, 48), Fixed(id.commit, 16),
      bs, |BlocksOf(payload, bs)|, |payload|, RootOf(h, BlocksOf(payload, bs)), |output|, h(output), 0, 0)
  }

  /** The sizes struct.pack can represent; beyond them the packager raises. */
  predicate Packable(payload: Data, output: Data, bs: nat) {
    && 0 < bs < WRAP && |payload| < WRAP && |output| < WRAP
    && |BlocksOf(payload, bs)| < WRAP
  }

  method Build(h: HashFn, id: Identity, payload: Data, output: Data, delta: bool, bs: nat) returns (package: Option<Data>)
    ensures package.Some? <==> Packable(payload, output, bs)
    ensures package.Some? ==> package.value == Unsigned(h, id, payload, output, delta, bs)
  {
    hide PackManifest, PackHeader, Fixed, RootOf;
    if bs == 0 {
      return None;
    }
    var leaves := LeavesFor(h, payload, bs);
    var root := MerkleRoot(PairOf(h), leaves);
    assert root == RootOf(h, BlocksOf(payload, bs)) by { RootOfLeaves(h, BlocksOf(payload, bs)); }
    if bs >= WRAP || |payload| >= WRAP || |output| >= WRAP || |leaves| >= WRAP {
      return None;
    }
    var manifest := Manifest(MANIFEST_MAGIC, MANIFEST_FORMAT, if delta then FLAG_DELTA else 0,
      Fixed(id.env, 32), Fixed(id.version, 48), Fixed(id.commit, 16),
      bs, |leaves|, |payload|, root, |output|, h(output), 0, 0);
    var buf := PackHeader(Header(PACKAGE_MAGIC, PACKAGE_FORMAT, 0, MANIFEST_SIZE, SIGNATURE_SIZE));
    buf := buf + PackManifest(manifest);
    buf := buf + Zeros(SIGNATURE_SIZE);
    buf := buf + payload;
    package := Some(buf);
  }

  lemma RootOfLeaves(h: HashFn, blocks: seq<Data>)
    ensures var leaves := LeavesOf(h, blocks);
            RootOf(h, blocks) == if leaves == [] then Zeros(32) else TreeRoot(PairOf(h), leaves)
  {
  }

  /** What the packager emits: everything but the signature. */
  function Unsigned(h: HashFn, id: Identity, payload: Data, output: Data, delta: bool, bs: U32): Data
    requires Packable(payload, output, bs)
  {
    Assemble(WRITER_HEADER, PackManifest(ManifestFor(h, id, payload, output, delta, bs)), Zeros(SIGNATURE_SIZE), payload)
  }

  // ---- the reader ----

  datatype PackageError = Ok | TooSmall | BadMagic | BadFormat | BadManifest | LengthMismatch

  datatype Parsed = Parsed(header: Header, manifest: Data, signature: Data, payload: Data)

  /** The four sections of a buffer that is long enough to have them. */
  function Sections(buf: Data): (p: Parsed)
    requires |buf| >= PAYLOAD_AT
    ensures |p.manifest| == MANIFEST_SIZE && |p.signature| == SIGNATURE_SIZE
  {
    Parsed(UnpackHeader(buf[..16]), buf[16..208], buf[208..272], buf[272..])
  }

  predicate GoodHeader(h: Header) {
    && h.magic == PACKAGE_MAGIC && h.format == PACKAGE_FORMAT
    && h.manifestLength == MANIFEST_SIZE && h.signatureLength == SIGNATURE_SIZE
  }

  predicate GoodManifest(m: Manifest, payload: Data) {
    m.magic == MANIFEST_MAGIC && m.format == MANIFEST_FORMAT && m.payloadLength == |payload|
  }

  predicate Accepted(buf: Data) {
    |buf| >= PAYLOAD_AT && var p := Sections(buf);
    GoodHeader(p.header) && GoodManifest(UnpackManifest(p.manifest), p.payload)
  }

  /** The first rule a rejected buffer breaks, in the order the rules are applied. */
  function Verdict(buf: Data): PackageError {
    if |buf| < HEADER_SIZE then TooSmall else
      var h := UnpackHeader(buf[..HEADER_SIZE]);
      if h.magic != PACKAGE_MAGIC then BadMagic
      else if h.format != PACKAGE_FORMAT then BadFormat
      else if h.manifestLength != MANIFEST_SIZE || h.signatureLength != SIGNATURE_SIZE then BadManifest
      else if |buf| < PAYLOAD_AT then LengthMismatch else
        var m := UnpackManifest(buf[16..208]);
        if m.magic != MANIFEST_MAGIC || m.format != MANIFEST_FORMAT then BadManifest
        else if m.payloadLength != |buf| - PAYLOAD_AT then LengthMismatch else Ok
  }

  method Parse(buf: Data) returns (err: PackageError, out: Option<Parsed>)
    ensures err == Verdict(buf) && (err.Ok? <==> Accepted(buf))
    ensures out == if err.Ok? then Some(Sections(buf)) else None
  {
    hide UnpackHeader, UnpackManifest;
    out := None;
    if |buf| < HEADER_SIZE {
      return TooSmall, None;
    }
    var hdr := UnpackHeader(buf[..HEADER_SIZE]);
    if hdr.magic != PACKAGE_MAGIC {
      return BadMagic, None;
    }
    if hdr.format != PACKAGE_FORMAT {
      return BadFormat, None;
    }
    if hdr.manifestLength != MANIFEST_SIZE {
      return BadManifest, None;
    }
    if hdr.signatureLength != SIGNATURE_SIZE {
      return BadManifest, None;
    }
    var off := HEADER_SIZE;
    if hdr.manifestLength > |buf| - off {
      return LengthMismatch, None;
    }
    var manifest := buf[off..off + hdr.manifestLength];
    off := off + hdr.manifestLength;
    if hdr.signatureLength > |buf| - off {
      return LengthMismatch, None;
    }
    var signature := buf[off..off + hdr.signatureLength];
    off := off + hdr.signatureLength;
    var m := UnpackManifest(manifest);
    if m.magic != MANIFEST_MAGIC {
      return BadManifest, None;
    }
    if m.format != MANIFEST_FORMAT {
      return BadManifest, None;
    }
    if m.payloadLength != |buf| - off {
      return LengthMismatch, None;
    }
    return Ok, Some(Parsed(hdr, manifest, signature, buf[off..]));
  }

  // ---- writer and reader agree ----

  lemma SectionsOfAssembled(header: Header, manifest: Data, signature: Data, payload: Data)
    requires |manifest| == MANIFEST_SIZE && |signature| == SIGNATURE_SIZE
    ensures var buf := Assemble(header, manifest, signature, payload);
            |buf| >= PAYLOAD_AT && Sections(buf) == Parsed(header, manifest, signature, payload)
  {
    hide PackHeader, UnpackHeader;
    HeaderRoundTrip(header, Zeros(HEADER_SIZE));
    var head := PackHeader(header);
    var buf := Assemble(header, manifest, signature, payload);
    assert buf == head + (manifest + signature + payload);
    assert buf[..16] == head && buf[16..208] == manifest && buf[208..272] == signature && buf[272..] == payload;
  }

  /** Re-emitting what was read gives back the buffer, bit for bit. */
  lemma AssembleSections(buf: Data)
    requires |buf| >= PAYLOAD_AT
    ensures var p := Sections(buf); Assemble(p.header, p.manifest, p.signature, p.payload) == buf
  {
    hide PackHeader, UnpackHeader;
    HeaderRoundTrip(WRITER_HEADER, buf[..16]);
  }

  /** Two accepted buffers with the same manifest, signature and payload differ at most in the unchecked header flags:
      what the packager would write again is the buffer itself exactly when its flags are zero. */
  lemma ReemitAccepted(buf: Data)
    requires Accepted(buf)
    ensures var p := Sections(buf);
            && p.header == WRITER_HEADER.(flags := p.header.flags)
            && (Assemble(WRITER_HEADER, PackManifest(UnpackManifest(p.manifest)), p.signature, p.payload) == buf
                <==> p.header.flags == 0)
  {
    hide PackHeader, UnpackHeader, UnpackManifest, PackManifest;
    var p := Sections(buf);
    AssembleSections(buf);
    UnpackThenPack(p.manifest);
    SectionsOfAssembled(WRITER_HEADER, p.manifest, p.signature, p.payload);
  }

  /** Everything the packager emits is accepted, and read back as what was put in. */
  lemma BuildThenParse(h: HashFn, id: Identity, payload: Data, output: Data, delta: bool, bs: U32)
    requires Packable(payload, output, bs)
    ensures Accepted(Unsigned(h, id, payload, output, delta, bs))
    ensures var p := Sections(Unsigned(h, id, payload, output, delta, bs));
            && UnpackManifest(p.manifest) == ManifestFor(h, id, payload, output, delta, bs)
            && p.signature == Zeros(SIGNATURE_SIZE)
            && p.payload == payload
  {
    hide PackHeader, UnpackHeader, UnpackManifest, PackManifest, RootOf, Fixed, BlocksOf;
    var m := ManifestFor(h, id, payload, output, delta, bs);
    PackThenUnpack(m);
    SectionsOfAssembled(WRITER_HEADER, PackManifest(m), Zeros(SIGNATURE_SIZE), payload);
  }

  // ---- the packager's own reader ----

  /** Slices past the end are shorter or empty, as in the packager's language. */
  function Slice(buf: Data, from: nat, to: nat): Data
    requires from <= to
  {
    buf[Min(from, |buf|)..Min(to, |buf|)]
  }

  /** It never looks whether the signature is there: whatever follows it is the payload, even nothing. */
  function Rest(buf: Data): Data {
    buf[Min(PAYLOAD_AT, |buf|)..]
  }

  function HeaderOf(buf: Data): Header
    requires |buf| >= 208
  {
    UnpackHeader(buf[..16])
  }

  function ManifestOf(buf: Data): Manifest
    requires |buf| >= 208
  {
    UnpackManifest(buf[16..208])
  }

  predicate ReaderTakes(buf: Data) {
    |buf| >= 208 && GoodHeader(HeaderOf(buf)) && GoodManifest(ManifestOf(buf), Rest(buf))
  }

  datatype Reading = Reading(manifest: Manifest, signature: Data, payload: Data)

  method ParsePackage(buf: Data) returns (out: Option<Reading>)
    ensures out.Some? <==> ReaderTakes(buf)
    ensures out.Some? ==> out.value == Reading(ManifestOf(buf), Slice(buf, 208, 272), Rest(buf))
  {
    hide UnpackHeader, UnpackManifest;
    if |buf| < HEADER_SIZE {
      return None;
    }
    var h := UnpackHeader(buf[..HEADER_SIZE]);
    if h.magic != PACKAGE_MAGIC || h.format != PACKAGE_FORMAT {
      return None;
    }
    if h.manifestLength != MANIFEST_SIZE || h.signatureLength != SIGNATURE_SIZE {
      return None;
    }
    var off := HEADER_SIZE;
    var manifest := Slice(buf, off, off + h.manifestLength);
    if |manifest| < MANIFEST_SIZE {
      return None;
    }
    var m := UnpackManifest(manifest);
    if m.magic != MANIFEST_MAGIC || m.format != MANIFEST_FORMAT {
      return None;
    }
    off := off + h.manifestLength;
    var signature := Slice(buf, off, off + h.signatureLength);
    off := off + h.signatureLength;
    var payload := buf[Min(off, |buf|)..];
    if |payload| != m.payloadLength {
      return None;
    }
    out := Some(Reading(m, signature, payload));
  }

  /** The two readers agree on every buffer but packages of an empty payload that end inside their signature, which only
      the packager's reader takes. */
  lemma ReadersAgree(buf: Data)
    ensures Accepted(buf) ==> ReaderTakes(buf)
    ensures ReaderTakes(buf) && !Accepted(buf) <==>
            208 <= |buf| < 272 && GoodHeader(HeaderOf(buf)) && GoodManifest(ManifestOf(buf), [])
  {
    hide UnpackHeader, UnpackManifest;
    if |buf| >= 272 {
      assert Rest(buf) == buf[272..];
    } else {
      assert Rest(buf) == [];
    }
  }

  // ---- signing ----

  /** Splice a signature into its slot. */
  function AttachSignature(buf: Data, signature: Data): Option<Data> {
    if |signature| != SIGNATURE_SIZE then None
    else Some(Slice(buf, 0, 208) + signature + Rest(buf))
  }

  /** Signing a buffer that has its manifest changes the signature and nothing else. What comes out is accepted on the device
      exactly when the packager's reader takes what went in, whatever its length: a signature makes an acceptable package of
      one that ends inside its slot. */
  lemma SigningTouchesOnlySignature(buf: Data, signature: Data)
    requires |signature| == SIGNATURE_SIZE
    ensures var signed := AttachSignature(buf, signature).value;
            && (|buf| >= 208 ==>
                  && |signed| == PAYLOAD_AT + |Rest(buf)|
                  && Sections(signed) == Parsed(HeaderOf(buf), buf[16..208], signature, Rest(buf)))
            && (Accepted(signed) <==> ReaderTakes(buf))
            && (|buf| >= PAYLOAD_AT ==> (Accepted(signed) <==> Accepted(buf)))
  {
    hide PackHeader, UnpackHeader, UnpackManifest;
    var signed := AttachSignature(buf, signature).value;
    if |buf| >= 208 {
      assert signed[..16] == buf[..16] && signed[16..208] == buf[16..208];
      assert signed[208..272] == signature && signed[272..] == Rest(buf);
      ReadersAgree(buf);
    }
  }

  // ---- integrity ----

  ghost predicate Intact(h: HashFn, buf: Data) {
    && ReaderTakes(buf)
    && var m := ManifestOf(buf);
    && m.blockSize > 0
    && m.root == RootOf(h, BlocksOf(Rest(buf), m.blockSize))
    && (m.flags % 2 == 0 ==> m.outputSha == h(Rest(buf)))
  }

  method VerifyIntegrity(h: HashFn, buf: Data) returns (ok: bool)
    ensures ok <==> Intact(h, buf)
  {
    hide UnpackManifest, UnpackHeader, RootOf, BlocksOf;
    var parsed := ParsePackage(buf);
    if parsed.None? {
      return false;
    }
    var p := parsed.value;
    var m := p.manifest;
    if m.blockSize == 0 {
      return false;
    }
    var leaves := LeavesFor(h, p.payload, m.blockSize);
    RootOfLeaves(h, BlocksOf(p.payload, m.blockSize));
    var root := MerkleRoot(PairOf(h), leaves);
    if root != m.root {
      return false;
    }
    if m.flags % 2 == 0 {
      return h(p.payload) == m.outputSha;
    }
    return true;
  }

  /** A built package passes its own integrity check exactly when it is a delta or hashes like the output image. */
  lemma BuiltIsIntact(h: HashFn, id: Identity, payload: Data, output: Data, delta: bool, bs: U32)
    requires Packable(payload, output, bs)
    ensures Intact(h, Unsigned(h, id, payload, output, delta, bs)) <==> delta || h(payload) == h(output)
  {
    hide PackHeader, UnpackHeader, UnpackManifest, PackManifest, RootOf, Fixed, BlocksOf, Unsigned, GoodHeader;
    BuildThenParse(h, id, payload, output, delta, bs);
    ReadersAgree(Unsigned(h, id, payload, output, delta, bs));
  }

  /** For example, the package of an empty image, cut anywhere inside its signature: the packager calls it intact, the device
      rejects it, and with a signature attached the device accepts it. */
  lemma CutPackageIsIntact(h: HashFn, id: Identity, bs: U32, k: nat, signature: Data)
    requires bs > 0 && 208 <= k < 272 && |signature| == SIGNATURE_SIZE
    ensures var whole := Unsigned(h, id, [], [], false, bs);
            && |whole| == 272 && Intact(h, whole[..k]) && !Accepted(whole[..k])
            && Accepted(AttachSignature(whole[..k], signature).value)
  {
    hide PackHeader, UnpackHeader, UnpackManifest, PackManifest, RootOf, Fixed, BlocksOf, Unsigned, AttachSignature;
    NoBlocks(bs);
    var whole := Unsigned(h, id, [], [], false, bs);
    BuildThenParse(h, id, [], [], false, bs);
    BuiltIsIntact(h, id, [], [], false, bs);
    var cut := whole[..k];
    assert cut[..16] == whole[..16] && cut[16..208] == whole[16..208] && Rest(cut) == Rest(whole) == [];
    ReadersAgree(cut);
    SigningTouchesOnlySignature(cut, signature);
  }

  lemma NoBlocks(bs: U32)
    requires bs > 0
    ensures Packable([], [], bs)
  {
  }
}
