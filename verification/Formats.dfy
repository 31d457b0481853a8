/** The wire formats byte by byte, as section 9 of docs/guide.md lays them down: what stands at which offset. */
module Formats {
  import opened Wire
  import opened Merkle
  import opened Blocks
  import opened Package
  import opened Frames
  import opened Protocol

  // ---- frames ----

  /** Type, session, index, offset and total, in that order and with the low byte first. */
  lemma FrameLayout(f: Frame)
    ensures var d := Encode(f);
            && |d| == 8 + |f.body| && d[0] == f.kind && d[1] == f.session
            && Little(d[2..4]) == f.index && Little(d[4..6]) == f.off && Little(d[6..8]) == f.total && d[8..] == f.body
  {
    hide Put16, Little;
    var d := Encode(f);
    LittlePut(f.index, 0);
    LittlePut(f.off, 0);
    LittlePut(f.total, 0);
    assert d[2..4] == Put16(f.index) && d[4..6] == Put16(f.off) && d[6..8] == Put16(f.total);
  }

  /** What is read from eight bytes or more is what stands at those offsets; fewer are no frame. */
  lemma FrameAsRead(d: Data)
    ensures Decode(d).Some? <==> |d| >= 8
    ensures |d| >= 8 ==>
              var f := Decode(d).value;
              && f.kind == d[0] && f.session == d[1] && f.body == d[8..]
              && f.index == Little(d[2..4]) && f.off == Little(d[4..6]) && f.total == Little(d[6..8])
  {
    hide Get16, Little;
    if |d| >= 8 {
      LittleOf2(d[2..4]);
      LittleOf2(d[4..6]);
      LittleOf2(d[6..8]);
    }
  }

  /** The frames a receiver sends, as bytes. */
  lemma ReceiverFrameBytes(env: Env, i: U16)
    ensures Encode(Simple(env, REQUEST, INDEX_MANIFEST)) == [5, env.session, 0xFF, 0xFF, 0, 0, 0, 0]
    ensures Encode(Simple(env, REQUEST, i)) == [5, env.session, i % 0x100, i / 0x100, 0, 0, 0, 0]
    ensures Encode(Simple(env, ACK, i)) == [6, env.session, i % 0x100, i / 0x100, 0, 0, 0, 0]
    ensures Encode(Simple(env, DONE, 0)) == [7, env.session, 0, 0, 0, 0, 0, 0]
  {
  }

  /** START announces block size, block count and payload length, then the sizes of manifest and signature. */
  lemma StartLayout(env: Env, p: Pkg)
    ensures var f := StartFrame(env, p); var d := f.body;
            && f.kind == 1 && f.session == env.session && f.index == f.off == f.total == 0 && |d| == 12
            && Little(d[0..2]) == p.m.blockSize && Little(d[2..4]) == p.m.blockCount && Little(d[4..8]) == p.m.payloadLength
            && Little(d[8..10]) == 192 && Little(d[10..12]) == 64
  {
    hide Put16, Put32, Little, BlocksOf;
    var m, d := p.m, StartFrame(env, p).body;
    LittlePut(m.blockSize, m.payloadLength);
    LittlePut(m.blockCount, 0);
    LittlePut(192, 0);
    LittlePut(64, 0);
    assert d[0..2] == Put16(m.blockSize) && d[2..4] == Put16(m.blockCount) && d[4..8] == Put32(m.payloadLength);
    assert d[8..10] == Put16(192) && d[10..12] == Put16(64);
  }

  /** A START body is read from its first twelve bytes; a shorter one is not read. */
  lemma StartAsRead(d: Data)
    ensures DecodeStart(d).Some? <==> |d| >= 12
    ensures |d| >= 12 ==>
              var s := DecodeStart(d).value;
              s.blockSize == Little(d[0..2]) && s.blockCount == Little(d[2..4]) && s.payloadLength == Little(d[4..8])
  {
    hide Get16, Get32, Little;
    if |d| >= 12 {
      LittleOf2(d[0..2]);
      LittleOf2(d[2..4]);
      LittleOf4(d[4..8]);
    }
  }

  // ---- fragments ----

  /** Fragment k of a unit carries its bytes from k times the fragment size on, as many as fit, and there are as many fragments
      as that takes. */
  lemma {:induction false} FragmentAt(kind: Byte, session: Byte, index: U16, unit: Unit, off: nat, frag: nat, k: nat)
    requires frag > 0
    ensures var frames := Fragments(kind, session, index, unit, off, frag);
            && k * frag >= 0 && (k < |frames| <==> off + k * frag < |unit|)
            && (k < |frames| ==>
                  var at := off + k * frag;
                  frames[k] == Frame(kind, session, index, at, |unit|, unit[at..Min(at + frag, |unit|)]))
    decreases |unit| - off
  {
    if off < |unit| {
      var n := Min(frag, |unit| - off);
      if k > 0 {
        FragmentAt(kind, session, index, unit, off + n, frag, k - 1);
        assert k * frag == (k - 1) * frag + frag;
        LastFragment(off, n, frag, k, |unit|);
      }
    } else {
      MulMonotone(0, k, frag);
    }
  }

  lemma LastFragment(off: nat, n: nat, frag: nat, k: nat, size: nat)
    requires k > 0 && off < size && n == Min(frag, size - off)
    ensures (k - 1) * frag >= 0 && k * frag == (k - 1) * frag + frag
    ensures n < frag ==> off + n == size && off + k * frag >= size
  {
    MulMonotone(0, k - 1, frag);
  }

  // ---- the manifest ----

  /** What stands at the offsets of the manifest's fields. */
  predicate ManifestStandsIn(m: Manifest, d: Data)
    requires |d| == 192
  {
    && Little(d[0..4]) == m.magic && Little(d[4..6]) == m.format && Little(d[6..8]) == m.flags
    && d[8..40] == m.env && d[40..88] == m.baseVersion && d[88..104] == m.baseCommit
    && Little(d[104..108]) == m.blockSize && Little(d[108..112]) == m.blockCount && Little(d[112..116]) == m.payloadLength
    && d[116..148] == m.root && Little(d[148..152]) == m.outputLength && d[152..184] == m.outputSha
    && Little(d[184..188]) == m.reserved0 && Little(d[188..192]) == m.reserved1
  }

  lemma {:induction false} CutAt(d: Data, at: nat, sizes: seq<nat>, k: nat)
    requires |d| == Total(sizes) && k < |sizes| && at == Total(sizes[..k])
    ensures at + sizes[k] <= |d| && Cut(d, sizes)[k] == d[at..at + sizes[k]]
    decreases k
  {
    hide Cut, Total;
    var first, rest := sizes[0], sizes[1..];
    TotalParts(sizes);
    CutParts(d, sizes);
    if k == 0 {
      NoTotal();
    } else {
      TotalParts(sizes[..k]);
      assert sizes[..k][1..] == rest[..k - 1];
      CutAt(d[first..], at - first, rest, k - 1);
      SliceAfter(d, first, at, sizes[k]);
    }
  }

  lemma TotalParts(sizes: seq<nat>)
    requires sizes != []
    ensures Total(sizes) == sizes[0] + Total(sizes[1..])
  {
  }

  lemma CutParts(d: Data, sizes: seq<nat>)
    requires |d| == Total(sizes) && sizes != [] && Total(sizes) == sizes[0] + Total(sizes[1..])
    ensures Cut(d, sizes) == [d[..sizes[0]]] + Cut(d[sizes[0]..], sizes[1..])
  {
  }

  lemma SliceAfter(d: Data, first: nat, at: nat, size: nat)
    requires first <= at && at + size <= |d|
    ensures d[first..][at - first..at - first + size] == d[at..at + size]
  {
    var x, y := d[first..][at - first..at - first + size], d[at..at + size];
    assert forall i | 0 <= i < size :: x[i] == y[i];
  }

  lemma {:induction false} TotalOfPrefix(sizes: seq<nat>, k: nat)
    requires k < |sizes|
    ensures Total(sizes[..k + 1]) == Total(sizes[..k]) + sizes[k]
    decreases k
  {
    if k > 0 {
      assert sizes[..k + 1][1..] == sizes[1..][..k] && sizes[..k][1..] == sizes[1..][..k - 1];
      TotalOfPrefix(sizes[1..], k - 1);
    }
  }

  const MANIFEST_OFFSETS: seq<nat> := [0, 4, 6, 8, 40, 88, 104, 108, 112, 116, 148, 152, 184, 188]

  lemma {:induction false} ManifestOffset(k: nat)
    requires k < 14
    ensures Total(MANIFEST_LAYOUT[..k]) == MANIFEST_OFFSETS[k]
    decreases k
  {
    hide Total;
    if k == 0 {
      NoTotal();
    } else {
      ManifestOffset(k - 1);
      TotalOfPrefix(MANIFEST_LAYOUT, k - 1);
    }
  }

  lemma NoTotal()
    ensures Total([]) == 0
  {
  }

  lemma ManifestField(d: Data, k: nat)
    requires |d| == 192 && k < 14
    ensures Total(MANIFEST_LAYOUT) == 192 && MANIFEST_OFFSETS[k] + MANIFEST_LAYOUT[k] <= 192
    ensures Cut(d, MANIFEST_LAYOUT)[k] == d[MANIFEST_OFFSETS[k]..MANIFEST_OFFSETS[k] + MANIFEST_LAYOUT[k]]
  {
    hide Total, Cut;
    ManifestTotal();
    ManifestOffset(k);
    CutAt(d, MANIFEST_OFFSETS[k], MANIFEST_LAYOUT, k);
  }

  /** Reading 192 bytes gives the manifest that stands in them. */
  lemma ManifestAsRead(d: Data)
    requires |d| == 192
    ensures ManifestStandsIn(UnpackManifest(d), d)
  {
    hide Total, Cut, Little, Get16, Get32;
    ManifestTotal();
    ManifestFieldsAsCut(d);
    forall w: Data | |w| == 2 ensures Little(w) == Get16(w) { LittleOf2(w); }
    forall w: Data | |w| == 4 ensures Little(w) == Get32(w) { LittleOf4(w); }
  }

  lemma ManifestFieldsAsCut(d: Data)
    requires |d| == 192 && Total(MANIFEST_LAYOUT) == 192
    ensures Cut(d, MANIFEST_LAYOUT) ==
            [d[0..4], d[4..6], d[6..8], d[8..40], d[40..88], d[88..104], d[104..108], d[108..112], d[112..116], d[116..148],
             d[148..152], d[152..184], d[184..188], d[188..192]]
  {
    hide Total, Cut;
    forall k: nat | k < 14
      ensures Cut(d, MANIFEST_LAYOUT)[k] == d[MANIFEST_OFFSETS[k]..MANIFEST_OFFSETS[k] + MANIFEST_LAYOUT[k]]
    {
      ManifestField(d, k);
    }
  }

  lemma ManifestAsWritten(m: Manifest)
    requires Sized(m)
    ensures |PackManifest(m)| == 192 && ManifestStandsIn(m, PackManifest(m))
  {
    hide PackManifest, UnpackManifest, ManifestStandsIn;
    PackThenUnpack(m);
    ManifestAsRead(PackManifest(m));
  }

  // ---- the package header ----

  lemma HeaderAsRead(d: Data)
    requires |d| == 16
    ensures var h := UnpackHeader(d);
            && h.magic == Little(d[0..4]) && h.format == Little(d[4..6]) && h.flags == Little(d[6..8])
            && h.manifestLength == Little(d[8..12]) && h.signatureLength == Little(d[12..16])
  {
    hide Little, Get16, Get32, Total;
    HeaderTotal();
    HeaderFieldsAsCut(d);
    forall w: Data | |w| == 2 ensures Little(w) == Get16(w) { LittleOf2(w); }
    forall w: Data | |w| == 4 ensures Little(w) == Get32(w) { LittleOf4(w); }
  }

  lemma HeaderFieldsAsCut(d: Data)
    requires |d| == 16 && Total(HEADER_LAYOUT) == 16
    ensures Cut(d, HEADER_LAYOUT) == [d[0..4], d[4..6], d[6..8], d[8..12], d[12..16]]
  {
    hide Cut, Total;
    NoTotal();
    TotalOfPrefix(HEADER_LAYOUT, 0);
    TotalOfPrefix(HEADER_LAYOUT, 1);
    TotalOfPrefix(HEADER_LAYOUT, 2);
    TotalOfPrefix(HEADER_LAYOUT, 3);
    CutAt(d, 0, HEADER_LAYOUT, 0);
    CutAt(d, 4, HEADER_LAYOUT, 1);
    CutAt(d, 6, HEADER_LAYOUT, 2);
    CutAt(d, 8, HEADER_LAYOUT, 3);
    CutAt(d, 12, HEADER_LAYOUT, 4);
  }

  // ---- whole packages ----

  /** The rules of the parser, by what stands in the buffer. */
  predicate MagicStands(buf: Data) {
    |buf| >= 16 && Little(buf[0..4]) == 0x41544F4D
  }

  predicate FormatStands(buf: Data) {
    |buf| >= 16 && Little(buf[4..6]) == 1
  }

  predicate SizesStand(buf: Data) {
    |buf| >= 16 && Little(buf[8..12]) == 192 && Little(buf[12..16]) == 64
  }

  predicate ManifestMarkStands(buf: Data) {
    |buf| >= 272 && Little(buf[16..20]) == 0x4E414D4D && Little(buf[20..22]) == 1
  }

  predicate LengthStands(buf: Data) {
    |buf| >= 272 && Little(buf[128..132]) == |buf| - 272
  }

  /** The manifest of a buffer, at the buffer's own offsets. */
  lemma ManifestInBuffer(buf: Data)
    requires |buf| >= 208
    ensures var m := UnpackManifest(buf[16..208]);
            && m.magic == Little(buf[16..20]) && m.format == Little(buf[20..22]) && m.flags == Little(buf[22..24])
            && m.env == buf[24..56] && m.baseVersion == buf[56..104] && m.baseCommit == buf[104..120]
            && m.blockSize == Little(buf[120..124]) && m.blockCount == Little(buf[124..128]) && m.payloadLength == Little(buf[128..132])
            && m.root == buf[132..164] && m.outputLength == Little(buf[164..168]) && m.outputSha == buf[168..200]
            && m.reserved0 == Little(buf[200..204]) && m.reserved1 == Little(buf[204..208])
  {
    hide Little, UnpackManifest;
    var d := buf[16..208];
    ManifestAsRead(d);
    forall a: nat, b: nat | a <= b <= 192 ensures d[a..b] == buf[16 + a..16 + b] {
    }
  }

  lemma HeaderInBuffer(buf: Data)
    requires |buf| >= 16
    ensures var h := UnpackHeader(buf[..16]);
            && h.magic == Little(buf[0..4]) && h.format == Little(buf[4..6]) && h.flags == Little(buf[6..8])
            && h.manifestLength == Little(buf[8..12]) && h.signatureLength == Little(buf[12..16])
  {
    hide Little, UnpackHeader;
    var d := buf[..16];
    HeaderAsRead(d);
    assert d[0..4] == buf[0..4] && d[4..6] == buf[4..6] && d[6..8] == buf[6..8] && d[8..12] == buf[8..12] && d[12..16] == buf[12..16];
  }

  /** Which error a buffer gets: that of the first rule it breaks, and none if it breaks none. */
  lemma VerdictByBytes(buf: Data)
    ensures |buf| < 16 ==> Verdict(buf) == TooSmall
    ensures |buf| >= 16 && !MagicStands(buf) ==> Verdict(buf) == BadMagic
    ensures MagicStands(buf) && !FormatStands(buf) ==> Verdict(buf) == BadFormat
    ensures MagicStands(buf) && FormatStands(buf) && !SizesStand(buf) ==> Verdict(buf) == BadManifest
    ensures MagicStands(buf) && FormatStands(buf) && SizesStand(buf) ==>
              if |buf| < 272 then Verdict(buf) == LengthMismatch
              else if !ManifestMarkStands(buf) then Verdict(buf) == BadManifest
              else if !LengthStands(buf) then Verdict(buf) == LengthMismatch
              else Verdict(buf) == PackageError.Ok
  {
    hide Little, UnpackHeader, UnpackManifest;
    if |buf| >= 16 {
      HeaderInBuffer(buf);
    }
    if |buf| >= 272 {
      ManifestInBuffer(buf);
    }
  }

  lemma AcceptedByBytes(buf: Data)
    ensures Accepted(buf) <==>
            MagicStands(buf) && FormatStands(buf) && SizesStand(buf) && ManifestMarkStands(buf) && LengthStands(buf)
  {
    hide Little, UnpackHeader, UnpackManifest;
    if |buf| >= 272 {
      HeaderInBuffer(buf);
      ManifestInBuffer(buf);
    }
  }

  // ---- what the packager writes ----

  /** The gate before activation: the reconstructed image has the recorded length and hash. */
  predicate OutputGate(h: HashFn, image: Data, m: Manifest) {
    |image| == m.outputLength && h(image) == m.outputSha
  }

  /** What stands in a built package, full or delta: the sizes and the root of the payload, the length and the hash of the output
      image, the delta flag, no signature, and the payload. */
  lemma BuiltRecords(h: HashFn, id: Identity, payload: Data, output: Data, delta: bool, bs: U32)
    requires Packable(payload, output, bs)
    ensures var buf := Unsigned(h, id, payload, output, delta, bs);
            && |buf| == 272 + |payload| && MagicStands(buf) && FormatStands(buf) && SizesStand(buf) && ManifestMarkStands(buf)
            && Little(buf[6..8]) == 0 && Little(buf[22..24]) == (if delta then 1 else 0)
            && Little(buf[120..124]) == bs && Little(buf[124..128]) == |BlocksOf(payload, bs)| && Little(buf[128..132]) == |payload|
            && buf[132..164] == RootOf(h, BlocksOf(payload, bs))
            && Little(buf[164..168]) == |output| && buf[168..200] == h(output)
            && buf[208..272] == Zeros(64) && buf[272..] == payload
  {
    hide Little, UnpackManifest, PackManifest, UnpackHeader, PackHeader, Unsigned, BlocksOf, RootOf, Fixed;
    var buf := Unsigned(h, id, payload, output, delta, bs);
    BuildThenParse(h, id, payload, output, delta, bs);
    BuiltHeader(h, id, payload, output, delta, bs);
    HeaderInBuffer(buf);
    ManifestInBuffer(buf);
  }

  lemma BuiltHeader(h: HashFn, id: Identity, payload: Data, output: Data, delta: bool, bs: U32)
    requires Packable(payload, output, bs)
    ensures var buf := Unsigned(h, id, payload, output, delta, bs); |buf| >= 272 && UnpackHeader(buf[..16]) == WRITER_HEADER
  {
    hide UnpackManifest, PackManifest, UnpackHeader, PackHeader, BlocksOf, RootOf, Fixed;
    var m := ManifestFor(h, id, payload, output, delta, bs);
    PackThenUnpack(m);
    SectionsOfAssembled(WRITER_HEADER, PackManifest(m), Zeros(SIGNATURE_SIZE), payload);
  }

  /** The three texts, each in its own field: read back exactly when it fits, and otherwise as much as fits. */
  lemma BuiltIdentity(h: HashFn, id: Identity, payload: Data, output: Data, delta: bool, bs: U32)
    requires Packable(payload, output, bs)
    ensures var buf := Unsigned(h, id, payload, output, delta, bs);
            && |buf| >= 272
            && (CString(buf[24..56]) == id.env <==> 0 !in id.env && |id.env| < 32)
            && (CString(buf[56..104]) == id.version <==> 0 !in id.version && |id.version| < 48)
            && (CString(buf[104..120]) == id.commit <==> 0 !in id.commit && |id.commit| < 16)
            && CString(buf[24..56]) == CString(id.env[..Min(31, |id.env|)])
            && CString(buf[56..104]) == CString(id.version[..Min(47, |id.version|)])
            && CString(buf[104..120]) == CString(id.commit[..Min(15, |id.commit|)])
  {
    hide Little, UnpackManifest, PackManifest, UnpackHeader, PackHeader, Unsigned, BlocksOf, RootOf, Fixed, CString;
    BuildThenParse(h, id, payload, output, delta, bs);
    ManifestInBuffer(Unsigned(h, id, payload, output, delta, bs));
    TextRoundTrip(id.env, 32);
    TextRoundTrip(id.version, 48);
    TextRoundTrip(id.commit, 16);
    TextAsRead(id.env, 32);
    TextAsRead(id.version, 48);
    TextAsRead(id.commit, 16);
  }

  /** So the gate of a built package, full or delta, opens for the image it was built from, and for no other unless two images
      hash alike. */
  lemma BuiltGateOpens(h: HashFn, id: Identity, payload: Data, output: Data, delta: bool, bs: U32, image: Data)
    requires Packable(payload, output, bs)
    ensures var buf := Unsigned(h, id, payload, output, delta, bs);
            && |buf| >= 272 && OutputGate(h, output, UnpackManifest(buf[16..208]))
            && (OutputGate(h, image, UnpackManifest(buf[16..208])) ==> image == output || Twin(h, Twins(image, output)))
  {
    hide Little, UnpackManifest, Unsigned, BlocksOf, RootOf;
    BuiltRecords(h, id, payload, output, delta, bs);
    ManifestInBuffer(Unsigned(h, id, payload, output, delta, bs));
  }

  // ---- what the integrity check binds ----

  /** The first block in which two payloads differ. */
  function FirstDifference(p: seq<Data>, q: seq<Data>): (i: nat)
    requires |p| == |q| && p != q
    ensures i < |p| && p[i] != q[i]
  {
    if p[0] != q[0] then 0 else
      assert p == [p[0]] + p[1..] && q == [q[0]] + q[1..];
      1 + FirstDifference(p[1..], q[1..])
  }

  /** The two inputs with one hash hidden in two payloads of one root. */
  function PayloadTwins(h: HashFn, p: seq<Data>, q: seq<Data>): Twins
    requires |p| == |q| && p != q
  {
    var i := FirstDifference(p, q);
    Forgery(h, q, i, p[i], ProofIn(h, LeavesOf(h, p), i))
  }

  lemma RootBinds(h: HashFn, p: seq<Data>, q: seq<Data>)
    requires |p| == |q| && p != q && RootOf(h, p) == RootOf(h, q)
    ensures Twin(h, PayloadTwins(h, p, q))
  {
    hide Verify, AuditPath, TreeRoot, Forgery;
    var i := FirstDifference(p, q);
    Completeness(PairOf(h), LeavesOf(h, p), i);
    AcceptedBlock(h, q, i, p[i], ProofIn(h, LeavesOf(h, p), i));
  }

  /** Two packages with one manifest that both pass the integrity check, full or delta, have the same payload, or two inputs with
      one hash are computed from the two payloads. So nothing in the payload of an intact package can be changed unnoticed. */
  lemma IntactPayloadIsBound(h: HashFn, a: Data, b: Data)
    requires Intact(h, a) && Intact(h, b) && a[16..208] == b[16..208]
    ensures var bs := ManifestOf(a).blockSize; var p, q := BlocksOf(Rest(a), bs), BlocksOf(Rest(b), bs);
            Rest(a) == Rest(b) || (|p| == |q| && p != q && Twin(h, PayloadTwins(h, p, q)))
  {
    hide UnpackManifest, UnpackHeader, RootOf, BlocksOf, Twin, PayloadTwins, Join;
    var bs := ManifestOf(a).blockSize;
    var p, q := BlocksOf(Rest(a), bs), BlocksOf(Rest(b), bs);
    SameCount(Rest(a), Rest(b), bs);
    BlocksJoin(Rest(a), bs);
    BlocksJoin(Rest(b), bs);
    if p != q {
      RootBinds(h, p, q);
    }
  }

  lemma {:induction false} SameCount(x: Data, y: Data, bs: nat)
    requires bs > 0 && |x| == |y|
    ensures |BlocksOf(x, bs)| == |BlocksOf(y, bs)|
    decreases |x|
  {
    if x != [] {
      SameCount(x[Min(bs, |x|)..], y[Min(bs, |y|)..], bs);
    }
  }
}
