/** The CRC-32 and the self-identity trailer of src/trailer.cpp, on machine words. */
module Trailer {

  const POLY: bv32 := 0xEDB88320
  const ONES: bv32 := 0xFFFF_FFFF

  /** One step of the reflected shift register. */
  function Shift(crc: bv32): bv32 {
    if crc & 1 == 1 then (crc >> 1) ^ POLY else crc >> 1
  }

  // ---- the bit-serial reference: clause 3.2.9 of IEEE 802.3, least significant bit of each byte first ----

  /** The register run over a stream of bits. */
  function Feed(crc: bv32, bits: seq<bool>): bv32
    decreases |bits|
  {
    if bits == [] then crc else Feed(Step(crc, bits[0]), bits[1..])
  }

  lemma {:induction false} FeedAppend(crc: bv32, x: seq<bool>, y: seq<bool>)
    ensures Feed(crc, x + y) == Feed(Feed(crc, x), y)
    decreases |x|
  {
    hide Step;
    if x == [] {
      assert x + y == y;
    } else {
      assert (x + y)[0] == x[0] && (x + y)[1..] == x[1..] + y;
      FeedAppend(Step(crc, x[0]), x[1..], y);
    }
  }

  function Bit(b: bool): bv32 {
    if b then 1 else 0
  }

  function Step(crc: bv32, b: bool): bv32 {
    Shift(crc ^ Bit(b))
  }

  /** The n low bits of a word, lowest first. */
  function LowBits(w: bv32, n: nat): (bits: seq<bool>)
    ensures |bits| == n
    decreases n
  {
    if n == 0 then [] else [w & 1 == 1] + LowBits(w >> 1, n - 1)
  }

  function ByteBits(b: bv8): (bits: seq<bool>)
    ensures |bits| == 8
  {
    LowBits(b as bv32, 8)
  }

  function Stream(data: seq<bv8>): (bits: seq<bool>)
    ensures |bits| == 8 * |data|
  {
    if data == [] then [] else Stream(data[..|data| - 1]) + ByteBits(data[|data| - 1])
  }

  function Crc(data: seq<bv8>): bv32 {
    Feed(ONES, Stream(data)) ^ ONES
  }

  // ---- the byte-wise loop computes it ----

  /** Only the lowest bit of what is xored in can change a shift; the rest just moves down. */
  lemma ShiftMovesRest(crc: bv32, w: bv32)
    ensures var r := crc ^ w; (r >> 1) ^ (POLY & (0 - (r & 1))) == Step(crc, w & 1 == 1) ^ (w >> 1)
  {
  }

  lemma FeedFirst(crc: bv32, w: bv32, n: nat)
    requires n > 0
    ensures Feed(crc, LowBits(w, n)) == Feed(Step(crc, w & 1 == 1), LowBits(w >> 1, n - 1))
  {
    hide Step;
    assert LowBits(w, n)[1..] == LowBits(w >> 1, n - 1);
  }

  /** d has no bit at or above position n. */
  predicate Fits(d: bv32, n: nat)
    decreases n
  {
    if n == 0 then d == 0 else Fits(d >> 1, n - 1)
  }

  /** One turn of the bit loop: the lowest bit of the byte still to come is fed to the register. */
  method ShiftBit(crc: bv32, ghost c: bv32, ghost w: bv32, ghost n: nat) returns (next: bv32, ghost c': bv32)
    requires n > 0 && crc == c ^ w
    ensures next == c' ^ (w >> 1)
    ensures Feed(c, LowBits(w, n)) == Feed(c', LowBits(w >> 1, n - 1))
  {
    var mask := 0 - (crc & 1);
    next := (crc >> 1) ^ (POLY & mask);
    c' := Step(c, w & 1 == 1);
    ShiftMovesRest(c, w);
    FeedFirst(c, w, n);
  }

  lemma ByteFits(b: bv8)
    ensures Fits(b as bv32, 8)
  {
  }

  method ShiftByte(before: bv32, byte: bv8) returns (crc: bv32)
    ensures crc == Feed(before, ByteBits(byte))
  {
    hide Step;
    crc := before ^ byte as bv32;
    ghost var c, w := before, byte as bv32;
    ByteFits(byte);
    for b := 0 to 8
      invariant crc == c ^ w && Fits(w, 8 - b)
      invariant Feed(c, LowBits(w, 8 - b)) == Feed(before, ByteBits(byte))
    {
      crc, c := ShiftBit(crc, c, w, 8 - b);
      w := w >> 1;
    }
  }

  method Crc32(data: seq<bv8>) returns (sum: bv32)
    ensures sum == Crc(data)
  {
    hide Step;
    var crc := ONES;
    for i := 0 to |data|
      invariant crc == Feed(ONES, Stream(data[..i]))
    {
      FeedAppend(ONES, Stream(data[..i]), ByteBits(data[i]));
      assert data[..i + 1][..i] == data[..i];
      crc := ShiftByte(crc, data[i]);
    }
    assert data[..|data|] == data;
    sum := crc ^ ONES;
  }

  // ---- error detection ----

  function OneHot(k: nat): bv32 {
    if k == 0 then 1 else OneHot(k - 1) << 1
  }

  lemma {:induction false} FitsClears(d: bv32, n: nat, k: nat)
    requires Fits(d, n) && n <= k
    ensures d & OneHot(k) == 0
    decreases n
  {
    if n > 0 {
      FitsClears(d >> 1, n - 1, k - 1);
    }
  }

  lemma FitsBelowTop(d: bv32, n: nat)
    requires Fits(d, n) && n <= 31
    ensures d & 0x8000_0000 == 0
  {
    FitsClears(d, n, 31);
    assert OneHot(8) == 0x100;
    assert OneHot(16) == 0x1_0000;
    assert OneHot(24) == 0x100_0000;
    assert OneHot(31) == 0x8000_0000;
  }

  lemma StepUndone(a: bv32, b: bv32, x: bool, y: bool)
    ensures (Step(a, x) ^ Step(b, y)) & 0x8000_0000 == 0 ==> (a ^ b) >> 1 == Step(a, x) ^ Step(b, y)
  {
    hide Shift, Step;
    var p := InputBit(a, x);
    var q := InputBit(b, y);
    ShiftUndone(p, q);
    BitShiftsOut(a, b, Bit(x), Bit(y), p, q);
  }

  lemma ShiftUndone(p: bv32, q: bv32)
    ensures (Shift(p) ^ Shift(q)) & 0x8000_0000 == 0 ==> (p ^ q) >> 1 == Shift(p) ^ Shift(q)
  {
  }

  lemma InputBit(a: bv32, x: bool) returns (p: bv32)
    ensures p == a ^ Bit(x) && Step(a, x) == Shift(p)
  {
    p := a ^ Bit(x);
  }

  lemma BitShiftsOut(a: bv32, b: bv32, x: bv32, y: bv32, p: bv32, q: bv32)
    requires x >> 1 == 0 && y >> 1 == 0 && p == a ^ x && q == b ^ y
    ensures (p ^ q) >> 1 == (a ^ b) >> 1
  {
  }

  lemma FlippedBitShows(a: bv32, x: bool, y: bool)
    requires x != y
    ensures (Step(a, x) ^ Step(a, y)) & 0x8000_0000 != 0
  {
  }

  lemma StepInjective(a: bv32, b: bv32, x: bool)
    requires Step(a, x) == Step(b, x)
    ensures a == b
  {
  }

  lemma {:induction false} FeedInjective(a: bv32, b: bv32, bits: seq<bool>)
    requires Feed(a, bits) == Feed(b, bits)
    ensures a == b
    decreases |bits|
  {
    hide Step;
    if bits != [] {
      FeedInjective(Step(a, bits[0]), Step(b, bits[0]), bits[1..]);
      StepInjective(a, b, bits[0]);
    }
  }

  /** Registers brought together by n further bits differ only in their n low bits. */
  lemma {:induction false} WindowDifference(a: bv32, b: bv32, x: seq<bool>, y: seq<bool>)
    requires |x| == |y| <= 32 && Feed(a, x) == Feed(b, y)
    ensures Fits(a ^ b, |x|)
    decreases |x|
  {
    hide Step;
    if x == [] {
      assert a ^ b == 0;
    } else {
      WindowDifference(Step(a, x[0]), Step(b, y[0]), x[1..], y[1..]);
      DifferenceUp(a, b, x[0], y[0], |x| - 1);
    }
  }

  lemma DifferenceUp(a: bv32, b: bv32, x: bool, y: bool, n: nat)
    requires n <= 31 && Fits(Step(a, x) ^ Step(b, y), n)
    ensures Fits(a ^ b, n + 1)
  {
    hide Step;
    StepUndone(a, b, x, y);
    FitsBelowTop(Step(a, x) ^ Step(b, y), n);
    FitsUp(a ^ b, Step(a, x) ^ Step(b, y), n);
  }

  lemma FitsUp(d: bv32, up: bv32, n: nat)
    requires Fits(up, n) && d >> 1 == up
    ensures Fits(d, n + 1)
  {
  }

  lemma {:induction false} WindowDetermines(a: bv32, x: seq<bool>, y: seq<bool>)
    requires |x| == |y| <= 32 && Feed(a, x) == Feed(a, y)
    ensures x == y
    decreases |x|
  {
    hide Step;
    if x != [] {
      FirstBitsAgree(a, x, y);
      WindowDetermines(Step(a, x[0]), x[1..], y[1..]);
      assert x == [x[0]] + x[1..] && y == [y[0]] + y[1..];
    }
  }

  lemma FirstBitsAgree(a: bv32, x: seq<bool>, y: seq<bool>)
    requires 0 < |x| == |y| <= 32 && Feed(a, x) == Feed(a, y)
    ensures x[0] == y[0]
  {
    hide Step;
    assert Feed(Step(a, x[0]), x[1..]) == Feed(Step(a, y[0]), y[1..]);
    hide *;
    FlippedBitStays(Step(a, x[0]), Step(a, y[0]), x[1..], y[1..]);
    if x[0] != y[0] {
      FlippedBitShows(a, x[0], y[0]);
    }
  }

  lemma FlippedBitStays(a: bv32, b: bv32, x: seq<bool>, y: seq<bool>)
    requires |x| == |y| <= 31 && Feed(a, x) == Feed(b, y)
    ensures (a ^ b) & 0x8000_0000 == 0
  {
    hide *;
    WindowDifference(a, b, x, y);
    FitsBelowTop(a ^ b, |x|);
  }

  /** Streams that differ only inside a window of 32 consecutive bits. */
  ghost predicate Burst(s: seq<bool>, t: seq<bool>) {
    && s != t && |s| == |t|
    && exists from: nat, to: nat :: InWindow(s, t, from, to)
  }

  ghost predicate InWindow(s: seq<bool>, t: seq<bool>, from: nat, to: nat)
    requires |s| == |t|
  {
    from <= to <= |s| && to - from <= 32 && s[..from] == t[..from] && s[to..] == t[to..]
  }

  /** Every burst of at most 32 bits, at any bit offset of a stream of any length, changes the register. */
  lemma BurstChangesRegister(crc: bv32, s: seq<bool>, t: seq<bool>)
    requires Burst(s, t)
    ensures Feed(crc, s) != Feed(crc, t)
  {
    hide Step;
    var from: nat, to: nat :| InWindow(s, t, from, to);
    var p, x, y, q := s[..from], s[from..to], t[from..to], s[to..];
    assert s == p + x + q && t == p + y + q;
    FeedAppend(crc, p + x, q);
    FeedAppend(crc, p + y, q);
    FeedAppend(crc, p, x);
    FeedAppend(crc, p, y);
    if Feed(crc, s) == Feed(crc, t) {
      var c := Feed(crc, p);
      FeedInjective(Feed(c, x), Feed(c, y), q);
      WindowDetermines(c, x, y);
    }
  }

  /** Two equally long messages that differ in a burst never share a checksum. */
  lemma BurstDetected(m: seq<bv8>, n: seq<bv8>)
    requires Burst(Stream(m), Stream(n))
    ensures Crc(m) != Crc(n)
  {
    BurstChangesRegister(ONES, Stream(m), Stream(n));
  }

  // ---- the trailer ----

  const TRAILER_MAGIC: bv32 := 0x4F54_4231
  const TRAILER_FORMAT: bv16 := 1

  function Le16(v: bv16): (d: seq<bv8>)
    ensures |d| == 2
  {
    [(v & 0xFF) as bv8, (v >> 8) as bv8]
  }

  /** The n low bytes of a word, lowest first. */
  function LowBytes(w: bv32, n: nat): (d: seq<bv8>)
    ensures |d| == n
    decreases n
  {
    if n == 0 then [] else [(w & 0xFF) as bv8] + LowBytes(w >> 8, n - 1)
  }

  function Le32(v: bv32): (d: seq<bv8>)
    ensures |d| == 4
  {
    LowBytes(v, 4)
  }

  lemma Le32Injective(v: bv32, w: bv32)
    requires Le32(v) == Le32(w)
    ensures v == w
  {
    assert Le32(v)[0] == Le32(w)[0] && Le32(v)[1] == Le32(w)[1] && Le32(v)[2] == Le32(w)[2] && Le32(v)[3] == Le32(w)[3];
  }

  lemma Le16Injective(v: bv16, w: bv16)
    requires Le16(v) == Le16(w)
    ensures v == w
  {
    assert Le16(v)[0] == Le16(w)[0] && Le16(v)[1] == Le16(w)[1];
  }

  /** The 172 bytes of a trailer that readers accept. */
  predicate ValidImage(t: seq<bv8>) {
    && |t| == 172
    && t[..4] == Le32(TRAILER_MAGIC) && t[4..6] == Le16(TRAILER_FORMAT)
    && t[168..] == Le32(Crc(t[..168]))
  }

  lemma FiveParts(a: seq<bv8>, b: seq<bv8>, c: seq<bv8>, d: seq<bv8>, e: seq<bv8>)
    ensures var s := a + b + c + d + e;
            && s[..|a|] == a && s[|a|..|a| + |b|] == b && s[|a| + |b|..|a| + |b| + |c|] == c
            && s[|a| + |b| + |c|..|a| + |b| + |c| + |d|] == d && s[|a| + |b| + |c| + |d|..] == e
  {
  }

  /** Slices of the two halves, read in the whole. */
  lemma JoinedParts(ids: seq<bv8>, numbers: seq<bv8>, d: seq<bv8>)
    requires |ids| == 146 && |numbers| == 16 && d == ids + numbers
    ensures d[0..2] == ids[..2] && d[2..34] == ids[2..34] && d[34..82] == ids[34..82] && d[82..98] == ids[82..98]
    ensures d[98..146] == ids[98..]
    ensures d[146..150] == numbers[..4] && d[150..154] == numbers[4..8] && d[154..158] == numbers[8..12] && d[158..162] == numbers[12..16]
  {
  }

  lemma Within(a: seq<bv8>, b: seq<bv8>, c: seq<bv8>, s: seq<bv8>)
    requires s == a + b + c
    ensures s[|a|..|a| + |b|] == b
  {
  }

  lemma SliceOfSlice(s: seq<bv8>, from: nat, to: nat, a: nat, b: nat)
    requires from <= to <= |s| && a <= b <= to - from
    ensures s[from..to][a..b] == s[from + a..from + b]
  {
    var x, y := s[from..to][a..b], s[from + a..from + b];
    assert forall i | 0 <= i < b - a :: x[i] == y[i];
  }

  class OtaTrailer {
    var magic: bv32
    var format: bv16
    var flags: bv16
    var env: seq<bv8>
    var version: seq<bv8>
    var commit: seq<bv8>
    var repo: seq<bv8>
    var hwVendor: bv32
    var imageLength: bv32
    var reserved0: bv32
    var reserved1: bv32
    var crc32: bv32

    predicate Sized()
      reads this
    {
      |env| == 32 && |version| == 48 && |commit| == 16 && |repo| == 48
    }

    /** The fields between the format and the checksum. */
    function Middle(): (d: seq<bv8>)
      requires Sized()
      reads this
      ensures |d| == 162
    {
      Le16(flags) + env + version + commit + repo + Le32(hwVendor) + Le32(imageLength) + Le32(reserved0) + Le32(reserved1)
    }

    function Body(): (d: seq<bv8>)
      requires Sized()
      reads this
      ensures |d| == 168
    {
      Le32(magic) + Le16(format) + Middle()
    }

    function Image(): (d: seq<bv8>)
      requires Sized()
      reads this
      ensures |d| == 172
    {
      Body() + Le32(crc32)
    }

    lemma MiddleLayout()
      requires Sized()
      ensures var d := Middle();
              && d[0..2] == Le16(flags) && d[2..34] == env && d[34..82] == version && d[82..98] == commit && d[98..146] == repo
              && d[146..150] == Le32(hwVendor) && d[150..154] == Le32(imageLength)
              && d[154..158] == Le32(reserved0) && d[158..162] == Le32(reserved1)
    {
      hide Le32, Le16;
      var ids, numbers := Le16(flags) + env + version + commit + repo,
                          Le32(hwVendor) + Le32(imageLength) + Le32(reserved0) + Le32(reserved1) + [];
      FiveParts(Le16(flags), env, version, commit, repo);
      FiveParts(Le32(hwVendor), Le32(imageLength), Le32(reserved0), Le32(reserved1), []);
      JoinedParts(ids, numbers, Middle());
    }

    /** What stands at which offset, as section 9 of docs/guide.md lays it down. */
    lemma ImageLayout()
      requires Sized()
      ensures var t := Image();
              && t[0..4] == Le32(magic) && t[4..6] == Le16(format) && t[6..8] == Le16(flags)
              && t[8..40] == env && t[40..88] == version && t[88..104] == commit && t[104..152] == repo
              && t[152..156] == Le32(hwVendor) && t[156..160] == Le32(imageLength)
              && t[160..164] == Le32(reserved0) && t[164..168] == Le32(reserved1) && t[168..172] == Le32(crc32)
    {
      hide Le32, Le16, Image, Middle;
      MiddleLayout();
      ImageSections();
      MiddleOfImage();
      var t := Image();
      assert t[0..4] == t[..4] && t[168..172] == t[168..];
      SliceOfSlice(t, 6, 168, 0, 2);
      SliceOfSlice(t, 6, 168, 2, 34);
      SliceOfSlice(t, 6, 168, 34, 82);
      SliceOfSlice(t, 6, 168, 82, 98);
      SliceOfSlice(t, 6, 168, 98, 146);
      SliceOfSlice(t, 6, 168, 146, 150);
      SliceOfSlice(t, 6, 168, 150, 154);
      SliceOfSlice(t, 6, 168, 154, 158);
      SliceOfSlice(t, 6, 168, 158, 162);
    }

    lemma MiddleOfImage()
      requires Sized()
      ensures Image()[6..168] == Middle()
    {
      hide Le32, Le16, Middle;
      Within(Le32(magic) + Le16(format), Middle(), Le32(crc32), Image());
    }

    method Finalize()
      requires Sized()
      modifies `magic, `format, `crc32
      ensures Sized() && ValidImage(Image()) && Middle() == old(Middle())
    {
      hide Crc, Le32, Le16;
      magic := TRAILER_MAGIC;
      format := TRAILER_FORMAT;
      crc32 := Crc32(Body());
      ImageSections();
    }

    lemma ImageSections()
      requires Sized()
      ensures var t := Image(); t[..4] == Le32(magic) && t[4..6] == Le16(format) && t[..168] == Body() && t[168..] == Le32(crc32)
    {
      hide Le32, Le16, Middle;
    }

    method IsValid() returns (ok: bool)
      requires Sized()
      ensures ok <==> ValidImage(Image())
    {
      hide Crc, Le32, Le16;
      ImageSections();
      if magic != TRAILER_MAGIC {
        MagicDiffers();
        return false;
      }
      if format != TRAILER_FORMAT {
        FormatDiffers();
        return false;
      }
      var expected := Crc32(Body());
      ok := expected == crc32;
      if Le32(crc32) == Le32(Crc(Body())) {
        Le32Injective(crc32, Crc(Body()));
      }
    }

    lemma MagicDiffers()
      requires magic != TRAILER_MAGIC
      ensures Le32(magic) != Le32(TRAILER_MAGIC)
    {
      if Le32(magic) == Le32(TRAILER_MAGIC) {
        Le32Injective(magic, TRAILER_MAGIC);
      }
    }

    lemma FormatDiffers()
      requires format != TRAILER_FORMAT
      ensures Le16(format) != Le16(TRAILER_FORMAT)
    {
      if Le16(format) == Le16(TRAILER_FORMAT) {
        Le16Injective(format, TRAILER_FORMAT);
      }
    }
  }

  // ---- a damaged trailer is rejected wherever the damage lies, checksum included ----

  function Falses(n: nat): (bits: seq<bool>)
    ensures |bits| == n
  {
    if n == 0 then [] else [false] + Falses(n - 1)
  }

  /** A shift as the source writes it, without a branch. */
  function MaskedShift(r: bv32): bv32 {
    (r >> 1) ^ (POLY & (0 - (r & 1)))
  }

  lemma ShiftWithWord(crc: bv32, w: bv32)
    ensures Step(crc ^ w, false) == Step(crc, w & 1 == 1) ^ (w >> 1)
  {
    hide Step, MaskedShift;
    MaskedMovesRest(crc, w);
    ShiftIsMasked(crc ^ w);
  }

  lemma MaskedMovesRest(crc: bv32, w: bv32)
    ensures MaskedShift(crc ^ w) == Step(crc, w & 1 == 1) ^ (w >> 1)
  {
    hide Step;
    ShiftMovesRest(crc, w);
  }

  lemma ShiftIsMasked(r: bv32)
    ensures Step(r, false) == MaskedShift(r)
  {
    hide Step, MaskedShift;
    MaskedMovesRest(r, 0);
    NothingToMove(r);
    NothingToMove(Step(r, false));
  }

  lemma NothingToMove(c: bv32)
    ensures c ^ 0 == c && c ^ ((0 as bv32) >> 1) == c
  {
  }

  /** Feeding the bits of a word is xoring the word in and then feeding zeros. */
  lemma {:induction false} WordAtOnce(crc: bv32, w: bv32, n: nat)
    requires Fits(w, n)
    ensures Feed(crc, LowBits(w, n)) == Feed(crc ^ w, Falses(n))
    decreases n
  {
    hide Step;
    if n == 0 {
      assert crc ^ w == crc;
    } else {
      FeedFirst(crc, w, n);
      ShiftWithWord(crc, w);
      WordAtOnce(Step(crc, w & 1 == 1), w >> 1, n - 1);
      assert Falses(n)[1..] == Falses(n - 1);
    }
  }

  function Down(w: bv32, n: nat): bv32
    decreases n
  {
    if n == 0 then w else Down(w >> 1, n - 1)
  }

  lemma {:induction false} LowBitsSplit(w: bv32, n: nat, m: nat)
    ensures LowBits(w, n + m) == LowBits(w, n) + LowBits(Down(w, n), m)
    decreases n
  {
    if n > 0 {
      LowBitsSplit(w >> 1, n - 1, m);
    }
  }

  lemma LowByte(w: bv32, b: bv8, m: nat)
    requires b == (w & 0xFF) as bv8
    ensures LowBits(w, 8 + m) == ByteBits(b) + LowBits(w >> 8, m)
  {
    LowBitsSplit(w, 8, m);
    assert Down(w, 8) == w >> 8;
    LastByte(w, b);
  }

  lemma LastByte(w: bv32, b: bv8)
    requires b == (w & 0xFF) as bv8
    ensures LowBits(w, 8) == ByteBits(b)
  {
  }

  lemma {:induction false} StreamLowBytes(w: bv32, n: nat)
    ensures Stream(LowBytes(w, n)) == LowBits(w, 8 * n)
    decreases n
  {
    hide ByteBits, Stream, LowBits;
    if n == 0 {
      assert Stream([]) == [] && LowBits(w, 0) == [];
    } else {
      var b := (w & 0xFF) as bv8;
      StreamLowBytes(w >> 8, n - 1);
      StreamAppend([b], LowBytes(w >> 8, n - 1));
      StreamByte(b);
      LowByte(w, b, 8 * (n - 1));
    }
  }

  lemma StreamLe32(w: bv32)
    ensures Stream(Le32(w)) == LowBits(w, 32)
  {
    hide Stream, LowBits, LowBytes;
    StreamLowBytes(w, 4);
  }

  lemma StreamByte(b: bv8)
    ensures Stream([b]) == ByteBits(b)
  {
    hide ByteBits;
    assert [b][..0] == [];
  }

  lemma {:induction false} StreamAppend(x: seq<bv8>, y: seq<bv8>)
    ensures Stream(x + y) == Stream(x) + Stream(y)
    decreases |y|
  {
    hide ByteBits;
    if y == [] {
      assert x + y == x;
    } else {
      var n := |y| - 1;
      StreamAppend(x, y[..n]);
      assert (x + y)[..|x| + n] == x + y[..n];
    }
  }

  lemma {:induction false} FitsDown(w: bv32, n: nat, m: nat)
    requires Fits(Down(w, n), m)
    ensures Fits(w, n + m)
    decreases n
  {
    if n > 0 {
      FitsDown(w >> 1, n - 1, m);
    }
  }

  lemma WordFits(w: bv32)
    ensures Fits(w, 32)
  {
    assert Down(w >> 24, 8) == 0;
    FitsDown(w >> 24, 8, 0);
    assert Down(w >> 16, 8) == w >> 24;
    FitsDown(w >> 16, 8, 8);
    assert Down(w >> 8, 8) == w >> 16;
    FitsDown(w >> 8, 8, 16);
    assert Down(w, 8) == w >> 8;
    FitsDown(w, 8, 24);
  }

  /** Body and checksum together always leave the register in the same state. */
  lemma Residue(body: seq<bv8>)
    ensures Feed(ONES, Stream(body + Le32(Crc(body)))) == Feed(ONES, Falses(32))
  {
    hide Step, Fits, LowBits, Falses, Le32, Stream;
    var s := Feed(ONES, Stream(body));
    StreamAppend(body, Le32(Crc(body)));
    assert Stream(Le32(Crc(body))) == LowBits(Crc(body), 32) by { StreamLe32(Crc(body)); }
    FeedAppend(ONES, Stream(body), LowBits(Crc(body), 32));
    WordFits(Crc(body));
    WordAtOnce(s, Crc(body), 32);
    assert s ^ Crc(body) == ONES;
  }

  /** No burst of up to 32 bits turns a valid trailer into another valid trailer, not even across the checksum. */
  lemma DamagedTrailerRejected(s: seq<bv8>, t: seq<bv8>)
    requires ValidImage(s) && Burst(Stream(s), Stream(t))
    ensures !ValidImage(t)
  {
    hide Crc, Feed, Falses, Le32, Burst, Stream;
    if ValidImage(t) {
      assert s == s[..168] + s[168..] && t == t[..168] + t[168..];
      Residue(s[..168]);
      Residue(t[..168]);
      BurstChangesRegister(ONES, Stream(s), Stream(t));
    }
  }

  /** 32 bits is the limit: from every register two streams that differ in 33 consecutive bits merge. */
  lemma WindowIsTight(crc: bv32)
    ensures var s, t := [true] + LowBits(Step(crc, true), 32), [false] + LowBits(Step(crc, false), 32);
            s != t && Feed(crc, s) == Feed(crc, t)
  {
    hide Step, LowBits, Falses;
    var s, t := [true] + LowBits(Step(crc, true), 32), [false] + LowBits(Step(crc, false), 32);
    assert s[0] != t[0] && s[1..] == LowBits(Step(crc, true), 32) && t[1..] == LowBits(Step(crc, false), 32);
    WordFits(Step(crc, true));
    WordFits(Step(crc, false));
    WordAtOnce(Step(crc, true), Step(crc, true), 32);
    WordAtOnce(Step(crc, false), Step(crc, false), 32);
    assert forall c: bv32 {:trigger Step(c, true)} :: Step(c, true) ^ Step(c, true) == 0 && Step(c, false) ^ Step(c, false) == 0;
  }

  // ---- the same in bytes ----

  predicate EqualOutside(m: seq<bv8>, n: seq<bv8>, k: nat, len: nat)
    requires |m| == |n|
  {
    k + len <= |m| && m[..k] == n[..k] && m[k + len..] == n[k + len..]
  }

  function Flag(b: bv8, mask: bv8): bool {
    b & mask != 0
  }

  lemma ByteBitsAre(b: bv8)
    ensures ByteBits(b) == [Flag(b, 1), Flag(b, 2), Flag(b, 4), Flag(b, 8), Flag(b, 16), Flag(b, 32), Flag(b, 64), Flag(b, 128)]
  {
  }

  lemma FlagsDetermine(a: bv8, b: bv8)
    requires Flag(a, 1) == Flag(b, 1) && Flag(a, 2) == Flag(b, 2) && Flag(a, 4) == Flag(b, 4) && Flag(a, 8) == Flag(b, 8)
    requires Flag(a, 16) == Flag(b, 16) && Flag(a, 32) == Flag(b, 32) && Flag(a, 64) == Flag(b, 64) && Flag(a, 128) == Flag(b, 128)
    ensures a == b
  {
  }

  lemma ByteBitsInjective(a: bv8, b: bv8)
    requires ByteBits(a) == ByteBits(b)
    ensures a == b
  {
    hide ByteBits, Flag;
    var x, y := ByteBits(a), ByteBits(b);
    ByteBitsAre(a);
    ByteBitsAre(b);
    assert x[0] == y[0] && x[1] == y[1] && x[2] == y[2] && x[3] == y[3];
    assert x[4] == y[4] && x[5] == y[5] && x[6] == y[6] && x[7] == y[7];
    FlagsDetermine(a, b);
  }

  /** A message can be read back from its bits. */
  lemma {:induction false} StreamInjective(m: seq<bv8>, n: seq<bv8>)
    requires Stream(m) == Stream(n)
    ensures m == n
    decreases |m|
  {
    hide ByteBits;
    assert |m| == |n|;
    if m != [] {
      var k := |m| - 1;
      assert Stream(m)[..8 * k] == Stream(m[..k]) && Stream(n)[..8 * k] == Stream(n[..k]);
      assert Stream(m)[8 * k..] == ByteBits(m[k]) && Stream(n)[8 * k..] == ByteBits(n[k]);
      StreamInjective(m[..k], n[..k]);
      ByteBitsInjective(m[k], n[k]);
      assert m == m[..k] + [m[k]] && n == n[..k] + [n[k]];
    }
  }

  lemma StreamCut(d: seq<bv8>, k: nat)
    requires k <= |d|
    ensures Stream(d)[..8 * k] == Stream(d[..k]) && Stream(d)[8 * k..] == Stream(d[k..])
  {
    hide Stream;
    StreamAppend(d[..k], d[k..]);
    assert d == d[..k] + d[k..];
  }

  lemma FourBytesAreABurst(m: seq<bv8>, n: seq<bv8>, k: nat, len: nat)
    requires |m| == |n| && m != n && len <= 4 && EqualOutside(m, n, k, len)
    ensures Burst(Stream(m), Stream(n))
  {
    hide Stream, InWindow;
    if Stream(m) == Stream(n) {
      StreamInjective(m, n);
    }
    BytesInWindow(m, n, k, len);
    assert InWindow(Stream(m), Stream(n), 8 * k, 8 * (k + len));
  }

  lemma BytesInWindow(m: seq<bv8>, n: seq<bv8>, k: nat, len: nat)
    requires |m| == |n| && len <= 4 && EqualOutside(m, n, k, len)
    ensures InWindow(Stream(m), Stream(n), 8 * k, 8 * (k + len))
  {
    hide Stream;
    StreamCut(m, k);
    StreamCut(n, k);
    StreamCut(m, k + len);
    StreamCut(n, k + len);
  }

  /** Messages of one length that differ only inside four consecutive bytes, wherever these lie, have different checksums,
      and no such change turns one valid trailer into another. */
  lemma FourBytesDetected(m: seq<bv8>, n: seq<bv8>, k: nat, len: nat)
    requires |m| == |n| && m != n && len <= 4 && EqualOutside(m, n, k, len)
    ensures Crc(m) != Crc(n) && !(ValidImage(m) && ValidImage(n))
  {
    hide Crc, Stream, ValidImage, Burst;
    FourBytesAreABurst(m, n, k, len);
    BurstDetected(m, n);
    if ValidImage(m) {
      DamagedTrailerRejected(m, n);
    }
  }

  function Place(b: bool, mask: bv8): bv8 {
    if b then mask else 0
  }

  /** The byte with these bits, lowest first. */
  function ByteOf(bits: seq<bool>): bv8
    requires |bits| == 8
  {
    Place(bits[0], 1) | Place(bits[1], 2) | Place(bits[2], 4) | Place(bits[3], 8)
    | Place(bits[4], 16) | Place(bits[5], 32) | Place(bits[6], 64) | Place(bits[7], 128)
  }

  lemma FlagsOfByte(bits: seq<bool>)
    requires |bits| == 8
    ensures var b := ByteOf(bits);
            && Flag(b, 1) == bits[0] && Flag(b, 2) == bits[1] && Flag(b, 4) == bits[2] && Flag(b, 8) == bits[3]
            && Flag(b, 16) == bits[4] && Flag(b, 32) == bits[5] && Flag(b, 64) == bits[6] && Flag(b, 128) == bits[7]
  {
  }

  lemma BitsOfByte(bits: seq<bool>)
    requires |bits| == 8
    ensures ByteBits(ByteOf(bits)) == bits
  {
    hide ByteBits, Flag, ByteOf;
    ByteBitsAre(ByteOf(bits));
    FlagsOfByte(bits);
  }

  function Pack(bits: seq<bool>): (bytes: seq<bv8>)
    requires |bits| % 8 == 0
    ensures 8 * |bytes| == |bits|
    decreases |bits|
  {
    if bits == [] then [] else [ByteOf(bits[..8])] + Pack(bits[8..])
  }

  /** Every whole number of bytes of bits is the stream of a message. */
  lemma {:induction false} StreamOfPacked(bits: seq<bool>)
    requires |bits| % 8 == 0
    ensures Stream(Pack(bits)) == bits
    decreases |bits|
  {
    hide Stream, ByteBits, ByteOf;
    if bits == [] {
      assert |Stream(Pack(bits))| == 0;
    } else {
      var b := ByteOf(bits[..8]);
      BitsOfByte(bits[..8]);
      StreamOfPacked(bits[8..]);
      StreamAppend([b], Pack(bits[8..]));
      StreamByte(b);
    }
  }

  /** Between any two stretches of bytes there are two different stretches of five bytes, alike but for 33 consecutive bits,
      that leave the checksum of the whole the same. */
  lemma FiveBytesCanCollide(before: seq<bv8>, after: seq<bv8>) returns (x: seq<bv8>, y: seq<bv8>)
    ensures |x| == |y| == 5 && x != y && Stream(x)[33..] == Stream(y)[33..]
    ensures Crc(before + x + after) == Crc(before + y + after)
  {
    hide Step, Stream, LowBits, Feed, Falses, Pack;
    var c := Feed(ONES, Stream(before));
    var s, t := [true] + LowBits(Step(c, true), 32), [false] + LowBits(Step(c, false), 32);
    x, y := Pack(s + Falses(7)), Pack(t + Falses(7));
    WindowIsTight(c);
    StreamOfPacked(s + Falses(7));
    StreamOfPacked(t + Falses(7));
    assert Stream(x)[0] != Stream(y)[0];
    FeedAppend(c, s, Falses(7));
    FeedAppend(c, t, Falses(7));
    MiddleMerges(before, x, y, after);
  }

  lemma MiddleMerges(before: seq<bv8>, x: seq<bv8>, y: seq<bv8>, after: seq<bv8>)
    requires var c := Feed(ONES, Stream(before)); Feed(c, Stream(x)) == Feed(c, Stream(y))
    ensures Crc(before + x + after) == Crc(before + y + after)
  {
    hide Step, Stream, Feed;
    RegisterAfter(before, x, after);
    RegisterAfter(before, y, after);
  }

  lemma RegisterAfter(before: seq<bv8>, x: seq<bv8>, after: seq<bv8>)
    ensures Feed(ONES, Stream(before + x + after)) == Feed(Feed(Feed(ONES, Stream(before)), Stream(x)), Stream(after))
  {
    hide Step, Stream, Feed;
    StreamAppend(before + x, after);
    StreamAppend(before, x);
    FeedAppend(ONES, Stream(before + x), Stream(after));
    FeedAppend(ONES, Stream(before), Stream(x));
  }

  // ---- the standard's polynomial and its check value ----

  /** The register is reflected: the coefficient of x^e is bit 31 - e of the word. */
  function Term(e: nat): bv32
    requires e < 32
  {
    0x8000_0000 >> e
  }

  /** The polynomial of clause 3.2.9 of IEEE 802.3, without its leading x^32. */
  lemma PolynomialIsStandard()
    ensures POLY == Term(26) | Term(23) | Term(22) | Term(16) | Term(12) | Term(11) | Term(10) | Term(8)
                    | Term(7) | Term(5) | Term(4) | Term(2) | Term(1) | Term(0)
  {
  }

  function Eight(crc: bv32): bv32 {
    Shift(Shift(Shift(Shift(Shift(Shift(Shift(Shift(crc))))))))
  }

  lemma ZerosShift(crc: bv32)
    ensures Feed(crc, Falses(8)) == Eight(crc)
  {
    hide Shift;
    forall c: bv32 ensures Step(c, false) == Shift(c) {
      NoInput(c);
    }
    FeedZeros(crc, 8);
    FeedZeros(Shift(crc), 7);
    FeedZeros(Shift(Shift(crc)), 6);
    FeedZeros(Shift(Shift(Shift(crc))), 5);
    FeedZeros(Shift(Shift(Shift(Shift(crc)))), 4);
    FeedZeros(Shift(Shift(Shift(Shift(Shift(crc))))), 3);
    FeedZeros(Shift(Shift(Shift(Shift(Shift(Shift(crc)))))), 2);
    FeedZeros(Shift(Shift(Shift(Shift(Shift(Shift(Shift(crc))))))), 1);
  }

  lemma NoInput(c: bv32)
    ensures Step(c, false) == Shift(c)
  {
    hide Shift;
    assert c ^ 0 == c;
  }

  lemma FeedZeros(crc: bv32, n: nat)
    requires n > 0
    ensures Feed(crc, Falses(n)) == Feed(Step(crc, false), Falses(n - 1))
    ensures Feed(crc, []) == crc && Falses(0) == []
  {
    hide Step;
    assert Falses(n)[1..] == Falses(n - 1);
  }

  lemma OneMoreByte(data: seq<bv8>, b: bv8, longer: seq<bv8>, before: bv32, after: bv32)
    requires longer == data + [b] && Feed(ONES, Stream(data)) == before && Eight(before ^ b as bv32) == after
    ensures Feed(ONES, Stream(longer)) == after
  {
    hide Stream, Feed, Eight, Falses, LowBits, Fits;
    StreamAppend(data, [b]);
    StreamByte(b);
    FeedAppend(ONES, Stream(data), ByteBits(b));
    ByteFits(b);
    WordAtOnce(before, b as bv32, 8);
    ZerosShift(before ^ b as bv32);
  }

  lemma CheckRegisters()
    ensures Eight(0xFFFFFFFF ^ 0x31) == 0x7C231048
    ensures Eight(0x7C231048 ^ 0x32) == 0xB0ACBB32
    ensures Eight(0xB0ACBB32 ^ 0x33) == 0x77B79C2D
    ensures Eight(0x77B79C2D ^ 0x34) == 0x641C1F5C
    ensures Eight(0x641C1F5C ^ 0x35) == 0x340AC5E3
    ensures Eight(0x340AC5E3 ^ 0x36) == 0xF68D2C9E
    ensures Eight(0xF68D2C9E ^ 0x37) == 0xAFFC9660
    ensures Eight(0xAFFC9660 ^ 0x38) == 0x651F2550
    ensures Eight(0x651F2550 ^ 0x39) == 0x340BC6D9
  {
  }

  lemma NothingFed()
    ensures Feed(ONES, Stream([])) == 0xFFFF_FFFF
  {
  }

  /** The check value of the standard: the digits from 1 to 9. */
  lemma CheckValue()
    ensures Crc([0x31, 0x32, 0x33, 0x34, 0x35, 0x36, 0x37, 0x38, 0x39]) == 0xCBF4_3926
  {
    hide Stream, Feed, Eight;
    CheckRegisters();
    NothingFed();
    OneMoreByte([], 0x31, [0x31], 0xFFFFFFFF, 0x7C231048);
    OneMoreByte([0x31], 0x32, [0x31, 0x32], 0x7C231048, 0xB0ACBB32);
    OneMoreByte([0x31, 0x32], 0x33, [0x31, 0x32, 0x33], 0xB0ACBB32, 0x77B79C2D);
    OneMoreByte([0x31, 0x32, 0x33], 0x34, [0x31, 0x32, 0x33, 0x34], 0x77B79C2D, 0x641C1F5C);
    OneMoreByte([0x31, 0x32, 0x33, 0x34], 0x35, [0x31, 0x32, 0x33, 0x34, 0x35], 0x641C1F5C, 0x340AC5E3);
    OneMoreByte([0x31, 0x32, 0x33, 0x34, 0x35], 0x36, [0x31, 0x32, 0x33, 0x34, 0x35, 0x36], 0x340AC5E3, 0xF68D2C9E);
    OneMoreByte([0x31, 0x32, 0x33, 0x34, 0x35, 0x36], 0x37, [0x31, 0x32, 0x33, 0x34, 0x35, 0x36, 0x37], 0xF68D2C9E, 0xAFFC9660);
    OneMoreByte([0x31, 0x32, 0x33, 0x34, 0x35, 0x36, 0x37], 0x38, [0x31, 0x32, 0x33, 0x34, 0x35, 0x36, 0x37, 0x38], 0xAFFC9660, 0x651F2550);
    OneMoreByte([0x31, 0x32, 0x33, 0x34, 0x35, 0x36, 0x37, 0x38], 0x39, [0x31, 0x32, 0x33, 0x34, 0x35, 0x36, 0x37, 0x38, 0x39], 0x651F2550, 0x340BC6D9);
  }

  // ---- a valid trailer, byte by byte ----

  /** The word four bytes stand for, lowest byte first. */
  function WordOf(d: seq<bv8>): bv32
    requires |d| == 4
  {
    (d[0] as bv32) | ((d[1] as bv32) << 8) | ((d[2] as bv32) << 16) | ((d[3] as bv32) << 24)
  }

  lemma Le32Bytes(w: bv32)
    ensures Le32(w) == [(w & 0xFF) as bv8, ((w >> 8) & 0xFF) as bv8, ((w >> 16) & 0xFF) as bv8, ((w >> 24) & 0xFF) as bv8]
  {
    assert (w >> 8) >> 8 == w >> 16 && (w >> 16) >> 8 == w >> 24;
  }

  lemma WordOfLe32(w: bv32)
    ensures WordOf(Le32(w)) == w
  {
    hide Le32;
    Le32Bytes(w);
  }

  lemma Le32OfWord(d: seq<bv8>, w: bv32)
    requires |d| == 4 && WordOf(d) == w
    ensures d == Le32(w)
  {
    hide Le32;
    Le32Bytes(w);
  }

  lemma Le16Bytes(v: bv16)
    ensures Le16(v) == [(v & 0xFF) as bv8, (v >> 8) as bv8]
    ensures (Le16(v)[0] as bv16) | ((Le16(v)[1] as bv16) << 8) == v
  {
  }

  lemma MarkBytes()
    ensures Le32(TRAILER_MAGIC) == [0x31, 0x42, 0x54, 0x4F] && Le16(TRAILER_FORMAT) == [1, 0]
  {
    hide Le32;
    Le32Bytes(TRAILER_MAGIC);
  }

  /** A trailer is valid exactly when it starts with the four bytes of the magic and the format 1, and ends with the checksum of the
      168 bytes before it, lowest byte first. */
  lemma ValidByBytes(t: seq<bv8>)
    requires |t| == 172
    ensures ValidImage(t) <==> t[..6] == [0x31, 0x42, 0x54, 0x4F, 1, 0] && WordOf(t[168..]) == Crc(t[..168])
  {
    hide Le32, Le16, Crc, WordOf;
    MarkBytes();
    WordOfLe32(Crc(t[..168]));
    if WordOf(t[168..]) == Crc(t[..168]) {
      Le32OfWord(t[168..], Crc(t[..168]));
    }
    assert t[..6] == t[..4] + t[4..6];
    assert [0x31, 0x42, 0x54, 0x4F, 1, 0] == [0x31, 0x42, 0x54, 0x4F] + [1, 0 as bv8];
  }
}
