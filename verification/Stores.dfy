/** The two block stores of src/transport.cpp, which double as the journal a transfer resumes from. */
module Stores {
  import opened Wire
  import opened Blocks
  import opened Package

  /** The state of either store; `image` is the assembled buffer or the bytes of the flash target. */
  datatype Store = Store(
    flash: bool, manifest: Option<Manifest>, began: bool, blockSize: U32, blockCount: U32,
    next: nat, count: nat, have: seq<bool>, image: Data)

  function EmptyStore(flash: bool): Store {
    Store(flash, None, false, 0, 0, 0, 0, [], [])
  }

  predicate Has(s: Store, i: nat) {
    i < |s.have| && s.have[i]
  }

  function Absent(n: nat): (have: seq<bool>)
    ensures |have| == n && forall i | 0 <= i < n :: !have[i]
  {
    seq(n, i => false)
  }

  function Overwrite(image: Data, off: nat, data: Data): (r: Data)
    requires off + |data| <= |image|
    ensures |r| == |image|
  {
    image[..off] + data + image[off + |data|..]
  }

  /** The geometry is taken from the manifest on the first write. */
  function Begin(s: Store): Store
    requires s.manifest.Some?
  {
    if s.began then s else
      var m := s.manifest.value;
      s.(began := true, blockSize := m.blockSize, blockCount := m.blockCount, have := Absent(m.blockCount),
         image := Zeros(if s.flash then m.outputLength else m.payloadLength))
  }

  /** The 32-bit product of the sources. */
  function Offset(s: Store, i: nat): U32 {
    i * s.blockSize % WRAP
  }

  function Mark(s: Store, i: nat, off: nat, data: Data): Store
    requires off + |data| <= |s.image|
  {
    s.(have := if i < |s.have| then s.have[i := true] else s.have, count := s.count + 1,
       next := if s.flash then s.next + 1 else s.next, image := Overwrite(s.image, off, data))
  }

  datatype Outcome = Outcome(s: Store, ok: bool)

  function Put(s: Store, i: nat, data: Data): Outcome {
    if s.manifest.None? then Outcome(s, false) else
      var b := Begin(s);
      if !b.flash && i >= b.blockCount then Outcome(b, false)
      else if Has(b, i) then Outcome(b, true)
      else if b.flash && i != b.next then Outcome(b, false)
      else if Offset(b, i) + |data| > |b.image| then Outcome(b, false)
      else Outcome(Mark(b, i, Offset(b, i), data), true)
  }

  // ---- the classes ----

  /** A flash sink that accepts any write inside the image it was told to expect. */
  class FlashTarget {
    var image: Data

    constructor ()
      ensures image == []
    {
      image := [];
    }

    method Begin(expectedSize: nat)
      modifies this
      ensures image == Zeros(expectedSize)
    {
      image := Zeros(expectedSize);
    }

    method Write(off: nat, data: Data) returns (ok: bool)
      modifies this
      ensures ok <==> off + |data| <= |old(image)|
      ensures image == if ok then Overwrite(old(image), off, data) else old(image)
    {
      ok := off + |data| <= |image|;
      if ok {
        image := image[..off] + data + image[off + |data|..];
      }
    }
  }

  class FlashTargetBlockStore {
    const target: FlashTarget
    var manifest: Option<Manifest>
    var began: bool
    var blockSize: U32
    var blockCount: U32
    var next: nat
    var count: nat
    var have: seq<bool>

    ghost function View(): Store
      reads this, target
    {
      Store(true, manifest, began, blockSize, blockCount, next, count, have, target.image)
    }

    constructor (t: FlashTarget)
      requires t.image == []
      ensures target == t && View() == EmptyStore(true)
    {
      target := t;
      manifest, began, blockSize, blockCount, next, count, have := None, false, 0, 0, 0, 0, [];
    }

    method SetManifest(m: Manifest)
      modifies this
      ensures View() == old(View()).(manifest := Some(m))
    {
      manifest := Some(m);
    }

    method HasBlock(index: nat) returns (yes: bool)
      ensures yes <==> Has(View(), index)
    {
      yes := index < |have| && have[index];
    }

    method PutBlock(index: nat, data: Data) returns (ok: bool)
      modifies this, target
      ensures Outcome(View(), ok) == Put(old(View()), index, data)
    {
      if manifest.None? {
        return false;
      }
      if !began {
        target.Begin(manifest.value.outputLength);
        began := true;
        blockSize := manifest.value.blockSize;
        blockCount := manifest.value.blockCount;
        have := Absent(blockCount);
      }
      if index < |have| && have[index] {
        return true;
      }
      if index != next {
        return false;
      }
      ok := target.Write(index * blockSize % WRAP, data);
      if ok {
        if index < |have| {
          have := have[index := true];
        }
        next := next + 1;
        count := count + 1;
      }
    }
  }

  class BufferBlockStore {
    var manifest: Option<Manifest>
    var ready: bool
    var blockSize: U32
    var blockCount: U32
    var count: nat
    var have: seq<bool>
    var buf: Data

    ghost function View(): Store
      reads this
    {
      Store(false, manifest, ready, blockSize, blockCount, 0, count, have, buf)
    }

    ghost predicate Valid()
      reads this
    {
      |have| == if ready then blockCount else 0
    }

    constructor ()
      ensures Valid() && View() == EmptyStore(false)
    {
      manifest, ready, blockSize, blockCount, count, have, buf := None, false, 0, 0, 0, [], [];
    }

    method SetManifest(m: Manifest)
      requires Valid()
      modifies this
      ensures Valid() && View() == old(View()).(manifest := Some(m))
    {
      manifest := Some(m);
    }

    method HasBlock(index: nat) returns (yes: bool)
      ensures yes <==> Has(View(), index)
    {
      yes := index < |have| && have[index];
    }

    method EnsureGeometry()
      requires Valid() && manifest.Some?
      modifies this
      ensures Valid() && ready && View() == Begin(old(View()))
    {
      if ready {
        return;
      }
      blockSize := manifest.value.blockSize;
      blockCount := manifest.value.blockCount;
      buf := Zeros(manifest.value.payloadLength);
      have := Absent(blockCount);
      ready := true;
    }

    method PutBlock(index: nat, data: Data) returns (ok: bool)
      requires Valid()
      modifies this
      ensures Valid() && Outcome(View(), ok) == Put(old(View()), index, data)
    {
      if manifest.None? {
        return false;
      }
      EnsureGeometry();
      if index >= blockCount {
        return false;
      }
      if have[index] {
        return true;
      }
      var off := index * blockSize % WRAP;
      if off > |buf| || |data| > |buf| - off {
        return false;
      }
      buf := buf[..off] + data + buf[off + |data|..];
      have := have[index := true];
      count := count + 1;
      return true;
    }
  }

  /** The receiver's store: either implementation behind one interface. */
  datatype BlockStore = Buffered(b: BufferBlockStore) | Streamed(f: FlashTargetBlockStore) {
    ghost function Repr(): set<object> {
      match this
      case Buffered(b) => {b}
      case Streamed(f) => {f, f.target}
    }

    ghost predicate Valid()
      reads Repr()
    {
      Buffered? ==> b.Valid()
    }

    ghost function View(): Store
      reads Repr()
    {
      match this
      case Buffered(b) => b.View()
      case Streamed(f) => f.View()
    }

    method HasBlock(index: nat) returns (yes: bool)
      ensures yes <==> Has(View(), index)
    {
      match this
      case Buffered(b) => yes := b.HasBlock(index);
      case Streamed(f) => yes := f.HasBlock(index);
    }

    method PutBlock(index: nat, data: Data) returns (ok: bool)
      requires Valid()
      modifies Repr()
      ensures Valid() && Outcome(View(), ok) == Put(old(View()), index, data)
    {
      match this
      case Buffered(b) => ok := b.PutBlock(index, data);
      case Streamed(f) => ok := f.PutBlock(index, data);
    }

    method SetManifest(m: Manifest)
      requires Valid()
      modifies Repr()
      ensures Valid() && View() == old(View()).(manifest := Some(m))
    {
      match this
      case Buffered(b) => b.SetManifest(m);
      case Streamed(f) => f.SetManifest(m);
    }
  }

  // ---- what the stores are for ----

  /** A manifest that describes a payload cut into blocks, all in 16-bit geometry. */
  predicate Geometry(m: Manifest, payload: Data) {
    && GoodManifest(m, payload)
    && 0 < m.blockSize <= 0xFFFF
    && m.blockCount == |BlocksOf(payload, m.blockSize)| <= 0xFFFF
  }

  function Marked(have: seq<bool>): nat {
    if have == [] then 0 else Marked(have[..|have| - 1]) + if have[|have| - 1] then 1 else 0
  }

  /** Bookkeeping that holds whatever bytes were put: the count is the number of distinct indices,
      and the flash store holds exactly a prefix. */
  ghost predicate Regular(s: Store, m: Manifest) {
    && (s.manifest.Some? ==> s.manifest.value == m)
    && s.count == Marked(s.have)
    && (if s.began then
          s.manifest.Some? && s.blockSize == m.blockSize && s.blockCount == m.blockCount && |s.have| == m.blockCount
          && |s.image| == if s.flash then m.outputLength else m.payloadLength
        else s.have == [] && s.next == 0 && s.image == [])
    && (s.flash ==> s.next == s.count && forall i | 0 <= i < |s.have| :: s.have[i] <==> i < s.next)
  }

  /** Block i sits in its slot. */
  predicate Slot(image: Data, payload: Data, bs: nat, i: nat)
    requires bs > 0 && i < |BlocksOf(payload, bs)|
  {
    var b := BlocksOf(payload, bs)[i];
    i * bs + |b| <= |image| && image[i * bs..i * bs + |b|] == b
  }

  /** Every block the store claims to have is the block of the payload. */
  ghost predicate Faithful(s: Store, payload: Data, bs: nat)
    requires bs > 0
  {
    forall i: nat | Has(s, i) && i < |BlocksOf(payload, bs)| :: Slot(s.image, payload, bs, i)
  }

  lemma {:induction false} MarkOne(have: seq<bool>, i: nat)
    requires i < |have| && !have[i]
    ensures Marked(have[i := true]) == Marked(have) + 1
    decreases |have|
  {
    var n := |have| - 1;
    if i < n {
      MarkOne(have[..n], i);
      assert have[i := true][..n] == have[..n][i := true];
    } else {
      assert have[i := true][..n] == have[..n];
    }
  }

  lemma {:induction false} MarkedAbsent(have: seq<bool>)
    requires forall i | 0 <= i < |have| :: !have[i]
    ensures Marked(have) == 0
    decreases |have|
  {
    if have != [] {
      MarkedAbsent(have[..|have| - 1]);
    }
  }

  lemma BeginRegular(s: Store, m: Manifest)
    requires Regular(s, m) && s.manifest.Some?
    ensures Regular(Begin(s), m) && forall i: nat :: Has(Begin(s), i) <==> Has(s, i)
  {
    if !s.began {
      MarkedAbsent(Absent(m.blockCount));
    }
  }

  /** Bookkeeping survives every put, and a block once stored stays stored. */
  lemma PutRegular(s: Store, m: Manifest, i: nat, data: Data)
    requires Regular(s, m) && i < m.blockCount
    ensures var o := Put(s, i, data);
            && Regular(o.s, m) && o.s.flash == s.flash && o.s.manifest == s.manifest
            && (o.ok <==> Has(o.s, i))
            && forall j: nat | j != i :: Has(o.s, j) <==> Has(s, j)
    ensures Has(s, i) ==> Has(Put(s, i, data).s, i)
  {
    hide Marked, Offset, Overwrite;
    if s.manifest.Some? {
      BeginRegular(s, m);
      var b := Begin(s);
      if !Has(b, i) {
        MarkOne(b.have, i);
      }
    }
  }

  /** Slots of different blocks do not overlap. */
  lemma SlotsApart(payload: Data, bs: nat, i: nat, j: nat)
    requires bs > 0 && i < j && j < |BlocksOf(payload, bs)|
    ensures i * bs + |BlocksOf(payload, bs)[i]| <= j * bs
  {
    BlockAt(payload, bs, i);
    MulMonotone(i + 1, j, bs);
    assert (i + 1) * bs == i * bs + bs;
  }

  lemma OverwriteKeepsSlot(image: Data, payload: Data, bs: nat, i: nat, j: nat)
    requires bs > 0 && i < |BlocksOf(payload, bs)| && j < |BlocksOf(payload, bs)|
    requires i * bs + |BlocksOf(payload, bs)[i]| <= |image|
    requires j == i || Slot(image, payload, bs, j)
    ensures Slot(Overwrite(image, i * bs, BlocksOf(payload, bs)[i]), payload, bs, j)
  {
    hide BlocksOf;
    var b := BlocksOf(payload, bs);
    if j < i {
      SlotsApart(payload, bs, j, i);
      OverwriteElsewhere(image, i * bs, b[i], j * bs, |b[j]|);
    } else if i < j {
      SlotsApart(payload, bs, i, j);
      OverwriteElsewhere(image, i * bs, b[i], j * bs, |b[j]|);
    } else {
      OverwriteThere(image, i * bs, b[i]);
    }
  }

  lemma OverwriteThere(image: Data, off: nat, data: Data)
    requires off + |data| <= |image|
    ensures Overwrite(image, off, data)[off..off + |data|] == data
  {
  }

  lemma OverwriteElsewhere(image: Data, off: nat, data: Data, at: nat, len: nat)
    requires off + |data| <= |image| && at + len <= |image|
    requires at + len <= off || off + |data| <= at
    ensures Overwrite(image, off, data)[at..at + len] == image[at..at + len]
  {
  }

  /** The bytes a store makes room for. */
  function Room(flash: bool, m: Manifest): nat {
    if flash then m.outputLength else m.payloadLength
  }

  predicate SlotHasRoom(flash: bool, m: Manifest, payload: Data, i: nat)
    requires m.blockSize > 0 && i < |BlocksOf(payload, m.blockSize)|
  {
    i * m.blockSize + |BlocksOf(payload, m.blockSize)[i]| <= Room(flash, m)
  }

  /** When the store can take block i: it has the manifest and room for the block, and for flash it is the next one. */
  predicate Accepts(s: Store, m: Manifest, payload: Data, i: nat)
    requires m.blockSize > 0 && i < |BlocksOf(payload, m.blockSize)|
  {
    s.manifest.Some? && (s.flash ==> i == s.next) && SlotHasRoom(s.flash, m, payload, i)
  }

  /** Whatever the data, a put leaves the block stored exactly when it was stored before, or the store has the manifest, it is
      this block's turn, and the data fits. */
  lemma PutStoresExactly(s: Store, m: Manifest, i: nat, data: Data)
    requires Regular(s, m) && i < m.blockCount
    ensures Has(Put(s, i, data).s, i) <==>
            Has(s, i) || (s.manifest.Some? && (s.flash ==> i == s.next)
                          && i * m.blockSize % WRAP + |data| <= Room(s.flash, m))
  {
    hide Marked, Overwrite;
    if s.manifest.Some? {
      BeginRegular(s, m);
    }
  }

  /** What a put of any data changes: nothing of a block already stored, nothing at all (but the lazy beginning, a zeroed image of
      the manifest's size) if the block is not stored afterwards, and otherwise exactly the bytes from the block's offset on. */
  lemma PutChangesOnly(s: Store, m: Manifest, i: nat, data: Data)
    requires Regular(s, m) && i < m.blockCount
    ensures var o := Put(s, i, data).s; var b := if s.manifest.Some? then Begin(s) else s; var off := i * m.blockSize % WRAP;
            && (s.manifest.Some? && !s.began ==> b.image == Zeros(Room(s.flash, m)))
            && (s.manifest.Some? && s.began ==> b == s)
            && (Has(s, i) || !Has(o, i) ==> o == b)
            && (!Has(s, i) && Has(o, i) ==>
                  && off + |data| <= |b.image| == |o.image| && o.image[off..off + |data|] == data
                  && o.image[..off] == b.image[..off] && o.image[off + |data|..] == b.image[off + |data|..]
                  && o.have == b.have[i := true] && o.count == b.count + 1)
  {
    hide Marked, Overwrite;
    if s.manifest.Some? {
      BeginRegular(s, m);
      var b := Begin(s);
      if Offset(b, i) + |data| <= |b.image| {
        OverwriteSays(b.image, Offset(b, i), data);
      }
    }
  }

  lemma OverwriteSays(image: Data, off: nat, data: Data)
    requires off + |data| <= |image|
    ensures var r := Overwrite(image, off, data);
            r[off..off + |data|] == data && r[..off] == image[..off] && r[off + |data|..] == image[off + |data|..]
  {
  }

  lemma SlotFits(m: Manifest, payload: Data, i: nat)
    requires Geometry(m, payload) && i < m.blockCount
    ensures i * m.blockSize < WRAP
    ensures i * m.blockSize + |BlocksOf(payload, m.blockSize)[i]| <= |payload|
  {
    NoWrap(payload, m.blockSize);
    BlockAt(payload, m.blockSize, i);
  }

  lemma BeginFaithful(s: Store, m: Manifest, payload: Data)
    requires m.blockSize > 0 && s.manifest == Some(m) && Regular(s, m) && Faithful(s, payload, m.blockSize)
    ensures Faithful(Begin(s), payload, m.blockSize)
  {
    hide BlocksOf;
  }

  /** The store takes a correct block whenever it can. */
  lemma PutAccepted(s: Store, m: Manifest, payload: Data, i: nat)
    requires Geometry(m, payload) && Regular(s, m) && i < m.blockCount && Accepts(s, m, payload, i)
    ensures Put(s, i, BlocksOf(payload, m.blockSize)[i]).ok
  {
    hide BlocksOf, Marked, Overwrite;
    BeginRegular(s, m);
    SlotFits(m, payload, i);
    assert Offset(Begin(s), i) == i * m.blockSize;
  }

  /** A correct block goes to its own slot and every other block stays as it was. */
  lemma PutFaithful(s: Store, m: Manifest, payload: Data, i: nat)
    requires Geometry(m, payload) && Regular(s, m) && i < m.blockCount
    requires Faithful(s, payload, m.blockSize)
    ensures Faithful(Put(s, i, BlocksOf(payload, m.blockSize)[i]).s, payload, m.blockSize)
  {
    hide BlocksOf, Marked, Overwrite;
    if s.manifest.Some? {
      var bs, data := m.blockSize, BlocksOf(payload, m.blockSize)[i];
      var b := Begin(s);
      BeginRegular(s, m);
      BeginFaithful(s, m, payload);
      SlotFits(m, payload, i);
      assert Offset(b, i) == i * bs;
      var after := Put(s, i, data).s;
      if after != b {
        forall j: nat | Has(after, j) && j < |BlocksOf(payload, bs)|
          ensures Slot(after.image, payload, bs, j)
        {
          OverwriteKeepsSlot(b.image, payload, bs, i, j);
        }
      }
    }
  }

  /** Slots filled from the front hold exactly a prefix of the payload. */
  lemma {:induction false} SlotsMakePrefix(image: Data, payload: Data, bs: nat, k: nat)
    requires bs > 0 && k <= |BlocksOf(payload, bs)|
    requires forall i: nat | i < k :: Slot(image, payload, bs, i)
    ensures Min(k * bs, |payload|) <= |image|
    ensures image[..Min(k * bs, |payload|)] == payload[..Min(k * bs, |payload|)]
    decreases k
  {
    hide BlocksOf;
    if k > 0 {
      var at, end := (k - 1) * bs, Min(k * bs, |payload|);
      SlotsMakePrefix(image, payload, bs, k - 1);
      BlockAt(payload, bs, k - 1);
      assert k * bs == at + bs;
      assert Slot(image, payload, bs, k - 1);
      assert image[..end] == image[..at] + image[at..end];
      assert payload[..end] == payload[..at] + payload[at..end];
    }
  }

  /** A faithful store that has every block holds the payload. */
  lemma FullStoreHoldsPayload(s: Store, payload: Data, bs: nat)
    requires bs > 0 && Faithful(s, payload, bs)
    requires forall i: nat | i < |BlocksOf(payload, bs)| :: Has(s, i)
    ensures |payload| <= |s.image| && s.image[..|payload|] == payload
  {
    hide BlocksOf;
    var n := |BlocksOf(payload, bs)|;
    SlotsMakePrefix(s.image, payload, bs, n);
    BlockCount(payload, bs);
  }

  /** The flash target holds exactly the payload prefix of the blocks written so far. */
  lemma FlashHoldsPrefix(s: Store, m: Manifest, payload: Data)
    requires s.flash && s.began && Geometry(m, payload) && Regular(s, m) && Faithful(s, payload, m.blockSize)
    ensures var n := Min(s.next * m.blockSize, |payload|); n <= |s.image| && s.image[..n] == payload[..n]
  {
    hide BlocksOf, Marked;
    AllMarked(s.have);
    forall i: nat | i < s.next
      ensures Slot(s.image, payload, m.blockSize, i)
    {
      assert Has(s, i);
    }
    SlotsMakePrefix(s.image, payload, m.blockSize, s.next);
  }

  /** What lies beyond the payload in the image: nothing for a buffer, the rest of a larger flash target. */
  function EndOf(s: Store, m: Manifest): Data {
    var image := if s.began then s.image else Zeros(Room(s.flash, m));
    image[Min(m.payloadLength, |image|)..]
  }

  /** Correct blocks never reach beyond the payload. */
  lemma PutKeepsEnd(s: Store, m: Manifest, payload: Data, i: nat)
    requires Geometry(m, payload) && Regular(s, m) && i < m.blockCount
    ensures EndOf(Put(s, i, BlocksOf(payload, m.blockSize)[i]).s, m) == EndOf(s, m)
  {
    hide BlocksOf, Marked, Overwrite, Offset, Regular;
    if s.manifest.Some? {
      var data := BlocksOf(payload, m.blockSize)[i];
      var b := Begin(s);
      BeginKeepsEnd(s, m);
      SlotFits(m, payload, i);
      var off := Offset(b, i);
      assert off == i * m.blockSize by { OffsetIs(b, m, i); }
      if off + |data| <= |b.image| {
        var at := Min(m.payloadLength, |b.image|);
        OverwriteElsewhere(b.image, off, data, at, |b.image| - at);
        assert b.image[at..] == b.image[at..at + (|b.image| - at)];
        assert Overwrite(b.image, off, data)[at..] == Overwrite(b.image, off, data)[at..at + (|b.image| - at)];
      }
    }
  }

  lemma OffsetIs(b: Store, m: Manifest, i: nat)
    requires b.blockSize == m.blockSize && i * m.blockSize < WRAP
    ensures i * m.blockSize >= 0 && Offset(b, i) == i * m.blockSize
  {
  }

  lemma BeginKeepsEnd(s: Store, m: Manifest)
    requires Regular(s, m) && s.manifest.Some?
    ensures EndOf(Begin(s), m) == EndOf(s, m) && Begin(s).began && Begin(s).blockSize == m.blockSize
  {
    hide Marked;
  }

  /** Two full stores of one package that are alike beyond the payload hold the same bytes and the same journal, however they
      got there. */
  lemma FullStoresEqual(a: Store, b: Store, m: Manifest, payload: Data)
    requires Geometry(m, payload) && a.flash == b.flash && EndOf(a, m) == EndOf(b, m) && (m.blockCount == 0 ==> a.began == b.began)
    requires Regular(a, m) && Faithful(a, payload, m.blockSize) && forall i: nat | i < m.blockCount :: Has(a, i)
    requires Regular(b, m) && Faithful(b, payload, m.blockSize) && forall i: nat | i < m.blockCount :: Has(b, i)
    ensures a.image == b.image && |payload| <= |a.image| && a.image[..|payload|] == payload
    ensures a.have == b.have && a.count == b.count
  {
    hide Regular, Faithful, Geometry, Marked, BlocksOf;
    FullStoreIs(a, m, payload);
    FullStoreIs(b, m, payload);
    assert a.have == b.have;
  }

  lemma FullStoreIs(s: Store, m: Manifest, payload: Data)
    requires Geometry(m, payload)
    requires Regular(s, m) && Faithful(s, payload, m.blockSize) && forall i: nat | i < m.blockCount :: Has(s, i)
    ensures |payload| <= |s.image| && s.image[..|payload|] == payload && s.count == Marked(s.have)
    ensures s.image == if s.began then payload + EndOf(s, m) else []
    ensures m.blockCount > 0 ==> s.began
    ensures |s.have| == (if s.began then m.blockCount else 0) && forall i | 0 <= i < |s.have| :: s.have[i]
  {
    hide Marked, Slot, BlocksOf, Faithful;
    FullStoreHoldsPayload(s, payload, m.blockSize);
    if m.blockCount > 0 {
      assert Has(s, 0);
    }
    if s.began {
      assert s.image == s.image[..|payload|] + s.image[|payload|..];
    }
    forall i | 0 <= i < |s.have| ensures s.have[i] {
      assert Has(s, i);
    }
  }

  // ---- any order, any repetition ----

  /** Put the payload's own blocks in the given order. */
  function PutAll(s: Store, blocks: seq<Data>, order: seq<nat>): Store
    requires forall k | 0 <= k < |order| :: order[k] < |blocks|
    decreases |order|
  {
    if order == [] then s else
      var k := |order| - 1;
      Put(PutAll(s, blocks, order[..k]), order[k], blocks[order[k]]).s
  }

  function Indices(have: seq<bool>): set<nat> {
    set i: nat | i < |have| && have[i]
  }

  function Distinct(order: seq<nat>): set<nat> {
    set i | i in order
  }

  lemma {:induction false} MarkedIsSize(have: seq<bool>)
    ensures Marked(have) == |Indices(have)|
    decreases |have|
  {
    if have == [] {
      assert Indices(have) == {};
    } else {
      var n := |have| - 1;
      MarkedIsSize(have[..n]);
      if have[n] {
        assert Indices(have) == Indices(have[..n]) + {n};
      } else {
        assert Indices(have) == Indices(have[..n]);
      }
    }
  }

  ghost predicate HasExactly(s: Store, order: seq<nat>) {
    forall i: nat :: Has(s, i) <==> i in order
  }

  lemma CountIsDistinct(s: Store, m: Manifest, order: seq<nat>)
    requires Regular(s, m) && HasExactly(s, order)
    ensures s.count == |Distinct(order)|
  {
    hide Marked;
    MarkedIsSize(s.have);
    forall i: nat ensures i in Indices(s.have) <==> i in order {
      assert i in Indices(s.have) <==> Has(s, i);
    }
    assert Indices(s.have) == Distinct(order);
  }

  /** A buffering store fed correct blocks in any order with any repetitions has exactly the blocks it was given
      and counts the distinct ones. */
  lemma {:induction false} OrderDoesNotMatter(m: Manifest, payload: Data, order: seq<nat>)
    requires Geometry(m, payload) && forall k | 0 <= k < |order| :: order[k] < m.blockCount
    ensures var s := PutAll(EmptyStore(false).(manifest := Some(m)), BlocksOf(payload, m.blockSize), order);
            && Regular(s, m) && Faithful(s, payload, m.blockSize) && !s.flash && s.manifest == Some(m)
            && HasExactly(s, order) && s.count == |Distinct(order)|
    decreases |order|
  {
    hide BlocksOf, Marked, Regular, Faithful, Put, Has;
    var blocks := BlocksOf(payload, m.blockSize);
    var start := EmptyStore(false).(manifest := Some(m));
    if order == [] {
      NothingStored(m, payload, start);
    } else {
      var k := |order| - 1;
      OrderDoesNotMatter(m, payload, order[..k]);
      PutOneMore(PutAll(start, blocks, order[..k]), m, payload, order);
    }
    CountIsDistinct(PutAll(start, blocks, order), m, order);
  }

  lemma NothingStored(m: Manifest, payload: Data, start: Store)
    requires m.blockSize > 0 && start == EmptyStore(false).(manifest := Some(m))
    ensures Regular(start, m) && Faithful(start, payload, m.blockSize) && HasExactly(start, [])
  {
    MarkedAbsent([]);
  }

  lemma PutOneMore(before: Store, m: Manifest, payload: Data, order: seq<nat>)
    requires Geometry(m, payload) && order != [] && order[|order| - 1] < m.blockCount
    requires Regular(before, m) && Faithful(before, payload, m.blockSize) && !before.flash && before.manifest == Some(m)
    requires HasExactly(before, order[..|order| - 1])
    ensures var s := Put(before, order[|order| - 1], BlocksOf(payload, m.blockSize)[order[|order| - 1]]).s;
            && Regular(s, m) && Faithful(s, payload, m.blockSize) && !s.flash && s.manifest == Some(m)
            && HasExactly(s, order)
  {
    hide BlocksOf, Marked, Regular, Faithful, Put;
    var i := order[|order| - 1];
    PutRegular(before, m, i, BlocksOf(payload, m.blockSize)[i]);
    PutFaithful(before, m, payload, i);
    SlotFits(m, payload, i);
    PutAccepted(before, m, payload, i);
    assert order == order[..|order| - 1] + [i];
  }

  lemma FullCountIsPayload(s: Store, m: Manifest, payload: Data)
    requires Geometry(m, payload) && Regular(s, m) && Faithful(s, payload, m.blockSize) && !s.flash
    requires s.began && s.count == m.blockCount
    ensures s.image == payload
  {
    hide BlocksOf, Marked, Slot;
    AllMarked(s.have);
    FullStoreHoldsPayload(s, payload, m.blockSize);
    assert s.image == s.image[..|payload|];
  }

  lemma {:induction false} AllMarked(have: seq<bool>)
    ensures Marked(have) <= |have|
    ensures Marked(have) == |have| ==> forall i | 0 <= i < |have| :: have[i]
    decreases |have|
  {
    if have != [] {
      AllMarked(have[..|have| - 1]);
    }
  }
}
