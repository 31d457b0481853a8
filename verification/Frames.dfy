/** Frames on the radio: the 8-byte header, the START body, fragmentation and reassembly. */
module Frames {
  import opened Wire

  const START: Byte := 1
  const MANIFEST: Byte := 2
  const BLOCK: Byte := 3
  const PROOF: Byte := 4
  const REQUEST: Byte := 5
  const ACK: Byte := 6
  const DONE: Byte := 7
  const ABORT: Byte := 8

  const INDEX_MANIFEST: U16 := 0xFFFF
  const MAX_FRAME_PAYLOAD := 233
  const FRAME_HEADER := 8
  const MAX_FRAGMENT := MAX_FRAME_PAYLOAD - FRAME_HEADER

  datatype Frame = Frame(kind: Byte, session: Byte, index: U16, off: U16, total: U16, body: Data)

  function Encode(f: Frame): Data {
    [f.kind, f.session] + Put16(f.index) + Put16(f.off) + Put16(f.total) + f.body
  }

  function Decode(d: Data): Option<Frame> {
    if |d| < FRAME_HEADER then None
    else Some(Frame(d[0], d[1], Get16(d[2..4]), Get16(d[4..6]), Get16(d[6..8]), d[8..]))
  }

  lemma FrameRoundTrip(f: Frame)
    ensures Decode(Encode(f)) == Some(f)
  {
    hide Put16, Get16;
    var d := Encode(f);
    assert d[2..4] == Put16(f.index) && d[4..6] == Put16(f.off) && d[6..8] == Put16(f.total) && d[8..] == f.body;
    Put16IsInverse(f.index, [0, 0]);
    Put16IsInverse(f.off, [0, 0]);
    Put16IsInverse(f.total, [0, 0]);
  }

  /** Nothing is lost on the way in either: a decoded frame encodes to the bytes it came from. */
  lemma DecodedFrameReencodes(d: Data)
    requires Decode(d).Some?
    ensures Encode(Decode(d).value) == d
  {
    hide Put16, Get16;
    Put16IsInverse(0, d[2..4]);
    Put16IsInverse(0, d[4..6]);
    Put16IsInverse(0, d[6..8]);
    assert d == [d[0], d[1]] + d[2..4] + d[4..6] + d[6..8] + d[8..];
  }

  function EncodeAll(frames: seq<Frame>): (all: seq<Data>)
    ensures |all| == |frames|
    ensures forall i | 0 <= i < |frames| :: all[i] == Encode(frames[i])
  {
    seq(|frames|, i requires 0 <= i < |frames| => Encode(frames[i]))
  }

  // ---- START ----

  datatype StartInfo = StartInfo(blockSize: U16, blockCount: U16, payloadLength: U32, manifestLength: U16, signatureLength: U16)

  function EncodeStart(s: StartInfo): (d: Data)
    ensures |d| == 12
  {
    Put16(s.blockSize) + Put16(s.blockCount) + Put32(s.payloadLength) + Put16(s.manifestLength) + Put16(s.signatureLength)
  }

  function DecodeStart(d: Data): Option<StartInfo> {
    if |d| < 12 then None
    else Some(StartInfo(Get16(d[..2]), Get16(d[2..4]), Get32(d[4..8]), Get16(d[8..10]), Get16(d[10..12])))
  }

  lemma StartRoundTrip(s: StartInfo)
    ensures DecodeStart(EncodeStart(s)) == Some(s)
  {
    hide Put16, Get16, Put32, Get32;
    var d := EncodeStart(s);
    assert d[..2] == Put16(s.blockSize) && d[2..4] == Put16(s.blockCount) && d[4..8] == Put32(s.payloadLength);
    assert d[8..10] == Put16(s.manifestLength) && d[10..12] == Put16(s.signatureLength);
    Put16IsInverse(s.blockSize, [0, 0]);
    Put16IsInverse(s.blockCount, [0, 0]);
    Get32Put32(s.payloadLength);
    Put16IsInverse(s.manifestLength, [0, 0]);
    Put16IsInverse(s.signatureLength, [0, 0]);
  }

  // ---- fragmentation ----

  type Unit = d: Data | |d| <= 0xFFFF witness []

  /** The frames that carry a unit from byte off on. */
  function Fragments(kind: Byte, session: Byte, index: U16, unit: Unit, off: nat, frag: nat): seq<Frame>
    requires frag > 0
    decreases |unit| - off
  {
    if off >= |unit| then [] else
      var n := Min(frag, |unit| - off);
      [Frame(kind, session, index, off, |unit|, unit[off..off + n])]
      + Fragments(kind, session, index, unit, off + n, frag)
  }

  /** No frame exceeds the radio payload, so the sender's frame buffer is never overrun. */
  lemma {:induction false} FragmentsFit(kind: Byte, session: Byte, index: U16, unit: Unit, off: nat, frag: nat)
    requires 0 < frag <= 225
    ensures forall f <- Fragments(kind, session, index, unit, off, frag) :: |Encode(f)| <= 233
    decreases |unit| - off
  {
    if off < |unit| {
      FragmentsFit(kind, session, index, unit, off + Min(frag, |unit| - off), frag);
    }
  }

  // ---- reassembly ----

  /** What a reassembler holds: buf[..filled] of a unit of `total` bytes. */
  datatype Partial = Partial(active: bool, total: U16, got: Unit)

  datatype Fed = Fed(re: Partial, done: bool)

  function Fill(re: Partial, off: nat, data: Data): Fed {
    if !re.active || off != |re.got| || off + |data| > re.total then Fed(re, false)
    else Fed(re.(got := re.got + data), |re.got| + |data| >= re.total)
  }

  class Reassembler {
    var buf: Data
    var total: U16
    var filled: nat
    var active: bool

    ghost predicate Valid()
      reads this
    {
      |buf| == total && filled <= total
    }

    ghost function View(): Partial
      requires Valid()
      reads this
    {
      Partial(active, total, buf[..filled])
    }

    constructor ()
      ensures Valid() && View() == Partial(false, 0, [])
    {
      buf, total, filled, active := [], 0, 0, false;
    }

    method Reset(totalLength: U16)
      modifies this
      ensures Valid() && View() == Partial(true, totalLength, [])
    {
      total := totalLength;
      filled := 0;
      active := true;
      buf := Zeros(totalLength);
    }

    method Feed(off: U16, data: Data) returns (done: bool)
      requires Valid()
      modifies this
      ensures Valid() && Fed(View(), done) == Fill(old(View()), off, data)
      ensures done ==> buf == View().got
    {
      if !active {
        return false;
      }
      if off != filled {
        return false;
      }
      if off + |data| > total {
        return false;
      }
      if data != [] {
        buf := buf[..off] + data + buf[off + |data|..];
      }
      filled := filled + |data|;
      done := filled >= total;
      assert done ==> buf[..filled] == buf;
    }

    method Deactivate()
      requires Valid()
      modifies this
      ensures Valid() && View() == old(View()).(active := false) && buf == old(buf)
    {
      active := false;
    }
  }

  /** How every handler uses its reassembler: a fragment at offset 0 restarts the unit. */
  function Take(re: Partial, f: Frame): Fed {
    Fill(if f.off == 0 then Partial(true, f.total, []) else re, f.off, f.body)
  }

  function TakeAll(re: Partial, frames: seq<Frame>): Fed
    decreases |frames|
  {
    if frames == [] then Fed(re, false) else
      var first := Take(re, frames[0]);
      if |frames| == 1 then first else TakeAll(first.re, frames[1..])
  }

  /** In order and without loss, a unit of any size in fragments of any size is rebuilt, at the last fragment and not before. */
  lemma {:induction false} UnitRebuilt(re: Partial, kind: Byte, session: Byte, index: U16, unit: Unit, off: nat, frag: nat)
    requires frag > 0 && off < |unit|
    requires off > 0 ==> re == Partial(true, |unit|, unit[..off])
    ensures var frames := Fragments(kind, session, index, unit, off, frag);
            && TakeAll(re, frames) == Fed(Partial(true, |unit|, unit), true)
            && forall k | 0 <= k < |frames| :: !TakeAll(re, frames[..k]).done
    decreases |unit| - off
  {
    var n := Min(frag, |unit| - off);
    var frames := Fragments(kind, session, index, unit, off, frag);
    var first := Take(re, frames[0]);
    assert first.re == Partial(true, |unit|, unit[..off + n]) by {
      assert unit[..off] + unit[off..off + n] == unit[..off + n];
    }
    if off + n < |unit| {
      UnitRebuilt(first.re, kind, session, index, unit, off + n, frag);
      forall k | 0 <= k < |frames|
        ensures !TakeAll(re, frames[..k]).done
      {
        if k > 1 {
          assert frames[..k][1..] == frames[1..][..k - 1];
        }
      }
    } else {
      assert Fragments(kind, session, index, unit, off + n, frag) == [];
      assert unit[..|unit|] == unit && |frames| == 1;
    }
  }

  /** A genuine piece of a unit, whatever fragment size it was cut with. */
  predicate PieceOf(f: Frame, unit: Data) {
    f.total == |unit| && f.off + |f.body| <= |unit| && f.body == unit[f.off..f.off + |f.body|]
  }

  /** What a reassembler holds is a prefix of the unit. */
  predicate HoldsPrefix(re: Partial, unit: Unit) {
    re.active ==> re.total == |unit| && re.got <= unit
  }

  lemma PieceKeepsPrefix(re: Partial, f: Frame, unit: Unit)
    requires PieceOf(f, unit) && HoldsPrefix(re, unit)
    ensures var fed := Take(re, f); HoldsPrefix(fed.re, unit) && (fed.done ==> fed.re.got == unit)
  {
    var fed := Take(re, f);
    if fed.re.active && fed.re.got != re.got {
      assert unit[..f.off] + unit[f.off..f.off + |f.body|] == unit[..f.off + |f.body|];
    }
  }

  /** Under loss, repetition and reordering, of pieces cut with any mixture of fragment sizes, the reassembler never holds
      anything but a prefix of the unit, and what it calls complete is the unit. */
  lemma {:induction false} PiecesKeepPrefix(re: Partial, frames: seq<Frame>, unit: Unit)
    requires HoldsPrefix(re, unit) && forall f <- frames :: PieceOf(f, unit)
    ensures var fed := TakeAll(re, frames); HoldsPrefix(fed.re, unit) && (fed.done ==> fed.re.got == unit)
    decreases |frames|
  {
    hide Take, PieceOf, HoldsPrefix;
    if frames != [] {
      PieceKeepsPrefix(re, frames[0], unit);
      PiecesKeepPrefix(Take(re, frames[0]).re, frames[1..], unit);
    }
  }

  lemma {:induction false} FragmentsArePieces(kind: Byte, session: Byte, index: U16, unit: Unit, off: nat, frag: nat)
    requires frag > 0
    ensures forall f <- Fragments(kind, session, index, unit, off, frag) ::
              PieceOf(f, unit) && f.kind == kind && f.session == session && f.index == index
    decreases |unit| - off
  {
    if off < |unit| {
      FragmentsArePieces(kind, session, index, unit, off + Min(frag, |unit| - off), frag);
    }
  }
}
