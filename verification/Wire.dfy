/** Machine widths and the little-endian integer codecs shared by every wire format. */
module Wire {

  type Byte = b: int | 0 <= b < 0x100
  type U16 = v: int | 0 <= v < 0x1_0000
  /** 32-bit arithmetic wraps here. */
  const WRAP := 0x1_0000_0000

  type U32 = v: int | 0 <= v < WRAP

  type Data = seq<Byte>

  datatype Option<+T> = None | Some(value: T)

  function Zeros(n: nat): (d: Data)
    ensures |d| == n
  {
    seq(n, i => 0)
  }

  function Put16(v: U16): (d: Data)
    ensures |d| == 2
  {
    [v % 0x100, v / 0x100]
  }

  function Get16(d: Data): U16
    requires |d| == 2
  {
    d[0] as int + 0x100 * d[1] as int
  }

  function Put32(v: U32): (d: Data)
    ensures |d| == 4
  {
    [v % 0x100, v / 0x100 % 0x100, v / 0x1_0000 % 0x100, v / 0x100_0000]
  }

  function Get32(d: Data): U32
    requires |d| == 4
  {
    d[0] as int + 0x100 * d[1] as int + 0x1_0000 * d[2] as int + 0x100_0000 * d[3] as int
  }

  /** Both integer codecs are bijections between numbers and byte strings. */
  lemma Put16IsInverse(v: U16, d: Data)
    requires |d| == 2
    ensures Get16(Put16(v)) == v && Put16(Get16(d)) == d
  {
    assert Put16(Get16(d)) == d;
  }

  lemma Get32Put32(v: U32)
    ensures Get32(Put32(v)) == v
  {
    assert v / 0x1_0000 == v / 0x100 / 0x100;
    assert v / 0x100_0000 == v / 0x1_0000 / 0x100;
  }

  lemma Put32Get32(d: Data)
    requires |d| == 4
    ensures Put32(Get32(d)) == d
  {
    var v: int := Get32(d);
    assert v / 0x100 == d[1] as int + 0x100 * d[2] as int + 0x1_0000 * d[3] as int;
    assert v / 0x1_0000 == d[2] as int + 0x100 * d[3] as int;
  }

  // ---- what the bytes mean: numerals read digit by digit ----

  /** The number written with its least significant byte first. */
  function Little(d: Data): nat {
    if d == [] then 0 else d[0] as int + 0x100 * Little(d[1..])
  }

  /** The number written with its most significant byte first. */
  function Big(d: Data): nat {
    if d == [] then 0 else 0x100 * Big(d[..|d| - 1]) + d[|d| - 1] as int
  }

  lemma LittleOf2(d: Data)
    requires |d| == 2
    ensures Little(d) == Get16(d)
  {
    assert d[1..][1..] == [] && Little(d[1..]) == d[1] as int;
  }

  lemma LittleOf4(d: Data)
    requires |d| == 4
    ensures Little(d) == Get32(d)
  {
    LittleOf2(d[2..]);
    assert Little(d[1..]) == d[1] as int + 0x100 * Little(d[2..]) by { assert d[1..][1..] == d[2..]; }
  }

  /** The codecs write numerals with the least significant byte first. */
  lemma LittlePut(v: U16, w: U32)
    ensures Little(Put16(v)) == v && Little(Put32(w)) == w
  {
    hide Put16, Put32, Get16, Get32;
    LittleOf2(Put16(v));
    LittleOf4(Put32(w));
    Put16IsInverse(v, [0, 0]);
    Get32Put32(w);
  }

  function Min(a: int, b: int): int {
    if a <= b then a else b
  }

  // ---- fixed layouts: consecutive fields of given sizes ----

  function Join(parts: seq<Data>): Data {
    if parts == [] then [] else parts[0] + Join(parts[1..])
  }

  function Total(sizes: seq<nat>): nat {
    if sizes == [] then 0 else sizes[0] + Total(sizes[1..])
  }

  predicate Fits(parts: seq<Data>, sizes: seq<nat>) {
    |parts| == |sizes| && forall i | 0 <= i < |parts| :: |parts[i]| == sizes[i]
  }

  function Cut(d: Data, sizes: seq<nat>): (parts: seq<Data>)
    requires |d| == Total(sizes)
    ensures Fits(parts, sizes)
    decreases |sizes|
  {
    if sizes == [] then [] else [d[..sizes[0]]] + Cut(d[sizes[0]..], sizes[1..])
  }

  lemma {:induction false} CutJoin(parts: seq<Data>, sizes: seq<nat>)
    requires Fits(parts, sizes)
    ensures |Join(parts)| == Total(sizes) && Cut(Join(parts), sizes) == parts
    decreases |parts|
  {
    if parts != [] {
      CutJoin(parts[1..], sizes[1..]);
      var whole := parts[0] + Join(parts[1..]);
      assert whole[..sizes[0]] == parts[0] && whole[sizes[0]..] == Join(parts[1..]);
      assert Cut(whole, sizes) == [parts[0]] + Cut(Join(parts[1..]), sizes[1..]);
    }
  }

  lemma {:induction false} JoinCut(d: Data, sizes: seq<nat>)
    requires |d| == Total(sizes)
    ensures Join(Cut(d, sizes)) == d
    decreases |sizes|
  {
    if sizes != [] {
      JoinCut(d[sizes[0]..], sizes[1..]);
    }
  }
}
