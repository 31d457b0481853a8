/** The streaming hash of src/sha256.cpp over an arbitrary compression function. */
module Sha256 {
  import opened Wire

  const IV: seq<U32> := [0x6a09e667, 0xbb67ae85, 0x3c6ef372, 0xa54ff53a, 0x510e527f, 0x9b05688c, 0x1f83d9ab, 0x5be0cd19]

  type State = s: seq<U32> | |s| == 8 witness IV
  type Block = b: Data | |b| == 64 witness Zeros(64)
  type Compress = (State, Block) -> State

  /** Lengths are kept in a 64-bit counter of bits. */
  const WORD64 := 0x1_0000_0000_0000_0000

  /** 2^61 bytes: from here on the bit counter wraps. */
  const MESSAGE_LIMIT := 0x2000_0000_0000_0000

  // ---- the hash of a whole message: sections 5.1.1, 5.2.1 and 6.2.2 of FIPS 180-4 ----

  function Fold(c: Compress, m: Data): State
    requires |m| % 64 == 0
    decreases |m|
  {
    if m == [] then IV else c(Fold(c, m[..|m| - 64]), m[|m| - 64..])
  }

  /** The least number of zero bytes that leaves exactly eight bytes of the last block free. */
  function ZeroCount(len: nat): (z: nat)
    ensures z < 64 && (len + 1 + z + 8) % 64 == 0
  {
    (119 - len % 64) % 64
  }

  function Put64(v: nat): (d: Data)
    requires v < WORD64
    ensures |d| == 8
  {
    [v / 0x100_0000_0000_0000, v / 0x1_0000_0000_0000 % 0x100, v / 0x100_0000_0000 % 0x100, v / 0x1_0000_0000 % 0x100,
     v / 0x100_0000 % 0x100, v / 0x1_0000 % 0x100, v / 0x100 % 0x100, v % 0x100]
  }

  function Get64(d: Data): int
    requires |d| == 8
  {
    0x100_0000_0000_0000 * d[0] as int + 0x1_0000_0000_0000 * d[1] as int + 0x100_0000_0000 * d[2] as int +
    0x1_0000_0000 * d[3] as int + 0x100_0000 * d[4] as int + 0x1_0000 * d[5] as int + 0x100 * d[6] as int + d[7] as int
  }

  lemma Get64Put64(v: nat)
    requires v < WORD64
    ensures Get64(Put64(v)) == v
  {
    assert v / 0x1_0000 == v / 0x100 / 0x100;
    assert v / 0x100_0000 == v / 0x1_0000 / 0x100;
    assert v / 0x1_0000_0000 == v / 0x100_0000 / 0x100;
    assert v / 0x100_0000_0000 == v / 0x1_0000_0000 / 0x100;
    assert v / 0x1_0000_0000_0000 == v / 0x100_0000_0000 / 0x100;
    assert v / 0x100_0000_0000_0000 == v / 0x1_0000_0000_0000 / 0x100;
  }

  function Bits(len: nat): (v: nat)
    ensures v < WORD64
  {
    8 * len % WORD64
  }

  lemma {:induction false} ModTurns(z: nat, turns: nat)
    ensures (z + turns * WORD64) % WORD64 == z % WORD64
    decreases turns
  {
    if turns > 0 {
      ModTurns(z, turns - 1);
      assert z + turns * WORD64 == z + (turns - 1) * WORD64 + WORD64;
    }
  }

  lemma BitsAdd(a: nat, b: nat)
    ensures (Bits(a) + 8 * b) % WORD64 == Bits(a + b)
  {
    var turns := 8 * a / WORD64;
    assert 8 * a == Bits(a) + turns * WORD64;
    ModTurns(Bits(a) + 8 * b, turns);
  }

  function Padding(len: nat): (d: Data)
    ensures (len + |d|) % 64 == 0
  {
    [0x80] + Zeros(ZeroCount(len)) + Put64(Bits(len))
  }

  function Word(v: U32): (d: Data)
    ensures |d| == 4
  {
    [v / 0x100_0000, v / 0x1_0000 % 0x100, v / 0x100 % 0x100, v % 0x100]
  }

  function Words(s: seq<U32>): (d: Data)
    ensures |d| == 4 * |s|
  {
    if s == [] then [] else Word(s[0]) + Words(s[1..])
  }

  function Digest(c: Compress, m: Data): (d: Data)
    ensures |d| == 32
  {
    Words(Fold(c, m + Padding(|m|)))
  }

  // ---- read byte by byte: what the digest and the padding say ----

  lemma BigOf4(d: Data)
    requires |d| == 4
    ensures Big(d) == 0x100_0000 * d[0] as int + 0x1_0000 * d[1] as int + 0x100 * d[2] as int + d[3] as int
  {
    assert d[..3][..2] == d[..2] && d[..2][..1] == d[..1] && d[..1][..0] == [];
    assert Big(d[..1]) == d[0] as int;
    assert Big(d[..2]) == 0x100 * Big(d[..1]) + d[1] as int;
    assert Big(d[..3]) == 0x100 * Big(d[..2]) + d[2] as int;
  }

  lemma BigWord(v: U32)
    ensures Big(Word(v)) == v
  {
    BigOf4(Word(v));
    assert v / 0x1_0000 == v / 0x100 / 0x100;
    assert v / 0x100_0000 == v / 0x1_0000 / 0x100;
  }

  lemma BigPush(d: Data, b: Byte)
    ensures Big(d + [b]) == 0x100 * Big(d) + b as int
  {
    assert (d + [b])[..|d|] == d;
  }

  lemma BigAppend(d: Data, e: Data)
    requires |e| == 4
    ensures Big(d + e) == WRAP * Big(d) + Big(e)
  {
    hide Big;
    BigPush(d, e[0]);
    BigPush(d + [e[0]], e[1]);
    BigPush(d + [e[0]] + [e[1]], e[2]);
    BigPush(d + [e[0]] + [e[1]] + [e[2]], e[3]);
    assert d + e == d + [e[0]] + [e[1]] + [e[2]] + [e[3]];
    BigOf4(e);
  }

  /** The length is written with its most significant byte first. */
  lemma BigPut64(v: nat)
    requires v < WORD64
    ensures Big(Put64(v)) == v
  {
    var d := Put64(v);
    assert d == d[..4] + d[4..];
    BigAppend(d[..4], d[4..]);
    BigOf4(d[..4]);
    BigOf4(d[4..]);
    Get64Put64(v);
  }

  lemma {:induction false} WordsAt(s: seq<U32>, k: nat)
    requires k < |s|
    ensures Words(s)[4 * k..4 * k + 4] == Word(s[k])
    decreases k
  {
    hide Word;
    if k > 0 {
      WordsAt(s[1..], k - 1);
      assert Words(s)[4 * k..4 * k + 4] == Words(s[1..])[4 * (k - 1)..4 * (k - 1) + 4];
    }
  }

  /** Four bytes of the digest are one word of the final state, most significant byte first. */
  lemma DigestWord(c: Compress, m: Data, k: nat)
    requires k < 8
    ensures Big(Digest(c, m)[4 * k..4 * k + 4]) == Fold(c, m + Padding(|m|))[k]
  {
    hide Word, Words, Fold, Padding, Big;
    WordsAt(Fold(c, m + Padding(|m|)), k);
    BigWord(Fold(c, m + Padding(|m|))[k]);
  }

  /** The folded state is reached block by block, from the front. */
  lemma FoldChain(c: Compress, m: Data, k: nat)
    requires 64 * (k + 1) <= |m|
    ensures Fold(c, []) == IV && Fold(c, m[..64 * (k + 1)]) == c(Fold(c, m[..64 * k]), m[64 * k..64 * (k + 1)])
  {
    hide Fold;
    FoldNone(c);
    assert m[..64 * (k + 1)] == m[..64 * k] + m[64 * k..64 * (k + 1)];
    FoldAppend(c, m[..64 * k], m[64 * k..64 * (k + 1)]);
  }

  lemma FoldNone(c: Compress)
    ensures Fold(c, []) == IV
  {
  }

  /** The padding: one byte 0x80, the fewest zeros, and the length in bits as a 64-bit number. */
  lemma PaddingSays(len: nat)
    ensures var d := Padding(len);
            && 9 <= |d| <= 72 && (len + |d|) % 64 == 0 && d[0] == 0x80 && (forall i | 1 <= i < |d| - 8 :: d[i] == 0)
            && Big(d[|d| - 8..]) == 8 * len % WORD64
  {
    hide Put64, Big;
    BigPut64(Bits(len));
    assert Padding(len)[|Padding(len)| - 8..] == Put64(Bits(len));
  }

  const FIRST_PRIMES: seq<nat> := [2, 3, 5, 7, 11, 13, 17, 19]

  /** The initial state: the first 32 bits of the fractions of the square roots of the first eight primes, section 5.3.3 of
      FIPS 180-4. */
  lemma InitialState(k: nat) returns (whole: nat)
    requires k < 8
    ensures var root := whole * WRAP + IV[k]; root * root <= FIRST_PRIMES[k] * WRAP * WRAP < (root + 1) * (root + 1)
  {
    whole := if k < 2 then 1 else if k < 4 then 2 else if k < 6 then 3 else 4;
  }

  lemma FoldAppend(c: Compress, m: Data, b: Block)
    requires |m| % 64 == 0
    ensures Fold(c, m + b) == c(Fold(c, m), b)
  {
    assert (m + b)[..|m|] == m && (m + b)[|m|..] == b;
  }

  lemma OneMoreBlock(n: nat)
    requires n % 64 == 0
    ensures (n + 64) % 64 == 0
  {
  }

  // ---- the streaming object ----

  class Hasher {
    const compress: Compress
    var state: State
    var bitlen: nat
    const buf: array<Byte>
    var buflen: nat
    /** Everything passed to Update since the last reset, and the whole blocks of it already compressed. */
    ghost var message: Data
    ghost var done: Data

    ghost predicate Buffered()
      reads this, buf
    {
      && buf.Length == 64 && buflen < 64
      && |done| % 64 == 0 && state == Fold(compress, done)
      && message == done + buf[..buflen]
    }

    ghost predicate Valid()
      reads this, buf
    {
      Buffered() && bitlen == Bits(|message|)
    }

    constructor (c: Compress)
      ensures Valid() && message == [] && compress == c && fresh(buf)
    {
      compress := c;
      buf := new Byte[64](_ => 0);
      state, bitlen, buflen, message, done := IV, 0, 0, [], [];
    }

    /** Copy the part of the input that fits and compress the buffer when it is full. */
    method Absorb(piece: Data)
      requires Buffered() && buflen + |piece| <= 64 && piece != []
      modifies `state, `buflen, `message, `done, buf
      ensures Buffered() && message == old(message) + piece
    {
      hide Fold, Bits;
      forall i | 0 <= i < |piece| {
        buf[buflen + i] := piece[i];
      }
      assert buf[..buflen + |piece|] == old(buf[..buflen]) + piece;
      message := message + piece;
      buflen := buflen + |piece|;
      assert message == done + buf[..buflen];
      if buflen == 64 {
        assert buf[..64] == buf[..];
        FoldAppend(compress, done, buf[..]);
        OneMoreBlock(|done|);
        state := compress(state, buf[..]);
        done := done + buf[..];
        buflen := 0;
      }
    }

    method Update(data: Data)
      requires Valid()
      modifies this, buf
      ensures Valid() && message == old(message) + data
    {
      hide Bits, Fold;
      BitsAdd(|message|, |data|);
      bitlen := (bitlen + 8 * |data|) % WORD64;
      var pos := 0;
      while pos < |data|
        invariant 0 <= pos <= |data| && Buffered()
        invariant message == old(message) + data[..pos]
        invariant bitlen == Bits(|old(message)| + |data|)
      {
        var take := Min(64 - buflen, |data| - pos);
        Absorb(data[pos..pos + take]);
        assert data[..pos + take] == data[..pos] + data[pos..pos + take];
        pos := pos + take;
      }
      assert data[..pos] == data;
    }

    /** The padding loop: one byte at a time until the buffer holds 56, wrapping past 64 if it must. */
    method Pad()
      requires Valid()
      modifies this, buf
      ensures Buffered() && buflen == 56
      ensures message == old(message) + [0x80] + Zeros(ZeroCount(|old(message)|))
    {
      hide Bits, ZeroCount, Fold;
      ghost var len, zeros := |message|, 0;
      Update([0x80]);
      while buflen != 56
        invariant Valid() && zeros <= ZeroCount(len)
        invariant message == old(message) + [0x80] + Zeros(zeros)
        decreases ZeroCount(len) - zeros
      {
        StillPadding(len, zeros, |done|, buflen);
        Update([0x00]);
        assert Zeros(zeros) + [0x00] == Zeros(zeros + 1);
        zeros := zeros + 1;
      }
      StillPadding(len, zeros, |done|, buflen);
    }

    method Finish() returns (out: Data)
      requires Valid()
      modifies this, buf
      ensures out == Digest(compress, old(message))
      ensures var padded := old(message) + Padding(|old(message)|);
              forall k | 0 <= k < 8 :: Big(out[4 * k..4 * k + 4]) == Fold(compress, padded)[k]
    {
      hide Bits, ZeroCount, Fold, Words, Padding, Big, Digest;
      var bits := bitlen;
      Pad();
      ghost var tail := buf[..56];
      var lenbe := Put64(bits);
      forall i | 0 <= i < 8 {
        buf[56 + i] := lenbe[i];
      }
      assert buf[..] == tail + lenbe;
      FinalBlock(compress, old(message), done, tail, buf[..]);
      state := compress(state, buf[..]);
      out := Words(state);
      forall k: nat | k < 8
        ensures Big(out[4 * k..4 * k + 4]) == Fold(compress, old(message) + Padding(|old(message)|))[k]
      {
        DigestWord(compress, old(message), k);
      }
    }
  }

  /** The buffer first holds exactly 56 bytes when the right number of zeros has gone in, so the loop stops there. */
  lemma StillPadding(len: nat, zeros: nat, whole: nat, rest: nat)
    requires zeros <= ZeroCount(len) && len + 1 + zeros == whole + rest && whole % 64 == 0 && rest < 64
    ensures rest == 56 <==> zeros == ZeroCount(len)
  {
  }

  /** The block that carries the length completes the padded message. */
  lemma FinalBlock(c: Compress, m: Data, done: Data, tail: Data, block: Block)
    requires |done| % 64 == 0 && m + [0x80] + Zeros(ZeroCount(|m|)) == done + tail
    requires block == tail + Put64(Bits(|m|))
    ensures Words(c(Fold(c, done), block)) == Digest(c, m)
  {
    hide Fold, Bits, ZeroCount, Put64, Words;
    FoldAppend(c, done, block);
    assert m + Padding(|m|) == m + [0x80] + Zeros(ZeroCount(|m|)) + Put64(Bits(|m|));
    assert done + block == done + tail + Put64(Bits(|m|));
  }

  function Concat(pieces: seq<Data>): Data {
    if pieces == [] then [] else Concat(pieces[..|pieces| - 1]) + pieces[|pieces| - 1]
  }

  /** However a message is cut into updates, the result is the hash of the whole message. */
  method HashPieces(c: Compress, pieces: seq<Data>) returns (out: Data)
    ensures out == Digest(c, Concat(pieces))
  {
    var h := new Hasher(c);
    for k := 0 to |pieces|
      invariant h.Valid() && fresh(h) && fresh(h.buf) && h.compress == c
      invariant h.message == Concat(pieces[..k])
    {
      assert pieces[..k + 1][..k] == pieces[..k];
      h.Update(pieces[k]);
    }
    assert pieces[..|pieces|] == pieces;
    out := h.Finish();
  }

  // ---- a collision of the hash is a collision of the compression function ----

  datatype BlockCollision = BlockCollision(s: State, b: Block, s': State, b': Block)

  predicate BlocksCollide(c: Compress, x: BlockCollision) {
    (x.s, x.b) != (x.s', x.b') && c(x.s, x.b) == c(x.s', x.b')
  }

  /** Compare two padded messages from their ends and return the last step at which they differ. */
  function LastDifference(c: Compress, p: Data, q: Data): Option<BlockCollision>
    requires |p| % 64 == 0 && |q| % 64 == 0
    decreases |p|
  {
    if p == [] || q == [] then None else
      var x := BlockCollision(Fold(c, p[..|p| - 64]), p[|p| - 64..], Fold(c, q[..|q| - 64]), q[|q| - 64..]);
      if (x.s, x.b) != (x.s', x.b') then Some(x) else LastDifference(c, p[..|p| - 64], q[..|q| - 64])
  }

  lemma {:induction false} EqualLengthsCollide(c: Compress, p: Data, q: Data)
    requires |p| == |q| && |p| % 64 == 0 && p != q && Fold(c, p) == Fold(c, q)
    ensures var x := LastDifference(c, p, q); x.Some? && BlocksCollide(c, x.value)
    decreases |p|
  {
    var n := |p| - 64;
    if Fold(c, p[..n]) == Fold(c, q[..n]) && p[n..] == q[n..] {
      assert p == p[..n] + p[n..] && q == q[..n] + q[n..];
      EqualLengthsCollide(c, p[..n], q[..n]);
    }
  }

  lemma WordInjective(v: U32, w: U32)
    requires Word(v) == Word(w)
    ensures v == w
  {
    assert forall x: U32 :: x / 0x1_0000 == x / 0x100 / 0x100 && x / 0x100_0000 == x / 0x1_0000 / 0x100;
    assert Word(v)[0] == Word(w)[0] && Word(v)[1] == Word(w)[1] && Word(v)[2] == Word(w)[2] && Word(v)[3] == Word(w)[3];
  }

  lemma {:induction false} WordsInjective(s: seq<U32>, t: seq<U32>)
    requires |s| == |t| && Words(s) == Words(t)
    ensures s == t
  {
    if s != [] {
      assert Words(s)[..4] == Word(s[0]) && Words(t)[..4] == Word(t[0]);
      assert Words(s)[4..] == Words(s[1..]) && Words(t)[4..] == Words(t[1..]);
      WordInjective(s[0], t[0]);
      WordsInjective(s[1..], t[1..]);
    }
  }

  function Padded(m: Data): (p: Data)
    ensures |p| % 64 == 0 && |p| >= 64 && m <= p
  {
    m + Padding(|m|)
  }

  lemma BitsExact(len: nat)
    requires len < MESSAGE_LIMIT
    ensures Bits(len) == 8 * len
  {
  }

  lemma EndsWithLength(m: Data)
    ensures var p := Padded(m); p[|p| - 64..][56..] == Put64(Bits(|m|))
  {
    var head := m + [0x80] + Zeros(ZeroCount(|m|));
    assert Padded(m) == head + Put64(Bits(|m|));
    assert Padded(m)[|head|..] == Put64(Bits(|m|));
  }

  /** The last eight padded bytes fix the message length, as long as it is below 2^61 bytes. */
  lemma LastBlockFixesLength(m: Data, n: Data)
    requires |m| < MESSAGE_LIMIT && |n| < MESSAGE_LIMIT
    requires var p, q := Padded(m), Padded(n); p[|p| - 64..] == q[|q| - 64..]
    ensures |m| == |n|
  {
    EndsWithLength(m);
    EndsWithLength(n);
    BitsExact(|m|);
    BitsExact(|n|);
    Get64Put64(Bits(|m|));
    Get64Put64(Bits(|n|));
  }

  /** The padding reduces collision resistance of the hash to that of its compression function. */
  lemma HashCollisionIsBlockCollision(c: Compress, m: Data, n: Data)
    requires m != n && |m| < MESSAGE_LIMIT && |n| < MESSAGE_LIMIT && Digest(c, m) == Digest(c, n)
    ensures var x := LastDifference(c, Padded(m), Padded(n)); x.Some? && BlocksCollide(c, x.value)
  {
    var p, q := Padded(m), Padded(n);
    WordsInjective(Fold(c, p), Fold(c, q));
    if p[|p| - 64..] == q[|q| - 64..] {
      LastBlockFixesLength(m, n);
      assert p[..|m|] == m && q[..|n|] == n;
      EqualLengthsCollide(c, p, q);
    }
  }
}
