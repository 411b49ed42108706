/** The streaming SHA-256 of src/smoltar/sha256.c against the one-shot definition of FIPS 180-4. */
module Sha256 {
  import opened Bytes
  import opened WordBits

  const UINT32 := 0x1_0000_0000
  const UINT64 := 0x1_0000_0000_0000_0000

  /** The eight working variables, and the eight words of the hash value. */
  datatype Words = Words(a: Word, b: Word, c: Word, d: Word, e: Word, f: Word, g: Word, h: Word)

  const INITIAL := Words(0x6a09e667, 0xbb67ae85, 0x3c6ef372, 0xa54ff53a, 0x510e527f, 0x9b05688c, 0x1f83d9ab, 0x5be0cd19)

  const K: seq<Word> :=
      [0x428a2f98, 0x71374491, 0xb5c0fbcf, 0xe9b5dba5, 0x3956c25b, 0x59f111f1, 0x923f82a4, 0xab1c5ed5]
    + [0xd807aa98, 0x12835b01, 0x243185be, 0x550c7dc3, 0x72be5d74, 0x80deb1fe, 0x9bdc06a7, 0xc19bf174]
    + [0xe49b69c1, 0xefbe4786, 0x0fc19dc6, 0x240ca1cc, 0x2de92c6f, 0x4a7484aa, 0x5cb0a9dc, 0x76f988da]
    + [0x983e5152, 0xa831c66d, 0xb00327c8, 0xbf597fc7, 0xc6e00bf3, 0xd5a79147, 0x06ca6351, 0x14292967]
    + [0x27b70a85, 0x2e1b2138, 0x4d2c6dfc, 0x53380d13, 0x650a7354, 0x766a0abb, 0x81c2c92e, 0x92722c85]
    + [0xa2bfe8a1, 0xa81a664b, 0xc24b8b70, 0xc76c51a3, 0xd192e819, 0xd6990624, 0xf40e3585, 0x106aa070]
    + [0x19a4c116, 0x1e376c08, 0x2748774c, 0x34b0bcb5, 0x391c0cb3, 0x4ed8aa4a, 0x5b9cca4f, 0x682e6ff3]
    + [0x748f82ee, 0x78a5636f, 0x84c87814, 0x8cc70208, 0x90befffa, 0xa4506ceb, 0xbef9a3f7, 0xc67178f2]

  lemma KSize()
    ensures |K| == 64
  {
  }

  // ---------------------------------------------------------------- section 6.2.2

  function BigEndianWord(b0: Byte, b1: Byte, b2: Byte, b3: Byte): Word {
    (b0 as Word << 24) | (b1 as Word << 16) | (b2 as Word << 8) | (b3 as Word)
  }

  /** Word `t` of the message schedule. */
  function Schedule(block: seq<Byte>, t: nat): Word
    requires |block| == 64
  {
    if t < 16 then BigEndianWord(block[4 * t], block[4 * t + 1], block[4 * t + 2], block[4 * t + 3])
    else Extend(Schedule(block, t - 2), Schedule(block, t - 7), Schedule(block, t - 15), Schedule(block, t - 16))
  }

  function Extend(w2: Word, w7: Word, w15: Word, w16: Word): Word {
    Add(Add(Add(Sig1(w2), w7), Sig0(w15)), w16)
  }

  function T1(e: Word, f: Word, g: Word, h: Word, k: Word, w: Word): Word {
    Add(Add(Add(Add(h, Ep1(e)), Ch(e, f, g)), k), w)
  }

  function T2(a: Word, b: Word, c: Word): Word {
    Add(Ep0(a), Maj(a, b, c))
  }

  function Round(v: Words, k: Word, w: Word): Words {
    var t1, t2 := T1(v.e, v.f, v.g, v.h, k, w), T2(v.a, v.b, v.c);
    Words(Add(t1, t2), v.a, v.b, v.c, Add(v.d, t1), v.e, v.f, v.g)
  }

  /** The working variables after `t` rounds with the constants `k`. */
  function Rounds(v: Words, k: seq<Word>, block: seq<Byte>, t: nat): Words
    requires |block| == 64 && t <= |k|
    decreases t, |block|
  {
    if t == 0 then v else Round(Rounds(v, k, block, t - 1), k[t - 1], Schedule(block, t - 1))
  }

  function Sum(x: Words, y: Words): Words {
    Words(Add(x.a, y.a), Add(x.b, y.b), Add(x.c, y.c), Add(x.d, y.d), Add(x.e, y.e), Add(x.f, y.f), Add(x.g, y.g), Add(x.h, y.h))
  }

  function Compress(v: Words, block: seq<Byte>): Words
    requires |block| == 64
  {
    KSize();
    Sum(v, Rounds(v, K, block, 64))
  }

  /** The hash value after all whole blocks. */
  function HashBlocks(v: Words, bytes: seq<Byte>): Words
    decreases |bytes|
  {
    if |bytes| < 64 then v else HashBlocks(Compress(v, bytes[..64]), bytes[64..])
  }

  // ---------------------------------------------------------------- sections 5.1.1 and 6.2

  function BigEndian(n: nat, width: nat): (r: seq<Byte>)
    ensures |r| == width
    decreases width, n
  {
    if width == 0 then [] else BigEndian(n / 256, width - 1) + [n % 256]
  }

  /** How many zero bytes stand between the 0x80 and the length of a message of `n` bytes. */
  function ZeroCount(n: nat): nat {
    if n % 64 < 56 then 55 - n % 64 else 119 - n % 64
  }

  function Padding(n: nat): seq<Byte> {
    [0x80] + (Zeros(ZeroCount(n)) + BigEndian(8 * n % UINT64, 8))
  }

  /** Byte `i` of a word, the most significant one first. */
  function ByteAt(w: Word, i: nat): Byte
    requires i < 4
  {
    ((w >> (24 - 8 * i)) & 0xFF) as Byte
  }

  function WordAt(v: Words, j: nat): Word
    requires j < 8
  {
    if j == 0 then v.a else if j == 1 then v.b else if j == 2 then v.c else if j == 3 then v.d
    else if j == 4 then v.e else if j == 5 then v.f else if j == 6 then v.g else v.h
  }

  /** The eight words, one behind the other. */
  function Output(v: Words): (r: seq<Byte>)
    ensures |r| == 32
  {
    seq(32, k requires 0 <= k < 32 => ByteAt(WordAt(v, k / 4), k % 4))
  }

  /** The hash value of a whole message: all of it padded, and block after block compressed. */
  function HashValue(message: seq<Byte>): Words {
    HashBlocks(INITIAL, message + Padding(|message|))
  }

  function Digest(message: seq<Byte>): seq<Byte> {
    Output(HashValue(message))
  }

  // ---------------------------------------------------------------- what the definition means

  function ValueOf(bytes: seq<Byte>): nat {
    if bytes == [] then 0 else 256 * ValueOf(bytes[..|bytes| - 1]) + bytes[|bytes| - 1]
  }

  function Pow256(n: nat): nat {
    if n == 0 then 1 else 256 * Pow256(n - 1)
  }

  /** The length field can be read back. */
  lemma {:induction false} LengthReadsBack(n: nat, width: nat)
    requires n < Pow256(width)
    ensures ValueOf(BigEndian(n, width)) == n
  {
    if width > 0 {
      LengthReadsBack(n / 256, width - 1);
      assert BigEndian(n, width)[..width - 1] == BigEndian(n / 256, width - 1);
    }
  }

  /** Section 5.1.1: the padding ends a block, and with fewer zeros the length field would not end one. */
  lemma PaddingFillsBlocks(n: nat, fewer: nat)
    ensures |Padding(n)| == 1 + ZeroCount(n) + 8 && (n + 1 + ZeroCount(n)) % 64 == 56
    ensures fewer < ZeroCount(n) ==> (n + 1 + fewer) % 64 != 56
  {
    var q, r := n / 64, n % 64;
    Remainder(n + 1 + ZeroCount(n), if r < 56 then q else q + 1, 56);
    if fewer < ZeroCount(n) {
      if r + 1 + fewer < 64 {
        Remainder(n + 1 + fewer, q, r + 1 + fewer);
      } else {
        Remainder(n + 1 + fewer, q + 1, r + 1 + fewer - 64);
      }
    }
  }

  lemma Remainder(n: nat, q: nat, r: nat)
    requires n == 64 * q + r && r < 64
    ensures n % 64 == r
  {
  }

  /** Whole blocks can be hashed as they come. */
  lemma {:induction false} HashBlocksAppend(v: Words, blocks: nat, a: seq<Byte>, b: seq<Byte>)
    requires |a| == 64 * blocks
    ensures HashBlocks(v, a + b) == HashBlocks(HashBlocks(v, a), b)
    decreases blocks
  {
    if blocks == 0 {
      assert a + b == b;
    } else {
      assert (a + b)[..64] == a[..64] && (a + b)[64..] == a[64..] + b;
      HashBlocksAppend(Compress(v, a[..64]), blocks - 1, a[64..], b);
    }
  }

  lemma OneBlock(v: Words, block: seq<Byte>)
    requires |block| == 64
    ensures HashBlocks(v, block) == Compress(v, block)
  {
    assert block[..64] == block;
  }

  lemma BlockDone(done: seq<Byte>, blocks: nat, block: seq<Byte>)
    requires |done| == 64 * blocks && |block| == 64
    ensures HashBlocks(INITIAL, done + block) == Compress(HashBlocks(INITIAL, done), block)
  {
    HashBlocksAppend(INITIAL, blocks, done, block);
    OneBlock(HashBlocks(INITIAL, done), block);
  }

  lemma BitsOfBlock(n: nat)
    ensures (8 * n % UINT64 + 512) % UINT64 == 8 * (n + 64) % UINT64
  {
  }

  /** The last block or two: what is left of the message, and the padding. */
  lemma HashOfRest(done: seq<Byte>, blocks: nat, rest: seq<Byte>)
    requires |done| == 64 * blocks && |rest| < 64
    ensures HashValue(done + rest) == HashBlocks(HashBlocks(INITIAL, done), rest + Padding(|done| + |rest|))
  {
    var padding := Padding(|done| + |rest|);
    assert done + rest + padding == done + (rest + padding);
    HashBlocksAppend(INITIAL, blocks, done, rest + padding);
  }

  lemma ZerosOfRest(blocks: nat, rest: nat)
    requires rest < 64
    ensures ZeroCount(64 * blocks + rest) == if rest < 56 then 55 - rest else 119 - rest
  {
    Remainder(64 * blocks + rest, blocks, rest);
  }

  lemma ShortRest(v: Words, n: nat, rest: seq<Byte>, block: seq<Byte>)
    requires |rest| < 56 && ZeroCount(n) == 55 - |rest|
    requires block == rest + ([0x80] + Zeros(55 - |rest|)) + BigEndian(8 * n % UINT64, 8)
    ensures HashBlocks(v, rest + Padding(n)) == Compress(v, block)
  {
    assert rest + Padding(n) == block;
    OneBlock(v, block);
  }

  lemma LongRest(v: Words, n: nat, rest: seq<Byte>, first: seq<Byte>, second: seq<Byte>)
    requires 56 <= |rest| < 64 && ZeroCount(n) == 119 - |rest|
    requires first == rest + ([0x80] + Zeros(63 - |rest|)) && second == Zeros(56) + BigEndian(8 * n % UINT64, 8)
    ensures HashBlocks(v, rest + Padding(n)) == Compress(Compress(v, first), second)
  {
    assert rest + Padding(n) == first + second;
    HashBlocksAppend(v, 1, first, second);
    OneBlock(v, first);
    OneBlock(Compress(v, first), second);
  }

  lemma BitsOfRest(bitlen: nat, done: nat, rest: nat)
    requires bitlen == 8 * done % UINT64
    ensures (bitlen + rest * 8) % UINT64 == 8 * (done + rest) % UINT64
  {
  }

  // ---------------------------------------------------------------- one block in place

  method LoadBlock(data: array<Byte>) returns (m: array<Word>)
    requires data.Length == 64
    ensures fresh(m) && m.Length == 64
    ensures forall k {:trigger m[k]} :: 0 <= k < 16 ==> m[k] == Schedule(data[..], k)
  {
    m := new Word[64];
    for i := 0 to 16
      invariant forall k {:trigger m[k]} :: 0 <= k < i ==> m[k] == Schedule(data[..], k)
    {
      m[i] := LoadWord(data, i);
    }
  }

  method LoadWord(data: array<Byte>, i: nat) returns (w: Word)
    requires data.Length == 64 && i < 16
    ensures w == Schedule(data[..], i)
  {
    w := BigEndianWord(data[4 * i], data[4 * i + 1], data[4 * i + 2], data[4 * i + 3]);
  }

  ghost function AllWords(block: seq<Byte>): (w: seq<Word>)
    requires |block| == 64
    ensures |w| == 64 && forall t :: 0 <= t < 64 ==> w[t] == Schedule(block, t)
  {
    seq(64, t requires 0 <= t < 64 => Schedule(block, t))
  }

  ghost predicate Follows(w: seq<Word>, t: nat)
    requires 16 <= t < |w|
  {
    w[t] == Extend(w[t - 2], w[t - 7], w[t - 15], w[t - 16])
  }

  lemma WordsFollow(block: seq<Byte>)
    requires |block| == 64
    ensures forall t {:trigger Follows(AllWords(block), t)} :: 16 <= t < 64 ==> Follows(AllWords(block), t)
  {
  }

  method ExtendSchedule(m: array<Word>, ghost w: seq<Word>)
    requires m.Length == 64 && |w| == 64 && m[..16] == w[..16]
    requires forall t {:trigger Follows(w, t)} :: 16 <= t < 64 ==> Follows(w, t)
    modifies m
    ensures m[..] == w
  {
    for i := 16 to 64
      invariant m[..i] == w[..i]
    {
      assert Follows(w, i);
      m[i] := NextWord(m, i, w);
    }
  }

  method NextWord(m: array<Word>, i: nat, ghost w: seq<Word>) returns (next: Word)
    requires 16 <= i < 64 && m.Length == 64 && |w| == 64 && m[..i] == w[..i] && Follows(w, i)
    ensures next == w[i]
  {
    assert forall k {:trigger w[k]} :: 0 <= k < i ==> m[..i][k] == w[k];
    next := Extend(m[i - 2], m[i - 7], m[i - 15], m[i - 16]);
  }

  method RunRounds(v: Words, k: seq<Word>, m: array<Word>, ghost block: seq<Byte>) returns (r: Words)
    requires |k| == 64 && m.Length == 64 && |block| == 64 && m[..] == AllWords(block)
    ensures r == Rounds(v, k, block, 64)
  {
    var a, b, c, d := v.a, v.b, v.c, v.d;
    var e, f, g, h := v.e, v.f, v.g, v.h;
    for i := 0 to 64
      invariant Words(a, b, c, d, e, f, g, h) == Rounds(v, k, block, i)
    {
      assert m[i] == m[..][i];
      var t1 := T1(e, f, g, h, k[i], m[i]);
      var t2 := T2(a, b, c);
      h := g;
      g := f;
      f := e;
      e := Add(d, t1);
      d := c;
      c := b;
      b := a;
      a := Add(t1, t2);
    }
    r := Words(a, b, c, d, e, f, g, h);
  }

  class Context {
    const data: array<Byte>
    var datalen: nat
    var bitlen: nat
    const state: array<Word>
    /** The part of the message that is already in `state`, and how many blocks it is. */
    ghost var done: seq<Byte>
    ghost var blocks: nat

    ghost predicate Shaped() {
      data.Length == 64 && state.Length == 8
    }

    ghost function Hash(): Words
      reads state
      requires Shaped()
    {
      Words(state[0], state[1], state[2], state[3], state[4], state[5], state[6], state[7])
    }

    ghost predicate Valid()
      reads this, data, state
    {
      && Shaped() && datalen < 64
      && |done| == 64 * blocks && bitlen == 8 * |done| % UINT64
      && Hash() == HashBlocks(INITIAL, done)
    }

    /** Everything that was put in so far. */
    ghost function Message(): seq<Byte>
      reads this, data, state
      requires Valid()
    {
      done + data[..datalen]
    }

    constructor ()
      ensures Valid() && fresh(data) && fresh(state)
      ensures Message() == []
    {
      data := new Byte[64](_ => 0);
      state := new Word[8];
      datalen, bitlen, done, blocks := 0, 0, [], 0;
      new;
      state[0], state[1], state[2], state[3] := 0x6a09e667, 0xbb67ae85, 0x3c6ef372, 0xa54ff53a;
      state[4], state[5], state[6], state[7] := 0x510e527f, 0x9b05688c, 0x1f83d9ab, 0x5be0cd19;
    }

    method Transform()
      requires Shaped()
      modifies state
      ensures Hash() == Compress(old(Hash()), data[..])
    {
      KSize();
      var m := LoadBlock(data);
      WordsFollow(data[..]);
      assert m[..16] == AllWords(data[..])[..16];
      ExtendSchedule(m, AllWords(data[..]));
      var v := Words(state[0], state[1], state[2], state[3], state[4], state[5], state[6], state[7]);
      var r := RunRounds(v, K, m, data[..]);
      SetState(Sum(v, r));
    }

    method SetState(w: Words)
      requires Shaped()
      modifies state
      ensures Hash() == w
    {
      state[0], state[1], state[2], state[3] := w.a, w.b, w.c, w.d;
      state[4], state[5], state[6], state[7] := w.e, w.f, w.g, w.h;
    }

    /** The body of the loop of `sha256_update`. */
    method Absorb(b: Byte)
      requires Valid()
      modifies this`datalen, this`bitlen, this`done, this`blocks, data, state
      ensures Valid() && Message() == old(Message()) + [b]
    {
      data[datalen] := b;
      if datalen == 63 {
        EndBlock();
        assert done == old(done + data[..datalen]) + [b];
      } else {
        datalen := datalen + 1;
      }
    }

    method EndBlock()
      requires Valid() && datalen == 63
      modifies this`datalen, this`bitlen, this`done, this`blocks, state
      ensures Valid() && datalen == 0 && done == old(done + data[..])
    {
      datalen := datalen + 1;
      BitsOfBlock(|done|);
      CompressData();
      bitlen := (bitlen + 512) % UINT64;
      datalen := 0;
    }

    /** The buffer is full: it becomes part of what is done. */
    method CompressData()
      requires Shaped() && |done| == 64 * blocks && Hash() == HashBlocks(INITIAL, done)
      modifies this`done, this`blocks, state
      ensures blocks == old(blocks) + 1 && done == old(done) + data[..]
      ensures Hash() == HashBlocks(INITIAL, done)
    {
      BlockDone(done, blocks, data[..]);
      Transform();
      done, blocks := done + data[..], blocks + 1;
    }

    method Update(bytes: seq<Byte>)
      requires Valid() && |bytes| < UINT32
      modifies this`datalen, this`bitlen, this`done, this`blocks, data, state
      ensures Valid() && Message() == old(Message()) + bytes
    {
      for i := 0 to |bytes|
        invariant Valid() && Message() == old(Message()) + bytes[..i]
      {
        Absorb(bytes[i]);
      }
    }

    /** Put 0x80 behind the data, and zeros up to `limit`. */
    method Pad(limit: nat)
      requires Shaped() && datalen < limit <= 64
      modifies data
      ensures data[..limit] == old(data[..datalen]) + ([0x80] + Zeros(limit - datalen - 1))
    {
      ghost var rest := data[..datalen];
      var i := datalen;
      data[i] := 0x80;
      i := i + 1;
      while i < limit
        invariant datalen + 1 <= i <= limit
        invariant data[..datalen] == rest && data[datalen] == 0x80
        invariant forall k :: datalen + 1 <= k < i ==> data[k] == 0
      {
        data[i] := 0;
        i := i + 1;
      }
    }

    method ClearFront()
      requires Shaped()
      modifies data
      ensures data[..56] == Zeros(56)
    {
      for i := 0 to 56
        invariant forall k :: 0 <= k < i ==> data[k] == 0
      {
        data[i] := 0;
      }
    }

    method StoreLength()
      requires Shaped()
      modifies data
      ensures data[..] == old(data[..56]) + BigEndian(bitlen, 8)
    {
      var n := bitlen;
      data[63] := n % 256;
      data[62] := n / 0x100 % 256;
      data[61] := n / 0x1_0000 % 256;
      data[60] := n / 0x100_0000 % 256;
      data[59] := n / 0x1_0000_0000 % 256;
      data[58] := n / 0x100_0000_0000 % 256;
      data[57] := n / 0x1_0000_0000_0000 % 256;
      data[56] := n / 0x100_0000_0000_0000 % 256;
      EightBytes(n);
    }

    method Final(hash: array<Byte>)
      requires Valid() && hash.Length >= 32 && hash != data
      modifies this`bitlen, data, state, hash
      ensures hash[..32] == Digest(old(Message()))
    {
      PadAndTransform();
      WriteHash(hash);
    }

    method PadAndTransform()
      requires Valid()
      modifies this`bitlen, data, state
      ensures Hash() == HashValue(old(Message()))
    {
      ghost var rest, n := data[..datalen], |done| + datalen;
      ZerosOfRest(blocks, datalen);
      BitsOfRest(bitlen, |done|, datalen);
      if datalen < 56 {
        LastBlock(n);
      } else {
        LastTwoBlocks(n);
      }
      HashOfRest(done, blocks, rest);
    }

    method LastBlock(ghost n: nat)
      requires Shaped() && datalen < 56 && ZeroCount(n) == 55 - datalen
      requires (bitlen + datalen * 8) % UINT64 == 8 * n % UINT64
      modifies this`bitlen, data, state
      ensures Hash() == HashBlocks(old(Hash()), old(data[..datalen]) + Padding(n))
    {
      ghost var v, rest := Hash(), data[..datalen];
      Pad(56);
      ghost var front := data[..56];
      EndWithLength(n);
      ShortRest(v, n, rest, front + BigEndian(8 * n % UINT64, 8));
    }

    method LastTwoBlocks(ghost n: nat)
      requires Shaped() && 56 <= datalen < 64 && ZeroCount(n) == 119 - datalen
      requires (bitlen + datalen * 8) % UINT64 == 8 * n % UINT64
      modifies this`bitlen, data, state
      ensures Hash() == HashBlocks(old(Hash()), old(data[..datalen]) + Padding(n))
    {
      ghost var v, rest := Hash(), data[..datalen];
      PadToTheEnd();
      EndWithLength(n);
      LongRest(v, n, rest, rest + ([0x80] + Zeros(63 - datalen)), Zeros(56) + BigEndian(8 * n % UINT64, 8));
    }

    method PadToTheEnd()
      requires Shaped() && datalen < 64
      modifies data, state
      ensures Hash() == Compress(old(Hash()), old(data[..datalen]) + ([0x80] + Zeros(63 - datalen)))
      ensures data[..56] == Zeros(56)
    {
      Pad(64);
      assert data[..64] == data[..];
      Transform();
      ClearFront();
    }

    method EndWithLength(ghost n: nat)
      requires Shaped() && (bitlen + datalen * 8) % UINT64 == 8 * n % UINT64
      modifies this`bitlen, data, state
      ensures Hash() == Compress(old(Hash()), old(data[..56]) + BigEndian(8 * n % UINT64, 8))
    {
      AddLength();
      Transform();
    }

    method AddLength()
      requires Shaped()
      modifies this`bitlen, data
      ensures bitlen == (old(bitlen) + datalen * 8) % UINT64
      ensures data[..] == old(data[..56]) + BigEndian(bitlen, 8)
    {
      bitlen := (bitlen + datalen * 8) % UINT64;
      StoreLength();
    }

    method WriteHash(hash: array<Byte>)
      requires Shaped() && hash.Length >= 32
      modifies hash
      ensures hash[..32] == Output(Hash())
    {
      hide ByteAt, WordAt, Output, Column;
      var v := Words(state[0], state[1], state[2], state[3], state[4], state[5], state[6], state[7]);
      ghost var out := Output(v);
      for i := 0 to 4
        invariant 0 < i ==> Column(hash[..], out, 0)
        invariant 1 < i ==> Column(hash[..], out, 1)
        invariant 2 < i ==> Column(hash[..], out, 2)
        invariant 3 < i ==> Column(hash[..], out, 3)
      {
        forall j {:trigger WordAt(v, j)} | 0 <= j < 8 ensures out[4 * j + i] == ByteAt(WordAt(v, j), i) {
          OutputAt(v, j, i);
        }
        WriteColumn(hash, v, i, out);
      }
      FourColumns(hash[..], out);
    }
  }

  /** The bytes at `i` in each group of four are those of `out`. */
  ghost predicate Column(h: seq<Byte>, out: seq<Byte>, i: nat)
    requires |h| >= 32 && |out| == 32 && i < 4
  {
    && h[i] == out[i] && h[i + 4] == out[i + 4] && h[i + 8] == out[i + 8] && h[i + 12] == out[i + 12]
    && h[i + 16] == out[i + 16] && h[i + 20] == out[i + 20] && h[i + 24] == out[i + 24] && h[i + 28] == out[i + 28]
  }

  lemma FourColumns(h: seq<Byte>, out: seq<Byte>)
    requires |h| >= 32 && |out| == 32 && Column(h, out, 0) && Column(h, out, 1) && Column(h, out, 2) && Column(h, out, 3)
    ensures h[..32] == out
  {
  }

  lemma OutputAt(v: Words, j: nat, i: nat)
    requires j < 8 && i < 4
    ensures Output(v)[4 * j + i] == ByteAt(WordAt(v, j), i)
  {
    assert (4 * j + i) / 4 == j && (4 * j + i) % 4 == i;
  }

  /** Store the column of eight bytes. */
  method WriteColumn(hash: array<Byte>, v: Words, i: nat, ghost out: seq<Byte>)
    requires hash.Length >= 32 && i < 4 && |out| == 32
    requires forall j {:trigger WordAt(v, j)} :: 0 <= j < 8 ==> out[4 * j + i] == ByteAt(WordAt(v, j), i)
    modifies hash
    ensures Column(hash[..], out, i)
    ensures forall k: nat :: k < 4 && k != i && Column(old(hash[..]), out, k) ==> Column(hash[..], out, k)
  {
    hide ByteAt, WordAt;
    hash[i] := ByteAt(WordAt(v, 0), i);
    hash[i + 4] := ByteAt(WordAt(v, 1), i);
    hash[i + 8] := ByteAt(WordAt(v, 2), i);
    hash[i + 12] := ByteAt(WordAt(v, 3), i);
    hash[i + 16] := ByteAt(WordAt(v, 4), i);
    hash[i + 20] := ByteAt(WordAt(v, 5), i);
    hash[i + 24] := ByteAt(WordAt(v, 6), i);
    hash[i + 28] := ByteAt(WordAt(v, 7), i);
  }

  lemma FourBytes(n: nat, width: nat)
    ensures BigEndian(n, width + 4)
         == BigEndian(n / 0x1_0000_0000, width) + [n / 0x100_0000 % 256, n / 0x1_0000 % 256, n / 0x100 % 256, n % 256]
  {
    var n1, n2, n3 := n / 0x100, n / 0x1_0000, n / 0x100_0000;
    assert n1 / 256 == n2 && n2 / 256 == n3 && n3 / 256 == n / 0x1_0000_0000;
    assert BigEndian(n, width + 4) == BigEndian(n1, width + 3) + [n % 256];
    assert BigEndian(n1, width + 3) == BigEndian(n2, width + 2) + [n1 % 256];
    assert BigEndian(n2, width + 2) == BigEndian(n3, width + 1) + [n2 % 256];
    assert BigEndian(n3, width + 1) == BigEndian(n / 0x1_0000_0000, width) + [n3 % 256];
  }

  lemma EightBytes(n: nat)
    ensures BigEndian(n, 8) == [
      n / 0x100_0000_0000_0000 % 256, n / 0x1_0000_0000_0000 % 256, n / 0x100_0000_0000 % 256, n / 0x1_0000_0000 % 256,
      n / 0x100_0000 % 256, n / 0x1_0000 % 256, n / 0x100 % 256, n % 256]
  {
    var m := n / 0x1_0000_0000;
    FourBytes(n, 4);
    FourBytes(m, 0);
    assert m / 0x100_0000 == n / 0x100_0000_0000_0000 && m / 0x1_0000 == n / 0x1_0000_0000_0000 && m / 0x100 == n / 0x100_0000_0000;
  }

  // ---------------------------------------------------------------- a message in pieces

  function Concat(pieces: seq<seq<Byte>>): seq<Byte> {
    if pieces == [] then [] else pieces[0] + Concat(pieces[1..])
  }

  lemma OneMorePiece(message: seq<Byte>, pieces: seq<seq<Byte>>, i: nat)
    requires i < |pieces|
    ensures message + Concat(pieces[i..]) == message + pieces[i] + Concat(pieces[i + 1..])
  {
    assert pieces[i..][1..] == pieces[i + 1..];
  }

  /** However a message is cut into pieces, the digest is the one of the whole message. */
  method HashPieces(pieces: seq<seq<Byte>>) returns (hash: array<Byte>)
    requires forall k :: 0 <= k < |pieces| ==> |pieces[k]| < UINT32
    ensures fresh(hash) && hash.Length == 32 && hash[..] == Digest(Concat(pieces))
  {
    var ctx := new Context();
    for i := 0 to |pieces|
      invariant ctx.Valid() && fresh(ctx.data) && fresh(ctx.state)
      invariant Concat(pieces) == ctx.Message() + Concat(pieces[i..])
    {
      OneMorePiece(ctx.Message(), pieces, i);
      ctx.Update(pieces[i]);
    }
    assert ctx.Message() == Concat(pieces);
    hash := new Byte[32](_ => 0);
    ctx.Final(hash);
    assert hash[..32] == hash[..];
  }
}
