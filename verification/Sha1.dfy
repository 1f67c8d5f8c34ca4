/** 32-bit words and their operations. */
module Words {
  type Byte = bv8

  datatype Word = Word(bits: bv32)

  function And(x: Word, y: Word): Word { Word(x.bits & y.bits) }
  function Or(x: Word, y: Word): Word { Word(x.bits | y.bits) }
  function Xor(x: Word, y: Word): Word { Word(x.bits ^ y.bits) }
  function Not(x: Word): Word { Word(!x.bits) }
  function Plus(x: Word, y: Word): Word { Word(x.bits + y.bits) }
  function Rotl1(x: Word): Word { Word((x.bits << 1) | (x.bits >> 31)) }
  function Rotl5(x: Word): Word { Word((x.bits << 5) | (x.bits >> 27)) }
  function Rotl30(x: Word): Word { Word((x.bits << 30) | (x.bits >> 2)) }

  /** Four bytes read as a big-endian word. */
  function BigEndian(b0: Byte, b1: Byte, b2: Byte, b3: Byte): Word {
    Word((b0 as bv32 << 24) | (b1 as bv32 << 16) | (b2 as bv32 << 8) | b3 as bv32)
  }

  function WordBytes(w: Word): (b: seq<Byte>)
    ensures |b| == 4
  {
    [((w.bits >> 24) & 0xFF) as Byte, ((w.bits >> 16) & 0xFF) as Byte, ((w.bits >> 8) & 0xFF) as Byte,
        (w.bits & 0xFF) as Byte]
  }

  function Sum5(v: Word, w: Word, x: Word, y: Word, z: Word): Word {
    Word(v.bits + w.bits + x.bits + y.bits + z.bits)
  }

  /** The shifts that make up a rotation lose no bit. */
  lemma Rotates1(x: Word)
    ensures Rotl1(x).bits == x.bits.RotateLeft(1)
  {
  }

  lemma Rotates5(x: Word)
    ensures Rotl5(x).bits == x.bits.RotateLeft(5)
  {
  }

  lemma Rotates30(x: Word)
    ensures Rotl30(x).bits == x.bits.RotateLeft(30)
  {
  }

  lemma SumOrder(v: Word, w: Word, x: Word, y: Word, z: Word)
    ensures Sum5(v, w, x, y, z) == Sum5(v, w, x, z, y)
  {
  }
}

/** SHA-1 as FIPS 180-4 defines it: the schedule, the rounds, the padding and the hash. */
module Fips180 {
  import opened Words

  datatype Digest = Digest(h0: Word, h1: Word, h2: Word, h3: Word, h4: Word)

  const BLOCK := 64

  /** Section 5.3.1. */
  const INITIAL := Digest(Word(0x67452301), Word(0xEFCDAB89), Word(0x98BADCFE), Word(0x10325476), Word(0xC3D2E1F0))

  // Section 4.1.1.

  function Ch(x: Word, y: Word, z: Word): Word {
    Xor(And(x, y), And(Not(x), z))
  }

  function Parity(x: Word, y: Word, z: Word): Word {
    Xor(Xor(x, y), z)
  }

  function Maj(x: Word, y: Word, z: Word): Word {
    Xor(Xor(And(x, y), And(x, z)), And(y, z))
  }

  function F(t: nat, x: Word, y: Word, z: Word): Word {
    if t < 20 then Ch(x, y, z) else if t < 40 then Parity(x, y, z) else if t < 60 then Maj(x, y, z) else Parity(x, y, z)
  }

  /** Section 4.2.1. */
  function K(t: nat): Word {
    if t < 20 then Word(0x5A827999)
    else if t < 40 then Word(0x6ED9EBA1)
    else if t < 60 then Word(0x8F1BBCDC)
    else Word(0xCA62C1D6)
  }

  /** Section 6.1.2, step 1. */
  function Schedule(block: seq<Byte>, t: nat): Word
    requires |block| == BLOCK
  {
    if t < 16 then BigEndian(block[4 * t], block[4 * t + 1], block[4 * t + 2], block[4 * t + 3])
    else Rotl1(Xor(Xor(Xor(Schedule(block, t - 3), Schedule(block, t - 8)), Schedule(block, t - 14)),
                   Schedule(block, t - 16)))
  }

  /** Section 6.1.2, step 3: one round on the working variables. */
  function Round(t: nat, v: Digest, w: Word): Digest {
    Digest(Sum5(Rotl5(v.h0), F(t, v.h1, v.h2, v.h3), v.h4, K(t), w), v.h0, Rotl30(v.h1), v.h2, v.h3)
  }

  function Rounds(d: Digest, block: seq<Byte>, t: nat): Digest
    requires |block| == BLOCK
  {
    if t == 0 then d else Round(t - 1, Rounds(d, block, t - 1), Schedule(block, t - 1))
  }

  /** Section 6.1.2, step 4. */
  function Compress(d: Digest, block: seq<Byte>): Digest
    requires |block| == BLOCK
  {
    var v := Rounds(d, block, 80);
    Digest(Plus(d.h0, v.h0), Plus(d.h1, v.h1), Plus(d.h2, v.h2), Plus(d.h3, v.h3), Plus(d.h4, v.h4))
  }

  /** Compression of whole blocks, first to last. */
  function HashBlocks(d: Digest, msg: seq<Byte>): Digest
    requires |msg| % BLOCK == 0
  {
    if |msg| == 0 then d
    else Compress(HashBlocks(d, msg[..|msg| - BLOCK]), msg[|msg| - BLOCK..])
  }

  function Zeros(n: nat): (z: seq<Byte>)
    ensures |z| == n && forall k :: 0 <= k < n ==> z[k] == 0
  {
    seq(n, _ => 0)
  }

  function ByteOf(n: nat): Byte {
    (n % 256) as Byte
  }

  /** The low 64 bits of n, big-endian. */
  function BigEndian64(n: nat): (b: seq<Byte>)
    ensures |b| == 8
  {
    [ByteOf(n / 0x100_0000_0000_0000), ByteOf(n / 0x1_0000_0000_0000),
     ByteOf(n / 0x100_0000_0000), ByteOf(n / 0x1_0000_0000),
     ByteOf(n / 0x100_0000), ByteOf(n / 0x1_0000), ByteOf(n / 0x100), ByteOf(n)]
  }

  /** Section 5.1.1 for a message of len bytes: a one bit, zero bits up to 56 modulo 64
      bytes, and `bits`, the length field. */
  function PaddingWith(len: nat, bits: nat): (p: seq<Byte>)
    ensures (len + |p|) % BLOCK == 0
  {
    [0x80] + Zeros((55 - len) % 64) + BigEndian64(bits)
  }

  function Padding(len: nat): (p: seq<Byte>)
    ensures (len + |p|) % BLOCK == 0
  {
    PaddingWith(len, 8 * len)
  }

  function BytesOf(words: seq<Word>): seq<Byte> {
    if words == [] then [] else BytesOf(words[..|words| - 1]) + WordBytes(words[|words| - 1])
  }

  function DigestBytes(d: Digest): seq<Byte> {
    BytesOf([d.h0, d.h1, d.h2, d.h3, d.h4])
  }

  /** The hash of a whole message. */
  function Sha1(msg: seq<Byte>): seq<Byte> {
    DigestBytes(HashBlocks(INITIAL, msg + Padding(|msg|)))
  }

  lemma {:induction false} HashBlocksAppend(d: Digest, a: seq<Byte>, b: seq<Byte>)
    requires |a| % BLOCK == 0 && |b| % BLOCK == 0
    ensures HashBlocks(d, a + b) == HashBlocks(HashBlocks(d, a), b)
    decreases |b|
  {
    if |b| == 0 {
      assert a + b == a;
    } else {
      var n := |b| - BLOCK;
      HashBlocksAppend(d, a, b[..n]);
      assert (a + b)[..|a + b| - BLOCK] == a + b[..n];
      assert (a + b)[|a + b| - BLOCK..] == b[n..];
    }
  }

  lemma HashOneBlock(d: Digest, b: seq<Byte>)
    requires |b| == BLOCK
    ensures HashBlocks(d, b) == Compress(d, b)
  {
    assert b[..0] == [] && b[0..] == b;
  }
}

/** The streaming engine. */
module ShaEngine {
  import opened Words
  import opened Fips180

  type uint32 = x: int | 0 <= x < 0x1_0000_0000

  function Wrap(x: int): uint32 {
    x % 0x1_0000_0000
  }

  // The source writes these with + and | where the standard has | and xor.

  /** (b0 << 24) + (b1 << 16) + (b2 << 8) + b3 */
  function Assemble(b0: Byte, b1: Byte, b2: Byte, b3: Byte): Word {
    Word((b0 as bv32 << 24) + (b1 as bv32 << 16) + (b2 as bv32 << 8) + b3 as bv32)
  }

  lemma AssembleIsBigEndian(b0: Byte, b1: Byte, b2: Byte, b3: Byte)
    ensures Assemble(b0, b1, b2, b3) == BigEndian(b0, b1, b2, b3)
  {
  }

  lemma ChooseIsCh(b: Word, c: Word, d: Word)
    ensures Or(And(b, c), And(Not(b), d)) == Ch(b, c, d)
  {
  }

  lemma MajorityIsMaj(b: Word, c: Word, d: Word)
    ensures Or(Or(And(b, c), And(b, d)), And(c, d)) == Maj(b, c, d)
  {
  }

  /** One trip round the source's main loop is one round of the standard. */
  lemma RoundInSourceOrder(t: nat, v: Digest, w: Word, f: Word, k: Word)
    requires f == F(t, v.h1, v.h2, v.h3) && k == K(t)
    ensures Digest(Sum5(Rotl5(v.h0), f, v.h4, w, k), v.h0, Rotl30(v.h1), v.h2, v.h3) == Round(t, v, w)
  {
    SumOrder(Rotl5(v.h0), f, v.h4, w, k);
  }

  /** The choice of function and constant for round t. */
  method RoundFunction(t: nat, b: Word, c: Word, d: Word) returns (f: Word, k: Word)
    requires t < 80
    ensures f == F(t, b, c, d) && k == K(t)
  {
    if t < 20 {
      k := Word(0x5A827999);
      f := Or(And(b, c), And(Not(b), d));
      ChooseIsCh(b, c, d);
    } else if t < 40 {
      k := Word(0x6ED9EBA1);
      f := Xor(Xor(b, c), d);
    } else if t < 60 {
      k := Word(0x8F1BBCDC);
      f := Or(Or(And(b, c), And(b, d)), And(c, d));
      MajorityIsMaj(b, c, d);
    } else {
      k := Word(0xCA62C1D6);
      f := Xor(Xor(b, c), d);
    }
  }

  /** Word t of the schedule, given the four words it is made from. */
  method LateWord(ghost data: seq<Byte>, ghost t: nat, w3: Word, w8: Word, w14: Word, w16: Word) returns (w: Word)
    requires |data| == BLOCK && t >= 16
    requires w3 == Schedule(data, t - 3) && w8 == Schedule(data, t - 8)
    requires w14 == Schedule(data, t - 14) && w16 == Schedule(data, t - 16)
    ensures w == Schedule(data, t)
  {
    w := Rotl1(Xor(Xor(Xor(w3, w8), w14), w16));
  }

  /** The 80 words of the message schedule. */
  method ExpandBlock(data: seq<Byte>) returns (W: array<Word>)
    requires |data| == BLOCK
    ensures W.Length == 80 && forall i: nat :: i < 80 ==> W[i] == Schedule(data, i)
  {
    W := new Word[80];
    for t := 0 to 16
      invariant forall i: nat :: i < t ==> W[i] == Schedule(data, i)
    {
      AssembleIsBigEndian(data[4 * t], data[4 * t + 1], data[4 * t + 2], data[4 * t + 3]);
      W[t] := Assemble(data[4 * t], data[4 * t + 1], data[4 * t + 2], data[4 * t + 3]);
    }
    for t := 16 to 80
      invariant forall i: nat :: i < t ==> W[i] == Schedule(data, i)
    {
      var w := LateWord(data, t, W[t - 3], W[t - 8], W[t - 14], W[t - 16]);
      W[t] := w;
    }
  }

  /** Process_Block is the compression function of the standard. */
  method ProcessBlock(data: seq<Byte>, digest: Digest) returns (r: Digest)
    requires |data| == BLOCK
    ensures r == Compress(digest, data)
  {
    var W := ExpandBlock(data);
    var a, b, c, d, e := digest.h0, digest.h1, digest.h2, digest.h3, digest.h4;
    for t := 0 to 80
      invariant forall i: nat :: i < 80 ==> W[i] == Schedule(data, i)
      invariant Digest(a, b, c, d, e) == Rounds(digest, data, t)
    {
      var f, k := RoundFunction(t, b, c, d);
      RoundInSourceOrder(t, Digest(a, b, c, d, e), W[t], f, k);
      var temp := Sum5(Rotl5(a), f, e, W[t], k);
      e := d;
      d := c;
      c := Rotl30(b);
      b := a;
      a := temp;
    }
    r := Digest(Plus(digest.h0, a), Plus(digest.h1, b), Plus(digest.h2, c), Plus(digest.h3, d), Plus(digest.h4, e));
  }

  // ----- What the engine holds -----

  /** The whole blocks of msg, and what is left over. */
  function Whole(msg: seq<Byte>): (w: seq<Byte>)
    ensures |w| % BLOCK == 0
  {
    msg[..|msg| - |msg| % BLOCK]
  }

  function Tail(msg: seq<Byte>): (t: seq<Byte>)
    ensures |t| == |msg| % BLOCK
    ensures Whole(msg) + t == msg
  {
    msg[|msg| - |msg| % BLOCK..]
  }

  /** The message with the padding the engine gives it: its byte count is kept in 32 bits. */
  function Padded(msg: seq<Byte>): (p: seq<Byte>)
    ensures |p| % BLOCK == 0
  {
    msg + PaddingWith(|msg|, 8 * Wrap(|msg|))
  }

  function ResultOf(msg: seq<Byte>): seq<Byte> {
    DigestBytes(HashBlocks(INITIAL, Padded(msg)))
  }

  /** What the engine has taken in, whether a result is on hand, and for which message. */
  datatype State = State(absorbed: seq<Byte>, computed: bool, hashed: seq<Byte>)

  function AfterHash(st: State, data: seq<Byte>): State {
    State(st.absorbed + data, false, st.hashed)
  }

  /** Finishing drops the bytes that do not fill a block. */
  function AfterResult(st: State): State {
    if st.computed then st else State(Whole(st.absorbed), true, st.absorbed)
  }

  function ResultFor(st: State): seq<Byte> {
    if st.computed then ResultOf(st.hashed) else ResultOf(st.absorbed)
  }

  lemma GrowTail(msg: seq<Byte>, d: seq<Byte>)
    requires |Tail(msg)| + |d| < BLOCK
    ensures Whole(msg + d) == Whole(msg) && Tail(msg + d) == Tail(msg) + d
  {
    assert |msg + d| % BLOCK == |msg| % BLOCK + |d|;
  }

  lemma WrapStep(n: nat)
    ensures Wrap(n + BLOCK) == Wrap(Wrap(n) + BLOCK)
  {
  }

  lemma FillBlock(msg: seq<Byte>, d: seq<Byte>)
    requires |Tail(msg)| + |d| == BLOCK
    ensures Whole(msg + d) == msg + d && Tail(msg + d) == []
    ensures Wrap(|Whole(msg + d)|) == Wrap(Wrap(|Whole(msg)|) + BLOCK)
    ensures HashBlocks(INITIAL, Whole(msg + d)) == Compress(HashBlocks(INITIAL, Whole(msg)), Tail(msg) + d)
  {
    FullLength(|msg|, |d|);
    WrapStep(|Whole(msg)|);
    AppendBlock(INITIAL, msg, Tail(msg) + d, d);
  }

  lemma FullLength(n: nat, k: nat)
    requires n % BLOCK + k == BLOCK
    ensures (n + k) % BLOCK == 0
  {
  }

  lemma AppendBlock(h: Digest, msg: seq<Byte>, b: seq<Byte>, d: seq<Byte>)
    requires |b| == BLOCK && b == Tail(msg) + d && |msg + d| % BLOCK == 0
    ensures HashBlocks(h, msg + d) == Compress(HashBlocks(h, Whole(msg)), b)
  {
    assert msg + d == Whole(msg) + b;
    HashBlocksAppend(h, Whole(msg), b);
    HashOneBlock(HashBlocks(h, Whole(msg)), b);
  }

  class Engine {
    var m_computed: bool
    var m_finalDigest: seq<Byte>
    var m_digest: Digest
    var m_processedBytes: uint32
    var m_unprocessedBytes: uint32
    const m_messageBlock: array<Byte>

    /** The state in the terms of `State`. */
    ghost var view: State

    ghost predicate Valid()
      reads this, m_messageBlock
    {
      && m_messageBlock.Length == BLOCK
      && m_unprocessedBytes == |view.absorbed| % BLOCK
      && m_messageBlock[..m_unprocessedBytes] == Tail(view.absorbed)
      && m_digest == HashBlocks(INITIAL, Whole(view.absorbed))
      && m_processedBytes == Wrap(|Whole(view.absorbed)|)
      && m_computed == view.computed
      && (m_computed ==> m_finalDigest == ResultOf(view.hashed))
    }

    constructor ()
      ensures Valid() && fresh(m_messageBlock)
      ensures view == State([], false, [])
    {
      m_computed := false;
      m_finalDigest := [];
      m_processedBytes := 0;
      m_unprocessedBytes := 0;
      m_messageBlock := new Byte[BLOCK];
      m_digest := INITIAL;
      view := State([], false, []);
    }

    /** Fills the message block from the front of data, and hands back what is left. */
    method ProcessPartial(data: seq<Byte>) returns (rest: seq<Byte>)
      requires Valid() && !m_computed
      modifies this, m_messageBlock
      ensures Valid() && !m_computed && view.hashed == old(view.hashed)
      ensures view.absorbed + rest == old(view.absorbed) + data
      ensures rest == [] || m_unprocessedBytes == 0
      ensures |data| < BLOCK && old(m_unprocessedBytes) == 0 ==> rest == []
    {
      rest := data;
      if |data| != 0 && (m_unprocessedBytes != 0 || |data| < BLOCK) {
        var n := BLOCK - m_unprocessedBytes;
        if |data| < BLOCK - m_unprocessedBytes {
          n := |data|;
        }
        CopyIn(data[..n]);
        rest := data[n..];
        Regroup(old(view.absorbed), data, n);
      }
    }

    method CopyBytes(d: seq<Byte>)
      requires m_messageBlock.Length == BLOCK && m_unprocessedBytes + |d| <= BLOCK
      modifies m_messageBlock
      ensures m_messageBlock[..m_unprocessedBytes + |d|] == old(m_messageBlock[..m_unprocessedBytes]) + d
    {
      forall i | 0 <= i < |d| {
        m_messageBlock[m_unprocessedBytes + i] := d[i];
      }
    }

    /** The copy into the message block, and its compression once it is full. */
    method CopyIn(d: seq<Byte>)
      requires Valid() && !m_computed
      requires |d| <= BLOCK - m_unprocessedBytes
      modifies this, m_messageBlock
      ensures Valid()
      ensures view == AfterHash(old(view), d)
      ensures |d| == BLOCK - old(m_unprocessedBytes) ==> m_unprocessedBytes == 0
    {
      hide HashBlocks, ResultOf, Compress;
      ghost var msg, u := view.absorbed, m_unprocessedBytes;
      CopyBytes(d);
      m_unprocessedBytes := m_unprocessedBytes + |d|;
      view := AfterHash(view, d);
      if m_unprocessedBytes == BLOCK {
        FillBlock(msg, d);
        assert m_messageBlock[..] == m_messageBlock[..u + |d|];
        m_digest := ProcessBlock(m_messageBlock[..], m_digest);
        m_processedBytes := Wrap(m_processedBytes + BLOCK);
        m_unprocessedBytes := 0;
      } else {
        GrowTail(msg, d);
      }
    }

    /** A whole block compressed straight from the caller's data. */
    method DirectBlock(b: seq<Byte>)
      requires Valid() && !m_computed && m_unprocessedBytes == 0 && |b| == BLOCK
      modifies this
      ensures Valid() && m_unprocessedBytes == 0
      ensures view == AfterHash(old(view), b)
    {
      FillBlock(view.absorbed, b);
      assert Tail(view.absorbed) + b == b;
      m_digest := ProcessBlock(b, m_digest);
      m_processedBytes := Wrap(m_processedBytes + BLOCK);
      view := AfterHash(view, b);
    }

    /** Takes data in, however it is cut up. */
    method Hash(data: seq<Byte>)
      requires Valid()
      modifies this, m_messageBlock
      ensures Valid()
      ensures view == AfterHash(old(view), data)
    {
      m_computed := false;
      view := view.(computed := false);
      var rest := ProcessPartial(data);
      if |rest| != 0 {
        var blocks, i := |rest| / BLOCK, 0;
        while i < blocks
          invariant 0 <= i <= blocks && blocks - i == |rest| / BLOCK
          invariant Valid() && !m_computed && m_unprocessedBytes == 0 && view.hashed == old(view.hashed)
          invariant view.absorbed + rest == old(view.absorbed) + data
        {
          Regroup(view.absorbed, rest, BLOCK);
          DirectBlock(rest[..BLOCK]);
          rest := rest[BLOCK..];
          i := i + 1;
        }
        rest := ProcessPartial(rest);
      }
      assert view.absorbed + rest == view.absorbed;
    }

    /** The digest of what was taken in.  The engine then keeps only the whole blocks. */
    method Result() returns (output: seq<Byte>)
      requires Valid()
      modifies this
      ensures Valid()
      ensures view == AfterResult(old(view))
      ensures output == ResultFor(old(view))
    {
      hide HashBlocks, Padded;
      if m_computed {
        return m_finalDigest;
      }
      var digest := FinalDigest();
      m_finalDigest := InByteOrder(digest);
      m_unprocessedBytes := 0;
      m_computed := true;
      WholeOfWhole(view.absorbed);
      view := AfterResult(view);
      output := m_finalDigest;
    }

    /** The digest of what was taken in, worked out on copies. */
    method FinalDigest() returns (digest: Digest)
      requires Valid()
      ensures digest == HashBlocks(INITIAL, Padded(view.absorbed))
    {
      ghost var msg := view.absorbed;
      ghost var tail := Tail(msg);
      var msgblock := CopyOf(m_messageBlock);
      var totalbytes := Wrap(m_unprocessedBytes + m_processedBytes);
      TotalIsLength(msg, m_unprocessedBytes, m_processedBytes);
      assert msgblock[..m_unprocessedBytes] == tail;
      FinishIsPadding(msg, tail, m_unprocessedBytes, m_digest, totalbytes);
      digest := Finish(msgblock, m_unprocessedBytes, totalbytes, m_digest, tail);
    }
  }

  /** The digest as 20 bytes, each word big-endian. */
  method InByteOrder(d: Digest) returns (b: seq<Byte>)
    ensures b == DigestBytes(d)
  {
    var words := [d.h0, d.h1, d.h2, d.h3, d.h4];
    b := [];
    for i := 0 to 5
      invariant b == BytesOf(words[..i])
    {
      assert words[..i + 1][..i] == words[..i];
      b := b + WordBytes(words[i]);
    }
    assert words[..5] == words;
  }

  method CopyOf(a: array<Byte>) returns (b: array<Byte>)
    ensures fresh(b) && b[..] == a[..]
  {
    b := new Byte[a.Length];
    forall i | 0 <= i < a.Length {
      b[i] := a[i];
    }
  }

  /** The end of a message: 0x80, zeros and the length, in one block or in two. */
  method Finish(msgblock: array<Byte>, unprocessed: nat, totalbytes: uint32, d: Digest,
      ghost tail: seq<Byte>) returns (digest: Digest)
    requires msgblock.Length == BLOCK && unprocessed < BLOCK
    requires msgblock[..unprocessed] == tail
    modifies msgblock
    ensures digest == HashBlocks(d, tail + PaddingWith(unprocessed, 8 * totalbytes))
  {
    digest := d;
    var bytesremaining := unprocessed;
    msgblock[bytesremaining] := 0x80;
    bytesremaining := bytesremaining + 1;
    ghost var head := tail + [0x80];
    assert msgblock[..bytesremaining] == head;
    if BLOCK - bytesremaining < 8 {
      if bytesremaining < BLOCK {
        ZeroFill(msgblock, bytesremaining, BLOCK);
      }
      ghost var first := head + Zeros(BLOCK - bytesremaining);
      assert msgblock[..] == first;
      digest := ProcessBlock(msgblock[..], digest);
      bytesremaining := 0;
      head := [];
      TwoBlocks(d, tail, first, 8 * totalbytes);
    } else {
      OneBlock(tail, 8 * totalbytes);
    }
    ZeroFill(msgblock, bytesremaining, 56);
    assert msgblock[..56] == head + Zeros(56 - bytesremaining);
    digest := LastBlock(msgblock, totalbytes, digest, head + Zeros(56 - bytesremaining));
  }

  method ZeroFill(a: array<Byte>, from: nat, to: nat)
    requires from <= to <= a.Length
    modifies a
    ensures a[..to] == old(a[..from]) + Zeros(to - from)
  {
    forall i | from <= i < to {
      a[i] := 0;
    }
  }

  /** The block that carries the bit count in its last eight bytes. */
  method LastBlock(msgblock: array<Byte>, totalbytes: uint32, d: Digest, ghost front: seq<Byte>)
      returns (digest: Digest)
    requires msgblock.Length == BLOCK && |front| == 56 && msgblock[..56] == front
    modifies msgblock
    ensures digest == HashBlocks(d, front + BigEndian64(8 * totalbytes))
  {
    var field := StoreBE32(totalbytes / 0x2000_0000) + StoreBE32(Wrap(totalbytes * 8));
    forall i | 56 <= i < BLOCK {
      msgblock[i] := field[i - 56];
    }
    LengthField(totalbytes);
    assert msgblock[..] == front + field;
    HashOneBlock(d, front + field);
    digest := ProcessBlock(msgblock[..], d);
  }

  /** A 32-bit integer as htobe32 lays it out in memory. */
  function StoreBE32(v: uint32): (b: seq<Byte>)
    ensures |b| == 4
  {
    [ByteOf(v / 0x100_0000), ByteOf(v / 0x1_0000), ByteOf(v / 0x100), ByteOf(v)]
  }

  /** The two halves the source stores make up the 64-bit bit count. */
  lemma LengthField(t: uint32)
    ensures StoreBE32(t / 0x2000_0000) + StoreBE32(Wrap(t * 8)) == BigEndian64(8 * t)
  {
    hide ByteOf;
    var hi, lo := t / 0x2000_0000, Wrap(t * 8);
    assert 8 * t == 0x1_0000_0000 * hi + lo;
    HighBytes(hi, lo);
    LowBytes(hi, lo);
    SameByte(8 * t, lo);
    SameByte(8 * t / 0x100, lo / 0x100);
    SameByte(8 * t / 0x1_0000, lo / 0x1_0000);
    SameByte(8 * t / 0x100_0000, lo / 0x100_0000);
  }

  lemma SameByte(m: nat, n: nat)
    requires m % 256 == n % 256
    ensures ByteOf(m) == ByteOf(n)
  {
  }

  lemma HighBytes(hi: uint32, lo: uint32)
    ensures var n := 0x1_0000_0000 * hi + lo;
      && n / 0x1_0000_0000 == hi
      && n / 0x100_0000_0000 == hi / 0x100
      && n / 0x1_0000_0000_0000 == hi / 0x1_0000
      && n / 0x100_0000_0000_0000 == hi / 0x100_0000
  {
  }

  lemma LowBytes(hi: uint32, lo: uint32)
    ensures var n := 0x1_0000_0000 * hi + lo;
      && n % 256 == lo % 256
      && n / 0x100 % 256 == lo / 0x100 % 256
      && n / 0x1_0000 % 256 == lo / 0x1_0000 % 256
      && n / 0x100_0000 % 256 == lo / 0x100_0000 % 256
  {
    LowByte(0x100_0000 * hi, lo);
    LowByte(0x1_0000 * hi, lo / 0x100);
    LowByte(0x100 * hi, lo / 0x1_0000);
    LowByte(hi, lo / 0x100_0000);
    Quotients(hi, lo);
  }

  lemma LowByte(q: int, x: int)
    ensures (256 * q + x) % 256 == x % 256
  {
  }

  lemma Quotients(hi: int, lo: int)
    ensures var n := 0x1_0000_0000 * hi + lo;
      && n == 256 * (0x100_0000 * hi) + lo
      && n / 0x100 == 256 * (0x1_0000 * hi) + lo / 0x100
      && n / 0x1_0000 == 256 * (0x100 * hi) + lo / 0x1_0000
      && n / 0x100_0000 == 256 * hi + lo / 0x100_0000
  {
  }

  lemma OneBlock(tail: seq<Byte>, bits: nat)
    requires |tail| < 56
    ensures tail + PaddingWith(|tail|, bits) == tail + [0x80] + Zeros(55 - |tail|) + BigEndian64(bits)
  {
  }

  lemma TwoBlocks(d: Digest, tail: seq<Byte>, first: seq<Byte>, bits: nat)
    requires 56 <= |tail| < BLOCK && first == tail + [0x80] + Zeros(63 - |tail|)
    ensures HashBlocks(d, tail + PaddingWith(|tail|, bits))
         == HashBlocks(Compress(d, first), [] + Zeros(56) + BigEndian64(bits))
  {
    assert [] + Zeros(56) == Zeros(56);
    var second := Zeros(56) + BigEndian64(bits);
    assert (55 - |tail|) % 64 == 119 - |tail|;
    assert Zeros(119 - |tail|) == Zeros(63 - |tail|) + Zeros(56);
    assert tail + PaddingWith(|tail|, bits) == first + second;
    HashBlocksAppend(d, first, second);
    HashOneBlock(d, first);
  }

  lemma TotalIsLength(msg: seq<Byte>, u: uint32, p: uint32)
    requires u == |msg| % BLOCK && p == Wrap(|Whole(msg)|)
    ensures Wrap(u + p) == Wrap(|msg|)
  {
    var w := |Whole(msg)|;
    assert |msg| == w + u;
    assert Wrap(Wrap(w) + u) == Wrap(w + u);
  }

  lemma FinishIsPadding(msg: seq<Byte>, tail: seq<Byte>, u: uint32, d: Digest, total: uint32)
    requires tail == Tail(msg) && u == |tail| && d == HashBlocks(INITIAL, Whole(msg)) && total == Wrap(|msg|)
    ensures HashBlocks(INITIAL, Padded(msg)) == HashBlocks(d, tail + PaddingWith(u, 8 * total))
  {
    var p := PaddingWith(u, 8 * total);
    SamePadding(|msg|, u, 8 * total);
    Regroup(Whole(msg), tail + p, |tail|);
    assert (tail + p)[..|tail|] == tail && (tail + p)[|tail|..] == p;
    HashBlocksAppend(INITIAL, Whole(msg), tail + p);
  }

  lemma SamePadding(n: nat, u: nat, bits: nat)
    requires u == n % BLOCK
    ensures PaddingWith(n, bits) == PaddingWith(u, bits)
  {
    SamePadLength(n, u);
  }

  lemma SamePadLength(n: nat, u: nat)
    requires u == n % BLOCK
    ensures (55 - n) % 64 == (55 - u) % 64
  {
    assert n == 64 * (n / 64) + u;
  }

  lemma WholeOfWhole(msg: seq<Byte>)
    ensures Whole(Whole(msg)) == Whole(msg) && Tail(Whole(msg)) == []
  {
  }

  lemma Regroup(msg: seq<Byte>, d: seq<Byte>, n: nat)
    requires n <= |d|
    ensures (msg + d[..n]) + d[n..] == msg + d
  {
  }
}

/** What whole runs of the engine compute. */
module ShaRuns {
  import opened Words
  import opened Fips180
  import opened ShaEngine

  const START := State([], false, [])

  function Concat(chunks: seq<seq<Byte>>): seq<Byte> {
    if chunks == [] then [] else Concat(chunks[..|chunks| - 1]) + chunks[|chunks| - 1]
  }

  /** The state after hashing the chunks one call at a time. */
  function HashAll(st: State, chunks: seq<seq<Byte>>): State {
    if chunks == [] then st else AfterHash(HashAll(st, chunks[..|chunks| - 1]), chunks[|chunks| - 1])
  }

  lemma {:induction false} HashAllAbsorbs(chunks: seq<seq<Byte>>)
    ensures HashAll(START, chunks) == State(Concat(chunks), false, [])
  {
    if chunks != [] {
      HashAllAbsorbs(chunks[..|chunks| - 1]);
    }
  }

  function Value(b: Byte): int {
    b as int
  }

  lemma ByteValue(x: nat)
    requires x < 256
    ensures Value(x as Byte) == x
  {
  }

  lemma ByteOfInjective(m: nat, n: nat)
    requires ByteOf(m) == ByteOf(n)
    ensures m % 256 == n % 256
  {
    hide Value;
    ByteValue(m % 256);
    ByteValue(n % 256);
  }

  lemma SameDigits(a: nat, b: nat)
    requires a < 0x1_0000_0000 && b < 0x1_0000_0000
    requires a % 256 == b % 256 && a / 0x100 % 256 == b / 0x100 % 256
    requires a / 0x1_0000 % 256 == b / 0x1_0000 % 256 && a / 0x100_0000 % 256 == b / 0x100_0000 % 256
    ensures a == b
  {
    Digits(a);
    Digits(b);
  }

  lemma Digits(x: nat)
    requires x < 0x1_0000_0000
    ensures x == x / 0x100_0000 % 256 * 0x100_0000 + x / 0x1_0000 % 256 * 0x1_0000 + x / 0x100 % 256 * 0x100 + x % 256
  {
  }

  /** Equal fields have equal high halves. */
  lemma HighHalf(m: nat, n: nat)
    requires m < 0x1_0000_0000_0000_0000 && n < 0x1_0000_0000_0000_0000
    requires BigEndian64(m) == BigEndian64(n)
    ensures m / 0x1_0000_0000 == n / 0x1_0000_0000
  {
    hide ByteOf;
    var a, b := m / 0x1_0000_0000, n / 0x1_0000_0000;
    HighBytes(a, m % 0x1_0000_0000);
    HighBytes(b, n % 0x1_0000_0000);
    var f, g := BigEndian64(m), BigEndian64(n);
    assert f[0] == g[0] && f[1] == g[1] && f[2] == g[2] && f[3] == g[3];
    ByteOfInjective(a / 0x100_0000, b / 0x100_0000);
    ByteOfInjective(a / 0x1_0000, b / 0x1_0000);
    ByteOfInjective(a / 0x100, b / 0x100);
    ByteOfInjective(a, b);
    SameDigits(a, b);
  }

  lemma LastEight(front: seq<Byte>, f: seq<Byte>, g: seq<Byte>)
    requires front + f == front + g && |f| == |g|
    ensures f == g
  {
    assert (front + f)[|front|..] == f && (front + g)[|front|..] == g;
  }

  /** The engine pads as the standard does exactly for messages below 2^32 bytes. */
  lemma PaddingIsStandard(msg: seq<Byte>)
    requires 8 * |msg| < 0x1_0000_0000_0000_0000
    ensures Padded(msg) == msg + Padding(|msg|) <==> |msg| < 0x1_0000_0000
  {
    if |msg| < 0x1_0000_0000 {
      assert Wrap(|msg|) == |msg|;
    } else if Padded(msg) == msg + Padding(|msg|) {
      LengthFieldShows(msg, 8 * Wrap(|msg|), 8 * |msg|);
    }
  }

  lemma LengthFieldShows(msg: seq<Byte>, m: nat, n: nat)
    requires m < 0x8_0000_0000 <= n < 0x1_0000_0000_0000_0000
    ensures msg + PaddingWith(|msg|, m) != msg + PaddingWith(|msg|, n)
  {
    if msg + PaddingWith(|msg|, m) == msg + PaddingWith(|msg|, n) {
      var front := msg + ([0x80] + Zeros((55 - |msg|) % 64));
      assert msg + PaddingWith(|msg|, m) == front + BigEndian64(m);
      assert msg + PaddingWith(|msg|, n) == front + BigEndian64(n);
      LastEight(front, BigEndian64(m), BigEndian64(n));
      HighHalf(m, n);
    }
  }

  lemma ResultIsSha1(msg: seq<Byte>)
    requires |msg| < 0x1_0000_0000
    ensures ResultOf(msg) == Sha1(msg)
  {
    PaddingIsStandard(msg);
  }

  /** However a message below 2^32 bytes is cut into calls, the result is its SHA-1 hash,
      and asking again gives the same bytes. */
  lemma ChunksDoNotMatter(chunks: seq<seq<Byte>>)
    requires |Concat(chunks)| < 0x1_0000_0000
    ensures var st := HashAll(START, chunks);
      && ResultFor(st) == Sha1(Concat(chunks))
      && ResultFor(AfterResult(st)) == Sha1(Concat(chunks))
      && AfterResult(AfterResult(st)) == AfterResult(st)
  {
    HashAllAbsorbs(chunks);
    ResultIsSha1(Concat(chunks));
  }

  /** The hashing tool: reads a file in blocks of 1024 bytes until one comes up short. */
  method HashFile(file: seq<Byte>) returns (hash: seq<Byte>)
    ensures |file| < 0x1_0000_0000 ==> hash == Sha1(file)
  {
    var sha := new Engine();
    FeedFile(sha, file);
    if |file| < 0x1_0000_0000 {
      ResultIsSha1(file);
    }
    hash := sha.Result();
  }

  method FeedFile(sha: Engine, file: seq<Byte>)
    requires sha.Valid() && sha.view == START
    modifies sha, sha.m_messageBlock
    ensures sha.Valid() && sha.view == State(file, false, [])
  {
    hide HashBlocks, ResultOf;
    var pos, gcount := 0, 1024;
    while gcount == 1024
      invariant 0 <= pos <= |file| && (gcount == 1024 || pos == |file|)
      invariant sha.Valid() && sha.view == State(file[..pos], false, [])
      decreases |file| - pos, gcount
    {
      gcount := if |file| - pos < 1024 then |file| - pos else 1024;
      sha.Hash(file[pos..pos + gcount]);
      assert file[..pos] + file[pos..pos + gcount] == file[..pos + gcount];
      pos := pos + gcount;
    }
    assert file[..|file|] == file;
  }

  // ----- Hashing on after a result -----

  datatype Call = HashCall(data: seq<Byte>) | ResultCall

  function Run(calls: seq<Call>): State {
    if calls == [] then START
    else
      var st, last := Run(calls[..|calls| - 1]), calls[|calls| - 1];
      match last
      case HashCall(data) => AfterHash(st, data)
      case ResultCall => AfterResult(st)
  }

  /** Everything handed to Hash so far. */
  function Data(calls: seq<Call>): seq<Byte> {
    if calls == [] then []
    else
      var last := calls[|calls| - 1];
      Data(calls[..|calls| - 1]) + (if last.HashCall? then last.data else [])
  }

  /** Every result was asked for after a whole number of blocks. */
  ghost predicate ResultsOnBoundaries(calls: seq<Call>) {
    forall k :: 0 <= k < |calls| && calls[k].ResultCall? ==> |Data(calls[..k])| % BLOCK == 0
  }

  lemma BoundariesStep(calls: seq<Call>)
    requires calls != []
    ensures var n := |calls| - 1;
      ResultsOnBoundaries(calls) <==>
      ResultsOnBoundaries(calls[..n]) && (calls[n].ResultCall? ==> |Data(calls[..n])| % BLOCK == 0)
  {
    var n := |calls| - 1;
    assert forall k :: 0 <= k < n ==> calls[..n][..k] == calls[..k];
  }

  /** A result in mid-block makes the engine forget the bytes of that block; so hashing on
      continues the message exactly when every earlier result came on a block boundary. */
  lemma {:induction false} ContinuesExactlyOnBoundaries(calls: seq<Call>)
    ensures Run(calls).absorbed == Data(calls) <==> ResultsOnBoundaries(calls)
    ensures |Run(calls).absorbed| <= |Data(calls)|
    ensures Run(calls).computed ==> |Run(calls).absorbed| % BLOCK == 0
  {
    if calls != [] {
      var n := |calls| - 1;
      var before := calls[..n];
      ContinuesExactlyOnBoundaries(before);
      BoundariesStep(calls);
      var st := Run(before);
      match calls[n] {
        case HashCall(data) =>
          AppendCancels(st.absorbed, Data(before), data);
        case ResultCall =>
          assert Data(calls) == Data(before);
          if !st.computed {
            WholeIsAll(st.absorbed, Data(before));
          }
      }
    }
  }

  lemma AppendCancels(a: seq<Byte>, b: seq<Byte>, c: seq<Byte>)
    ensures a + c == b + c <==> a == b
  {
    if a + c == b + c {
      assert |a| == |b|;
      assert a == (a + c)[..|a|] && b == (b + c)[..|b|];
    }
  }

  lemma WholeIsAll(a: seq<Byte>, all: seq<Byte>)
    requires |a| <= |all|
    ensures Whole(a) == all <==> a == all && |all| % BLOCK == 0
  {
    assert Whole(a) + Tail(a) == a;
  }

  /** Nothing but results from call k on. */
  predicate OnlyResults(calls: seq<Call>, k: nat) {
    forall j :: k <= j < |calls| ==> calls[j].ResultCall?
  }

  lemma {:induction false} ResultsRepeat(calls: seq<Call>, k: nat)
    requires k <= |calls| && OnlyResults(calls, k)
    ensures Data(calls) == Data(calls[..k]) && ResultFor(Run(calls)) == ResultFor(Run(calls[..k]))
    decreases |calls|
  {
    hide ResultOf;
    if k < |calls| {
      var before := calls[..|calls| - 1];
      ResultsRepeat(before, k);
      assert before[..k] == calls[..k];
    } else {
      assert calls[..k] == calls;
    }
  }

  lemma {:induction false} HashedIsData(calls: seq<Call>)
    requires ResultsOnBoundaries(calls) && Run(calls).computed
    ensures Run(calls).hashed == Data(calls)
    decreases |calls|
  {
    var n := |calls| - 1;
    var before := calls[..n];
    BoundariesStep(calls);
    if Run(before).computed {
      HashedIsData(before);
    } else {
      ContinuesExactlyOnBoundaries(before);
    }
  }

  /** As long as every result that hashing went on after came on a block boundary, the digest is
      the hash of all the data, on every result asked for since. */
  lemma BoundaryResultsAreSha1(calls: seq<Call>, k: nat)
    requires k <= |calls| && OnlyResults(calls, k) && ResultsOnBoundaries(calls[..k])
    requires |Data(calls)| < 0x1_0000_0000
    ensures ResultFor(Run(calls)) == Sha1(Data(calls))
  {
    hide ResultOf, Sha1;
    ResultsRepeat(calls, k);
    if Run(calls[..k]).computed {
      HashedIsData(calls[..k]);
    } else {
      ContinuesExactlyOnBoundaries(calls[..k]);
    }
    ResultIsSha1(Data(calls));
  }

  /** One byte, a result, one more byte: the first byte is gone, and the next result is the hash of
      the second byte alone. */
  lemma ResultForgets(x: Byte, y: Byte)
    ensures Run([HashCall([x]), ResultCall, HashCall([y])]) == State([y], false, [x])
    ensures ResultFor(Run([HashCall([x]), ResultCall, HashCall([y])])) == Sha1([y])
  {
    hide ResultOf, Sha1;
    var calls := [HashCall([x]), ResultCall, HashCall([y])];
    assert calls[..2] == [HashCall([x]), ResultCall];
    assert calls[..2][..1] == [HashCall([x])] && calls[..2][..1][..0] == [];
    assert Run(calls[..2][..1]) == State([x], false, []);
    assert Run(calls[..2]) == State([], true, [x]);
    ResultIsSha1([y]);
  }
}
