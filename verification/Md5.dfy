/** The streaming MD5 digest of md5.c. The compression of one block is left open. */
module Md5 {
  import opened ByteStrings

  const BITS_MODULUS := 0x1_0000_0000_0000_0000
  const T_MASK := 0xffff_ffff
  const BLOCK := 64

  type word = x: int | 0 <= x < WORD_MODULUS

  datatype Digest = Digest(a: word, b: word, c: word, d: word)

  /** The initial registers; two of them are written as complements. */
  const INITIAL := Digest(0x67452301, T_MASK - 0x10325476, T_MASK - 0x67452301, 0x10325476)

  type Process = (Digest, seq<byte>) -> Digest

  /** The registers after the blocks of a message, in order; a partial block at the end is left out. */
  function Fold(process: Process, abcd: Digest, blocks: seq<byte>): Digest
    decreases |blocks|
  {
    if |blocks| < BLOCK then abcd else Fold(process, process(abcd, blocks[..BLOCK]), blocks[BLOCK..])
  }

  function Zeros(n: nat): (s: seq<byte>)
    ensures |s| == n && forall i :: 0 <= i < n ==> s[i] == 0
  {
    seq(n, i => 0)
  }

  /** Section 3.1 of RFC 1321: a one bit, then as many zeros as bring the length to 56 modulo 64. */
  function Padding(length: nat): (s: seq<byte>)
    ensures 1 <= |s| <= BLOCK && (length + |s|) % BLOCK == 56
    ensures s[0] == 0x80 && forall i :: 1 <= i < |s| ==> s[i] == 0
  {
    [0x80] + Zeros((55 - length % BLOCK) % BLOCK)
  }

  /** Section 3.2 of RFC 1321: the length in bits, modulo 2^64, in eight bytes. */
  function Padded(message: seq<byte>): (s: seq<byte>) {
    message + Padding(|message|) + Bytes(8 * |message| % BITS_MODULUS, 8)
  }

  /** A padded message consists of whole blocks and ends with its length. */
  lemma PaddedBlocks(message: seq<byte>)
    ensures |Padded(message)| % BLOCK == 0
    ensures Whole(|Padded(message)|) == |Padded(message)|
  {
    hide Bytes, Padding;
    var pad := Padding(|message|);
    assert |Padded(message)| == (|message| + |pad|) + 8;
  }

  function Power256(n: nat): (r: nat)
    ensures r > 0
  {
    if n == 0 then 1 else 0x100 * Power256(n - 1)
  }

  function Output(abcd: Digest): (s: seq<byte>)
    ensures |s| == 16
  {
    Bytes(abcd.a, 4) + Bytes(abcd.b, 4) + Bytes(abcd.c, 4) + Bytes(abcd.d, 4)
  }

  /** The registers come in order, each with its least significant byte first. */
  lemma OutputBytes(abcd: Digest)
    ensures
      var s := Output(abcd);
      forall i :: 0 <= i < 4 ==>
        && s[i] == abcd.a / Power256(i) % 0x100
        && s[4 + i] == abcd.b / Power256(i) % 0x100
        && s[8 + i] == abcd.c / Power256(i) % 0x100
        && s[12 + i] == abcd.d / Power256(i) % 0x100
  {
    hide Bytes, Power256;
    forall i | 0 <= i < 4
      ensures
        && Output(abcd)[i] == abcd.a / Power256(i) % 0x100
        && Output(abcd)[4 + i] == abcd.b / Power256(i) % 0x100
        && Output(abcd)[8 + i] == abcd.c / Power256(i) % 0x100
        && Output(abcd)[12 + i] == abcd.d / Power256(i) % 0x100
    {
      ByteAt(abcd.a, i);
      ByteAt(abcd.b, i);
      ByteAt(abcd.c, i);
      ByteAt(abcd.d, i);
    }
  }

  lemma ByteAt(number: nat, i: nat)
    requires i < 4
    ensures Bytes(number, 4)[i] == number / Power256(i) % 0x100
  {
    WordBytes(number);
    hide Bytes;
    assert Power256(0) == 1 && Power256(1) == 0x100 && Power256(2) == 0x1_0000 && Power256(3) == 0x100_0000;
  }

  /** The sixteen bytes that section 3.3 of RFC 1321 starts with. */
  lemma InitialBytes()
    ensures Output(INITIAL) ==
      [0x01, 0x23, 0x45, 0x67, 0x89, 0xab, 0xcd, 0xef, 0xfe, 0xdc, 0xba, 0x98, 0x76, 0x54, 0x32, 0x10]
  {
    hide Bytes;
    RegisterBytes(INITIAL.a, 0x01, 0x23, 0x45, 0x67);
    RegisterBytes(INITIAL.b, 0x89, 0xab, 0xcd, 0xef);
    RegisterBytes(INITIAL.c, 0xfe, 0xdc, 0xba, 0x98);
    RegisterBytes(INITIAL.d, 0x76, 0x54, 0x32, 0x10);
  }

  lemma RegisterBytes(number: nat, b0: byte, b1: byte, b2: byte, b3: byte)
    requires number == b0 + 0x100 * (b1 + 0x100 * (b2 + 0x100 * b3))
    ensures Bytes(number, 4) == [b0, b1, b2, b3]
  {
    hide Bytes;
    BytesOff(b0, b1 + 0x100 * (b2 + 0x100 * b3), 4);
    BytesOff(b1, b2 + 0x100 * b3, 3);
    BytesOff(b2, b3, 2);
    BytesOff(b3, 0, 1);
    BytesUnfold(0, 0);
  }

  lemma BytesOff(low: byte, high: nat, length: nat)
    requires length > 0
    ensures Bytes(low + 0x100 * high, length) == [low] + Bytes(high, length - 1)
  {
    hide Bytes;
    BytesUnfold(low + 0x100 * high, length);
    Carried(low, high);
  }

  lemma WordBytes(number: nat)
    ensures Bytes(number, 4) ==
      [number % 0x100, number / 0x100 % 0x100, number / 0x1_0000 % 0x100, number / 0x100_0000 % 0x100]
  {
    hide Bytes;
    BytesUnfold(number, 4);
    BytesUnfold(number / 0x100, 3);
    BytesUnfold(number / 0x1_0000, 2);
    BytesUnfold(number / 0x100_0000, 1);
    BytesUnfold(number / 0x1_0000_0000, 0);
    Shifts(number);
  }

  lemma Shifts(number: nat)
    ensures number / 0x100 / 0x100 == number / 0x1_0000
    ensures number / 0x1_0000 / 0x100 == number / 0x100_0000
    ensures number / 0x100_0000 / 0x100 == number / 0x1_0000_0000
  {
  }

  lemma BytesUnfold(number: nat, length: nat)
    ensures Bytes(number, length) == if length == 0 then [] else [number % 0x100] + Bytes(number / 0x100, length - 1)
  {
  }

  /** The digest of a whole message. */
  function DigestOf(process: Process, message: seq<byte>): (s: seq<byte>)
    ensures |s| == 16
  {
    Output(Fold(process, INITIAL, Padded(message)))
  }

  /** Folding in two parts, when the first part is whole blocks. */
  lemma {:induction false} FoldAppend(process: Process, abcd: Digest, s: seq<byte>, t: seq<byte>)
    requires |s| % BLOCK == 0
    ensures Fold(process, abcd, s + t) == Fold(process, Fold(process, abcd, s), t)
    decreases |s|
  {
    if s == [] {
      assert s + t == t;
    } else {
      assert (s + t)[..BLOCK] == s[..BLOCK] && (s + t)[BLOCK..] == s[BLOCK..] + t;
      FoldAppend(process, process(abcd, s[..BLOCK]), s[BLOCK..], t);
    }
  }

  /** The number of bytes of a message that fill whole blocks. */
  function Whole(length: nat): nat {
    length - length % BLOCK
  }

  /** The two words of the counter hold a length in bits, modulo 2^64. */
  ghost predicate Counts(count: (word, word), length: nat) {
    count.0 + WORD_MODULUS * count.1 == 8 * length % BITS_MODULUS
  }

  /** The registers after the first k bytes of a message, which are whole blocks. */
  ghost predicate Absorbed(process: Process, abcd: Digest, message: seq<byte>, k: nat) {
    k <= |message| && k % BLOCK == 0 && abcd == Fold(process, INITIAL, message[..k])
  }

  lemma AbsorbedPrefix(process: Process, abcd: Digest, before: seq<byte>, data: seq<byte>, k: nat)
    requires Absorbed(process, abcd, before, k)
    ensures Absorbed(process, abcd, before + data, k)
  {
    assert (before + data)[..k] == before[..k];
  }

  /** No further whole block fits. */
  lemma AbsorbedAll(process: Process, abcd: Digest, message: seq<byte>, k: nat)
    requires Absorbed(process, abcd, message, k) && |message| < k + BLOCK
    ensures Whole(|message|) == k && k <= |message|
  {
  }

  class State {
    const process: Process
    var count: (word, word)
    var abcd: Digest
    const buf: array<byte>
    ghost var message: seq<byte>  // all bytes appended so far

    /** The registers have taken in the whole blocks, the buffer starts with the rest, and the two
        words of the counter hold the length in bits modulo 2^64. */
    ghost predicate Valid()
      reads this, buf
    {
      var n := Whole(|message|);
      && buf.Length == BLOCK
      && Counts(count, |message|)
      && Absorbed(process, abcd, message, n)
      && n <= |message| < n + BLOCK
      && buf[..|message| - n] == message[n..]
    }

    constructor (process: Process)
      ensures Valid() && fresh(buf) && message == [] && this.process == process
    {
      this.process := process;
      count := (0, 0);
      abcd := INITIAL;
      buf := new byte[BLOCK](i => 0);
      message := [];
    }

    /** Takes in further bytes, whatever their number. */
    method Append(data: seq<byte>)
      requires Valid() && |data| < 0x8000_0000
      modifies this`count, this`abcd, this`message, buf
      ensures Valid() && message == old(message) + data
    {
      hide Absorbed, Whole, Counts, Fold, Bytes, Padding;
      ghost var before, all := message, message + data;
      ghost var k := Whole(|before|);
      var nbytes := |data|;
      var p, left := 0, nbytes;
      OffsetOf(count, |before|);
      var offset := count.0 / 8 % BLOCK;
      if nbytes <= 0 {
        assert all == before;
        return;
      }
      AddLength(nbytes, |before|);
      AbsorbedPrefix(process, abcd, before, data, k);
      message := all;

      if offset > 0 {
        var copy := FillPartial(data, offset, k, before);
        if offset + copy < BLOCK {
          AbsorbedAll(process, abcd, all, k);
          return;
        }
        p, left, k := copy, nbytes - copy, k + BLOCK;
      }

      ghost var end := TakeRest(data, p, left, k, before);
      AbsorbedAll(process, abcd, all, end);
    }

    /** The full blocks, and a final partial block. */
    method TakeRest(data: seq<byte>, start: nat, rest: nat, ghost from: nat, ghost before: seq<byte>) returns (ghost k: nat)
      requires buf.Length == BLOCK && start + rest == |data| && from == |before| + start && message == before + data
      requires Absorbed(process, abcd, message, from)
      modifies this`abcd, buf
      ensures Absorbed(process, abcd, message, k)
      ensures k <= |message| < k + BLOCK && buf[..|message| - k] == message[k..]
    {
      hide Absorbed;
      var p, left := start, rest;
      k := from;
      while left >= BLOCK
        invariant 0 <= left && p + left == |data| && k == |before| + p
        invariant Absorbed(process, abcd, message, k)
        modifies this`abcd
      {
        Shifted(before, data, p, p + BLOCK);
        ProcessBlock(data[p..p + BLOCK], k);
        p, left, k := p + BLOCK, left - BLOCK, k + BLOCK;
      }
      Shifted(before, data, p, |data|);
      if left > 0 {
        CopyIn(0, data[p..]);
        assert buf[..left] == data[p..];
      }
    }

    /** The initial partial block: fills the buffer and, when it is full, takes it in. */
    method FillPartial(data: seq<byte>, offset: nat, ghost k: nat, ghost before: seq<byte>) returns (copy: nat)
      requires 0 < offset < BLOCK == buf.Length && k + offset == |before| && message == before + data
      requires buf[..offset] == before[k..] && Absorbed(process, abcd, message, k)
      modifies this`abcd, buf
      ensures copy == if offset + |data| > BLOCK then BLOCK - offset else |data|
      ensures offset + copy < BLOCK ==> abcd == old(abcd) && buf[..offset + copy] == message[k..]
      ensures offset + copy == BLOCK ==> Absorbed(process, abcd, message, k + BLOCK)
    {
      hide Absorbed;
      copy := if offset + |data| > BLOCK then BLOCK - offset else |data|;
      CopyIn(offset, data[..copy]);
      assert buf[..offset + copy] == message[k..|before| + copy] by {
        assert before[k..] == message[k..|before|];
      }
      if offset + copy == BLOCK {
        assert buf[..] == buf[..BLOCK];
        ProcessBlock(buf[..], k);
      }
    }

    /** Takes one block into the registers. */
    method ProcessBlock(block: seq<byte>, ghost k: nat)
      requires Absorbed(process, abcd, message, k)
      requires k + BLOCK <= |message| && block == message[k..k + BLOCK]
      modifies this`abcd
      ensures Absorbed(process, abcd, message, k + BLOCK)
    {
      FoldBlock(process, message, k);
      abcd := process(abcd, block);
    }

    /** Adds a number of bytes to the two words of the bit counter. */
    method AddLength(nbytes: nat, ghost length: nat)
      requires Counts(count, length)
      modifies this`count
      ensures Counts(count, length + nbytes)
    {
      CounterStep(count.0, count.1, length, nbytes);
      var nbits := 8 * nbytes % WORD_MODULUS;
      count := (count.0, (count.1 + nbytes / 0x2000_0000) % WORD_MODULUS);
      count := ((count.0 + nbits) % WORD_MODULUS, count.1);
      if count.0 < nbits {
        count := (count.0, (count.1 + 1) % WORD_MODULUS);
      }
    }

    /** The memcpy into the buffer. */
    method CopyIn(offset: nat, s: seq<byte>)
      requires offset + |s| <= buf.Length
      modifies buf
      ensures buf[..] == old(buf[..offset]) + s + old(buf[offset + |s|..])
    {
      for i := 0 to |s|
        invariant forall j :: 0 <= j < i ==> buf[offset + j] == s[j]
        invariant forall j :: 0 <= j < buf.Length && !(offset <= j < offset + i) ==> buf[j] == old(buf[j])
      {
        buf[offset + i] := s[i];
      }
    }

    /** Pads the message, appends its length and delivers the digest. */
    method Finish() returns (digest: seq<byte>)
      requires Valid()
      modifies this, buf
      ensures digest == DigestOf(process, old(message))
      ensures
        var abcd := Fold(process, INITIAL, Padded(old(message)));
        && |digest| == 16
        && forall i :: 0 <= i < 4 ==>
          && digest[i] == abcd.a / Power256(i) % 0x100
          && digest[4 + i] == abcd.b / Power256(i) % 0x100
          && digest[8 + i] == abcd.c / Power256(i) % 0x100
          && digest[12 + i] == abcd.d / Power256(i) % 0x100
    {
      hide Fold, Bytes, Padding, Whole, Counts;
      ghost var start := message;
      OffsetOf(count, |start|);
      LengthBytes(count, |start|);
      PadLength(count.0, |start|);
      var data := Bytes(count.0, 4) + Bytes(count.1, 4);
      var length := (55 - count.0 / 8) % WORD_MODULUS % BLOCK + 1;
      Append(([0x80] + Zeros(BLOCK - 1))[..length]);
      Append(data);
      PaddedBlocks(start);
      assert message == Padded(start);
      assert message[..|message|] == message;
      digest := Output(abcd);
      OutputBytes(abcd);
    }
  }

  /** The counter tells how much of a block is in the buffer. */
  lemma OffsetOf(count: (word, word), length: nat)
    requires Counts(count, length)
    ensures count.0 / 8 % BLOCK == length % BLOCK == length - Whole(length)
    ensures 0 <= length - Whole(length) < BLOCK
  {
  }

  lemma Shifted(s: seq<byte>, t: seq<byte>, from: nat, to: nat)
    requires from <= to <= |t|
    ensures (s + t)[|s| + from..|s| + to] == t[from..to]
  {
  }

  /** Adding to the two words, with the carry seen as a wrapped sum, adds to the bit length. */
  lemma CounterStep(c0: word, c1: word, length: nat, nbytes: nat)
    requires c0 + WORD_MODULUS * c1 == 8 * length % BITS_MODULUS
    ensures
      var nbits := 8 * nbytes % WORD_MODULUS;
      var d0 := (c0 + nbits) % WORD_MODULUS;
      var d1 := (c1 + nbytes / 0x2000_0000) % WORD_MODULUS;
      d0 + WORD_MODULUS * (if d0 < nbits then (d1 + 1) % WORD_MODULUS else d1) == 8 * (length + nbytes) % BITS_MODULUS
  {
    var nbits, high := 8 * nbytes % WORD_MODULUS, nbytes / 0x2000_0000;
    var d0 := (c0 + nbits) % WORD_MODULUS;
    var carry := if d0 < nbits then 1 else 0;
    SumCarry(c0, nbits);
    var upper, q := c1 + high + carry, 8 * length / BITS_MODULUS;
    WrapTwice(c1 + high, carry);
    HighPart(nbytes);
    Divided(8 * length);
    UpperWraps(8 * (length + nbytes), q, d0, upper);
  }

  lemma HighPart(nbytes: nat)
    ensures 8 * nbytes == WORD_MODULUS * (nbytes / 0x2000_0000) + 8 * nbytes % WORD_MODULUS
  {
  }

  lemma Divided(n: nat)
    ensures n == BITS_MODULUS * (n / BITS_MODULUS) + n % BITS_MODULUS
  {
  }

  lemma WrapTwice(a: nat, b: nat)
    ensures (a % WORD_MODULUS + b) % WORD_MODULUS == (a + b) % WORD_MODULUS
    ensures a % WORD_MODULUS % WORD_MODULUS == a % WORD_MODULUS
  {
  }

  /** What the upper word loses when it wraps is a multiple of 2^64. */
  lemma UpperWraps(n: nat, q: nat, d0: word, upper: nat)
    requires n == BITS_MODULUS * q + d0 + WORD_MODULUS * upper
    ensures n % BITS_MODULUS == d0 + WORD_MODULUS * (upper % WORD_MODULUS)
  {
  }

  lemma SumCarry(c0: word, nbits: word)
    ensures var d0 := (c0 + nbits) % WORD_MODULUS; c0 + nbits == d0 + if d0 < nbits then WORD_MODULUS else 0
  {
  }

  lemma PadLength(c0: word, length: nat)
    requires c0 / 8 % BLOCK == length % BLOCK
    ensures
      var n := (55 - c0 / 8) % WORD_MODULUS % BLOCK + 1;
      n == |Padding(length)| && ([0x80] + Zeros(BLOCK - 1))[..n] == Padding(length)
  {
    WordInBlocks(55 - c0 / 8);
    LessInBlock(c0 / 8);
    LessInBlock(length);
    PaddingCut((55 - length % BLOCK) % BLOCK);
  }

  lemma WordInBlocks(n: int)
    ensures n % WORD_MODULUS % BLOCK == n % BLOCK
  {
  }

  lemma LessInBlock(n: nat)
    ensures (55 - n) % BLOCK == (55 - n % BLOCK) % BLOCK
  {
  }

  lemma PaddingCut(n: nat)
    requires n < BLOCK
    ensures ([0x80] + Zeros(BLOCK - 1))[..n + 1] == [0x80] + Zeros(n)
  {
  }

  lemma {:induction false} BytesJoin(low: nat, high: nat, k: nat, m: nat)
    requires low < Power256(k)
    ensures Bytes(low + Power256(k) * high, k + m) == Bytes(low, k) + Bytes(high, m)
    decreases k
  {
    if k == 0 {
      assert low == 0 && Power256(0) * high == high;
      assert Bytes(low, 0) + Bytes(high, m) == Bytes(high, m);
    } else {
      var x := Power256(k - 1) * high;
      LowByte(low, k, high);
      BytesJoin(low / 0x100, high, k - 1, m);
      hide Power256;
      assert Bytes(low + 0x100 * x, k + m) == [low % 0x100] + Bytes(low / 0x100 + x, k - 1 + m);
      assert [low % 0x100] + (Bytes(low / 0x100, k - 1) + Bytes(high, m)) == [low % 0x100] + Bytes(low / 0x100, k - 1) + Bytes(high, m);
    }
  }

  lemma LowByte(low: nat, k: nat, high: nat)
    requires k > 0 && low < Power256(k)
    ensures low / 0x100 < Power256(k - 1)
    ensures
      var x := Power256(k - 1) * high;
      Power256(k) * high == 0x100 * x && (low + 0x100 * x) % 0x100 == low % 0x100 && (low + 0x100 * x) / 0x100 == low / 0x100 + x
  {
    var p, x := Power256(k - 1), Power256(k - 1) * high;
    Scaled(p, high);
    Carried(low, x);
  }

  lemma Scaled(p: nat, high: nat)
    ensures (0x100 * p) * high == 0x100 * (p * high)
  {
  }

  lemma Carried(low: nat, x: nat)
    ensures (low + 0x100 * x) % 0x100 == low % 0x100 && (low + 0x100 * x) / 0x100 == low / 0x100 + x
  {
  }

  /** The two words give the eight bytes of the whole counter. */
  lemma LengthBytes(count: (word, word), length: nat)
    requires Counts(count, length)
    ensures Bytes(count.0, 4) + Bytes(count.1, 4) == Bytes(8 * length % BITS_MODULUS, 8)
  {
    hide Bytes;
    assert Power256(1) == 0x100 && Power256(2) == 0x1_0000 && Power256(3) == 0x100_0000;
    assert Power256(4) == WORD_MODULUS;
    BytesJoin(count.0, count.1, 4, 4);
  }

  /** One more block of a message. */
  lemma FoldBlock(process: Process, message: seq<byte>, k: nat)
    requires k % BLOCK == 0 && k + BLOCK <= |message|
    ensures Fold(process, INITIAL, message[..k + BLOCK]) ==
      process(Fold(process, INITIAL, message[..k]), message[k..k + BLOCK])
  {
    var block := message[k..k + BLOCK];
    assert message[..k + BLOCK] == message[..k] + block;
    FoldAppend(process, INITIAL, message[..k], block);
    assert block[..BLOCK] == block && block[BLOCK..] == [];
  }

  lemma {:induction false} BytesInjective(n: nat, m: nat, length: nat)
    requires n < Power256(length) && m < Power256(length) && Bytes(n, length) == Bytes(m, length)
    ensures n == m
    decreases length
  {
    if length > 0 {
      assert Bytes(n, length)[1..] == Bytes(n / 0x100, length - 1) && Bytes(m, length)[1..] == Bytes(m / 0x100, length - 1);
      assert Bytes(n, length)[0] == Bytes(m, length)[0];
      BytesInjective(n / 0x100, m / 0x100, length - 1);
    }
  }

  lemma Power256Of8()
    ensures Power256(8) == BITS_MODULUS
  {
  }

  /** Different messages of fewer than 2^61 bytes are padded to different blocks, so the digest
      distinguishes as much as the compression does. */
  lemma PaddedInjective(m1: seq<byte>, m2: seq<byte>)
    requires 8 * |m1| < BITS_MODULUS && 8 * |m2| < BITS_MODULUS && Padded(m1) == Padded(m2)
    ensures m1 == m2
  {
    hide Bytes, Padding, Power256;
    var p := Padded(m1);
    var n := |p| - 8;
    assert p[n..] == Bytes(8 * |m1|, 8) && p[n..] == Bytes(8 * |m2|, 8);
    Power256Of8();
    BytesInjective(8 * |m1|, 8 * |m2|, 8);
    assert p[..|m1|] == m1 && p[..|m1|] == m2;
  }

  function Flatten(chunks: seq<seq<byte>>): seq<byte> {
    if chunks == [] then [] else Flatten(chunks[..|chunks| - 1]) + chunks[|chunks| - 1]
  }

  /** However a message is cut into pieces, the digest is that of the whole. */
  method DigestChunks(process: Process, chunks: seq<seq<byte>>) returns (digest: seq<byte>)
    requires forall i :: 0 <= i < |chunks| ==> |chunks[i]| < 0x8000_0000
    ensures digest == DigestOf(process, Flatten(chunks))
  {
    var state := new State(process);
    for i := 0 to |chunks|
      invariant state.Valid() && fresh(state.buf) && state.message == Flatten(chunks[..i])
    {
      assert chunks[..i + 1][..i] == chunks[..i];
      state.Append(chunks[i]);
    }
    assert chunks[..|chunks|] == chunks;
    digest := state.Finish();
  }
}
