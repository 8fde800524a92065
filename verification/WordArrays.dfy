/** Term records packed into 12 bytes each (WordArray.cc): a key of 4 bytes, two counts of 3 and
    flags of 2, all least significant byte first. */
module WordArrays {
  import opened ByteStrings
  import opened WordCounts
  import opened ProbeTables

  const ENTRY_SIZE := 12
  const KEY_SIZE := 4
  const COUNT_SIZE := 3
  const FLAGS_SIZE := 2

  function Number(s: seq<byte>): nat {
    if s == [] then 0 else s[0] + 0x100 * Number(s[1..])
  }

  lemma NumberSplit(number: int, length: nat)
    requires length > 0
    ensures Number(Bytes(number, length)) == number % 0x100 + 0x100 * Number(Bytes(number / 0x100, length - 1))
  {
  }

  lemma NumberOf1(number: int)
    ensures Number(Bytes(number, 1)) == number % 0x100
  {
  }

  lemma NumberOf2(number: int)
    ensures Number(Bytes(number, 2)) == number % 0x1_0000
  {
    hide Bytes, Number;
    NumberSplit(number, 2);
    NumberOf1(number / 0x100);
  }

  lemma NumberOf3(number: int)
    ensures Number(Bytes(number, 3)) == number % 0x100_0000
  {
    hide Bytes, Number;
    NumberSplit(number, 3);
    NumberOf2(number / 0x100);
  }

  lemma NumberOf4(number: int)
    ensures Number(Bytes(number, 4)) == number % WORD_MODULUS
  {
    hide Bytes, Number;
    NumberSplit(number, 4);
    NumberOf3(number / 0x100);
  }

  lemma {:induction false} NumberBound(s: seq<byte>)
    requires |s| <= 3
    ensures Number(s) < 0x100_0000
    ensures |s| <= 2 ==> Number(s) < 0x1_0000
    ensures |s| <= 1 ==> Number(s) < 0x100
    ensures |s| == 0 ==> Number(s) == 0
  {
    if s != [] {
      NumberBound(s[1..]);
    }
  }

  /** What a record becomes when it is stored. */
  function Stored(w: WordData): WordData {
    WordData(w.good % 0x100_0000, w.spam % 0x100_0000, w.flags % 0x1_0000)
  }

  function Record(key: nat, w: WordData): (s: seq<byte>)
    ensures |s| == ENTRY_SIZE
  {
    Bytes(key, KEY_SIZE) + Bytes(w.good, COUNT_SIZE) + Bytes(w.spam, COUNT_SIZE) + Bytes(w.flags, FLAGS_SIZE)
  }

  function SlotOf(s: seq<byte>): Slot
    requires |s| == ENTRY_SIZE
  {
    Slot(Number(s[..4]), WordData(Number(s[4..7]), Number(s[7..10]), Number(s[10..12])))
  }

  /** Reading a record back gives the key modulo 2^32 and the stored form of the data. */
  lemma RecordRoundTrip(key: nat, w: WordData)
    ensures SlotOf(Record(key, w)) == Slot(key % WORD_MODULUS, Stored(w))
  {
    hide Bytes, Number;
    var s := Record(key, w);
    assert s[..4] == Bytes(key, 4) && s[4..7] == Bytes(w.good, 3) && s[7..10] == Bytes(w.spam, 3) && s[10..12] == Bytes(w.flags, 2);
    NumberOf4(key);
    NumberOf3(w.good);
    NumberOf3(w.spam);
    NumberOf2(w.flags);
  }

  /** Byte i of a number, the least significant one being byte 0. */
  function ByteOf(number: int, i: nat): byte
    requires i < 4
  {
    number / (if i == 0 then 1 else if i == 1 then 0x100 else if i == 2 then 0x1_0000 else 0x100_0000) % 0x100
  }

  /** Which byte of which field is where. */
  lemma RecordBytes(key: nat, w: WordData)
    ensures
      var s := Record(key, w);
      && s[0] == ByteOf(key, 0) && s[1] == ByteOf(key, 1) && s[2] == ByteOf(key, 2) && s[3] == ByteOf(key, 3)
      && s[4] == ByteOf(w.good, 0) && s[5] == ByteOf(w.good, 1) && s[6] == ByteOf(w.good, 2)
      && s[7] == ByteOf(w.spam, 0) && s[8] == ByteOf(w.spam, 1) && s[9] == ByteOf(w.spam, 2)
      && s[10] == ByteOf(w.flags, 0) && s[11] == ByteOf(w.flags, 1)
  {
    hide Bytes, ByteOf;
    BytesAre(key);
    BytesAre(w.good);
    BytesAre(w.spam);
    BytesAre(w.flags);
  }

  lemma BytesAre(number: int)
    ensures Bytes(number, 2) == [ByteOf(number, 0), ByteOf(number, 1)]
    ensures Bytes(number, 3) == [ByteOf(number, 0), ByteOf(number, 1), ByteOf(number, 2)]
    ensures Bytes(number, 4) == [ByteOf(number, 0), ByteOf(number, 1), ByteOf(number, 2), ByteOf(number, 3)]
  {
    hide Bytes;
    BytesUnfold(number, 4);
    BytesUnfold(number, 3);
    BytesUnfold(number, 2);
    BytesUnfold(number / 0x100, 3);
    BytesUnfold(number / 0x100, 2);
    BytesUnfold(number / 0x100, 1);
    BytesUnfold(number / 0x1_0000, 2);
    BytesUnfold(number / 0x1_0000, 1);
    BytesUnfold(number / 0x100_0000, 1);
    Shifts(number);
  }

  lemma BytesUnfold(number: int, length: nat)
    requires length > 0
    ensures Bytes(number, length) == [number % 0x100] + Bytes(number / 0x100, length - 1)
    ensures Bytes(number / 0x100, 0) == []
  {
  }

  lemma Shifts(number: int)
    ensures number / 0x100 / 0x100 == number / 0x1_0000
    ensures number / 0x1_0000 / 0x100 == number / 0x100_0000
  {
  }

  /** A record in terms of its bytes. */
  lemma SlotBytes(s: seq<byte>)
    requires |s| == ENTRY_SIZE
    ensures
      var slot := SlotOf(s);
      && slot.key == Sum(s[0], s[1], s[2], s[3])
      && slot.data.good == Sum(s[4], s[5], s[6], 0)
      && slot.data.spam == Sum(s[7], s[8], s[9], 0)
      && slot.data.flags == Sum(s[10], s[11], 0, 0)
  {
    hide Number, Sum;
    assert s[..4] == [s[0]] + [s[1], s[2], s[3]];
    assert s[4..7] == [s[4]] + [s[5], s[6]];
    assert s[7..10] == [s[7]] + [s[8], s[9]];
    assert s[10..12] == [s[10]] + [s[11]];
    NumberIs(s[0], s[1], s[2], s[3]);
    NumberIs(s[4], s[5], s[6], 0);
    NumberIs(s[7], s[8], s[9], 0);
    NumberIs(s[10], s[11], 0, 0);
  }

  function Sum(b0: int, b1: int, b2: int, b3: int): int {
    b0 + 0x100 * b1 + 0x1_0000 * b2 + 0x100_0000 * b3
  }

  lemma NumberIs(b0: byte, b1: byte, b2: byte, b3: byte)
    ensures Number([b0] + [b1]) == Sum(b0, b1, 0, 0)
    ensures Number([b0] + [b1, b2]) == Sum(b0, b1, b2, 0)
    ensures Number([b0] + [b1, b2, b3]) == Sum(b0, b1, b2, b3)
  {
    hide Number;
    assert [b1, b2, b3] == [b1] + ([b2] + ([b3] + [])) && [b1, b2] == [b1] + ([b2] + []) && [b1] == [b1] + [];
    NumberNone();
    NumberNext(b3, []);
    NumberNext(b2, []);
    NumberNext(b1, []);
    NumberNext(b2, [b3] + []);
    NumberNext(b1, [b2] + []);
    NumberNext(b1, [b2] + ([b3] + []));
    NumberNext(b0, [b1]);
    NumberNext(b0, [b1, b2]);
    NumberNext(b0, [b1, b2, b3]);
  }

  lemma NumberNext(b: byte, s: seq<byte>)
    ensures Number([b] + s) == b + 0x100 * Number(s)
  {
  }

  lemma NumberNone()
    ensures Number([]) == 0
  {
  }

  function SlotsOf(bytes: seq<byte>): (t: Table)
    ensures |t| == |bytes| / ENTRY_SIZE
  {
    seq(|bytes| / ENTRY_SIZE, i requires 0 <= i < |bytes| / ENTRY_SIZE => SlotOf(bytes[ENTRY_SIZE * i..ENTRY_SIZE * i + ENTRY_SIZE]))
  }

  /** The bytes with those of s in place of the ones at position. */
  function Splice(bytes: seq<byte>, position: nat, s: seq<byte>): (r: seq<byte>)
    requires position + |s| <= |bytes|
    ensures |r| == |bytes|
  {
    bytes[..position] + s + bytes[position + |s|..]
  }

  lemma SpliceTwice(bytes: seq<byte>, position: nat, s: seq<byte>, t: seq<byte>)
    requires position + |s| + |t| <= |bytes|
    ensures Splice(Splice(bytes, position, s), position + |s|, t) == Splice(bytes, position, s + t)
  {
  }

  class WordArray {
    const buffer: array<byte>
    const numWords: nat

    ghost predicate Valid() {
      buffer.Length == ENTRY_SIZE * numWords
    }

    ghost function Slots(): Table
      reads buffer
    {
      SlotsOf(buffer[..])
    }

    /** A buffer of empty records. */
    constructor (numWords: nat)
      ensures Valid() && this.numWords == numWords && fresh(buffer)
      ensures Slots() == Empty(numWords)
    {
      this.numWords := numWords;
      buffer := new byte[ENTRY_SIZE * numWords](i => 0);
      new;
      forall i | 0 <= i < numWords ensures SlotsOf(buffer[..])[i] == Slot(0, ZERO) {
        var s := buffer[..][ENTRY_SIZE * i..ENTRY_SIZE * i + ENTRY_SIZE];
        assert forall j :: 0 <= j < ENTRY_SIZE ==> s[j] == 0;
        Zeros(s[..4]);
        Zeros(s[4..7]);
        Zeros(s[7..10]);
        Zeros(s[10..12]);
      }
    }

    /** Stores the low bytes of a number at a position and moves the position behind them. */
    method CopyToArray(position: nat, length: nat, number: int) returns (next: nat)
      requires position + length <= buffer.Length
      modifies buffer
      ensures next == position + length
      ensures buffer[..] == Splice(old(buffer[..]), position, Bytes(number, length))
    {
      next := position;
      var rest := number;
      for i := 0 to length
        invariant next == position + i
        invariant Bytes(number, length)[i..] == Bytes(rest, length - i)
        invariant forall j :: 0 <= j < i ==> buffer[position + j] == Bytes(number, length)[j]
        invariant forall j :: 0 <= j < buffer.Length && !(position <= j < next) ==> buffer[j] == old(buffer[j])
      {
        assert Bytes(number, length)[i..][0] == rest % 0x100;
        assert Bytes(number, length)[i + 1..] == Bytes(number, length)[i..][1..];
        buffer[next] := rest % 0x100;
        rest := rest / 0x100;
        next := next + 1;
      }
    }

    /** Assembles a number from its bytes, most significant first, in a 32-bit register. */
    method CopyFromArray(position: nat, length: nat) returns (next: nat, number: nat)
      requires position + length <= buffer.Length && length <= 4
      ensures next == position + length
      ensures number == Number(buffer[position..position + length])
    {
      number := 0;
      next := position + length;
      for i := 0 to length
        invariant next == position + length - i
        invariant number == Number(buffer[next..position + length])
      {
        next := next - 1;
        NumberBound(buffer[next + 1..position + length]);
        number := (number * 0x100) % WORD_MODULUS;
        number := number + buffer[next];
        assert buffer[next..position + length][1..] == buffer[next + 1..position + length];
      }
      next := next + length;
    }

    method ReadKey(index: nat) returns (key: nat)
      requires Valid() && index < numWords
      ensures key == Slots()[index].key
    {
      Within(index);
      var position := ENTRY_SIZE * index;
      assert buffer[..][position..position + ENTRY_SIZE][..4] == buffer[position..position + 4];
      position, key := CopyFromArray(position, KEY_SIZE);
    }

    method ReadWord(index: nat) returns (key: nat, word: WordData)
      requires Valid() && index < numWords
      ensures Slot(key, word) == Slots()[index]
    {
      hide Number;
      Within(index);
      var position := ENTRY_SIZE * index;
      Fields(buffer, position);
      var good, spam, flags;
      position, key := CopyFromArray(position, KEY_SIZE);
      position, good := CopyFromArray(position, COUNT_SIZE);
      position, spam := CopyFromArray(position, COUNT_SIZE);
      position, flags := CopyFromArray(position, FLAGS_SIZE);
      word := WordData(good, spam, flags);
    }

    /** Overwrites one record and no byte outside it. */
    method WriteWord(index: nat, key: nat, word: WordData)
      requires Valid() && index < numWords
      modifies buffer
      ensures buffer[..] == Splice(old(buffer[..]), ENTRY_SIZE * index, Record(key, word))
      ensures Slots() == old(Slots())[index := Slot(key % WORD_MODULUS, Stored(word))]
    {
      hide Splice, Bytes, SlotsOf;
      Within(index);
      var position := ENTRY_SIZE * index;
      ghost var bytes, p := buffer[..], position;
      position := CopyToArray(position, KEY_SIZE, key);
      SpliceTwice(bytes, p, Bytes(key, KEY_SIZE), Bytes(word.good, COUNT_SIZE));
      position := CopyToArray(position, COUNT_SIZE, word.good);
      SpliceTwice(bytes, p, Bytes(key, KEY_SIZE) + Bytes(word.good, COUNT_SIZE), Bytes(word.spam, COUNT_SIZE));
      position := CopyToArray(position, COUNT_SIZE, word.spam);
      SpliceTwice(bytes, p, Bytes(key, KEY_SIZE) + Bytes(word.good, COUNT_SIZE) + Bytes(word.spam, COUNT_SIZE), Bytes(word.flags, FLAGS_SIZE));
      position := CopyToArray(position, FLAGS_SIZE, word.flags);
      RecordReplaced(bytes, index, Record(key, word));
      RecordRoundTrip(key, word);
    }

    lemma Within(index: nat)
      requires Valid() && index < numWords
      ensures ENTRY_SIZE * (index + 1) <= buffer.Length
      ensures |SlotsOf(buffer[..])| == numWords
    {
    }
  }

  lemma Fields(buffer: array<byte>, p: nat)
    requires p + ENTRY_SIZE <= buffer.Length
    ensures
      var s := buffer[..][p..p + ENTRY_SIZE];
      && s[..4] == buffer[p..p + 4] && s[4..7] == buffer[p + 4..p + 7]
      && s[7..10] == buffer[p + 7..p + 10] && s[10..12] == buffer[p + 10..p + 12]
  {
    Field(buffer, p, 0, 4);
    Field(buffer, p, 4, 7);
    Field(buffer, p, 7, 10);
    Field(buffer, p, 10, 12);
    var s := buffer[..][p..p + ENTRY_SIZE];
    assert s[..4] == s[0..4];
  }

  lemma Field(buffer: array<byte>, p: nat, from: nat, to: nat)
    requires p + ENTRY_SIZE <= buffer.Length && from <= to <= ENTRY_SIZE
    ensures buffer[..][p..p + ENTRY_SIZE][from..to] == buffer[p + from..p + to]
  {
    var s := buffer[..][p..p + ENTRY_SIZE];
    assert forall i :: from <= i < to ==> s[i] == buffer[p + i];
  }

  lemma {:induction false} Zeros(s: seq<byte>)
    requires forall i :: 0 <= i < |s| ==> s[i] == 0
    ensures Number(s) == 0
  {
    if s != [] {
      Zeros(s[1..]);
    }
  }

  lemma RecordReplaced(bytes: seq<byte>, index: nat, record: seq<byte>)
    requires ENTRY_SIZE * (index + 1) <= |bytes| && |record| == ENTRY_SIZE
    ensures SlotsOf(Splice(bytes, ENTRY_SIZE * index, record)) == SlotsOf(bytes)[index := SlotOf(record)]
  {
    var p := ENTRY_SIZE * index;
    var bytes' := Splice(bytes, p, record);
    forall i | 0 <= i < |bytes| / ENTRY_SIZE ensures SlotsOf(bytes')[i] == SlotsOf(bytes)[index := SlotOf(record)][i] {
      var q := ENTRY_SIZE * i;
      if i == index {
        assert bytes'[q..q + ENTRY_SIZE] == record;
      } else {
        assert q + ENTRY_SIZE <= p || p + ENTRY_SIZE <= q;
        assert bytes'[q..q + ENTRY_SIZE] == bytes[q..q + ENTRY_SIZE];
      }
    }
  }

  lemma NumberBound4(s: seq<byte>)
    requires |s| == 4
    ensures Number(s) < WORD_MODULUS
  {
    NumberBound(s[1..]);
  }

  /** Whatever the bytes, a record read from them is stored unchanged. */
  lemma SlotRange(bytes: seq<byte>, index: nat)
    requires ENTRY_SIZE * (index + 1) <= |bytes|
    ensures SlotsOf(bytes)[index].key < WORD_MODULUS
    ensures Stored(SlotsOf(bytes)[index].data) == SlotsOf(bytes)[index].data
  {
    var s := bytes[ENTRY_SIZE * index..ENTRY_SIZE * index + ENTRY_SIZE];
    NumberBound4(s[..4]);
    NumberBound(s[4..7]);
    NumberBound(s[7..10]);
    NumberBound(s[10..12]);
  }
}
