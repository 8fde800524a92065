/** A file of term records addressed by key (HashDataFile.cc): a few header records, then a table
    probed linearly. The file is held as its bytes. */
module HashDataFiles {
  import opened Options
  import opened ByteStrings
  import opened WordCounts
  import opened ProbeTables
  import opened WordArrays

  /** The table sizes on offer, roughly one for each megabyte, ten to a row. */
  const PRIMES_BY_MEG: seq<seq<nat>> := [
    [87359, 174761, 262139, 349519, 436889, 524287, 611657, 699037, 786431, 873787],
    [961189, 1048573, 1135951, 1223329, 1310719, 1398091, 1485479, 1572853, 1660231, 1747619],
    [1835003, 1922387, 2009759, 2097143, 2184509, 2271901, 2359267, 2446673, 2534057, 2621431],
    [2708821, 2796181, 2883577, 2970959, 3058343, 3145721, 3233093, 3320477, 3407857, 3495253],
    [3582629, 3670013, 3757393, 3844777, 3932153, 4019527, 4106897, 4194301, 4281679, 4369061],
    [4456433, 4543823, 4631203, 4718579, 4805959, 4893341, 4980727, 5068111, 5155489, 5242877],
    [5330251, 5417597, 5505023, 5592373, 5679769, 5767129, 5854543, 5941921, 6029299, 6116687],
    [6204071, 6291449, 6378787, 6466193, 6553577, 6640979, 6728347, 6815741, 6903121, 6990493],
    [7077883, 7165267, 7252649, 7340009, 7427353, 7514791, 7602151, 7689557, 7776931, 7864301],
    [7951693, 8039081, 8126453, 8213819, 8301217, 8388593, 8475947, 8563351, 8650727, 8738129]
  ]

  const PRIMES_ARRAY_SIZE := 100

  lemma RowLengths(r: nat)
    requires r < 10
    ensures |PRIMES_BY_MEG[r]| == 10
  {
  }

  function Prime(i: nat): nat
    requires i < PRIMES_ARRAY_SIZE
  {
    RowLengths(i / 10);
    PRIMES_BY_MEG[i / 10][i % 10]
  }

  lemma RowAscends(r: nat, j: nat)
    requires r < 10 && j < 9
    ensures |PRIMES_BY_MEG[r]| == 10 && PRIMES_BY_MEG[r][j] < PRIMES_BY_MEG[r][j + 1]
  {
  }

  lemma RowsAscend(r: nat)
    requires r < 9
    ensures |PRIMES_BY_MEG[r]| == |PRIMES_BY_MEG[r + 1]| == 10 && PRIMES_BY_MEG[r][9] < PRIMES_BY_MEG[r + 1][0]
  {
  }

  lemma {:induction false} Ascending(i: nat, j: nat)
    requires i < j < PRIMES_ARRAY_SIZE
    ensures Prime(i) < Prime(j)
    decreases j - i
  {
    hide PRIMES_BY_MEG;
    if i % 10 < 9 {
      RowAscends(i / 10, i % 10);
    } else {
      RowsAscend(i / 10);
    }
    if i + 1 < j {
      Ascending(i + 1, j);
    }
  }

  /** The size is the largest on offer within the limit, or the smallest one when none is. */
  ghost predicate IsDivisorFor(divisor: nat, maxElements: int) {
    exists j :: 0 <= j < PRIMES_ARRAY_SIZE && divisor == Prime(j) &&
      (j == 0 || divisor <= maxElements) &&
      forall i :: j < i < PRIMES_ARRAY_SIZE ==> Prime(i) > maxElements
  }

  ghost predicate OnOffer(divisor: nat) {
    exists j :: 0 <= j < PRIMES_ARRAY_SIZE && divisor == Prime(j)
  }

  /** A size on offer is its own answer, so a file of a size once chosen keeps its layout. */
  lemma DivisorFixpoint(divisor: nat, again: nat)
    requires OnOffer(divisor) && IsDivisorFor(again, divisor)
    ensures again == divisor
  {
    hide PRIMES_BY_MEG, Prime;
    var j :| 0 <= j < PRIMES_ARRAY_SIZE && divisor == Prime(j);
    var k :| 0 <= k < PRIMES_ARRAY_SIZE && again == Prime(k) && (k == 0 || again <= divisor) &&
      forall i :: k < i < PRIMES_ARRAY_SIZE ==> Prime(i) > divisor;
    if j < k {
      Ascending(j, k);
    }
  }

  method ComputeDivisorForMaxElements(maxElements: int) returns (divisor: nat)
    ensures IsDivisorFor(divisor, maxElements) && OnOffer(divisor) && divisor > 0
  {
    hide PRIMES_BY_MEG, Prime;
    SmallestPrime();
    var i := PRIMES_ARRAY_SIZE - 1;
    while i >= 0
      invariant -1 <= i < PRIMES_ARRAY_SIZE
      invariant forall j :: i < j < PRIMES_ARRAY_SIZE ==> Prime(j) > maxElements
    {
      divisor := Prime(i);
      if divisor <= maxElements {
        if i > 0 {
          Ascending(0, i);
        }
        return;
      }
      i := i - 1;
    }
    divisor := Prime(0);
  }

  lemma SmallestPrime()
    ensures Prime(0) == 87359
  {
  }

  class HashDataFile {
    var numHeaders: nat
    var divisor: nat
    var indexLimit: nat
    var size: nat
    var words: WordArray
    var autoCleaner: Option<CleanupManager>

    /** The layout fields agree and the size of the table is one on offer. */
    ghost predicate Sized()
      reads this
    {
      && divisor > 0
      && OnOffer(divisor)
      && indexLimit == numHeaders + divisor
      && size == ENTRY_SIZE * indexLimit
    }

    ghost predicate LaidOut()
      reads this
    {
      Sized() && words.Valid() && words.numWords == indexLimit
    }

    ghost predicate Valid()
      reads this, words.buffer
    {
      LaidOut() && NoHoles(Table())
    }

    ghost function Headers(): Table
      reads this, words.buffer
      requires LaidOut()
    {
      words.Slots()[..numHeaders]
    }

    ghost function Table(): Table
      reads this, words.buffer
      requires LaidOut()
    {
      words.Slots()[numHeaders..]
    }

    /** What the cleaner, if there is one, lets a write overwrite. */
    ghost function Stale(today: nat): WordData -> bool
      reads this, if autoCleaner.Some? then {autoCleaner.value} else {}
    {
      if autoCleaner.None? then NEVER
      else
        var nodes := autoCleaner.value.nodes;
        w => Expired(nodes, w, today)
    }

    constructor (numHeaders: nat, sizeInBytes: nat)
      ensures Sized() && this.numHeaders == numHeaders && autoCleaner == None
      ensures IsDivisorFor(divisor, sizeInBytes / ENTRY_SIZE - numHeaders)
    {
      words := new WordArray(0);
      autoCleaner := None;
      new;
      Initialize(numHeaders, sizeInBytes);
    }

    /** Chooses the layout for a file of about the given size. */
    method Initialize(numHeaders: nat, sizeInBytes: nat)
      modifies this
      ensures Sized() && this.numHeaders == numHeaders
      ensures words == old(words) && autoCleaner == old(autoCleaner)
      ensures IsDivisorFor(divisor, sizeInBytes / ENTRY_SIZE - numHeaders)
    {
      this.numHeaders := numHeaders;
      var maxElements := sizeInBytes / ENTRY_SIZE - numHeaders;
      divisor := ComputeDivisorForMaxElements(maxElements);
      indexLimit := divisor + numHeaders;
      size := ENTRY_SIZE * indexLimit;
    }

    method SetAutoClean(cleaner: CleanupManager)
      modifies this`autoCleaner
      ensures autoCleaner == Some(cleaner)
    {
      autoCleaner := Some(cleaner);
    }

    /** Opens the file as a new one, filled with empty records. */
    method OpenNew()
      requires Sized()
      modifies this`words
      ensures Valid() && fresh(words) && fresh(words.buffer)
      ensures Headers() == Empty(numHeaders) && Table() == Empty(divisor)
    {
      words := new WordArray(indexLimit);
    }

    /** Writes the record of a key: over its old one, into the first empty slot of its probe, or
        over the first stale record on the way. */
    method Write(key: nat, word: WordData, today: nat) returns (ok: bool)
      requires Valid() && 0 < key < WORD_MODULUS
      modifies words.buffer
      ensures Valid() && Headers() == old(Headers())
      ensures ok <==> WriteStep(old(Table()), key, Stale(today), 0) < divisor
      ensures Table() == Written(old(Table()), key, Stored(word), Stale(today))
    {
      hide At, NoHoles, SlotsOf, WriteStep, OnOffer, Stale, Stored;
      ghost var t, stale := Table(), Stale(today);
      FirstStep(key, divisor);
      var index := numHeaders + key % divisor;
      for i := 0 to divisor
        invariant i < divisor ==> index == numHeaders + At(key, i, divisor)
        invariant WriteStep(t, key, stale, 0) == WriteStep(t, key, stale, i)
        invariant Valid() && Table() == t && Headers() == old(Headers())
      {
        WriteStepUnfold(t, key, stale, i);
        var overwrite := MayOverwrite(index, key, today);
        if overwrite {
          WrittenNoHoles(t, key, Stored(word), stale);
          WriteSlot(index, key, word);
          return true;
        }
        if i + 1 < divisor {
          NextStep(key, i, divisor);
        }
        index := numHeaders + (index - numHeaders + 1) % divisor;
      }
      WriteStepUnfold(t, key, stale, divisor);
      return false;
    }

    /** The tests of a probe at one slot. */
    method MayOverwrite(index: nat, key: nat, today: nat) returns (overwrite: bool)
      requires LaidOut() && numHeaders <= index < indexLimit
      ensures overwrite <==> Takes(Table()[index - numHeaders], key, Stale(today))
    {
      hide SlotsOf, OnOffer, Expired;
      var oldKey := words.ReadKey(index);
      overwrite := oldKey == key || oldKey == 0;
      if !overwrite && autoCleaner.Some? {
        var _, oldData := words.ReadWord(index);
        overwrite := autoCleaner.value.ShouldDelete(oldData, today);
      }
    }

    /** The write of a probe that has found its slot. */
    method WriteSlot(index: nat, key: nat, word: WordData)
      requires LaidOut() && numHeaders <= index < indexLimit && key < WORD_MODULUS
      modifies words.buffer
      ensures Headers() == old(Headers())
      ensures Table() == old(Table())[index - numHeaders := Slot(key, Stored(word))]
    {
      hide SlotsOf, OnOffer, Stored;
      words.WriteWord(index, key, word);
    }

    /** Finds the record of a key. */
    method Read(key: nat) returns (word: Option<WordData>)
      requires Valid() && key > 0
      ensures word == Lookup(Table(), key)
    {
      hide At, NoHoles, SlotsOf, LookupFrom, OnOffer, Stale;
      ghost var t := Table();
      FirstStep(key, divisor);
      var index := numHeaders + key % divisor;
      for i := 0 to divisor
        invariant i < divisor ==> index == numHeaders + At(key, i, divisor)
        invariant Lookup(t, key) == LookupFrom(t, key, i)
      {
        LookupUnfold(t, key, i);
        var oldKey, data := words.ReadWord(index);
        assert Slot(oldKey, data) == t[At(key, i, divisor)];
        if oldKey == key {
          return Some(data);
        }
        if oldKey == 0 {
          return None;
        }
        if i + 1 < divisor {
          NextStep(key, i, divisor);
        }
        index := numHeaders + (index - numHeaders + 1) % divisor;
      }
      LookupUnfold(t, key, divisor);
      return None;
    }

    method ReadRecord(index: nat) returns (key: nat, word: WordData)
      requires Valid() && index < indexLimit
      ensures Slot(key, word) == words.Slots()[index]
    {
      key, word := words.ReadWord(index);
    }

    method WriteHeader(index: nat, key: nat, word: WordData)
      requires Valid() && index < numHeaders
      modifies words.buffer
      ensures Valid() && Table() == old(Table())
      ensures Headers() == old(Headers())[index := Slot(key % WORD_MODULUS, Stored(word))]
    {
      words.WriteWord(index, key, word);
      assert Table() == old(Table());
    }

    /** Copies the header records into another file of the same layout. */
    method CopyHeadersToFile(file: HashDataFile)
      requires Valid() && file.Valid() && file.numHeaders == numHeaders && file.words.buffer != words.buffer
      modifies file.words.buffer
      ensures Valid() && file.Valid() && Table() == old(Table())
      ensures file.Headers() == Headers() && file.Table() == old(file.Table())
    {
      hide NoHoles, SlotsOf, OnOffer, Stored;
      for i := 0 to numHeaders
        invariant Valid() && file.Valid()
        invariant words.Slots() == old(words.Slots()) && file.Table() == old(file.Table())
        invariant forall j :: 0 <= j < i ==> file.Headers()[j] == Headers()[j]
      {
        var key, word := ReadRecord(i);
        SlotRange(words.buffer[..], i);
        file.WriteHeader(i, key, word);
      }
      assert file.Headers() == Headers();
    }
  }
}
