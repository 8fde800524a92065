/** The term database kept in a hash file (FrequencyDBImpl_hash.cc). */
module HashStores {
  import opened Options
  import opened ByteStrings
  import opened WordCounts
  import opened ProbeTables
  import opened WordArrays
  import opened HashDataFiles

  const INDEX_OFFSET := 5
  const FILE_TYPE_INDEX := 0
  const COUNT_INDEX := 1
  const HASH32_FILE_KEY := 0x0bcc0001

  datatype Error = NoRoom(word: string)

  /** The records a sweep keeps: those with counts that the cleaner does not give up. */
  ghost function Keeps(limits: seq<Limit>, today: nat): WordData -> bool {
    (w: WordData) => w.Total() != 0 && !Expired(limits, w, today)
  }

  lemma KeepsMeaning(limits: seq<Limit>, today: nat, w: WordData)
    ensures Keeps(limits, today)(w) <==> w.Total() != 0 && !Expired(limits, w, today)
  {
  }

  /** The slots with positive totals, in the order of the file. */
  function Listed(t: Table): seq<Slot> {
    if t == [] then []
    else Listed(t[..|t| - 1]) + if t[|t| - 1].data.Total() > 0 then [t[|t| - 1]] else []
  }

  /** No record between two places has counts. */
  ghost predicate NothingIn(t: Table, from: nat, to: int) {
    forall i :: from <= i < to && i < |t| ==> t[i].data.good + t[i].data.spam <= 0
  }

  /** The limits of the cleaner that a database may be built with. */
  method AutoCleaner() returns (cleaner: CleanupManager)
    ensures fresh(cleaner)
    ensures cleaner.nodes == [Limit(2, 14), Limit(100, 30), Limit(10000, 180), Limit(100000, 360)]
  {
    cleaner := new CleanupManager();
    cleaner.AddLimit(2, 14);
    cleaner.AddLimit(100, 30);
    cleaner.AddLimit(10000, 180);
    cleaner.AddLimit(100000, 360);
  }

  class HashStore {
    var dataFile: HashDataFile
    var cursor: nat
    const keyOf: string -> nat

    ghost predicate Valid()
      reads this, dataFile, dataFile.words.buffer
    {
      && dataFile.Valid()
      && dataFile.numHeaders == INDEX_OFFSET
      && forall w :: 0 < keyOf(w) < WORD_MODULUS
    }

    /** A new database of about the given size, with or without a cleaner. */
    constructor (sizeInBytes: nat, keyOf: string -> nat, autoClean: bool)
      requires forall w :: 0 < keyOf(w) < WORD_MODULUS
      ensures Valid() && fresh(dataFile) && fresh(dataFile.words.buffer) && this.keyOf == keyOf
      ensures dataFile.Table() == Empty(dataFile.divisor)
      ensures dataFile.Headers() == Empty(5)[0 := Slot(0x0bcc0001, Stored(WordData(0x0bcc0001, 0, 0)))]
      ensures autoClean == dataFile.autoCleaner.Some?
      ensures autoClean ==>
        fresh(dataFile.autoCleaner.value) &&
        dataFile.autoCleaner.value.nodes == [Limit(2, 14), Limit(100, 30), Limit(10000, 180), Limit(100000, 360)]
    {
      hide NoHoles, SlotsOf, OnOffer, Stored, IsDivisorFor, NothingIn, Listed;
      this.keyOf := keyOf;
      cursor := 0;
      dataFile := new HashDataFile(INDEX_OFFSET, sizeInBytes);
      new;
      if autoClean {
        var cleaner := AutoCleaner();
        dataFile.SetAutoClean(cleaner);
      }
      dataFile.OpenNew();
      dataFile.WriteHeader(FILE_TYPE_INDEX, HASH32_FILE_KEY, WordData(HASH32_FILE_KEY, 0, 0));
    }

    /** Stores the counts of a word, and fails when the file has no room for it. */
    method WriteWord(word: string, counts: WordData, today: nat) returns (r: Result<(), Error>)
      requires Valid()
      modifies dataFile.words.buffer
      ensures Valid()
      ensures word == COUNT_WORD ==>
        && r.Success? && dataFile.Table() == old(dataFile.Table())
        && dataFile.Headers() == old(dataFile.Headers())[1 := Slot(0, Stored(counts))]
      ensures word != COUNT_WORD ==>
        var t, stale := old(dataFile.Table()), dataFile.Stale(today);
        && dataFile.Headers() == old(dataFile.Headers())
        && dataFile.Table() == Written(t, keyOf(word), Stored(counts), stale)
        && r == if WriteStep(t, keyOf(word), stale, 0) < |t| then Success(()) else Failure(NoRoom(word))
    {
      hide NoHoles, SlotsOf, OnOffer, Written, WriteStep;
      if word == COUNT_WORD {
        dataFile.WriteHeader(COUNT_INDEX, 0, counts);
      } else {
        var ok := dataFile.Write(keyOf(word), counts, today);
        if !ok {
          return Failure(NoRoom(word));
        }
      }
      return Success(());
    }

    method ReadWord(word: string) returns (counts: Option<WordData>)
      requires Valid()
      ensures counts ==
        if word == COUNT_WORD then Some(dataFile.Headers()[1].data)
        else Lookup(dataFile.Table(), keyOf(word))
    {
      if word == COUNT_WORD {
        var _, data := dataFile.ReadRecord(COUNT_INDEX);
        counts := Some(data);
      } else {
        counts := dataFile.Read(keyOf(word));
      }
    }

    method FirstWord() returns (slot: Slot)
      requires Valid()
      modifies this`cursor
      ensures slot == dataFile.Headers()[1] && cursor == INDEX_OFFSET
    {
      var key, data := dataFile.ReadRecord(COUNT_INDEX);
      cursor := INDEX_OFFSET;
      slot := Slot(key, data);
    }

    /** Moves on to the next record with a positive total. */
    method NextWord() returns (slot: Option<Slot>)
      requires Valid() && INDEX_OFFSET <= cursor <= dataFile.indexLimit
      modifies this`cursor
      ensures old(cursor) <= cursor <= dataFile.indexLimit
      ensures
        var t, from, to := dataFile.Table(), old(cursor) - INDEX_OFFSET, cursor - INDEX_OFFSET;
        Listed(t[..to]) == Listed(t[..from]) + if slot.Some? then [slot.value] else []
      ensures slot.Some? ==>
        && old(cursor) < cursor && slot.value == dataFile.Table()[cursor - 1 - INDEX_OFFSET]
        && slot.value.data.good + slot.value.data.spam > 0
      ensures NothingIn(dataFile.Table(), old(cursor) - INDEX_OFFSET, cursor - INDEX_OFFSET - if slot.Some? then 1 else 0)
      ensures slot.None? ==> cursor == dataFile.indexLimit
    {
      hide NoHoles, SlotsOf, OnOffer, NothingIn, Listed;
      ghost var t := dataFile.Table();
      NothingYet(t, cursor - INDEX_OFFSET);
      while cursor < dataFile.indexLimit
        invariant old(cursor) <= cursor <= dataFile.indexLimit
        invariant Listed(t[..cursor - INDEX_OFFSET]) == Listed(t[..old(cursor) - INDEX_OFFSET])
        invariant NothingIn(t, old(cursor) - INDEX_OFFSET, cursor - INDEX_OFFSET)
      {
        var key, data := dataFile.ReadRecord(cursor);
        ghost var i := cursor - INDEX_OFFSET;
        assert t[i] == Slot(key, data);
        ListedNext(t, old(cursor) - INDEX_OFFSET, i);
        if data.Total() > 0 {
          cursor := cursor + 1;
          return Some(Slot(key, data));
        }
        cursor := cursor + 1;
      }
      return None;
    }

    /** Going through the whole file lists every record with a positive total, once. */
    method AllWords() returns (count: Slot, slots: seq<Slot>)
      requires Valid()
      modifies this`cursor
      ensures count == dataFile.Headers()[1] && slots == Listed(dataFile.Table())
    {
      hide NoHoles, SlotsOf, OnOffer, Listed;
      count := FirstWord();
      slots := [];
      ListedNone(dataFile.Table());
      var next := NextWord();
      while next.Some?
        invariant INDEX_OFFSET <= cursor <= dataFile.indexLimit
        invariant Listed(dataFile.Table()[..cursor - INDEX_OFFSET]) == slots + if next.Some? then [next.value] else []
        invariant next.None? ==> cursor == dataFile.indexLimit
        decreases dataFile.indexLimit - cursor, next.Some?
      {
        slots := slots + [next.value];
        next := NextWord();
      }
      assert dataFile.Table()[..cursor - INDEX_OFFSET] == dataFile.Table();
    }

    /** Copies the headers and every kept record into a new file of the same layout. */
    method CopyToNewDataFile(cleaner: CleanupManager, today: nat) returns (file: HashDataFile)
      requires Valid()
      ensures Valid() && file.Valid() && fresh(file) && fresh(file.words.buffer) && file.autoCleaner == None
      ensures file.numHeaders == INDEX_OFFSET && file.divisor == dataFile.divisor
      ensures file.Headers() == dataFile.Headers()
      ensures file.Table() == Rehashed(dataFile.Table(), Keeps(cleaner.nodes, today), dataFile.divisor)
    {
      hide NoHoles, SlotsOf, OnOffer, Rehashed, Written, WriteStep, Stored, At, Keeps;
      file := OpenMirror();
      ghost var t, keep := dataFile.Table(), Keeps(cleaner.nodes, today);
      RehashedUnfold(t, keep, 0);
      for i := INDEX_OFFSET to dataFile.indexLimit
        invariant Valid() && Mirrors(file) && fresh(file) && fresh(file.words.buffer)
        invariant file.Headers() == dataFile.Headers() && dataFile.Table() == t
        invariant file.Table() == Rehashed(t, keep, i - INDEX_OFFSET)
      {
        RehashedUnfold(t, keep, i - INDEX_OFFSET + 1);
        if t[i - INDEX_OFFSET].key != 0 {
          RehashedRoom(t, keep, i - INDEX_OFFSET);
        }
        CopyRecord(file, i, cleaner, today);
      }
    }

    /** A new file of the same size, with the headers copied. Its layout is the same because a
        size once chosen is chosen again. */
    method OpenMirror() returns (file: HashDataFile)
      requires Valid()
      ensures Valid() && Mirrors(file) && fresh(file) && fresh(file.words.buffer)
      ensures file.Headers() == dataFile.Headers() && file.Table() == Empty(dataFile.divisor)
    {
      hide NoHoles, SlotsOf, OnOffer, At, Stored, IsDivisorFor;
      file := new HashDataFile(INDEX_OFFSET, dataFile.size);
      DivisorFixpoint(dataFile.divisor, file.divisor);
      file.OpenNew();
      dataFile.CopyHeadersToFile(file);
    }

    /** The other file has the layout of this one and no cleaner. */
    ghost predicate Mirrors(file: HashDataFile)
      reads this, dataFile, dataFile.words.buffer, file, file.words.buffer
      requires Valid()
    {
      && file.Valid()
      && file.autoCleaner == None
      && file.numHeaders == INDEX_OFFSET
      && file.divisor == dataFile.divisor
      && file.words.buffer != dataFile.words.buffer
    }

    /** The body of the copying loop: one record is kept or left behind. */
    method CopyRecord(file: HashDataFile, i: nat, cleaner: CleanupManager, today: nat)
      requires Valid() && Mirrors(file) && INDEX_OFFSET <= i < dataFile.indexLimit
      requires
        var slot := dataFile.Table()[i - INDEX_OFFSET];
        slot.key != 0 ==> WriteStep(file.Table(), slot.key, NEVER, 0) < dataFile.divisor
      modifies file.words.buffer
      ensures Valid() && Mirrors(file)
      ensures file.Headers() == old(file.Headers())
      ensures dataFile.Headers() == old(dataFile.Headers()) && dataFile.Table() == old(dataFile.Table())
      ensures
        var slot := dataFile.Table()[i - INDEX_OFFSET];
        file.Table() ==
          if slot.key != 0 && Keeps(cleaner.nodes, today)(slot.data) then Written(old(file.Table()), slot.key, slot.data, NEVER)
          else old(file.Table())
    {
      hide NoHoles, SlotsOf, OnOffer, Rehashed, Written, WriteStep, Stored, At, Keeps;
      var key, counts := dataFile.ReadRecord(i);
      SlotRange(dataFile.words.buffer[..], i);
      assert dataFile.Table()[i - INDEX_OFFSET] == Slot(key, counts);
      KeepsMeaning(cleaner.nodes, today, counts);
      if key != 0 {
        var delete := counts.Total() == 0;
        if !delete {
          delete := cleaner.ShouldDelete(counts, today);
        }
        if !delete {
          var ok := file.Write(key, counts, today);
          assert ok;
        }
      }
    }

    /** Replaces the file by its swept copy, which gets the cleaner of the old one. */
    method SweepOutOldTerms(cleaner: CleanupManager, today: nat)
      requires Valid()
      modifies this`dataFile
      ensures Valid() && fresh(dataFile) && fresh(dataFile.words.buffer)
      ensures dataFile.divisor == old(dataFile.divisor) && dataFile.autoCleaner == old(dataFile.autoCleaner)
      ensures dataFile.Headers() == old(dataFile.Headers())
      ensures dataFile.Table() == Rehashed(old(dataFile.Table()), Keeps(cleaner.nodes, today), dataFile.divisor)
      ensures
        var t, keep := old(dataFile.Table()), Keeps(cleaner.nodes, today);
        && (SweptRight(t, keep, dataFile.Table()) <==> Sweepable(t, keep))
        && (Unique(t) ==> Unique(dataFile.Table()) && SweptRight(t, keep, dataFile.Table()))
    {
      hide NoHoles, SlotsOf, OnOffer, Rehashed, Unique, SweptRight, Sweepable, Keeps;
      ghost var t, keep := dataFile.Table(), Keeps(cleaner.nodes, today);
      var file := CopyToNewDataFile(cleaner, today);
      SweepExact(t, keep);
      RehashedContents(t, keep, |t|);
      if Unique(t) {
        SweepLookup(t, keep);
      }
      file.autoCleaner := dataFile.autoCleaner;
      dataFile := file;
    }
  }

  /** How often a record occurs. */
  ghost function Times(t: Table, slot: Slot): nat {
    multiset(t)[slot]
  }

  /** Every record with a positive total is listed as often as the table has it, and no other record. */
  lemma ListedExact(t: Table, slot: Slot)
    ensures Times(Listed(t), slot) == if slot.data.good + slot.data.spam > 0 then Times(t, slot) else 0
  {
    ListedUpTo(t, |t|, slot);
    assert t[..|t|] == t;
  }

  lemma {:induction false} ListedUpTo(t: Table, n: nat, slot: Slot)
    requires n <= |t|
    ensures Times(Listed(t[..n]), slot) == if slot.data.good + slot.data.spam > 0 then Times(t[..n], slot) else 0
  {
    hide Listed;
    ListedNone(t);
    if n > 0 {
      hide Times;
      ListedUpTo(t, n - 1, slot);
      ListedNext(t, 0, n - 1);
      ghost var last, before := t[n - 1], Listed(t[..n - 1]);
      TimesLast(t[..n - 1], last, slot);
      TimesLast(before, last, slot);
      TakeNext(t, n, before);
    }
  }

  lemma TakeNext(t: Table, n: nat, before: Table)
    requires 0 < n <= |t|
    ensures t[..n] == t[..n - 1] + [t[n - 1]] && before + [] == before
  {
  }

  lemma TimesLast(t: Table, last: Slot, slot: Slot)
    ensures Times(t + [last], slot) == Times(t, slot) + if last == slot then 1 else 0
  {
    assert multiset(t + [last]) == multiset(t) + multiset([last]);
  }

  lemma NothingYet(t: Table, from: nat)
    ensures NothingIn(t, from, from)
  {
  }

  lemma ListedNext(t: Table, from: nat, i: nat)
    requires i < |t|
    ensures Listed(t[..i + 1]) == Listed(t[..i]) + if t[i].data.Total() > 0 then [t[i]] else []
    ensures NothingIn(t, from, i) && t[i].data.Total() <= 0 ==> NothingIn(t, from, i + 1)
  {
    assert t[..i + 1][..i] == t[..i];
  }

  lemma ListedNone(t: Table)
    ensures Listed(t[..0]) == []
  {
  }
}
