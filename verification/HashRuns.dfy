/** Whole runs on a database that is kept in a hash file. */
module HashRuns {
  import opened Options
  import opened WordCounts
  import opened ProbeTables
  import opened WordArrays
  import opened HashDataFiles
  import opened HashStores

  // ---- a database without a cleaner is a finite map ----

  datatype Op =
    | Write(word: string, counts: WordData)
    | Read(word: string)
    | Sweep(limits: seq<Limit>, today: nat)

  datatype Answer = Wrote(ok: bool) | ReadAs(counts: Option<WordData>) | Swept

  /** The records by key, and the counter. */
  datatype Records = Records(words: map<nat, WordData>, counter: WordData)

  ghost function Filtered(words: map<nat, WordData>, keep: WordData -> bool): map<nat, WordData> {
    map k | k in words && keep(words[k]) :: words[k]
  }

  ghost function Next(records: Records, op: Op, keyOf: string -> nat, size: nat): (Records, Answer) {
    match op
    case Write(word, counts) =>
      if word == COUNT_WORD then (records.(counter := Stored(counts)), Wrote(true))
      else if keyOf(word) in records.words || |records.words.Keys| < size then
        (records.(words := records.words[keyOf(word) := Stored(counts)]), Wrote(true))
      else (records, Wrote(false))
    case Read(word) =>
      if word == COUNT_WORD then (records, ReadAs(Some(records.counter)))
      else (records, ReadAs(if keyOf(word) in records.words then Some(records.words[keyOf(word)]) else None))
    case Sweep(limits, today) =>
      (records.(words := Filtered(records.words, Keeps(limits, today))), Swept)
  }

  ghost function After(records: Records, ops: seq<Op>, keyOf: string -> nat, size: nat): (Records, seq<Answer>) {
    if ops == [] then (records, [])
    else
      var n := |ops| - 1;
      var before := After(records, ops[..n], keyOf, size);
      var next := Next(before.0, ops[n], keyOf, size);
      (next.0, before.1 + [next.1])
  }

  /** A database without a cleaner, whose keys have one slot each. */
  ghost predicate Plain(store: HashStore)
    reads store, store.dataFile, store.dataFile.words.buffer
  {
    store.Valid() && store.dataFile.autoCleaner == None && Unique(store.dataFile.Table())
  }

  ghost function RecordsOf(store: HashStore): Records
    requires Plain(store)
    reads store, store.dataFile, store.dataFile.words.buffer
  {
    Records(Contents(store.dataFile.Table()), store.dataFile.Headers()[COUNT_INDEX].data)
  }

  /** Sweeping the table is filtering the map. */
  lemma SweptContents(t: Table, keep: WordData -> bool)
    requires Unique(t)
    ensures Unique(Rehashed(t, keep, |t|))
    ensures Contents(Rehashed(t, keep, |t|)) == Filtered(Contents(t), keep)
  {
    hide Contents, Unique, Rehashed, Kept, Filtered;
    RehashedContents(t, keep, |t|);
    KeptFilters(t, keep);
  }

  lemma KeptFilters(t: Table, keep: WordData -> bool)
    requires Unique(t)
    ensures Kept(t, keep, |t|) == Filtered(Contents(t), keep)
  {
    hide Contents, Unique, Kept;
    var kept := Kept(t, keep, |t|);
    forall k | k in kept ensures k in Contents(t) && Contents(t)[k] == kept[k] && keep(kept[k]) {
      var i := KeptHasLast(t, keep, |t|, k);
      KeptLast(t, keep, |t|, i);
      ContentsHolds(t, i);
    }
    forall k | k in Contents(t) && keep(Contents(t)[k]) ensures k in kept {
      var i := ContentsAt(t, k);
      KeptHolds(t, keep, |t|, i);
    }
  }

  /** A write to the table is a write to the map, and fails when that has no room. */
  lemma WriteContents(t: Table, key: nat, data: WordData)
    requires NoHoles(t) && Unique(t) && key != 0
    ensures
      var room := key in Contents(t) || |Contents(t).Keys| < |t|;
      && (WriteStep(t, key, NEVER, 0) < |t| <==> room)
      && Unique(Written(t, key, data, NEVER))
      && Contents(Written(t, key, data, NEVER)) == if room then Contents(t)[key := data] else Contents(t)
  {
    hide Contents, NoHoles, Unique, WriteStep;
    WriteFailsFull(t, key);
    Fewer(t);
    if WriteStep(t, key, NEVER, 0) < |t| {
      WriteRefines(t, key, data);
    }
  }

  lemma Fewer(t: Table)
    requires Unique(t)
    ensures |Contents(t).Keys| <= |t|
  {
    KeyCount(t, |t|);
    assert Contents(t).Keys == set i | 0 <= i < |t| && t[i].key != 0 :: t[i].key;
  }

  /** One operation on the database is one step of the map. */
  method Perform(store: HashStore, op: Op, today: nat) returns (answer: Answer)
    requires Plain(store)
    modifies store, store.dataFile.words.buffer
    ensures Plain(store) && store.dataFile.divisor == old(store.dataFile.divisor)
    ensures store.dataFile == old(store.dataFile) || fresh(store.dataFile)
    ensures store.dataFile.words.buffer == old(store.dataFile.words.buffer) || fresh(store.dataFile.words.buffer)
    ensures (RecordsOf(store), answer) == Next(old(RecordsOf(store)), op, store.keyOf, store.dataFile.divisor)
  {
    hide NoHoles, SlotsOf, OnOffer, Written, WriteStep, Rehashed, Keeps, Contents, Unique, Lookup, Stored, Filtered;
    ghost var t := store.dataFile.Table();
    assert |t| == store.dataFile.divisor;
    match op
    case Write(word, counts) =>
      WriteContents(t, store.keyOf(word), Stored(counts));
      var r := store.WriteWord(word, counts, today);
      answer := Wrote(r.Success?);
    case Read(word) =>
      LookupContents(t, store.keyOf(word));
      var counts := store.ReadWord(word);
      answer := ReadAs(counts);
    case Sweep(limits, day) =>
      var cleaner := new CleanupManager();
      cleaner.nodes := limits;
      SweptContents(t, Keeps(limits, day));
      store.SweepOutOldTerms(cleaner, day);
      answer := Swept;
  }

  /** Every run of writes, reads and sweeps on a database without a cleaner gives the answers, and
      leaves the records, that it would give and leave on a finite map with room for as many keys
      as there are slots. */
  method RunStore(store: HashStore, ops: seq<Op>, today: nat) returns (answers: seq<Answer>)
    requires Plain(store)
    modifies store, store.dataFile.words.buffer
    ensures Plain(store)
    ensures (RecordsOf(store), answers) == After(old(RecordsOf(store)), ops, store.keyOf, store.dataFile.divisor)
  {
    hide Plain, RecordsOf, Next, HashStore.Valid;
    answers := [];
    for i := 0 to |ops|
      invariant Plain(store) && store.dataFile.divisor == old(store.dataFile.divisor)
      invariant store.dataFile == old(store.dataFile) || fresh(store.dataFile)
      invariant store.dataFile.words.buffer == old(store.dataFile.words.buffer) || fresh(store.dataFile.words.buffer)
      invariant (RecordsOf(store), answers) == After(old(RecordsOf(store)), ops[..i], store.keyOf, store.dataFile.divisor)
    {
      assert ops[..i + 1][..i] == ops[..i];
      var answer := Perform(store, ops[i], today);
      answers := answers + [answer];
    }
    assert ops[..|ops|] == ops;
  }

  // ---- a database with a cleaner ----

  /** The store has a cleaner with the built-in limits, and the hash of two words starts at its first
      slot. */
  ghost predicate Crowded(store: HashStore, a: string, b: string)
    reads store, store.dataFile, store.dataFile.words.buffer
    reads if store.dataFile.autoCleaner.Some? then {store.dataFile.autoCleaner.value} else {}
  {
    && store.Valid()
    && store.dataFile.Table() == Empty(store.dataFile.divisor)
    && store.dataFile.autoCleaner.Some?
    && store.dataFile.autoCleaner.value.nodes == [Limit(2, 14), Limit(100, 30), Limit(10000, 180), Limit(100000, 360)]
    && a != COUNT_WORD && store.keyOf(a) == store.dataFile.divisor
    && b != COUNT_WORD && store.keyOf(b) == 2 * store.dataFile.divisor
  }

  ghost function Overtaken(size: nat, early: WordData -> bool, late: WordData -> bool): Table
    requires size > 0
  {
    Written(Written(Written(Empty(size), size, WordData(1, 0, 1), early), 2 * size, WordData(3, 0, 1), early), 2 * size, WordData(4, 0, 16), late)
  }

  /** Two words are written on the first day, and the second of them again on the sixteenth. */
  method WriteOvertaking(store: HashStore, a: string, b: string)
    requires Crowded(store, a, b)
    modifies store.dataFile.words.buffer
    ensures store.Valid()
    ensures store.dataFile.Table() == Overtaken(store.dataFile.divisor, store.dataFile.Stale(1), store.dataFile.Stale(16))
  {
    hide NoHoles, SlotsOf, OnOffer, Written, WriteStep, Expired, HashDataFile.Stale;
    var _ := store.WriteWord(a, WordData(1, 0, 1), 1);
    var _ := store.WriteWord(b, WordData(3, 0, 1), 1);
    var _ := store.WriteWord(b, WordData(4, 0, 16), 16);
  }

  /** A database with the built-in cleaner that is swept by the same limits: the second word takes
      over the stale record of the first one, before its own. It reads four good messages, and after
      the sweep of that day three again. */
  method SweepBringsBack(store: HashStore, a: string, b: string) returns (held: Option<WordData>, swept: Option<WordData>)
    requires Crowded(store, a, b)
    modifies store, store.dataFile.words.buffer
    ensures held == Some(WordData(4, 0, 16)) && swept == Some(WordData(3, 0, 1))
  {
    hide NoHoles, SlotsOf, OnOffer, Written, WriteStep, Rehashed, Lookup, Expired, Keeps, Sweepable, SweptRight;
    ghost var limits, size := store.dataFile.autoCleaner.value.nodes, store.dataFile.divisor;
    WriteOvertaking(store, a, b);
    SmallestOnOffer(size);
    Dates(limits);
    SweepUndoes(size, WordData(1, 0, 1), WordData(3, 0, 1), WordData(4, 0, 16), Keeps(limits, 16),
      store.dataFile.Stale(1), store.dataFile.Stale(16));
    held := store.ReadWord(b);
    store.SweepOutOldTerms(store.dataFile.autoCleaner.value, 16);
    swept := store.ReadWord(b);
  }

  lemma SmallestOnOffer(size: nat)
    requires OnOffer(size)
    ensures size >= 2
  {
    hide PRIMES_BY_MEG, Prime;
    SmallestPrime();
    var j :| 0 <= j < PRIMES_ARRAY_SIZE && size == Prime(j);
    if j > 0 {
      Ascending(0, j);
    }
  }

  lemma Dates(limits: seq<Limit>)
    requires limits == [Limit(2, 14), Limit(100, 30), Limit(10000, 180), Limit(100000, 360)]
    ensures !Expired(limits, WordData(1, 0, 1), 1) && Expired(limits, WordData(1, 0, 1), 16)
    ensures Keeps(limits, 16)(WordData(3, 0, 1)) && Keeps(limits, 16)(WordData(4, 0, 16))
  {
    hide Keeps, Expired;
    var first, before, after := WordData(1, 0, 1), WordData(3, 0, 1), WordData(4, 0, 16);
    NotExpired(limits, first, 1, 0);
    NotExpired(limits, before, 16, 15);
    NotExpired(limits, after, 16, 0);
    ExpiredFirst(limits, first, 16, 15);
    KeepsMeaning(limits, 16, before);
    KeepsMeaning(limits, 16, after);
  }

  lemma NotExpired(limits: seq<Limit>, w: WordData, today: nat, age: int)
    requires limits == [Limit(2, 14), Limit(100, 30), Limit(10000, 180), Limit(100000, 360)]
    requires w.flags < STAMP_MODULUS && age == today - w.flags <= 30 && (w.Total() > 2 || age <= 14)
    ensures !Expired(limits, w, today)
  {
    Ages(w, today, age);
    forall i | 0 <= i < |limits| ensures !(w.Total() <= limits[i].junkCount && w.Age(today) > limits[i].maxAge) {
      assert i == 0 || limits[i].maxAge >= 30;
    }
  }

  lemma ExpiredFirst(limits: seq<Limit>, w: WordData, today: nat, age: int)
    requires limits != [] && w.flags < STAMP_MODULUS && age == today - w.flags
    requires w.Total() <= limits[0].junkCount && age > limits[0].maxAge
    ensures Expired(limits, w, today)
  {
    Ages(w, today, age);
  }

  lemma Ages(w: WordData, today: nat, age: int)
    requires w.flags < STAMP_MODULUS && age == today - w.flags
    ensures w.Age(today) == age
  {
  }

  /** A record was there at the start or has been written by one of the operations. */
  ghost predicate Known(start: Table, ops: seq<Op>, keyOf: string -> nat, slot: Slot) {
    slot in start || exists j :: 0 <= j < |ops| && Writes(ops[j], keyOf, slot)
  }

  ghost predicate Writes(op: Op, keyOf: string -> nat, slot: Slot) {
    op.Write? && op.word != COUNT_WORD && slot == Slot(keyOf(op.word), Stored(op.counts))
  }

  ghost predicate AllKnown(t: Table, start: Table, ops: seq<Op>, keyOf: string -> nat) {
    forall i :: 0 <= i < |t| && t[i].key != 0 ==> Known(start, ops, keyOf, t[i])
  }

  /** What a key was last given, when since then no other record has been written and no sweep made. */
  ghost function Latest(ops: seq<Op>, answers: seq<Answer>, keyOf: string -> nat, key: nat): Option<WordData>
    requires |ops| == |answers|
  {
    if ops == [] then None
    else
      var n := |ops| - 1;
      if ops[n].Sweep? then None
      else if ops[n].Read? || ops[n].word == COUNT_WORD || answers[n] == Wrote(false) then Latest(ops[..n], answers[..n], keyOf, key)
      else if keyOf(ops[n].word) == key then Some(Stored(ops[n].counts)) else None
  }

  ghost predicate LatestHeld(t: Table, ops: seq<Op>, answers: seq<Answer>, keyOf: string -> nat)
    requires |ops| == |answers|
  {
    forall key :: Latest(ops, answers, keyOf, key).Some? ==> Lookup(t, key) == Latest(ops, answers, keyOf, key)
  }

  /** Each word reads as something that was written under its key, and as what was last written if
      nothing has been written over it. */
  ghost predicate Justified(start: Table, ops: seq<Op>, answers: seq<Answer>, keyOf: string -> nat)
    requires |ops| == |answers|
  {
    forall n :: 0 <= n < |ops| && ops[n].Read? && ops[n].word != COUNT_WORD ==>
      JustifiedRead(start, ops[..n], answers[..n], keyOf, keyOf(ops[n].word), answers[n])
  }

  ghost predicate JustifiedRead(start: Table, ops: seq<Op>, answers: seq<Answer>, keyOf: string -> nat, key: nat, answer: Answer)
    requires |ops| == |answers|
  {
    && answer.ReadAs?
    && (answer.counts.Some? ==> Known(start, ops, keyOf, Slot(key, answer.counts.value)))
    && (Latest(ops, answers, keyOf, key).Some? ==> answer.counts == Latest(ops, answers, keyOf, key))
  }

  /** A slot of the table after an operation was there before, or is the one that it writes. */
  ghost predicate Grown(t: Table, t': Table, op: Op, keyOf: string -> nat) {
    forall i :: 0 <= i < |t'| && t'[i].key != 0 ==> t'[i] in t || Writes(op, keyOf, t'[i])
  }

  lemma WrittenGrows(t: Table, op: Op, keyOf: string -> nat, stale: WordData -> bool)
    requires op.Write? && op.word != COUNT_WORD
    ensures Grown(t, Written(t, keyOf(op.word), Stored(op.counts), stale), op, keyOf)
  {
    hide At, WriteStep, Stored;
    var t' := Written(t, keyOf(op.word), Stored(op.counts), stale);
    forall i | 0 <= i < |t'| && t'[i].key != 0 ensures t'[i] in t || Writes(op, keyOf, t'[i]) {
      assert t'[i] == t[i] || t'[i] == Slot(keyOf(op.word), Stored(op.counts));
    }
  }

  lemma RehashedGrows(t: Table, keep: WordData -> bool, op: Op, keyOf: string -> nat)
    ensures Grown(t, Rehashed(t, keep, |t|), op, keyOf)
  {
    hide Rehashed, Writes;
    forall i | 0 <= i < |t| && Rehashed(t, keep, |t|)[i].key != 0 ensures Rehashed(t, keep, |t|)[i] in t {
      RehashedSlots(t, keep, |t|, i);
    }
  }

  /** One operation on any database. */
  method PerformAny(store: HashStore, op: Op, today: nat) returns (answer: Answer)
    requires store.Valid()
    modifies store, store.dataFile.words.buffer
    ensures store.Valid()
    ensures store.dataFile == old(store.dataFile) || fresh(store.dataFile)
    ensures store.dataFile.words.buffer == old(store.dataFile.words.buffer) || fresh(store.dataFile.words.buffer)
    ensures Grown(old(store.dataFile.Table()), store.dataFile.Table(), op, store.keyOf)
    ensures op.Read? || (op.Write? && (op.word == COUNT_WORD || answer == Wrote(false))) ==>
      store.dataFile.Table() == old(store.dataFile.Table())
    ensures op.Write? && op.word != COUNT_WORD && answer != Wrote(false) ==>
      Lookup(store.dataFile.Table(), store.keyOf(op.word)) == Some(Stored(op.counts))
    ensures op.Read? && op.word != COUNT_WORD ==>
      answer == ReadAs(Lookup(store.dataFile.Table(), store.keyOf(op.word)))
  {
    hide NoHoles, SlotsOf, OnOffer, Written, WriteStep, Rehashed, Keeps, Lookup, Stored, Writes, HashDataFile.Stale, Sweepable, SweptRight;
    ghost var t := store.dataFile.Table();
    match op
    case Write(word, counts) =>
      ghost var stale := store.dataFile.Stale(today);
      var r := store.WriteWord(word, counts, today);
      answer := Wrote(r.Success?);
      if word != COUNT_WORD {
        WrittenGrows(t, op, store.keyOf, stale);
        WrittenOrNot(t, store.keyOf(word), Stored(counts), stale);
      }
    case Read(word) =>
      var counts := store.ReadWord(word);
      answer := ReadAs(counts);
    case Sweep(limits, day) =>
      var cleaner := new CleanupManager();
      cleaner.nodes := limits;
      RehashedGrows(t, Keeps(limits, day), op, store.keyOf);
      store.SweepOutOldTerms(cleaner, day);
      answer := Swept;
  }

  lemma WrittenOrNot(t: Table, key: nat, data: WordData, stale: WordData -> bool)
    requires key != 0
    ensures WriteStep(t, key, stale, 0) < |t| ==> Lookup(Written(t, key, data, stale), key) == Some(data)
    ensures WriteStep(t, key, stale, 0) == |t| ==> Written(t, key, data, stale) == t
  {
    if WriteStep(t, key, stale, 0) < |t| {
      WrittenLookup(t, key, data, stale, 0);
    }
  }

  lemma StepKnown(t: Table, t': Table, start: Table, ops: seq<Op>, op: Op, keyOf: string -> nat)
    requires AllKnown(t, start, ops, keyOf) && Grown(t, t', op, keyOf)
    ensures AllKnown(t', start, ops + [op], keyOf)
  {
    hide Writes;
    var ops' := ops + [op];
    forall i | 0 <= i < |t'| && t'[i].key != 0 ensures Known(start, ops', keyOf, t'[i]) {
      if t'[i] in t && t'[i] !in start {
        var k :| 0 <= k < |t| && t[k] == t'[i];
        var j :| 0 <= j < |ops| && Writes(ops[j], keyOf, t'[i]);
        assert ops'[j] == ops[j];
      } else if t'[i] !in start {
        assert Writes(ops'[|ops|], keyOf, t'[i]);
      }
    }
  }

  lemma StepLatest(t: Table, t': Table, ops: seq<Op>, op: Op, answers: seq<Answer>, answer: Answer, keyOf: string -> nat)
    requires |ops| == |answers| && LatestHeld(t, ops, answers, keyOf)
    requires op.Read? || (op.Write? && (op.word == COUNT_WORD || answer == Wrote(false))) ==> t' == t
    requires op.Write? && op.word != COUNT_WORD && answer != Wrote(false) ==> Lookup(t', keyOf(op.word)) == Some(Stored(op.counts))
    ensures LatestHeld(t', ops + [op], answers + [answer], keyOf)
  {
    hide Lookup, Stored;
    assert (ops + [op])[..|ops|] == ops && (answers + [answer])[..|ops|] == answers;
  }

  lemma StepJustified(t: Table, start: Table, ops: seq<Op>, op: Op, answers: seq<Answer>, answer: Answer, keyOf: string -> nat)
    requires |ops| == |answers| && Justified(start, ops, answers, keyOf) && forall w :: keyOf(w) > 0
    requires AllKnown(t, start, ops, keyOf) && LatestHeld(t, ops, answers, keyOf)
    requires op.Read? && op.word != COUNT_WORD ==> answer == ReadAs(Lookup(t, keyOf(op.word)))
    ensures Justified(start, ops + [op], answers + [answer], keyOf)
  {
    hide Lookup, Known, Latest;
    var ops', answers' := ops + [op], answers + [answer];
    forall n | 0 <= n < |ops'| && ops'[n].Read? && ops'[n].word != COUNT_WORD
      ensures JustifiedRead(start, ops'[..n], answers'[..n], keyOf, keyOf(ops'[n].word), answers'[n])
    {
      if n < |ops| {
        assert ops'[..n] == ops[..n] && answers'[..n] == answers[..n];
      } else {
        assert ops'[..n] == ops && answers'[..n] == answers;
        if Lookup(t, keyOf(op.word)).Some? {
          FoundKnown(t, start, ops, keyOf, keyOf(op.word));
        }
      }
    }
  }

  lemma FoundKnown(t: Table, start: Table, ops: seq<Op>, keyOf: string -> nat, key: nat)
    requires AllKnown(t, start, ops, keyOf) && key != 0 && Lookup(t, key).Some?
    ensures Known(start, ops, keyOf, Slot(key, Lookup(t, key).value))
  {
    hide Known, Lookup;
    LookupStarts(t, key);
    LookupFinds(t, key, 0);
  }

  /** Every run on any database, with a cleaner or without, on whatever days: a word reads as nothing
      or as what was once written under its key, and right after a write as just that. */
  method RunAny(store: HashStore, ops: seq<Op>, days: seq<nat>) returns (answers: seq<Answer>)
    requires store.Valid() && |days| == |ops|
    modifies store, store.dataFile.words.buffer
    ensures store.Valid() && |answers| == |ops|
    ensures Justified(old(store.dataFile.Table()), ops, answers, store.keyOf)
    ensures AllKnown(store.dataFile.Table(), old(store.dataFile.Table()), ops, store.keyOf)
  {
    hide AllKnown, LatestHeld, Justified, Lookup, Grown, NoHoles, OnOffer, SlotsOf;
    answers := [];
    ghost var start := store.dataFile.Table();
    RunBegins(start, store.keyOf);
    KeysPositive(store);
    for i := 0 to |ops|
      invariant store.Valid() && |answers| == i
      invariant store.dataFile == old(store.dataFile) || fresh(store.dataFile)
      invariant store.dataFile.words.buffer == old(store.dataFile.words.buffer) || fresh(store.dataFile.words.buffer)
      invariant AllKnown(store.dataFile.Table(), start, ops[..i], store.keyOf)
      invariant LatestHeld(store.dataFile.Table(), ops[..i], answers, store.keyOf)
      invariant Justified(start, ops[..i], answers, store.keyOf)
    {
      ghost var t := store.dataFile.Table();
      var answer := PerformAny(store, ops[i], days[i]);
      assert ops[..i + 1] == ops[..i] + [ops[i]];
      StepJustified(t, start, ops[..i], ops[i], answers, answer, store.keyOf);
      StepKnown(t, store.dataFile.Table(), start, ops[..i], ops[i], store.keyOf);
      StepLatest(t, store.dataFile.Table(), ops[..i], ops[i], answers, answer, store.keyOf);
      answers := answers + [answer];
    }
    assert ops[..|ops|] == ops;
  }

  lemma RunBegins(start: Table, keyOf: string -> nat)
    ensures AllKnown(start, start, [], keyOf) && LatestHeld(start, [], [], keyOf) && Justified(start, [], [], keyOf)
  {
  }

  lemma KeysPositive(store: HashStore)
    requires store.Valid()
    ensures forall w :: store.keyOf(w) > 0
  {
  }
}
