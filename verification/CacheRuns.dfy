/** Runs of a client over a store, with and without the cache in between. */
module CacheRuns {
  import opened Options
  import opened WordCounts
  import opened Stores
  import opened LruCaches
  import opened CacheViews
  import opened CachedStores

  datatype Op =
    | Read(word: string)
    | Write(word: string, counts: WordData)
    | Flush
    | Sweep(limits: seq<Limit>, today: nat)

  /** The counts a reader sees; an absent record reads as zeros. */
  datatype Seen = Seen(good: int, spam: int)

  function SeenAs(counts: Option<WordData>): Seen {
    if counts.Some? then Seen(counts.value.good, counts.value.spam) else Seen(0, 0)
  }

  function SeenAt(private: Words, shared: Words, word: string): Seen {
    match Overlaid(private, shared, word)
    case Some(r) => Seen(r.counts.good, r.counts.spam)
    case None => Seen(0, 0)
  }

  /** No counts are negative. */
  predicate Admissible(op: Op) {
    op.Write? ==> op.counts.NonNegative()
  }

  ghost function Step(private: Words, op: Op): Words {
    match op
    case Write(w, counts) => Put(private, w, counts)
    case Sweep(limits, today) => Swept(private, limits, today)
    case _ => private
  }

  /** The private records after the operations, applied to the store itself. */
  ghost function After(private: Words, ops: seq<Op>): Words {
    if ops == [] then private else Step(After(private, ops[..|ops| - 1]), ops[|ops| - 1])
  }

  /** What the reads among the operations see on the store itself. */
  ghost function Readings(private: Words, shared: Words, ops: seq<Op>): seq<Seen> {
    if ops == [] then []
    else
      var n := |ops| - 1;
      Readings(private, shared, ops[..n]) +
      if ops[n].Read? then [SeenAt(After(private, ops[..n]), shared, ops[n].word)] else []
  }

  /** The records seen through the cache are those of the store, or a redating of a shared record
      has been dropped: the store has it as a private one with the same counts. */
  ghost predicate Same(p: Words, q: Words, shared: Words) {
    forall w :: SameAt(p, q, shared, w)
  }

  ghost predicate SameAt(p: Words, q: Words, shared: Words, w: string) {
    if w in p then w in q && q[w] == p[w]
    else w in q ==> w in shared && shared[w].HasSameCounts(q[w])
  }

  /** Such records show the same counts, and over an empty shared side they are equal. */
  lemma SameSeen(p: Words, q: Words, shared: Words)
    requires Same(p, q, shared)
    ensures forall w :: SeenAt(p, shared, w) == SeenAt(q, shared, w)
    ensures shared == map[] ==> p == q
  {
    forall w ensures SeenAt(p, shared, w) == SeenAt(q, shared, w) {
      assert SameAt(p, q, shared, w);
    }
    if shared == map[] {
      forall w ensures Found(p, w) == Found(q, w) {
        assert SameAt(p, q, shared, w);
      }
      SameFound(p, q);
    }
  }

  lemma SamePut(p: Words, q: Words, shared: Words, word: string, counts: WordData)
    requires Same(p, q, shared)
    ensures Same(Put(p, word, counts), Put(q, word, counts), shared)
    ensures OnlyRedates(p, shared, word, counts) ==> Same(p, Put(q, word, counts), shared)
  {
    forall w
      ensures SameAt(Put(p, word, counts), Put(q, word, counts), shared, w)
      ensures OnlyRedates(p, shared, word, counts) ==> SameAt(p, Put(q, word, counts), shared, w)
    {
      assert SameAt(p, q, shared, w);
    }
  }

  lemma SameSwept(p: Words, q: Words, shared: Words, limits: seq<Limit>, today: nat)
    requires Same(p, q, shared)
    ensures Same(Swept(p, limits, today), Swept(q, limits, today), shared)
  {
    hide Doomed;
    forall w ensures SameAt(Swept(p, limits, today), Swept(q, limits, today), shared, w) {
      assert SameAt(p, q, shared, w);
    }
  }

  /** A record without counts has been written to a word of the shared side. */
  ghost predicate Emptied(shared: Words, ops: seq<Op>, word: string) {
    word in shared && exists i :: 0 <= i < |ops| && ops[i].Write? && ops[i].word == word && ops[i].counts.Total() == 0
  }

  /** Each reading is the one of the store, or shows zeros for a word whose shared record was hidden
      at the start or may have been hidden by an earlier write. */
  ghost predicate Transparent(private: Words, shared: Words, hidden: set<string>, ops: seq<Op>, readings: seq<Seen>) {
    if ops == [] then readings == []
    else
      var n, m := |ops| - 1, |readings| - 1;
      if ops[n].Read? then
        && m >= 0
        && Transparent(private, shared, hidden, ops[..n], readings[..m])
        && (readings[m] == SeenAt(After(private, ops[..n]), shared, ops[n].word)
            || (readings[m] == Seen(0, 0) && (ops[n].word in hidden || Emptied(shared, ops[..n], ops[n].word))))
      else Transparent(private, shared, hidden, ops[..n], readings)
  }

  function HiddenWords(c: Contents, shared: Words): set<string> {
    set w | w in c && Hides(c, shared, w)
  }

  /** Where nothing is hidden, and no write hides anything, every reading is the one of the store. */
  lemma {:induction false} TransparentReads(private: Words, shared: Words, ops: seq<Op>, readings: seq<Seen>)
    requires Transparent(private, shared, {}, ops, readings)
    requires forall w :: !Emptied(shared, ops, w)
    ensures readings == Readings(private, shared, ops)
  {
    hide SeenAt, After;
    if ops != [] {
      var n, m := |ops| - 1, |readings| - 1;
      forall w ensures !Emptied(shared, ops[..n], w) {
        EmptiedGrows(shared, ops, w);
      }
      TransparentReads(private, shared, ops[..n], if ops[n].Read? then readings[..m] else readings);
      if ops[n].Read? {
        assert readings == readings[..m] + [readings[m]];
      }
    }
  }

  lemma EmptiedGrows(shared: Words, ops: seq<Op>, word: string)
    requires ops != []
    ensures Emptied(shared, ops[..|ops| - 1], word) ==> Emptied(shared, ops, word)
    ensures ops[|ops| - 1].Write? && ops[|ops| - 1].word == word && ops[|ops| - 1].counts.Total() == 0 && word in shared
      ==> Emptied(shared, ops, word)
  {
    var n := |ops| - 1;
    if Emptied(shared, ops[..n], word) {
      var i :| 0 <= i < n && ops[..n][i].Write? && ops[..n][i].word == word && ops[..n][i].counts.Total() == 0;
      assert ops[i] == ops[..n][i];
    }
  }

  /** Every hidden record was hidden at the start, or may have been hidden by a write. */
  ghost predicate Explained(c: Contents, shared: Words, hidden: set<string>, ops: seq<Op>) {
    forall w :: Hides(c, shared, w) ==> w in hidden || Emptied(shared, ops, w)
  }

  lemma RunStarts(start: Words, shared: Words, hidden: set<string>, c: Contents)
    requires hidden == HiddenWords(c, shared)
    ensures Transparent(start, shared, hidden, [], []) && Explained(c, shared, hidden, [])
    ensures Same(start, After(start, []), shared)
  {
  }

  lemma AfterNext(start: Words, ops: seq<Op>, op: Op)
    ensures After(start, ops + [op]) == Step(After(start, ops), op)
    ensures op.Read? || op.Flush? ==> After(start, ops + [op]) == After(start, ops)
    ensures op.Write? ==> After(start, ops + [op]) == Put(After(start, ops), op.word, op.counts)
    ensures op.Sweep? ==> After(start, ops + [op]) == Swept(After(start, ops), op.limits, op.today)
  {
    assert (ops + [op])[..|ops|] == ops;
  }

  lemma TransparentRead(start: Words, shared: Words, hidden: set<string>, ops: seq<Op>, w: string, readings: seq<Seen>, seen: Seen)
    requires Transparent(start, shared, hidden, ops, readings)
    requires seen == SeenAt(After(start, ops), shared, w) || (seen == Seen(0, 0) && (w in hidden || Emptied(shared, ops, w)))
    ensures Transparent(start, shared, hidden, ops + [Read(w)], readings + [seen])
  {
    hide After, Emptied, SeenAt;
    assert (ops + [Read(w)])[..|ops|] == ops && (readings + [seen])[..|readings|] == readings;
  }

  lemma TransparentOther(start: Words, shared: Words, hidden: set<string>, ops: seq<Op>, op: Op, readings: seq<Seen>)
    requires Transparent(start, shared, hidden, ops, readings) && !op.Read?
    ensures Transparent(start, shared, hidden, ops + [op], readings)
  {
    hide After, Emptied, SeenAt;
    assert (ops + [op])[..|ops|] == ops;
  }

  /** What a read answers is what the store shows, or zeros for a record that is hidden. */
  lemma ReadExplained(c: Contents, private: Words, direct: Words, shared: Words, hidden: set<string>, ops: seq<Op>,
      w: string, counts: Option<WordData>)
    requires Same(private, direct, shared) && Explained(c, shared, hidden, ops)
    requires if Hides(c, shared, w) then counts.Some? && counts.value.HasSameCounts(ZERO)
      else Answers(counts, Overlaid(private, shared, w))
    ensures SeenAs(counts) == SeenAt(direct, shared, w)
      || (SeenAs(counts) == Seen(0, 0) && (w in hidden || Emptied(shared, ops, w)))
  {
    hide Same, Emptied;
    SameSeen(private, direct, shared);
  }

  /** An operation hides no more than the record of the word that it empties. */
  lemma ExplainedNext(c: Contents, c': Contents, shared: Words, hidden: set<string>, ops: seq<Op>, op: Op, word: string)
    requires Explained(c, shared, hidden, ops) && HidesLess(c', c, shared, word)
    requires Hides(c', shared, word) ==>
      Hides(c, shared, word) || (op.Write? && op.word == word && op.counts.Total() == 0 && word in shared)
    ensures Explained(c', shared, hidden, ops + [op])
  {
    hide Emptied, Hides;
    forall w | Hides(c', shared, w) ensures w in hidden || Emptied(shared, ops + [op], w) {
      EmptiedGrows(shared, ops + [op], w);
      assert (ops + [op])[..|ops|] == ops;
    }
  }

  lemma ExplainedNone(shared: Words, hidden: set<string>, ops: seq<Op>)
    ensures Explained(map[], shared, hidden, ops)
  {
  }

  /** Every run through the cache, over any store: what is left is the same, and each reading is the
      one of the same run on the store itself, except that a word of the shared side may read as
      zeros once a record without counts has been written to it. */
  method RunCached(store: CachedStore, ops: seq<Op>) returns (readings: seq<Seen>)
    requires store.Valid()
    requires forall i :: 0 <= i < |ops| ==> Admissible(ops[i])
    modifies store.cache, store.db.privateDB
    ensures store.Valid()
    ensures Same(store.Private(), After(old(store.Private()), ops), store.db.sharedDB.words)
    ensures
      var shared, hidden := store.db.sharedDB.words, HiddenWords(old(store.cache.index), store.db.sharedDB.words);
      && Transparent(old(store.Private()), shared, hidden, ops, readings)
      && (hidden == {} && (forall w :: !Emptied(shared, ops, w)) ==> readings == Readings(old(store.Private()), shared, ops))
  {
    hide Spares, After, Step, Same, Transparent, Emptied, Explained, Hides, Effective, Coherent, Put, Overlaid, OnlyRedates, SeenAt, Answers;
    readings := [];
    ghost var start, shared := store.Private(), store.db.sharedDB.words;
    ghost var hidden := HiddenWords(store.cache.index, shared);
    RunStarts(start, shared, hidden, store.cache.index);
    for i := 0 to |ops|
      invariant store.Valid() && store.db.sharedDB.words == shared
      invariant Transparent(start, shared, hidden, ops[..i], readings)
      invariant Explained(store.cache.index, shared, hidden, ops[..i])
      invariant Same(store.Private(), After(start, ops[..i]), shared)
    {
      ghost var before, private, direct := store.cache.index, store.Private(), After(start, ops[..i]);
      assert ops[..i + 1] == ops[..i] + [ops[i]];
      AfterNext(start, ops[..i], ops[i]);
      match ops[i]
      case Read(w) =>
        var counts := store.ReadWord(w);
        ReadExplained(before, private, direct, shared, hidden, ops[..i], w, counts);
        TransparentRead(start, shared, hidden, ops[..i], w, readings, SeenAs(counts));
        readings := readings + [SeenAs(counts)];
        ExplainedNext(before, store.cache.index, shared, hidden, ops[..i], ops[i], w);
      case Write(w, counts) =>
        SamePut(private, direct, shared, w, counts);
        store.WriteWord(w, counts);
        TransparentOther(start, shared, hidden, ops[..i], ops[i], readings);
        ExplainedNext(before, store.cache.index, shared, hidden, ops[..i], ops[i], w);
      case Flush =>
        store.Flush();
        SameValuesHide(store.cache.index, before, shared);
        TransparentOther(start, shared, hidden, ops[..i], ops[i], readings);
        ExplainedNext(before, store.cache.index, shared, hidden, ops[..i], ops[i], "");
      case Sweep(limits, today) =>
        SameSwept(private, direct, shared, limits, today);
        var cleaner := new CleanupManager();
        cleaner.nodes := limits;
        store.SweepOutOldTerms(cleaner, today);
        TransparentOther(start, shared, hidden, ops[..i], ops[i], readings);
        ExplainedNone(shared, hidden, ops[..i + 1]);
    }
    assert ops[..|ops|] == ops;
    if hidden == {} && forall w :: !Emptied(shared, ops, w) {
      TransparentReads(start, shared, ops, readings);
    }
  }

  /** The same run on the store itself. */
  method RunDirect(store: DualStore, ops: seq<Op>) returns (readings: seq<Seen>)
    requires store.Valid()
    requires forall i :: 0 <= i < |ops| ==> Admissible(ops[i])
    modifies store.privateDB`words
    ensures store.Valid()
    ensures readings == Readings(old(store.privateDB.words), store.sharedDB.words, ops)
    ensures store.privateDB.words == After(old(store.privateDB.words), ops)
  {
    readings := [];
    ghost var start, shared := store.privateDB.words, store.sharedDB.words;
    for i := 0 to |ops|
      invariant store.Valid() && store.sharedDB.words == shared
      invariant readings == Readings(start, shared, ops[..i])
      invariant store.privateDB.words == After(start, ops[..i])
    {
      assert ops[..i + 1][..i] == ops[..i];
      match ops[i]
      case Read(w) =>
        var reading := store.ReadWord(w);
        readings := readings + [if reading.Some? then Seen(reading.value.counts.good, reading.value.counts.spam) else Seen(0, 0)];
      case Write(w, counts) =>
        store.WriteWord(w, counts);
      case Flush =>
      case Sweep(limits, today) =>
        var cleaner := new CleanupManager();
        cleaner.nodes := limits;
        store.SweepOutOldTerms(cleaner, today);
    }
    assert ops[..|ops|] == ops;
  }

  /** What is read right after a write is what the store itself would show, if and only if the write
      has counts, or the shared side lacks the word, or the word is not cached. Otherwise the cache
      shows zeros, and the store its shared record. */
  method WriteThenRead(store: CachedStore, word: string, counts: WordData) returns (seen: Seen)
    requires store.Valid() && counts.NonNegative()
    modifies store.cache, store.db.privateDB
    ensures store.Valid()
    ensures
      var shared := store.db.sharedDB.words;
      var direct := SeenAt(Put(old(store.Private()), word, counts), shared, word);
      if counts.Total() > 0 || word !in shared || !store.db.CanCacheTerm(word) then seen == direct
      else seen == Seen(0, 0) && direct == Seen(shared[word].good, shared[word].spam) && seen != direct
  {
    hide Effective, Coherent, Lists, LatestFirst;
    ghost var private, shared := store.Private(), store.db.sharedDB.words;
    assert word in shared ==> shared[word].Total() > 0;
    store.WriteWord(word, counts);
    var read := store.ReadWord(word);
    seen := SeenAs(read);
  }
}
