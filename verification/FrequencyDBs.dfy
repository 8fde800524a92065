/** The bookkeeping of FrequencyDB.cc over a cached store. */
module FrequencyDBs {
  import opened Options
  import opened WordCounts
  import opened Stores
  import opened CacheViews
  import opened CachedStores
  import opened Ledgers

  /** Only the account of one word, in one class, has moved, and by delta. */
  ghost predicate Moved(before: Words, after: Words, word: string, isSpam: bool, delta: int) {
    forall w, b :: Count(after, w, b) == Count(before, w, b) + if w == word && b == isSpam then delta else 0
  }

  /** The counts of the tokens have been added factor times to one class, each stopped at zero. */
  ghost predicate Counted(before: Words, after: Words, tokens: seq<Token>, isSpam: bool, factor: int) {
    forall w, b :: Count(after, w, b) ==
      if b == isSpam then Clamp(Count(before, w, b) + factor * TokenCount(tokens, w)) else Count(before, w, b)
  }

  /** Every count a reader sees is unchanged, and no record has become private that was only shared. */
  ghost predicate Redated(before: Words, after: Words, shared: Words, db: DualStore) {
    && (forall w, b :: Count(shared + after, w, b) == Count(shared + before, w, b))
    && (forall w :: w in shared && w !in before && db.CanCacheTerm(w) ==> w !in after)
  }

  /** A word that can be read has its record redated; the record of a cacheable word that is only
      shared is left as it is. */
  function Touched(private: Words, shared: Words, db: DualStore, word: string, today: nat): Words
    requires today < STAMP_MODULUS
  {
    if word in private then private[word := private[word].AdjustDate(today)]
    else if word in shared && !db.CanCacheTerm(word) then private[word := shared[word].AdjustDate(today)]
    else private
  }

  function TouchedAll(private: Words, shared: Words, db: DualStore, tokens: seq<Token>, today: nat): Words
    requires today < STAMP_MODULUS
  {
    if tokens == [] then private
    else
      var n := |tokens| - 1;
      Touched(TouchedAll(private, shared, db, tokens[..n], today), shared, db, tokens[n].word, today)
  }

  /** The record of one word, if it has one, bears the date, and every other record is as it was. */
  ghost predicate Dated(before: Words, after: Words, word: string, today: nat) {
    && (word in after ==> after[word].TimeStamp() == today)
    && after - {word} == before - {word}
  }

  /** The records of the terms bear the date. */
  ghost predicate AllDated(words: Words, tokens: seq<Token>, today: nat) {
    forall i :: 0 <= i < |tokens| && tokens[i].word in words ==> words[tokens[i].word].TimeStamp() == today
  }

  lemma DatedNone(words: Words, today: nat)
    ensures AllDated(words, [], today)
  {
  }

  /** Dating one more record keeps those dated that were. */
  lemma DatedMore(before: Words, after: Words, tokens: seq<Token>, word: string, today: nat)
    requires AllDated(before, tokens, today) && Dated(before, after, word, today)
    ensures AllDated(after, tokens, today)
    ensures word in after ==> after[word].TimeStamp() == today
  {
    forall w | w in after && w != word ensures w in before && before[w] == after[w] {
      assert w in after - {word};
    }
  }

  lemma DatedToken(before: Words, after: Words, tokens: seq<Token>, i: nat, today: nat)
    requires i < |tokens| && AllDated(before, tokens[..i], today) && Dated(before, after, tokens[i].word, today)
    ensures AllDated(after, tokens[..i + 1], today)
  {
    DatedMore(before, after, tokens[..i], tokens[i].word, today);
    assert tokens[..i + 1] == tokens[..i] + [tokens[i]];
  }

  lemma CountedMore(p0: Words, p1: Words, p2: Words, tokens: seq<Token>, i: nat, isSpam: bool, factor: int)
    requires i < |tokens| && forall w, b :: Count(p0, w, b) >= 0
    requires Counted(p0, p1, tokens[..i], isSpam, factor)
    requires
      var word, count := tokens[i].word, Count(p1, tokens[i].word, isSpam);
      Moved(p1, p2, word, isSpam, Clamp(count + factor * tokens[i].count) - count)
    ensures Counted(p0, p2, tokens[..i + 1], isSpam, factor)
  {
    hide TokenCount, Count, Clamp;
    forall w, b ensures Count(p2, w, b) ==
      if b == isSpam then Clamp(Count(p0, w, b) + factor * TokenCount(tokens[..i + 1], w)) else Count(p0, w, b)
    {
      TokensMore(tokens, i, w);
      ClampTwice(Count(p0, w, b), factor, TokenCount(tokens[..i], w), tokens[i].count);
      assert Count(p1, w, b) ==
        if b == isSpam then Clamp(Count(p0, w, b) + factor * TokenCount(tokens[..i], w)) else Count(p0, w, b);
    }
  }

  /** Changes of one sign can be stopped at zero one after the other. */
  lemma ClampTwice(count: int, factor: int, part: nat, more: nat)
    requires count >= 0
    ensures Clamp(Clamp(count + factor * part) + factor * more) == Clamp(count + factor * (part + more))
  {
    Distribute(factor, part, more);
    SameSign(factor, part);
    SameSign(factor, more);
  }

  lemma SameSign(factor: int, n: nat)
    ensures factor >= 0 ==> factor * n >= 0
    ensures factor <= 0 ==> factor * n <= 0
  {
  }

  lemma TokensMore(tokens: seq<Token>, i: nat, w: string)
    requires i < |tokens|
    ensures TokenCount(tokens[..i + 1], w) == TokenCount(tokens[..i], w) + if tokens[i].word == w then tokens[i].count else 0
  {
    assert tokens[..i + 1][..i] == tokens[..i];
  }

  lemma Distribute(factor: int, n: int, more: int)
    ensures factor * (n + more) == factor * n + factor * more
  {
  }

  /** The count that a reader of a word gets, in one class. A hidden shared record reads as zeros. */
  function Shown(index: Contents, private: Words, shared: Words, word: string, isSpam: bool): int {
    if Hides(index, shared, word) then 0 else Count(shared + private, word, isSpam)
  }

  lemma AnswerShown(index: Contents, found: Option<WordData>, private: Words, shared: Words, word: string)
    requires if Hides(index, shared, word) then found.Some? && found.value.HasSameCounts(ZERO)
      else Answers(found, Overlaid(private, shared, word))
    ensures var counts := if found.Some? then found.value else ZERO;
      counts.good == Shown(index, private, shared, word, false) && counts.spam == Shown(index, private, shared, word, true)
  {
  }

  /** Over a single file the count is that of the private record. */
  lemma ShownPlain(index: Contents, private: Words, word: string, isSpam: bool)
    ensures Shown(index, private, map[], word, isSpam) == Count(private, word, isSpam)
  {
  }

  /** One word has been given two counts: it shows them, or has no private record when both are
      zero. Every other record is as it was. */
  ghost predicate Given(before: Words, after: Words, shared: Words, word: string, good: int, spam: int) {
    && after - {word} == before - {word}
    && if good + spam == 0 then word !in after
       else Count(shared + after, word, false) == good && Count(shared + after, word, true) == spam
  }

  /** A write gives the counts that are written, and so does one that is dropped as a redating. */
  lemma GivenPut(private: Words, shared: Words, word: string, counts: WordData, today: nat)
    requires counts.NonNegative() && counts.TimeStamp() == today && (word in shared ==> shared[word].Total() > 0)
    ensures
      var after := Put(private, word, counts);
      Given(private, after, shared, word, counts.good, counts.spam) && Dated(private, after, word, today)
    ensures OnlyRedates(private, shared, word, counts) ==>
      Given(private, private, shared, word, counts.good, counts.spam) && Dated(private, private, word, today)
  {
  }

  /** The two counts of one word have been added to, each stopped at zero, and no other count has changed. */
  ghost predicate Added(before: Words, after: Words, word: string, good: int, spam: int) {
    forall w, b :: Count(after, w, b) ==
      if w == word then Clamp(Count(before, w, b) + if b then spam else good) else Count(before, w, b)
  }

  lemma GivenAdds(before: Words, after: Words, word: string, good: int, spam: int)
    requires Given(before, after, map[], word, Clamp(Count(before, word, false) + good), Clamp(Count(before, word, true) + spam))
    ensures Added(before, after, word, good, spam)
  {
    assert map[] + after == after;
    forall w, b | w != word ensures Count(after, w, b) == Count(before, w, b) {
      assert w in after <==> w in after - {word};
      assert w in before <==> w in before - {word};
    }
  }

  /** Adding to one count is moving it, by as much as it can bear. */
  lemma AddedMoves(before: Words, after: Words, word: string, isSpam: bool, delta: int)
    requires Added(before, after, word, if isSpam then 0 else delta, if isSpam then delta else 0)
    requires forall b :: Count(before, word, b) >= 0
    ensures
      var count := Count(before, word, isSpam);
      Moved(before, after, word, isSpam, Clamp(count + delta) - count)
  {
    hide Count;
  }

  lemma AdjustedCounts(counts: WordData, good: int, spam: int, today: nat)
    requires today < STAMP_MODULUS
    ensures
      var changed := counts.AdjustGood(good).AdjustSpam(spam).AdjustDate(today);
      changed.NonNegative() && changed.TimeStamp() == today
      && changed.good == Clamp(counts.good + good) && changed.spam == Clamp(counts.spam + spam)
  {
  }

  function Clamp(n: int): nat {
    if n < 0 then 0 else n
  }

  class FrequencyDB {
    const db: CachedStore
    const today: nat
    ghost const book: Book
    ghost var ledger: Ledger
    ghost var clamps: nat  // how often a count would have become negative

    /** The store behind the cache is a plain one and holds what the ledger calls for, but for terms
        that have been swept out. */
    ghost predicate Filed()
      reads this, db.cache, db.db.sharedDB, db.db.privateDB
    {
      && Plain()
      && Backed(db.Private(), ledger, book)
    }

    /** Nothing has been swept out. */
    ghost predicate Valid()
      reads this, db.cache, db.db.sharedDB, db.db.privateDB
    {
      && Plain()
      && Balanced(db.Private(), ledger, book)
    }

    ghost predicate Usable()
      reads db.cache, db.db.sharedDB, db.db.privateDB
    {
      db.Valid() && 0 < today < STAMP_MODULUS
    }

    ghost predicate Plain()
      reads db.cache, db.db.sharedDB, db.db.privateDB
    {
      Usable() && db.db.sharedDB.words == map[]
    }

    constructor (db: CachedStore, today: nat, ghost book: Book)
      requires db.Valid() && db.Private() == map[] && db.db.sharedDB.words == map[] && 0 < today < STAMP_MODULUS
      ensures Valid() && Filed() && ledger == map[] && clamps == 0
      ensures this.db == db && this.today == today && this.book == book
    {
      this.db := db;
      this.today := today;
      this.book := book;
      ledger := map[];
      clamps := 0;
      new;
      ValidFiled();
    }

    lemma ValidFiled()
      requires Valid()
      ensures Filed()
    {
      BalancedBacked(db.Private(), ledger, book);
    }

    /** What a reader of the database gets, whether its store is a single file or an overlay. */
    ghost function Reads(word: string, isSpam: bool): int
      reads db.cache, db.db.sharedDB, db.db.privateDB
    {
      Shown(db.cache.index, db.Private(), db.db.sharedDB.words, word, isSpam)
    }

    /** Adds to both counts of a word, clamping each at zero, and dates its record. */
    method AddWord(word: string, good: int, spam: int)
      requires Usable()
      modifies db.cache, db.db.privateDB, this`clamps
      ensures Usable() && db.db.sharedDB.words == old(db.db.sharedDB.words)
      ensures Given(old(db.Private()), db.Private(), db.db.sharedDB.words, word,
        Clamp(old(Reads(word, false)) + good), Clamp(old(Reads(word, true)) + spam))
      ensures Dated(old(db.Private()), db.Private(), word, today)
      ensures old(Reads(word, false)) + good >= 0 && old(Reads(word, true)) + spam >= 0 ==> clamps == old(clamps)
    {
      hide Effective, Coherent, Answers, Put, Shown, Given, Overlaid, Dated, Hides;
      hide WordData.AdjustGood, WordData.AdjustSpam, WordData.AdjustDate, WordData.NonNegative, WordData.TimeStamp, WordData.Total;
      hide CachedStore.Consistent, OnlyRedates;
      ghost var before, shared := db.Private(), db.db.sharedDB.words;
      var found := db.ReadWord(word);
      var counts := if found.Some? then found.value else ZERO;
      AnswerShown(old(db.cache.index), found, before, shared, word);
      AdjustedCounts(counts, good, spam, today);
      if counts.good + good < 0 || counts.spam + spam < 0 {
        clamps := clamps + 1;
      }
      counts := counts.AdjustGood(good);
      counts := counts.AdjustSpam(spam);
      counts := counts.AdjustDate(today);
      SharedSound(db, word);
      GivenPut(before, shared, word, counts, today);
      db.WriteWord(word, counts);
    }

    /** Moves one count by delta; a count that would become negative stops at zero. */
    method AdjustWordCounts(word: string, delta: int, isSpam: bool)
      requires Usable()
      modifies db.cache, db.db.privateDB, this`clamps
      ensures Usable() && db.db.sharedDB.words == old(db.db.sharedDB.words)
      ensures Given(old(db.Private()), db.Private(), db.db.sharedDB.words, word,
        Clamp(old(Reads(word, false)) + if isSpam then 0 else delta), Clamp(old(Reads(word, true)) + if isSpam then delta else 0))
      ensures Dated(old(db.Private()), db.Private(), word, today)
      ensures old(Plain()) ==>
        var count := Count(old(db.Private()), word, isSpam);
        && Moved(old(db.Private()), db.Private(), word, isSpam, Clamp(count + delta) - count)
        && (count + delta >= 0 ==> clamps == old(clamps))
    {
      hide Effective, Coherent, Count, Shown, Given, Dated, Added, Moved;
      ghost var before := db.Private();
      CountNonNegative(db, word);
      ShownNonNegative(db, word);
      if db.db.sharedDB.words == map[] {
        ShownPlain(db.cache.index, before, word, false);
        ShownPlain(db.cache.index, before, word, true);
      }
      if isSpam {
        AddWord(word, 0, delta);
      } else {
        AddWord(word, delta, 0);
      }
      if db.db.sharedDB.words == map[] {
        GivenAdds(before, db.Private(), word, if isSpam then 0 else delta, if isSpam then delta else 0);
        AddedMoves(before, db.Private(), word, isSpam, delta);
      }
    }

    method GetWordCounts(word: string) returns (good: int, spam: int)
      requires Usable()
      modifies db.cache
      ensures Usable() && db.db.sharedDB.words == old(db.db.sharedDB.words) && db.Private() == old(db.Private())
      ensures good == old(Reads(word, false)) && spam == old(Reads(word, true))
      ensures Plain() ==> good == Count(db.Private(), word, false) && spam == Count(db.Private(), word, true)
    {
      hide Effective, Coherent, Answers, Count, Shown, Overlaid, Hides;
      ghost var private, shared := db.Private(), db.db.sharedDB.words;
      var found := db.ReadWord(word);
      var counts := if found.Some? then found.value else ZERO;
      AnswerShown(old(db.cache.index), found, private, shared, word);
      ShownPlain(old(db.cache.index), private, word, false);
      ShownPlain(old(db.cache.index), private, word, true);
      return counts.good, counts.spam;
    }

    /** The copies of a message in the database, and the class they are in. */
    method GetMessageCount(msg: Message) returns (count: int, isSpam: bool)
      requires Filed()
      modifies db.cache
      ensures Filed() && db.Private() == old(db.Private())
      ensures count == if msg.digest in ledger then ledger[msg.digest].copies else 0
      ensures count > 0 <==> msg.digest in ledger
      ensures isSpam <==> msg.digest in ledger && ledger[msg.digest].isSpam
    {
      hide Effective, Coherent, Answers, Count, Shown, Overlaid, Hides;
      var word := DIGEST_PREFIX + msg.digest;
      DigestRecord(db.Private(), ledger, book, msg.digest);
      ghost var private := db.Private();
      ShownPlain(db.cache.index, private, word, false);
      ShownPlain(db.cache.index, private, word, true);
      var found := db.ReadWord(word);
      AnswerShown(old(db.cache.index), found, private, map[], word);
      if found.None? {
        return 0, false;
      }
      var counts := found.value;
      isSpam := counts.spam > 0;
      count := if isSpam then counts.spam else counts.good;
    }

    /** Files a message, or counts its terms once more when the update is forced. */
    method AddMessage(msg: Message, isSpam: bool, forceUpdate: bool)
      requires Filed() && Ordinary(msg) && book(msg.digest) == msg.tokens
      requires msg.digest in ledger ==> ledger[msg.digest].isSpam == isSpam
      modifies this`ledger, this`clamps, db.cache, db.db.privateDB
      ensures Filed() && clamps == old(clamps)
      ensures old(Valid()) ==> Valid()
      ensures ledger ==
        if msg.digest !in old(ledger) then old(ledger)[msg.digest := Filing(isSpam, 1)]
        else if forceUpdate then old(ledger)[msg.digest := Filing(isSpam, old(ledger)[msg.digest].copies + 1)]
        else old(ledger)
      ensures msg.digest !in old(ledger) || forceUpdate ==> AllDated(db.Private(), msg.tokens, today)
    {
      hide Effective, Coherent, Balanced, Backed, Counted, Moved, Given, Dated, AllDated, CachedStore.Consistent, Count, Shown, TokenCount;
      var count, alreadyIsSpam := GetMessageCount(msg);
      FiledCopies(db.Private(), ledger, book);
      if count > 0 && !forceUpdate {
        return;
      }
      ghost var p0 := db.Private();
      AddingCovered(db, msg.tokens, 1);
      CountTokens(msg, isSpam, 1);
      ghost var p1 := db.Private();
      CountNonNegative(db, DIGEST_PREFIX + msg.digest);
      AdjustWordCounts(DIGEST_PREFIX + msg.digest, 1, isSpam);
      ghost var p2 := db.Private();
      DatedMore(p1, p2, msg.tokens, DIGEST_PREFIX + msg.digest, today);
      CountNonNegative(db, COUNT_WORD);
      Unmoved(p2, COUNT_WORD, isSpam);
      if count == 0 {
        AdjustWordCounts(COUNT_WORD, 1, isSpam);
        DatedMore(p2, db.Private(), msg.tokens, COUNT_WORD, today);
      }
      Rebalance(p0, p1, p2, db.Private(), ledger, book, msg.digest, isSpam, count, count + 1);
      ledger := ledger[msg.digest := Filing(isSpam, count + 1)];
    }

    /** Unfiles a message, taking every copy of its terms out of the counts. */
    method RemoveMessage(msg: Message)
      requires Filed() && Ordinary(msg) && book(msg.digest) == msg.tokens
      modifies this`ledger, this`clamps, db.cache, db.db.privateDB
      ensures Filed()
      ensures old(Valid()) ==> Valid() && clamps == old(clamps)
      ensures ledger == old(ledger) - {msg.digest}
      ensures msg.digest in old(ledger) ==> AllDated(db.Private(), msg.tokens, today)
    {
      hide Effective, Coherent, Balanced, Backed, Counted, Moved, Given, Dated, AllDated, CachedStore.Consistent, Count, Shown, TokenCount;
      var count, isSpam := GetMessageCount(msg);
      FiledCopies(db.Private(), ledger, book);
      if count == 0 {
        return;
      }
      ghost var p0 := db.Private();
      if old(Valid()) {
        RemovalCovered(p0, ledger, book, msg.digest);
      }
      CountTokens(msg, isSpam, -count);
      ghost var p1 := db.Private();
      StillCovered(p0, p1, ledger, book, msg.digest);
      AdjustWordCounts(DIGEST_PREFIX + msg.digest, -count, isSpam);
      ghost var p2 := db.Private();
      CounterKept(p1, p2, msg.digest, isSpam, -count);
      DatedMore(p1, p2, msg.tokens, DIGEST_PREFIX + msg.digest, today);
      AdjustWordCounts(COUNT_WORD, -1, isSpam);
      DatedMore(p2, db.Private(), msg.tokens, COUNT_WORD, today);
      Rebalance(p0, p1, p2, db.Private(), ledger, book, msg.digest, isSpam, count, 0);
      ledger := ledger - {msg.digest};
    }

    /** The token loop of adding and removing. */
    method CountTokens(msg: Message, isSpam: bool, factor: int)
      requires Plain()
      modifies this`clamps, db.cache, db.db.privateDB
      ensures Plain()
      ensures (forall w :: Count(old(db.Private()), w, isSpam) + factor * TokenCount(msg.tokens, w) >= 0) ==> clamps == old(clamps)
      ensures Counted(old(db.Private()), db.Private(), msg.tokens, isSpam, factor)
      ensures AllDated(db.Private(), msg.tokens, today)
    {
      hide Effective, Coherent, TokenCount, Given, Dated, AllDated, Moved, Counted, Count, Clamp, CachedStore.Consistent;
      DatedNone(db.Private(), today);
      ghost var start := db.Private();
      ghost var covered := forall w :: Count(start, w, isSpam) + factor * TokenCount(msg.tokens, w) >= 0;
      CountsNonNegative(db);
      CountedNone(start, msg.tokens, isSpam, factor);
      for i := 0 to |msg.tokens|
        invariant Plain() && (covered ==> clamps == old(clamps))
        invariant Counted(start, db.Private(), msg.tokens[..i], isSpam, factor)
        invariant AllDated(db.Private(), msg.tokens[..i], today)
      {
        ghost var before := db.Private();
        if covered {
          StillBears(start, before, msg.tokens, i, isSpam, factor);
        }
        AdjustWordCounts(msg.tokens[i].word, factor * msg.tokens[i].count, isSpam);
        CountedMore(start, before, db.Private(), msg.tokens, i, isSpam, factor);
        DatedToken(before, db.Private(), msg.tokens, i, today);
      }
      assert msg.tokens[..|msg.tokens|] == msg.tokens;
    }

    /** Redates the record of a word, if it can be read. */
    method TouchWord(word: string)
      requires Usable()
      modifies db.cache, db.db.privateDB
      ensures Usable() && db.db.sharedDB.words == old(db.db.sharedDB.words)
      ensures db.Private() == Touched(old(db.Private()), db.db.sharedDB.words, db.db, word, today)
    {
      hide Effective, Coherent, Answers, Put, Touched, Sound, Overlaid;
      ghost var before, shared := db.Private(), db.db.sharedDB.words;
      PrivateSound(db);
      var found := db.ReadWord(word);
      if found.Some? {
        var counts := found.value.AdjustDate(today);
        TouchedPut(before, shared, db.db, word, Hides(old(db.cache.index), shared, word), found.value, today);
        db.WriteWord(word, counts);
      } else {
        TouchedNothing(before, shared, db.db, word, today);
      }
    }

    /** Redates every term of a message. The ledger is not concerned, and over a shared store no
        cacheable term that was only shared becomes private. */
    method TouchMessage(msg: Message)
      requires Usable()
      modifies db.cache, db.db.privateDB
      ensures Usable() && db.db.sharedDB.words == old(db.db.sharedDB.words)
      ensures db.Private() == TouchedAll(old(db.Private()), db.db.sharedDB.words, db.db, msg.tokens, today)
      ensures Redated(old(db.Private()), db.Private(), db.db.sharedDB.words, db.db)
      ensures old(Filed()) ==> Filed()
      ensures old(Valid()) ==> Valid()
    {
      hide Effective, Coherent, Redated, Balanced, Backed, Touched;
      ghost var before, shared := db.Private(), db.db.sharedDB.words;
      for i := 0 to |msg.tokens|
        invariant Usable() && db.db.sharedDB.words == shared
        invariant db.Private() == TouchedAll(before, shared, db.db, msg.tokens[..i], today)
      {
        assert msg.tokens[..i + 1][..i] == msg.tokens[..i];
        TouchWord(msg.tokens[i].word);
      }
      assert msg.tokens[..|msg.tokens|] == msg.tokens;
      TouchedAllRedates(before, shared, db.db, msg.tokens, today);
      if old(Plain()) {
        RedatedBalance(before, db.Private(), ledger, book, db.db);
      }
    }

    method Flush()
      requires Usable()
      modifies db.cache, db.db.privateDB
      ensures Usable() && db.db.sharedDB.words == old(db.db.sharedDB.words)
      ensures db.Private() == old(db.Private()) && db.db.privateDB.words == db.Private()
      ensures old(Filed()) ==> Filed()
      ensures old(Valid()) ==> Valid()
    {
      hide Effective, Coherent, Balanced, Backed;
      db.Flush();
    }

    /** Sweeps the store. Every filed message stays filed with its copies, the message counters stay,
        and a term that is not swept out keeps its counts. */
    method SweepOutOldTerms(cleaner: CleanupManager)
      requires Usable()
      modifies db.cache, db.db.privateDB
      ensures Usable() && db.db.sharedDB.words == old(db.db.sharedDB.words)
      ensures Spares(old(db.Private()), db.Private(), cleaner.nodes, today)
      ensures forall b :: Count(db.Private(), COUNT_WORD, b) == Count(old(db.Private()), COUNT_WORD, b)
      ensures forall d, b :: Count(db.Private(), DIGEST_PREFIX + d, b) == Count(old(db.Private()), DIGEST_PREFIX + d, b)
      ensures old(Filed()) ==> Filed() && OnRecord(db.Private(), ledger)
    {
      hide Effective, Coherent, Backed, OnRecord, Swept, Spares, Sound;
      ghost var before := db.Private();
      PrivateSound(db);
      db.SweepOutOldTerms(cleaner, today);
      ReservedSpared(before, db.Private(), cleaner.nodes, today);
      if old(Filed()) {
        SparedBacked(before, db.Private(), cleaner.nodes, today, ledger, book);
        FiledOnRecord(db.Private(), ledger, book);
      }
    }
  }

  lemma RedatedNone(p: Words, shared: Words, db: DualStore)
    ensures Redated(p, p, shared, db)
  {
  }

  lemma RedatedTwice(p0: Words, p1: Words, p2: Words, shared: Words, db: DualStore)
    requires Redated(p0, p1, shared, db) && Redated(p1, p2, shared, db)
    ensures Redated(p0, p2, shared, db)
  {
  }

  lemma RedatedBalance(p: Words, p': Words, ledger: Ledger, book: Book, db: DualStore)
    requires Redated(p, p', map[], db)
    ensures Balanced(p, ledger, book) ==> Balanced(p', ledger, book)
    ensures Backed(p, ledger, book) ==> Backed(p', ledger, book)
  {
    hide Total, AccountOf;
    assert map[] + p == p && map[] + p' == p';
    SameCountsBacked(p, p', ledger, book);
  }

  lemma SameCountsBacked(p: Words, p': Words, ledger: Ledger, book: Book)
    requires forall w, b :: Count(p', w, b) == Count(p, w, b)
    ensures Backed(p, ledger, book) ==> Backed(p', ledger, book)
  {
    hide Total, AccountOf, Count;
    if Backed(p, ledger, book) {
      forall w, b ensures BackedAt(p', ledger, book, w, b) {
        assert BackedAt(p, ledger, book, w, b);
      }
    }
  }

  /** A sweep removes neither a digest nor the message counter. */
  lemma ReservedSpared(before: Words, after: Words, limits: seq<Limit>, today: nat)
    requires Sound(before) && Spares(before, after, limits, today)
    ensures forall b :: Count(after, COUNT_WORD, b) == Count(before, COUNT_WORD, b)
    ensures forall d, b :: Count(after, DIGEST_PREFIX + d, b) == Count(before, DIGEST_PREFIX + d, b)
  {
    hide Uncovered;
    forall d, b ensures Count(after, DIGEST_PREFIX + d, b) == Count(before, DIGEST_PREFIX + d, b) {
      var w := DIGEST_PREFIX + d;
      assert w in before ==> before[w].good + before[w].spam > 0;
    }
  }

  lemma SparedBacked(before: Words, after: Words, limits: seq<Limit>, today: nat, ledger: Ledger, book: Book)
    requires Sound(before) && Spares(before, after, limits, today) && Backed(before, ledger, book)
    ensures Backed(after, ledger, book)
  {
    hide Uncovered, Total, AccountOf;
    ReservedSpared(before, after, limits, today);
    forall w, b ensures BackedAt(after, ledger, book, w, b) {
      assert BackedAt(before, ledger, book, w, b);
      AccountName(w);
    }
  }

  /** A word that no store holds is not touched. */
  lemma TouchedNothing(p: Words, shared: Words, db: DualStore, word: string, today: nat)
    requires today < STAMP_MODULUS && Answers(None, Overlaid(p, shared, word))
    ensures Touched(p, shared, db, word, today) == p
  {
  }

  /** Writing back a record that was read, with a new date, touches the word; for a record that is
      only shared and cacheable the write is dropped, and for one that is hidden it writes nothing. */
  lemma TouchedPut(p: Words, shared: Words, db: DualStore, word: string, hidden: bool, read: WordData, today: nat)
    requires today < STAMP_MODULUS && Sound(p) && read.NonNegative()
    requires if hidden then read.HasSameCounts(ZERO) else Answers(Some(read), Overlaid(p, shared, word))
    requires read.Total() == 0 ==> word !in p && db.CanCacheTerm(word)
    ensures
      if !hidden && OnlyRedates(p, shared, word, read.AdjustDate(today)) && db.CanCacheTerm(word) then Touched(p, shared, db, word, today) == p
      else Touched(p, shared, db, word, today) == Put(p, word, read.AdjustDate(today))
  {
  }

  lemma TouchedRedates(p: Words, shared: Words, db: DualStore, word: string, today: nat)
    requires today < STAMP_MODULUS
    ensures Redated(p, Touched(p, shared, db, word, today), shared, db)
  {
  }

  /** Touching changes no count that can be read, and makes no cacheable record private. */
  lemma {:induction false} TouchedAllRedates(p: Words, shared: Words, db: DualStore, tokens: seq<Token>, today: nat)
    requires today < STAMP_MODULUS
    ensures Redated(p, TouchedAll(p, shared, db, tokens, today), shared, db)
  {
    hide Redated, Touched;
    if tokens == [] {
      RedatedNone(p, shared, db);
    } else {
      var n := |tokens| - 1;
      var q := TouchedAll(p, shared, db, tokens[..n], today);
      TouchedAllRedates(p, shared, db, tokens[..n], today);
      TouchedRedates(q, shared, db, tokens[n].word, today);
      RedatedTwice(p, q, Touched(q, shared, db, tokens[n].word, today), shared, db);
    }
  }

  lemma PrivateSound(db: CachedStore)
    requires db.Valid()
    ensures Sound(db.Private())
  {
    EffectiveSound(db.cache.index, db.db.privateDB.words, db.db.sharedDB.words);
  }

  lemma SharedSound(db: CachedStore, word: string)
    requires db.Valid()
    ensures word in db.db.sharedDB.words ==> db.db.sharedDB.words[word].Total() > 0
    ensures db.db.sharedDB != db.db.privateDB
  {
  }

  lemma ShownNonNegative(db: CachedStore, word: string)
    requires db.Valid()
    ensures forall b :: Shown(db.cache.index, db.Private(), db.db.sharedDB.words, word, b) >= 0
  {
    hide Effective, Hides;
    PrivateSound(db);
  }

  lemma CountNonNegative(db: CachedStore, word: string)
    requires db.Valid()
    ensures forall b :: Count(db.Private(), word, b) >= 0
  {
  }

  lemma CountsNonNegative(db: CachedStore)
    requires db.Valid()
    ensures forall w, b :: Count(db.Private(), w, b) >= 0
  {
  }

  lemma {:induction false} PrefixCount(tokens: seq<Token>, i: nat, w: string)
    requires i < |tokens|
    ensures TokenCount(tokens[..i], w) + (if tokens[i].word == w then tokens[i].count else 0) <= TokenCount(tokens, w)
    decreases |tokens|
  {
    var n := |tokens| - 1;
    if i < n {
      PrefixCount(tokens[..n], i, w);
      assert tokens[..n][..i] == tokens[..i];
    }
  }

  /** A count that bears the whole of a change bears the part of it made so far. */
  lemma PartialChange(count: int, factor: int, part: nat, more: nat, whole: nat)
    requires count >= 0 && count + factor * whole >= 0 && part + more <= whole
    ensures count + factor * part + factor * more >= 0
  {
  }

  /** Counts that bear the changes of all tokens bear the next one after some of them. */
  lemma StillBears(start: Words, now: Words, tokens: seq<Token>, i: nat, isSpam: bool, factor: int)
    requires i < |tokens| && Counted(start, now, tokens[..i], isSpam, factor) && forall w, b :: Count(start, w, b) >= 0
    requires forall w :: Count(start, w, isSpam) + factor * TokenCount(tokens, w) >= 0
    ensures Count(now, tokens[i].word, isSpam) + factor * tokens[i].count >= 0
  {
    hide Count, TokenCount;
    var w := tokens[i].word;
    PrefixCount(tokens, i, w);
    assert Count(start, w, isSpam) + factor * TokenCount(tokens, w) >= 0;
    PartialChange(Count(start, w, isSpam), factor, TokenCount(tokens[..i], w), tokens[i].count, TokenCount(tokens, w));
    assert Count(now, w, isSpam) == Clamp(Count(start, w, isSpam) + factor * TokenCount(tokens[..i], w));
  }

  lemma DigestRecord(words: Words, ledger: Ledger, book: Book, d: string)
    requires Backed(words, ledger, book)
    ensures Count(words, DIGEST_PREFIX + d, false) == if d in ledger && !ledger[d].isSpam then ledger[d].copies else 0
    ensures Count(words, DIGEST_PREFIX + d, true) == if d in ledger && ledger[d].isSpam then ledger[d].copies else 0
  {
    var word := DIGEST_PREFIX + d;
    DigestAccount(d);
    assert BackedAt(words, ledger, book, word, false) && BackedAt(words, ledger, book, word, true);
    DigestTotal(ledger, book, d, false);
    DigestTotal(ledger, book, d, true);
  }

  lemma DigestAccount(d: string)
    ensures AccountOf(DIGEST_PREFIX + d) == Digest(d)
    ensures AccountOf(COUNT_WORD) == Messages
  {
    var word := DIGEST_PREFIX + d;
    assert word[|DIGEST_PREFIX|..] == d && word[2] == 'M' && COUNT_WORD[2] == 'C';
  }

  /** The message counter of a class is the number of messages filed under it. */
  lemma CounterRecord(words: Words, ledger: Ledger, book: Book, isSpam: bool)
    requires Backed(words, ledger, book)
    ensures Count(words, COUNT_WORD, isSpam) == |set d | d in ledger && ledger[d].isSpam == isSpam|
  {
    DigestAccount("");
    assert BackedAt(words, ledger, book, COUNT_WORD, isSpam);
    MessagesTotal(ledger, book, isSpam);
  }

  /** Each filed message is on record with its copies in its class, no other message is, and the
      counter holds how many there are of each class. */
  ghost predicate OnRecord(words: Words, ledger: Ledger) {
    && (forall d, b :: Count(words, DIGEST_PREFIX + d, b) == if d in ledger && ledger[d].isSpam == b then ledger[d].copies else 0)
    && (forall b :: Count(words, COUNT_WORD, b) == |set d | d in ledger && ledger[d].isSpam == b|)
  }

  lemma FiledOnRecord(words: Words, ledger: Ledger, book: Book)
    requires Backed(words, ledger, book)
    ensures OnRecord(words, ledger)
  {
    hide Backed, Count;
    forall d, b
      ensures Count(words, DIGEST_PREFIX + d, b) == if d in ledger && ledger[d].isSpam == b then ledger[d].copies else 0
    {
      DigestRecord(words, ledger, book, d);
    }
    forall b ensures Count(words, COUNT_WORD, b) == |set d | d in ledger && ledger[d].isSpam == b| {
      CounterRecord(words, ledger, book, b);
    }
  }

  /** The records of the reserved accounts have one name each. */
  lemma AccountName(w: string)
    ensures AccountOf(w).Digest? ==> w == DIGEST_PREFIX + AccountOf(w).digest
    ensures AccountOf(w).Messages? <==> w == COUNT_WORD
  {
  }

  lemma {:induction false} ReservedUncounted(tokens: seq<Token>, w: string)
    requires forall i :: 0 <= i < |tokens| ==> AccountOf(tokens[i].word).Term?
    requires !AccountOf(w).Term?
    ensures TokenCount(tokens, w) == 0
  {
    if tokens != [] {
      ReservedUncounted(tokens[..|tokens| - 1], w);
    }
  }

  function Present(copies: nat): int {
    if copies > 0 then 1 else 0
  }

  ghost function Refiled(ledger: Ledger, d: string, isSpam: bool, copies: nat): Ledger {
    if copies > 0 then ledger[d := Filing(isSpam, copies)] else ledger - {d}
  }

  /** What changes from m to n copies of one message in one account. */
  lemma WeightChange(book: Book, w: string, c: bool, d: string, isSpam: bool, m: nat, n: nat)
    requires forall i :: 0 <= i < |book(d)| ==> AccountOf(book(d)[i].word).Term?
    ensures
      var change := Weight(book, AccountOf(w), c, d, Filing(isSpam, n)) - Weight(book, AccountOf(w), c, d, Filing(isSpam, m));
      c == isSpam && n > 0 && m > 0 ==>
        change == (n - m) * TokenCount(book(d), w) + if w == DIGEST_PREFIX + d then n - m else 0
    ensures
      var weight := Weight(book, AccountOf(w), c, d, Filing(isSpam, n));
      c == isSpam ==>
        weight == n * TokenCount(book(d), w) + (if w == DIGEST_PREFIX + d then n else 0) + (if w == COUNT_WORD then 1 else 0)
  {
    AccountName(w);
    DigestAccount(d);
    if !AccountOf(w).Term? {
      ReservedUncounted(book(d), w);
    }
    var t := TokenCount(book(d), w);
    assert n * t - m * t == (n - m) * t;
  }

  /** What the sum of one account changes by. */
  lemma SumChange(ledger: Ledger, book: Book, d: string, isSpam: bool, m: nat, n: nat, w: string, c: bool)
    requires m > 0 ==> d in ledger && ledger[d] == Filing(isSpam, m)
    requires m == 0 ==> d !in ledger
    requires forall i :: 0 <= i < |book(d)| ==> AccountOf(book(d)[i].word).Term?
    ensures
      var change := (n - m) * TokenCount(book(d), w)
        + (if w == DIGEST_PREFIX + d then n - m else 0) + (if w == COUNT_WORD then Present(n) - Present(m) else 0);
      Total(Refiled(ledger, d, isSpam, n), book, AccountOf(w), c)
        == Total(ledger, book, AccountOf(w), c) + if c == isSpam then change else 0
  {
    hide Total, TokenCount, AccountOf;
    TotalMoves(ledger, book, AccountOf(w), c, d, Filing(isSpam, n));
    WeightChange(book, w, c, d, isSpam, m, n);
    WeightChange(book, w, c, d, isSpam, n, m);
    var t := TokenCount(book(d), w);
    assert (n - m) * t == n * t - m * t;
  }

  /** Changing one message from m to n copies moves one count as it moves the sum of its account. */
  lemma RebalanceOne(p0: Words, p1: Words, p2: Words, p3: Words, ledger: Ledger, book: Book,
      d: string, isSpam: bool, m: nat, n: nat, w: string, c: bool)
    requires BackedAt(p0, ledger, book, w, c)
    requires m > 0 ==> d in ledger && ledger[d] == Filing(isSpam, m)
    requires m == 0 ==> d !in ledger
    requires forall i :: 0 <= i < |book(d)| ==> AccountOf(book(d)[i].word).Term?
    requires Counted(p0, p1, book(d), isSpam, n - m)
    requires Moved(p1, p2, DIGEST_PREFIX + d, isSpam, n - m)
    requires Moved(p2, p3, COUNT_WORD, isSpam, Present(n) - Present(m))
    ensures BackedAt(p3, Refiled(ledger, d, isSpam, n), book, w, c)
    ensures Count(p0, w, c) == Total(ledger, book, AccountOf(w), c) ==>
      Count(p3, w, c) == Total(Refiled(ledger, d, isSpam, n), book, AccountOf(w), c)
  {
    hide Total, TokenCount, Count, AccountOf, Present, Refiled;
    var t := TokenCount(book(d), w);
    SumChange(ledger, book, d, isSpam, m, n, w, c);
    AccountName(w);
    DigestAccount(d);
    if !AccountOf(w).Term? {
      ReservedUncounted(book(d), w);
      assert (n - m) * t == 0;
    }
    assert Count(p1, w, c) == if c == isSpam then Clamp(Count(p0, w, c) + (n - m) * t) else Count(p0, w, c);
  }

  /** Changing one message from m to n copies keeps the books as they should be: balanced, or backed
      once there has been a sweep. */
  lemma Rebalance(p0: Words, p1: Words, p2: Words, p3: Words, ledger: Ledger, book: Book, d: string, isSpam: bool, m: nat, n: nat)
    requires Backed(p0, ledger, book)
    requires m > 0 ==> d in ledger && ledger[d] == Filing(isSpam, m)
    requires m == 0 ==> d !in ledger
    requires forall i :: 0 <= i < |book(d)| ==> AccountOf(book(d)[i].word).Term?
    requires Counted(p0, p1, book(d), isSpam, n - m)
    requires Moved(p1, p2, DIGEST_PREFIX + d, isSpam, n - m)
    requires Moved(p2, p3, COUNT_WORD, isSpam, Present(n) - Present(m))
    ensures Backed(p3, Refiled(ledger, d, isSpam, n), book)
    ensures Balanced(p0, ledger, book) ==> Balanced(p3, Refiled(ledger, d, isSpam, n), book)
  {
    hide Counted, Moved, Total, Count, TokenCount, AccountOf, BackedAt;
    forall w, c
      ensures BackedAt(p3, Refiled(ledger, d, isSpam, n), book, w, c)
      ensures Count(p0, w, c) == Total(ledger, book, AccountOf(w), c) ==>
        Count(p3, w, c) == Total(Refiled(ledger, d, isSpam, n), book, AccountOf(w), c)
    {
      assert BackedAt(p0, ledger, book, w, c);
      RebalanceOne(p0, p1, p2, p3, ledger, book, d, isSpam, m, n, w, c);
    }
  }

  /** The counts hold at least the whole contribution of a filed message. */
  lemma Covers(words: Words, ledger: Ledger, book: Book, d: string, w: string)
    requires Balanced(words, ledger, book) && d in ledger
    ensures Count(words, w, ledger[d].isSpam) >= Weight(book, AccountOf(w), ledger[d].isSpam, d, ledger[d])
  {
    TotalTakes(ledger, book, AccountOf(w), ledger[d].isSpam, d);
    assert Count(words, w, ledger[d].isSpam) == Total(ledger, book, AccountOf(w), ledger[d].isSpam);
  }

  lemma FiledCopies(words: Words, ledger: Ledger, book: Book)
    requires Backed(words, ledger, book)
    ensures forall d :: d in ledger ==> ledger[d].copies >= 1
  {
  }

  lemma CountedNone(p: Words, tokens: seq<Token>, isSpam: bool, factor: int)
    requires forall w, b :: Count(p, w, b) >= 0
    ensures Counted(p, p, tokens[..0], isSpam, factor)
  {
    assert forall w :: TokenCount(tokens[..0], w) == 0;
  }

  lemma Unmoved(p: Words, word: string, isSpam: bool)
    ensures Moved(p, p, word, isSpam, 0)
  {
  }

  lemma AddingCovered(db: CachedStore, tokens: seq<Token>, factor: nat)
    requires db.Valid()
    ensures forall w, b :: Count(db.Private(), w, b) + factor * TokenCount(tokens, w) >= 0
  {
  }

  /** The counts can bear the removal of every copy of a filed message. */
  lemma RemovalCovered(words: Words, ledger: Ledger, book: Book, d: string)
    requires Balanced(words, ledger, book) && d in ledger
    requires forall i :: 0 <= i < |book(d)| ==> AccountOf(book(d)[i].word).Term?
    ensures forall w :: Count(words, w, ledger[d].isSpam) + (0 - ledger[d].copies) * TokenCount(book(d), w) >= 0
    ensures Count(words, DIGEST_PREFIX + d, ledger[d].isSpam) + (0 - ledger[d].copies) * TokenCount(book(d), DIGEST_PREFIX + d)
      >= ledger[d].copies
    ensures Count(words, COUNT_WORD, ledger[d].isSpam) + (0 - ledger[d].copies) * TokenCount(book(d), COUNT_WORD) >= 1
  {
    var m, isSpam := ledger[d].copies, ledger[d].isSpam;
    forall w ensures Count(words, w, isSpam) + (-m) * TokenCount(book(d), w)
      >= (if w == DIGEST_PREFIX + d then m else 0) + (if w == COUNT_WORD then 1 else 0)
    {
      Covers(words, ledger, book, d, w);
      WeightChange(book, w, isSpam, d, isSpam, m, m);
      assert (-m) * TokenCount(book(d), w) == -(m * TokenCount(book(d), w));
    }
  }

  /** The counts of the terms apart, those of a filed message are still there once its terms are taken out. */
  lemma StillCovered(p0: Words, p1: Words, ledger: Ledger, book: Book, d: string)
    requires Backed(p0, ledger, book) && d in ledger
    requires forall i :: 0 <= i < |book(d)| ==> AccountOf(book(d)[i].word).Term?
    requires Counted(p0, p1, book(d), ledger[d].isSpam, 0 - ledger[d].copies)
    ensures Count(p1, DIGEST_PREFIX + d, ledger[d].isSpam) >= ledger[d].copies
    ensures Count(p1, COUNT_WORD, ledger[d].isSpam) >= 1
  {
    hide Total, TokenCount, Count, AccountOf;
    DigestAccount(d);
    ReservedCovered(p0, p1, ledger, book, d, DIGEST_PREFIX + d);
    ReservedCovered(p0, p1, ledger, book, d, COUNT_WORD);
  }

  lemma ReservedCovered(p0: Words, p1: Words, ledger: Ledger, book: Book, d: string, w: string)
    requires Backed(p0, ledger, book) && d in ledger && !AccountOf(w).Term?
    requires forall i :: 0 <= i < |book(d)| ==> AccountOf(book(d)[i].word).Term?
    requires Counted(p0, p1, book(d), ledger[d].isSpam, 0 - ledger[d].copies)
    ensures Count(p1, w, ledger[d].isSpam) >= Weight(book, AccountOf(w), ledger[d].isSpam, d, ledger[d])
  {
    hide Total, TokenCount, Count, AccountOf, Weight;
    assert BackedAt(p0, ledger, book, w, ledger[d].isSpam);
    TotalTakes(ledger, book, AccountOf(w), ledger[d].isSpam, d);
    ReservedUncounted(book(d), w);
  }

  lemma CounterKept(p1: Words, p2: Words, d: string, isSpam: bool, delta: int)
    requires Moved(p1, p2, DIGEST_PREFIX + d, isSpam, delta)
    ensures Count(p2, COUNT_WORD, isSpam) == Count(p1, COUNT_WORD, isSpam)
  {
    DigestAccount(d);
  }
}
