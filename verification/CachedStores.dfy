/** The write-back cache in front of a store (FrequencyDBImpl_cache.cc). */
module CachedStores {
  import opened Options
  import opened WordCounts
  import opened Stores
  import opened LruCaches
  import opened CacheViews

  const MAX_RECORDS_PER_TRANSACTION := 100

  /** What a read may answer: the stored record, or nothing but zeros when there is none. */
  ghost predicate Answers(counts: Option<WordData>, stored: Option<Reading>) {
    match stored
    case Some(r) => counts == Some(r.counts)
    case None => counts.Some? ==> counts.value.HasSameCounts(ZERO)
  }

  /** A rewrite of a shared record that would change nothing but its date. */
  predicate OnlyRedates(private: Words, shared: Words, word: string, counts: WordData) {
    word !in private && word in shared && shared[word].HasSameCounts(counts)
  }

  /** Only the words still to be visited may be dirty. */
  ghost predicate CleanBut(index: Contents, todo: set<string>) {
    forall w :: w in index && w !in todo ==> !index[w].isLocked
  }

  /** Of the other words, none has its shared record hidden that had not. */
  ghost predicate HidesLess(c: Contents, c': Contents, shared: Words, word: string) {
    forall w :: w != word && Hides(c, shared, w) ==> Hides(c', shared, w)
  }

  /** The same records are cached; only locks may differ. */
  ghost predicate SameValues(c: Contents, c': Contents) {
    c.Keys == c'.Keys && forall w :: w in c ==> c[w].value == c'[w].value
  }

  lemma SameValuesSelf(c: Contents)
    ensures SameValues(c, c)
  {
  }

  lemma SameValuesUnlock(c: Contents, c': Contents, w: string)
    requires SameValues(c, c') && w in c
    ensures SameValues(c[w := c[w].(isLocked := false)], c')
  {
  }

  lemma SameValuesHide(c: Contents, c': Contents, shared: Words)
    requires SameValues(c, c')
    ensures forall w :: Hides(c, shared, w) == Hides(c', shared, w)
    ensures forall w :: w in c <==> w in c'
  {
  }

  class CachedStore {
    const db: DualStore
    const cache: LRUCache<string, CacheEntry>

    /** The cache is well formed, within its bounds, and coherent with the store. */
    ghost predicate Valid()
      reads cache, db.sharedDB, db.privateDB
    {
      Consistent() && !db.privateDB.inTransaction
    }

    ghost predicate Consistent()
      reads cache, db.sharedDB, db.privateDB
    {
      && cache.Valid()
      && db.Valid()
      && 1 <= cache.maxSize
      && cache.lockedCount <= cache.maxSize
      && cache.Size() <= cache.maxSize + 1
      && (forall w :: w in cache.index ==> db.CanCacheTerm(w))
      && Coherent(cache.index, db.privateDB.words, db.sharedDB.words)
    }

    /** The private records a client sees: those of the store, overridden by the dirty entries. */
    ghost function Private(): Words
      reads cache, db.privateDB
    {
      Effective(cache.index, db.privateDB.words)
    }

    constructor (db: DualStore, maxSize: int)
      requires db.Valid() && !db.privateDB.inTransaction && 1 <= maxSize
      ensures Valid() && this.db == db && fresh(cache) && Private() == db.privateDB.words && cache.index == map[]
    {
      this.db := db;
      cache := new LRUCache(maxSize);
      new;
      AllClean(cache.index, db.privateDB.words);
    }

    method AddWordData(word: string, isDirty: bool, isShared: bool, counts: WordData) returns (ghost gone: set<string>)
      requires cache.Valid() && word !in cache.index
      modifies cache
      ensures cache.Valid()
      ensures forall w :: w in gone ==> !Dirty(old(cache.index), w)
      ensures cache.index == (old(cache.index) - gone)[word := Node(CacheEntry(isShared, counts), isDirty)]
      ensures cache.lockedCount == old(cache.lockedCount) + if isDirty then 1 else 0
      ensures cache.Size() <= cache.maxSize || cache.Size() == old(cache.lockedCount) + 1
    {
      hide Lists, LatestFirst;
      ghost var n := Kept(|cache.normalList|, |cache.lockedList|, cache.maxSize);
      gone := Elements(cache.normalList[n..]);
      ListsMembers(cache.normalList, cache.index, false);
      cache.Put(word, CacheEntry(isShared, counts), isDirty);
    }

    /** Answers from the cache, or from the store, keeping a clean copy of what the store answered.
        A hidden shared record is answered as zeros. */
    method ReadWord(word: string) returns (counts: Option<WordData>)
      requires Valid()
      modifies cache
      ensures Valid()
      ensures Private() == old(Private())
      ensures if Hides(old(cache.index), db.sharedDB.words, word) then counts.Some? && counts.value.HasSameCounts(ZERO)
        else Answers(counts, Overlaid(Private(), db.sharedDB.words, word))
      ensures counts.Some? && db.CanCacheTerm(word) ==> word in cache.index
      ensures Hides(cache.index, db.sharedDB.words, word) == Hides(old(cache.index), db.sharedDB.words, word)
      ensures HidesLess(cache.index, old(cache.index), db.sharedDB.words, word)
      ensures counts.Some? ==>
        counts.value.NonNegative() && (counts.value.Total() == 0 ==> word !in Private() && db.CanCacheTerm(word))
    {
      hide Lists, LatestFirst, Without, Coherent, Effective;
      CachedReading(cache.index, db.privateDB.words, db.sharedDB.words, word);
      var entry := cache.Get(word);
      if entry.Some? {
        CachedNonNegative(cache.index, db.privateDB.words, db.sharedDB.words, word);
        return Some(entry.value.counts);
      }
      var reading := db.ReadWord(word);
      if reading.None? {
        return None;
      }
      StoredSound(cache.index, db.privateDB.words, db.sharedDB.words, word);
      var r := reading.value;
      if db.CanCacheTerm(word) {
        ghost var before := cache.index;
        var gone := AddWordData(word, false, r.isShared, r.counts);
        ReadMiss(before, db.privateDB.words, db.sharedDB.words, gone, word);
      }
      return Some(r.counts);
    }

    /** Writes every dirty entry back; what a client sees does not change. */
    method Flush()
      requires Valid()
      modifies cache, db.privateDB
      ensures Valid() && SameValues(cache.index, old(cache.index))
      ensures Private() == old(Private()) && db.privateDB.words == Private()
      ensures cache.lockedCount == 0
    {
      hide Lists, LatestFirst, Without, Coherent, Effective, SameValues;
      var numWrites := 0;
      db.BeginTransaction();
      var todo := cache.index.Keys;
      SameValuesSelf(cache.index);
      while todo != {}
        invariant todo <= cache.index.Keys
        invariant SameValues(cache.index, old(cache.index))
        invariant Consistent() && db.privateDB.inTransaction == db.single
        invariant CleanBut(cache.index, todo)
        invariant Private() == old(Private())
        invariant 0 <= numWrites < MAX_RECORDS_PER_TRANSACTION
      {
        var w :| w in todo;
        todo := todo - {w};
        if cache.index[w].isLocked {
          SameValuesUnlock(cache.index, old(cache.index), w);
          WriteBackEntry(w);
          numWrites := numWrites + 1;
          if numWrites >= MAX_RECORDS_PER_TRANSACTION {
            db.EndTransaction();
            db.BeginTransaction();
            numWrites := 0;
          }
        }
      }
      NoneLocked(cache.lockedList, cache.index);
      AllClean(cache.index, db.privateDB.words);
      db.EndTransaction();
    }

    /** The flush of one dirty entry. */
    method WriteBackEntry(w: string)
      requires Consistent() && Dirty(cache.index, w)
      modifies cache, db.privateDB`words
      ensures Consistent()
      ensures cache.index == old(cache.index)[w := old(cache.index)[w].(isLocked := false)]
      ensures Private() == old(Private())
    {
      hide Lists, LatestFirst, Without, Coherent, Effective;
      WriteBack(cache.index, db.privateDB.words, db.sharedDB.words, w);
      CachedNonNegative(cache.index, db.privateDB.words, db.sharedDB.words, w);
      db.WriteWord(w, cache.index[w].value.counts);
      cache.SetLocked(w, false);
    }

    /** Writes into the cache, or through it for a term that may not be cached. A rewrite of a
        shared record that changes only its date is dropped, and a record without counts hides the
        shared one. */
    method WriteWord(word: string, counts: WordData)
      requires Valid() && counts.NonNegative()
      modifies cache, db.privateDB
      ensures Valid()
      ensures Private() ==
        if word in old(cache.index) && !Hides(old(cache.index), db.sharedDB.words, word)
          && OnlyRedates(old(Private()), db.sharedDB.words, word, counts)
        then old(Private()) else Put(old(Private()), word, counts)
      ensures Hides(cache.index, db.sharedDB.words, word)
        <==> db.CanCacheTerm(word) && counts.Total() == 0 && word in db.sharedDB.words
      ensures HidesLess(cache.index, old(cache.index), db.sharedDB.words, word)
      ensures db.CanCacheTerm(word) ==> word in cache.index
      ensures db.CanCacheTerm(word) && old(cache.lockedCount) < cache.maxSize ==> db.privateDB.words == old(db.privateDB.words)
    {
      hide Lists, LatestFirst, Without, Coherent, Effective, Put, OnlyRedates, SameValues;
      SameValuesSelf(cache.index);
      if cache.lockedCount >= cache.maxSize {
        Flush();
      }
      ghost var before, words, shared := cache.index, db.privateDB.words, db.sharedDB.words;
      SameValuesHide(before, old(cache.index), shared);
      if !db.CanCacheTerm(word) {
        WriteThrough(before, words, shared, word, counts);
        db.WriteWord(word, counts);
      } else {
        WriteCached(word, counts);
      }
    }

    /** The write of a term that may be cached. */
    method WriteCached(word: string, counts: WordData)
      requires Valid() && counts.NonNegative() && db.CanCacheTerm(word) && cache.lockedCount < cache.maxSize
      modifies cache
      ensures Valid() && word in cache.index
      ensures Private() ==
        if word in old(cache.index) && !Hides(old(cache.index), db.sharedDB.words, word)
          && OnlyRedates(old(Private()), db.sharedDB.words, word, counts)
        then old(Private()) else Put(old(Private()), word, counts)
      ensures Hides(cache.index, db.sharedDB.words, word) <==> counts.Total() == 0 && word in db.sharedDB.words
      ensures HidesLess(cache.index, old(cache.index), db.sharedDB.words, word)
    {
      hide Lists, LatestFirst, Without, Coherent, Effective, Put;
      ghost var before, words, shared := cache.index, db.privateDB.words, db.sharedDB.words;
      var found := cache.Get(word);
      if found.None? {
        var gone := AddWordData(word, true, false, counts);
        WriteMiss(before, words, shared, gone, word, counts);
      } else {
        var entry := found.value;
        WriteHit(before, words, shared, word, counts);
        if entry.counts == counts {
        } else if entry.isShared && entry.counts.HasSameCounts(counts) {
        } else {
          cache.Put(word, CacheEntry(false, counts), true);
        }
      }
    }

    method Clear()
      requires Valid() && cache.lockedCount == 0
      modifies cache
      ensures Valid() && cache.index == map[]
      ensures Private() == old(Private()) == db.privateDB.words
    {
      hide Lists, LatestFirst, Effective;
      NoneLocked(cache.lockedList, cache.index);
      AllClean(cache.index, db.privateDB.words);
      cache.Clear();
      AllClean(cache.index, db.privateDB.words);
    }

    method SweepOutOldTerms(cleaner: CleanupManager, today: nat)
      requires Valid()
      modifies cache, db.privateDB
      ensures Valid()
      ensures Private() == Swept(old(Private()), cleaner.nodes, today) && cache.index == map[]
      ensures Spares(old(Private()), Private(), cleaner.nodes, today)
    {
      hide Effective, Spares, Swept;
      Flush();
      Clear();
      db.SweepOutOldTerms(cleaner, today);
      AllClean(cache.index, db.privateDB.words);
    }
  }

  lemma NoneLocked(lockedList: seq<string>, index: Contents)
    requires Lists(lockedList, index, true)
    ensures (|lockedList| == 0) <==> forall w :: w in index ==> !index[w].isLocked
  {
    if lockedList != [] {
      assert lockedList[0] in lockedList;
    }
  }
}
