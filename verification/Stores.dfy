/** Stores of term records: a plain keyed file and the overlay of a private store on a shared one. */
module Stores {
  import opened Options
  import opened WordCounts

  type Words = map<string, WordData>

  /** The words after a write: a record with no counts left is dropped. */
  function Put(words: Words, word: string, counts: WordData): Words {
    if counts.Total() > 0 then words[word := counts] else words - {word}
  }

  /** No stored record is negative or without counts. */
  ghost predicate Sound(words: Words) {
    forall w :: w in words ==> words[w].NonNegative() && words[w].Total() > 0
  }

  /** A record found by a store, and whether it came from the shared side. */
  datatype Reading = Reading(counts: WordData, isShared: bool)

  function Overlaid(private: Words, shared: Words, word: string): Option<Reading> {
    if word in private then Some(Reading(private[word], false))
    else if word in shared then Some(Reading(shared[word], true))
    else None
  }

  /** The reserved names are the message digests and the message counter. */
  predicate Reserved(word: string) {
    |word| >= 3 && word[0] == '_' && word[1] == '_'
  }

  /** The records a sweep removes: expired ordinary terms and digests without counts. */
  ghost predicate Doomed(limits: seq<Limit>, today: nat, word: string, counts: WordData) {
    if Reserved(word) then "__MD5" <= word && counts.Total() == 0 else Expired(limits, counts, today)
  }

  ghost function Swept(words: Words, limits: seq<Limit>, today: nat): Words {
    map w | w in words && !Doomed(limits, today, w, words[w]) :: words[w]
  }

  /** No limit covers the total and the age of a record. */
  ghost predicate Uncovered(counts: WordData, limits: seq<Limit>, today: nat) {
    forall i :: 0 <= i < |limits| ==>
      counts.good + counts.spam > limits[i].junkCount || today - counts.flags % 0x1_0000 <= limits[i].maxAge
  }

  /** What a sweep leaves is as it was: the message counter, the digests that have counts, whatever
      else begins like them, and exactly those of the other words that no limit covers. */
  ghost predicate Spares(before: Words, after: Words, limits: seq<Limit>, today: nat) {
    && (forall w :: w in after ==> w in before && after[w] == before[w])
    && (COUNT_WORD in before ==> COUNT_WORD in after)
    && (forall d ::
          var w := DIGEST_PREFIX + d;
          w in before && before[w].good + before[w].spam > 0 ==> w in after)
    && (forall w :: w in before ==> (w in after <==> ("__" <= w && |w| > 2) || Uncovered(before[w], limits, today)))
  }

  lemma SweptSpares(words: Words, limits: seq<Limit>, today: nat)
    requires Sound(words)
    ensures Spares(words, Swept(words, limits, today), limits, today)
  {
    hide Swept, Uncovered;
    forall w | w in words
      ensures w in Swept(words, limits, today) <==> ("__" <= w && |w| > 2) || Uncovered(words[w], limits, today)
    {
      SweptAt(words, limits, today, w);
      SparedAt(words, limits, today, w);
    }
    forall w | w in Swept(words, limits, today) ensures w in words && Swept(words, limits, today)[w] == words[w] {
      SweptAt(words, limits, today, w);
    }
  }

  lemma SweptAt(words: Words, limits: seq<Limit>, today: nat, w: string)
    ensures w in Swept(words, limits, today) <==> w in words && !Doomed(limits, today, w, words[w])
    ensures w in Swept(words, limits, today) ==> Swept(words, limits, today)[w] == words[w]
  {
  }

  lemma SparedAt(words: Words, limits: seq<Limit>, today: nat, w: string)
    requires Sound(words) && w in words
    ensures !Doomed(limits, today, w, words[w]) <==> ("__" <= w && |w| > 2) || Uncovered(words[w], limits, today)
  {
  }

  /** A keyed file in the manner of FrequencyDBImpl_pbl.cc. */
  class MapStore {
    var words: Words
    var inTransaction: bool
    const canCache: string -> bool

    ghost predicate Valid()
      reads this
    {
      Sound(words)
    }

    constructor (canCache: string -> bool)
      ensures Valid() && words == map[] && !inTransaction && this.canCache == canCache
    {
      words := map[];
      inTransaction := false;
      this.canCache := canCache;
    }

    method WriteWord(word: string, counts: WordData)
      requires Valid() && counts.NonNegative()
      modifies this`words
      ensures Valid() && words == Put(old(words), word, counts)
    {
      if counts.Total() <= 0 {
        words := words - {word};
      } else {
        words := words[word := counts];
      }
    }

    method ReadWord(word: string) returns (counts: Option<WordData>)
      ensures counts == if word in words then Some(words[word]) else None
    {
      counts := if word in words then Some(words[word]) else None;
    }

    method BeginTransaction()
      requires !inTransaction
      modifies this`inTransaction
      ensures inTransaction
    {
      inTransaction := true;
    }

    method EndTransaction()
      requires inTransaction
      modifies this`inTransaction
      ensures !inTransaction
    {
      inTransaction := false;
    }

    method SweepOutOldTerms(cleaner: CleanupManager, today: nat)
      requires Valid()
      modifies this`words
      ensures Valid() && words == Swept(old(words), cleaner.nodes, today)
      ensures Spares(old(words), words, cleaner.nodes, today)
    {
      hide Spares;
      SweptSpares(words, cleaner.nodes, today);
      var todo := words.Keys;
      var kept: Words := map[];
      while todo != {}
        invariant todo <= words.Keys && words == old(words)
        invariant kept == map w | w in words && w !in todo && !Doomed(cleaner.nodes, today, w, words[w]) :: words[w]
      {
        var w :| w in todo;
        var delete: bool;
        if Reserved(w) {
          delete := "__MD5" <= w && words[w].Total() == 0;
        } else {
          delete := cleaner.ShouldDelete(words[w], today);
        }
        if !delete {
          kept := kept[w := words[w]];
        }
        todo := todo - {w};
      }
      words := kept;
    }
  }

  /** The overlay of FrequencyDBImpl_dual.cc; or a single file, which is an overlay on nothing. */
  class DualStore {
    const sharedDB: MapStore
    const privateDB: MapStore
    const single: bool

    ghost predicate Valid()
      reads sharedDB, privateDB
    {
      && sharedDB != privateDB
      && sharedDB.Valid()
      && privateDB.Valid()
      && (single ==> sharedDB.words == map[])
    }

    constructor (sharedDB: MapStore, privateDB: MapStore)
      ensures this.sharedDB == sharedDB && this.privateDB == privateDB && !single
      ensures forall word :: CanCacheTerm(word) <==> sharedDB.canCache(word) || privateDB.canCache(word)
    {
      this.sharedDB := sharedDB;
      this.privateDB := privateDB;
      single := false;
    }

    constructor Single(file: MapStore)
      requires file.Valid()
      ensures Valid() && privateDB == file && fresh(sharedDB) && single
      ensures forall word :: CanCacheTerm(word) == file.canCache(word)
    {
      sharedDB := new MapStore((word: string) => false);
      privateDB := file;
      single := true;
    }

    /** A single file has transactions; the overlay has none. */
    method BeginTransaction()
      requires !privateDB.inTransaction
      modifies privateDB`inTransaction
      ensures privateDB.inTransaction == single
    {
      if single {
        privateDB.BeginTransaction();
      }
    }

    method EndTransaction()
      requires privateDB.inTransaction == single
      modifies privateDB`inTransaction
      ensures !privateDB.inTransaction
    {
      if single {
        privateDB.EndTransaction();
      }
    }

    predicate CanCacheTerm(word: string) {
      sharedDB.canCache(word) || privateDB.canCache(word)
    }

    method WriteWord(word: string, counts: WordData)
      requires Valid() && counts.NonNegative()
      modifies privateDB`words
      ensures Valid() && privateDB.words == Put(old(privateDB.words), word, counts)
    {
      privateDB.WriteWord(word, counts);
    }

    method ReadWord(word: string) returns (reading: Option<Reading>)
      ensures reading == Overlaid(privateDB.words, sharedDB.words, word)
    {
      var counts := privateDB.ReadWord(word);
      if counts.Some? {
        return Some(Reading(counts.value, false));
      }
      counts := sharedDB.ReadWord(word);
      if counts.Some? {
        return Some(Reading(counts.value, true));
      }
      return None;
    }

    method SweepOutOldTerms(cleaner: CleanupManager, today: nat)
      requires Valid()
      modifies privateDB`words
      ensures Valid() && privateDB.words == Swept(old(privateDB.words), cleaner.nodes, today)
      ensures Spares(old(privateDB.words), privateDB.words, cleaner.nodes, today)
    {
      hide Spares, Swept;
      privateDB.SweepOutOldTerms(cleaner, today);
    }
  }
}
