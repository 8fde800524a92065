/** Runs over a shared store: what only the shared side knows stays out of the private side. */
module SharedTerms {
  import opened WordCounts
  import opened Stores
  import opened CacheViews
  import opened Ledgers
  import opened FrequencyDBs

  datatype Use =
    | Touch(msg: Message)
    | Look(word: string)
    | Count(word: string, counts: WordData)
    | Save

  /** The term is written with new counts by some use. */
  ghost predicate Counted(uses: seq<Use>, word: string) {
    exists i :: 0 <= i < |uses| && uses[i].Count? && uses[i].word == word
  }

  ghost predicate OnlyShared(private: Words, shared: Words, word: string) {
    word in shared && word !in private
  }

  /** Whatever is read, touched and flushed, a cacheable term that only the shared side had and
      that no use gave new counts is still not in the private store when the run is saved. */
  method RunUses(filter: FrequencyDB, uses: seq<Use>)
    requires filter.Usable()
    requires forall i :: 0 <= i < |uses| && uses[i].Count? ==> uses[i].counts.NonNegative()
    modifies filter.db.cache, filter.db.db.privateDB
    ensures filter.Usable() && filter.db.db.sharedDB.words == old(filter.db.db.sharedDB.words)
    ensures forall w ::
      OnlyShared(old(filter.db.Private()), filter.db.db.sharedDB.words, w) && filter.db.db.CanCacheTerm(w) && !Counted(uses, w)
      ==> OnlyShared(filter.db.db.privateDB.words, filter.db.db.sharedDB.words, w)
  {
    hide Effective, Coherent;
    ghost var before, shared := filter.db.Private(), filter.db.db.sharedDB.words;
    for i := 0 to |uses|
      invariant filter.Usable() && filter.db.db.sharedDB.words == shared
      invariant forall w ::
        OnlyShared(before, shared, w) && filter.db.db.CanCacheTerm(w) && !Counted(uses[..i], w)
        ==> OnlyShared(filter.db.Private(), shared, w)
    {
      CountedMore(uses, i);
      match uses[i]
      case Touch(msg) => filter.TouchMessage(msg);
      case Look(word) => var _ := filter.db.ReadWord(word);
      case Count(word, counts) => filter.db.WriteWord(word, counts);
      case Save => filter.Flush();
    }
    assert uses[..|uses|] == uses;
    filter.Flush();
  }

  lemma CountedMore(uses: seq<Use>, i: nat)
    requires i < |uses|
    ensures forall w :: Counted(uses[..i], w) ==> Counted(uses[..i + 1], w)
    ensures uses[i].Count? ==> Counted(uses[..i + 1], uses[i].word)
  {
  }
}
