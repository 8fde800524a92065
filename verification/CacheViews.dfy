/** What a cache of term records shows of the store behind it, on plain values. */
module CacheViews {
  import opened Options
  import opened WordCounts
  import opened Stores
  import opened LruCaches

  /** A cached record, and whether it was read from the shared side. */
  datatype CacheEntry = CacheEntry(isShared: bool, counts: WordData)

  /** The index of the cache: a locked node is dirty. */
  type Contents = map<string, Node<CacheEntry>>

  /** A clean entry holds what the store would answer; one without counts stands for no private
      record. */
  ghost predicate Agrees(entry: CacheEntry, stored: Option<Reading>) {
    if entry.counts.Total() > 0 then stored == Some(Reading(entry.counts, entry.isShared))
    else stored.Some? ==> stored.value.isShared
  }

  ghost predicate EntryOk(node: Node<CacheEntry>, stored: Option<Reading>) {
    var entry := node.value;
    && entry.counts.NonNegative()
    && (entry.isShared ==> entry.counts.Total() > 0)
    && (if node.isLocked then !entry.isShared else Agrees(entry, stored))
  }

  /** Dirty entries are private, clean ones agree with the store, and an entry without counts is
      private. */
  ghost predicate Coherent(c: Contents, p: Words, s: Words) {
    && Sound(p)
    && Sound(s)
    && forall w :: w in c ==> EntryOk(c[w], Overlaid(p, s, w))
  }

  predicate Dirty(c: Contents, w: string) {
    w in c && c[w].isLocked
  }

  /** A cached record without counts hides the record that the shared side has of its word. */
  predicate Hides(c: Contents, s: Words, w: string) {
    w in c && c[w].value.counts.Total() == 0 && w in s
  }

  /** The private records as the cache presents them: dirty entries override the store. */
  ghost function Effective(c: Contents, p: Words): Words {
    map w | w in p.Keys + c.Keys && (if Dirty(c, w) then c[w].value.counts.Total() > 0 else w in p)
      :: if Dirty(c, w) then c[w].value.counts else p[w]
  }

  ghost function Visible(c: Contents, p: Words, w: string): Option<WordData> {
    if Dirty(c, w) then (if c[w].value.counts.Total() > 0 then Some(c[w].value.counts) else None)
    else if w in p then Some(p[w]) else None
  }

  function Found(p: Words, w: string): Option<WordData> {
    if w in p then Some(p[w]) else None
  }

  lemma EffectiveAt(c: Contents, p: Words, w: string)
    ensures Found(Effective(c, p), w) == Visible(c, p, w)
  {
  }

  /** Records that are found alike are the same records. */
  lemma SameFound(p: Words, q: Words)
    requires forall w :: Found(p, w) == Found(q, w)
    ensures p == q
  {
    assert forall w :: (w in p <==> Found(p, w).Some?) && (w in q <==> Found(q, w).Some?);
    assert forall w :: w in p ==> p[w] == Found(p, w).value && q[w] == Found(q, w).value;
  }

  /** A cached record with counts is the record a reader of the effective store would get; one
      without counts stands for no private record. */
  lemma CachedReading(c: Contents, p: Words, s: Words, w: string)
    requires Coherent(c, p, s)
    ensures w !in c ==> Overlaid(Effective(c, p), s, w) == Overlaid(p, s, w)
    ensures w in c && c[w].value.counts.Total() > 0 ==>
      Overlaid(Effective(c, p), s, w) == Some(Reading(c[w].value.counts, c[w].value.isShared))
    ensures w in c && c[w].value.counts.Total() == 0 ==> w !in Effective(c, p)
  {
    hide Effective;
    EffectiveAt(c, p, w);
    assert w in c ==> EntryOk(c[w], Overlaid(p, s, w));
  }

  lemma EffectiveSound(c: Contents, p: Words, s: Words)
    requires Coherent(c, p, s)
    ensures Sound(Effective(c, p))
  {
    hide Effective;
    forall w | w in Effective(c, p)
      ensures Effective(c, p)[w].NonNegative() && Effective(c, p)[w].Total() > 0
    {
      EffectiveAt(c, p, w);
      assert w in c ==> EntryOk(c[w], Overlaid(p, s, w));
    }
  }

  /** Evicting clean entries loses nothing. */
  lemma Evict(c: Contents, p: Words, s: Words, gone: set<string>)
    requires Coherent(c, p, s)
    requires forall w :: w in gone ==> !Dirty(c, w)
    ensures Coherent(c - gone, p, s)
    ensures Effective(c - gone, p) == Effective(c, p)
  {
    hide Effective, EntryOk, Overlaid, Sound;
    forall w ensures Found(Effective(c - gone, p), w) == Found(Effective(c, p), w) {
      EffectiveAt(c, p, w);
      EffectiveAt(c - gone, p, w);
    }
    SameFound(Effective(c - gone, p), Effective(c, p));
  }

  lemma InsertClean(c: Contents, p: Words, s: Words, w: string)
    requires Coherent(c, p, s) && w !in c && Overlaid(p, s, w).Some?
    ensures var r := Overlaid(p, s, w).value;
      var c' := c[w := Node(CacheEntry(r.isShared, r.counts), false)];
      Coherent(c', p, s) && Effective(c', p) == Effective(c, p)
  {
    hide Effective;
    var r := Overlaid(p, s, w).value;
    var c' := c[w := Node(CacheEntry(r.isShared, r.counts), false)];
    forall v ensures Found(Effective(c', p), v) == Found(Effective(c, p), v) {
      EffectiveAt(c, p, v);
      EffectiveAt(c', p, v);
    }
    SameFound(Effective(c', p), Effective(c, p));
  }

  /** Writing into the cache is writing to the effective store. */
  lemma InsertDirty(c: Contents, p: Words, s: Words, w: string, counts: WordData)
    requires Coherent(c, p, s) && counts.NonNegative()
    ensures var c' := c[w := Node(CacheEntry(false, counts), true)];
      Coherent(c', p, s) && Effective(c', p) == Put(Effective(c, p), w, counts)
  {
    hide Effective, Overlaid, Sound, Put;
    EffectivePut(c, p, w, counts);
  }

  lemma EffectivePut(c: Contents, p: Words, w: string, counts: WordData)
    ensures Effective(c[w := Node(CacheEntry(false, counts), true)], p) == Put(Effective(c, p), w, counts)
  {
    hide Effective;
    var c' := c[w := Node(CacheEntry(false, counts), true)];
    var e, e' := Put(Effective(c, p), w, counts), Effective(c', p);
    forall v ensures Found(e', v) == Found(e, v) {
      EffectiveAt(c, p, v);
      EffectiveAt(c', p, v);
    }
    SameFound(e', e);
  }

  /** Writing one dirty entry back and marking it clean changes nothing visible. */
  lemma WriteBack(c: Contents, p: Words, s: Words, w: string)
    requires Coherent(c, p, s) && Dirty(c, w)
    ensures var c', p' := c[w := c[w].(isLocked := false)], Put(p, w, c[w].value.counts);
      Coherent(c', p', s) && Effective(c', p') == Effective(c, p)
  {
    hide Effective;
    var c', p' := c[w := c[w].(isLocked := false)], Put(p, w, c[w].value.counts);
    assert EntryOk(c[w], Overlaid(p, s, w));
    forall v | v in c' && v != w ensures EntryOk(c'[v], Overlaid(p', s, v)) {
      assert EntryOk(c[v], Overlaid(p, s, v));
    }
    forall v ensures Found(Effective(c', p'), v) == Found(Effective(c, p), v) {
      EffectiveAt(c, p, v);
      EffectiveAt(c', p', v);
    }
    SameFound(Effective(c', p'), Effective(c, p));
  }

  lemma WriteThrough(c: Contents, p: Words, s: Words, w: string, counts: WordData)
    requires Coherent(c, p, s) && w !in c && counts.NonNegative()
    ensures Coherent(c, Put(p, w, counts), s)
    ensures Effective(c, Put(p, w, counts)) == Put(Effective(c, p), w, counts)
  {
    hide Effective;
    var p' := Put(p, w, counts);
    forall v | v in c ensures EntryOk(c[v], Overlaid(p', s, v)) {
      assert EntryOk(c[v], Overlaid(p, s, v));
    }
    var e, e' := Put(Effective(c, p), w, counts), Effective(c, p');
    forall v ensures Found(e', v) == Found(e, v) {
      EffectiveAt(c, p, v);
      EffectiveAt(c, p', v);
    }
    SameFound(e', e);
  }

  /** Rewriting the cached value is no change, unless that value came from the shared side. */
  lemma Rewrite(c: Contents, p: Words, s: Words, w: string)
    requires Coherent(c, p, s) && w in c && !c[w].value.isShared
    ensures Put(Effective(c, p), w, c[w].value.counts) == Effective(c, p)
  {
    hide Effective;
    CachedReading(c, p, s, w);
    assert EntryOk(c[w], Overlaid(p, s, w));
  }

  lemma AllClean(c: Contents, p: Words)
    requires forall w :: w in c ==> !c[w].isLocked
    ensures Effective(c, p) == p
  {
  }

  lemma CachedNonNegative(c: Contents, p: Words, s: Words, w: string)
    requires Coherent(c, p, s) && w in c
    ensures c[w].value.counts.NonNegative()
  {
  }

  lemma StoredSound(c: Contents, p: Words, s: Words, w: string)
    requires Coherent(c, p, s) && Overlaid(p, s, w).Some?
    ensures Overlaid(p, s, w).value.counts.NonNegative() && Overlaid(p, s, w).value.counts.Total() > 0
  {
  }

  /** A read that missed: clean entries go, and a clean copy of the stored record comes. */
  lemma ReadMiss(c: Contents, p: Words, s: Words, gone: set<string>, w: string)
    requires Coherent(c, p, s) && w !in c && Overlaid(p, s, w).Some?
    requires forall v :: v in gone ==> !Dirty(c, v)
    ensures var r := Overlaid(p, s, w).value;
      var c' := (c - gone)[w := Node(CacheEntry(r.isShared, r.counts), false)];
      Coherent(c', p, s) && Effective(c', p) == Effective(c, p)
  {
    hide Effective, Coherent, Overlaid;
    Evict(c, p, s, gone);
    InsertClean(c - gone, p, s, w);
  }

  /** A write that missed: clean entries go, and a dirty entry comes. */
  lemma WriteMiss(c: Contents, p: Words, s: Words, gone: set<string>, w: string, counts: WordData)
    requires Coherent(c, p, s) && w !in c && counts.NonNegative()
    requires forall v :: v in gone ==> !Dirty(c, v)
    ensures var c' := (c - gone)[w := Node(CacheEntry(false, counts), true)];
      Coherent(c', p, s) && Effective(c', p) == Put(Effective(c, p), w, counts)
  {
    hide Effective, Coherent;
    Evict(c, p, s, gone);
    InsertDirty(c - gone, p, s, w, counts);
  }

  /** A write that hit: equal records and redated shared ones are skipped, others replace the entry. */
  lemma WriteHit(c: Contents, p: Words, s: Words, w: string, counts: WordData)
    requires Coherent(c, p, s) && w in c && counts.NonNegative()
    ensures c[w].value.isShared ==> w !in Effective(c, p) && w in s && s[w] == c[w].value.counts
    ensures !c[w].value.isShared && c[w].value.counts == counts ==> Put(Effective(c, p), w, counts) == Effective(c, p)
    ensures !c[w].value.isShared && w !in Effective(c, p) && w in s ==> Hides(c, s, w)
    ensures c[w].value.isShared ==> !Hides(c, s, w)
    ensures var c' := c[w := Node(CacheEntry(false, counts), true)];
      Coherent(c', p, s) && Effective(c', p) == Put(Effective(c, p), w, counts)
  {
    hide Effective;
    InsertDirty(c, p, s, w, counts);
    CachedReading(c, p, s, w);
    assert EntryOk(c[w], Overlaid(p, s, w));
    if !c[w].value.isShared {
      Rewrite(c, p, s, w);
    }
  }
}
