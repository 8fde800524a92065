/** Linear probing over a cyclic table of slots, on plain values. Key zero marks an empty slot. */
module ProbeTables {
  import opened Options
  import opened WordCounts

  datatype Slot = Slot(key: nat, data: WordData)

  type Table = seq<Slot>

  /** The slot reached after p steps from the home slot of a key. */
  function At(key: nat, p: nat, size: nat): (i: nat)
    requires p < size
    ensures i < size
  {
    var home := key % size;
    if home + p < size then home + p else home + p - size
  }

  /** The number of steps from the home slot of a key to slot i. */
  function Steps(key: nat, i: nat, size: nat): (p: nat)
    requires i < size
    ensures p < size && At(key, p, size) == i
  {
    var home := key % size;
    if home <= i then i - home else i + size - home
  }

  lemma StepsAt(key: nat, p: nat, size: nat)
    requires p < size
    ensures Steps(key, At(key, p, size), size) == p
  {
  }

  /** One more step, as the probe loops compute it. */
  lemma NextStep(key: nat, p: nat, size: nat)
    requires p + 1 < size
    ensures (At(key, p, size) + 1) % size == At(key, p + 1, size)
  {
  }

  lemma FirstStep(key: nat, size: nat)
    requires size > 0
    ensures At(key, 0, size) == key % size
  {
  }

  /** The record found for a key from step p on. */
  function LookupFrom(t: Table, key: nat, p: nat): Option<WordData>
    requires p <= |t|
    decreases |t| - p
  {
    if p == |t| then None
    else
      var slot := t[At(key, p, |t|)];
      if slot.key == key then Some(slot.data) else if slot.key == 0 then None else LookupFrom(t, key, p + 1)
  }

  function Lookup(t: Table, key: nat): Option<WordData> {
    LookupFrom(t, key, 0)
  }

  /** The probe of a key may stop at this slot to write. */
  ghost predicate Takes(slot: Slot, key: nat, stale: WordData -> bool) {
    slot.key == key || slot.key == 0 || stale(slot.data)
  }

  /** The first step at or after p at which a write may stop, or the size of the table. */
  ghost function WriteStep(t: Table, key: nat, stale: WordData -> bool, p: nat): (q: nat)
    requires p <= |t|
    ensures p <= q <= |t|
    ensures q < |t| ==> Takes(t[At(key, q, |t|)], key, stale)
    ensures forall r :: p <= r < q ==> !Takes(t[At(key, r, |t|)], key, stale)
    decreases |t| - p
  {
    if p == |t| || Takes(t[At(key, p, |t|)], key, stale) then p else WriteStep(t, key, stale, p + 1)
  }

  lemma LookupUnfold(t: Table, key: nat, p: nat)
    requires p <= |t|
    ensures p == |t| ==> LookupFrom(t, key, p) == None
    ensures p < |t| ==>
      var slot := t[At(key, p, |t|)];
      LookupFrom(t, key, p) ==
        if slot.key == key then Some(slot.data) else if slot.key == 0 then None else LookupFrom(t, key, p + 1)
  {
  }

  lemma WriteStepUnfold(t: Table, key: nat, stale: WordData -> bool, p: nat)
    requires p <= |t|
    ensures p == |t| ==> WriteStep(t, key, stale, p) == |t|
    ensures p < |t| ==>
      WriteStep(t, key, stale, p) ==
      if Takes(t[At(key, p, |t|)], key, stale) then p else WriteStep(t, key, stale, p + 1)
  {
  }

  /** The table after a write; it is unchanged when the write finds no slot. */
  ghost function Written(t: Table, key: nat, data: WordData, stale: WordData -> bool): Table {
    var q := WriteStep(t, key, stale, 0);
    if q == |t| then t else t[At(key, q, |t|) := Slot(key, data)]
  }

  /** Place p of the probe of a key, counted cyclically from the key modulo the size. */
  function Place(key: nat, p: nat, size: nat): (i: nat)
    requires size > 0
    ensures i < size
  {
    (key + p) % size
  }

  /** A write goes to the first place at which it may stop. */
  lemma WrittenPlace(t: Table, key: nat, data: WordData, stale: WordData -> bool, p: nat)
    requires p < |t|
    requires forall q: nat :: q < p ==> !Takes(t[Place(key, q, |t|)], key, stale)
    requires Takes(t[Place(key, p, |t|)], key, stale)
    ensures Written(t, key, data, stale) == t[Place(key, p, |t|) := Slot(key, data)]
  {
    hide At, Place, Takes;
    forall q: nat | q < |t| ensures At(key, q, |t|) == Place(key, q, |t|) {
      AtPlace(key, q, |t|);
    }
    var s := WriteStep(t, key, stale, 0);
    assert !(s < p);
  }

  lemma {:induction false} AtPlace(key: nat, p: nat, size: nat)
    requires p < size
    ensures At(key, p, size) == Place(key, p, size)
  {
    if p > 0 {
      AtPlace(key, p - 1, size);
      NextStep(key, p - 1, size);
      OneFurther(key + p - 1, size);
    }
  }

  lemma OneFurther(n: nat, size: nat)
    requires size > 0
    ensures (n % size + 1) % size == (n + 1) % size
  {
    var q, r := n / size, n % size;
    assert n == q * size + r;
    if r + 1 < size {
      Remainder(q, r + 1, size, n + 1);
      Remainder(0, r + 1, size, r + 1);
    } else {
      assert (q + 1) * size == q * size + size;
      Remainder(q + 1, 0, size, n + 1);
      Remainder(1, 0, size, r + 1);
    }
  }

  lemma Remainder(q: nat, r: nat, m: nat, n: nat)
    requires r < m && n == q * m + r
    ensures n % m == r
  {
    var d := n / m - q;
    assert n == (n / m) * m + n % m;
    assert (n / m) * m == q * m + d * m;
    if d > 0 {
      AtLeast(d, m);
    } else if d < 0 {
      AtLeast(-d, m);
    }
  }

  lemma AtLeast(k: nat, m: nat)
    requires k > 0
    ensures k * m >= m
  {
  }

  /** No key is separated from its home slot by an empty slot. */
  ghost predicate NoHoles(t: Table) {
    forall i, q :: 0 <= i < |t| && t[i].key != 0 && 0 <= q < Steps(t[i].key, i, |t|) ==> t[At(t[i].key, q, |t|)].key != 0
  }

  /** Each key occupies at most one slot. */
  ghost predicate Unique(t: Table) {
    forall i, j :: 0 <= i < j < |t| && t[i].key != 0 ==> t[i].key != t[j].key
  }

  ghost predicate Occupied(t: Table, key: nat) {
    exists i :: 0 <= i < |t| && t[i].key == key
  }

  /** The probe of a stored key reaches it: a lookup fails exactly for the keys not stored. */
  lemma {:induction false} LookupReaches(t: Table, key: nat, p: nat)
    requires NoHoles(t) && key != 0 && p <= |t|
    requires forall r :: 0 <= r < p ==> t[At(key, r, |t|)].key != key
    ensures LookupFrom(t, key, p).Some? <==> Occupied(t, key)
    decreases |t| - p
  {
    if p == |t| {
      forall i | 0 <= i < |t| ensures t[i].key != key {
        assert At(key, Steps(key, i, |t|), |t|) == i;
      }
    } else {
      var slot := t[At(key, p, |t|)];
      if slot.key == 0 {
        forall i | 0 <= i < |t| ensures t[i].key != key {
          assert At(key, Steps(key, i, |t|), |t|) == i;
        }
      } else if slot.key != key {
        LookupReaches(t, key, p + 1);
      }
    }
  }

  /** A write leaves no hole in any probe chain. */
  lemma WrittenNoHoles(t: Table, key: nat, data: WordData, stale: WordData -> bool)
    requires NoHoles(t) && key != 0
    ensures NoHoles(Written(t, key, data, stale))
  {
  }

  /** A key reads back what was last written to it. */
  lemma {:induction false} WrittenLookup(t: Table, key: nat, data: WordData, stale: WordData -> bool, p: nat)
    requires key != 0 && p <= WriteStep(t, key, stale, 0) < |t|
    ensures LookupFrom(Written(t, key, data, stale), key, p) == Some(data)
    decreases |t| - p
  {
    var q := WriteStep(t, key, stale, 0);
    if p < q {
      assert !Takes(t[At(key, p, |t|)], key, stale);
      StepsAt(key, p, |t|);
      StepsAt(key, q, |t|);
      WrittenLookup(t, key, data, stale, p + 1);
    }
  }

  /** Changing one slot to another key changes the lookup of a key only if that slot was the one
      the lookup found. */
  lemma {:induction false} LookupKept(t: Table, at: nat, slot: Slot, key: nat, p: nat)
    requires NoHoles(t) && at < |t| && slot.key != 0 && key != 0 && slot.key != key && p <= |t|
    requires forall r :: 0 <= r < p ==> t[At(key, r, |t|)].key != key && t[At(key, r, |t|)].key != 0
    ensures LookupFrom(t[at := slot], key, p) == LookupFrom(t, key, p)
      || (t[at].key == key && LookupFrom(t, key, p) == Some(t[at].data))
    decreases |t| - p
  {
    if p < |t| {
      var i := At(key, p, |t|);
      if t[i].key == key {
      } else if t[i].key == 0 {
        LookupReaches(t, key, p);
        Vacant(t, at, slot, key, p + 1);
      } else {
        LookupKept(t, at, slot, key, p + 1);
      }
    }
  }

  /** No lookup finds a key that no slot holds. */
  lemma {:induction false} Vacant(t: Table, at: nat, slot: Slot, key: nat, p: nat)
    requires at < |t| && slot.key != key && p <= |t| && !Occupied(t, key)
    ensures LookupFrom(t[at := slot], key, p) == None
    decreases |t| - p
  {
    if p < |t| {
      assert t[At(key, p, |t|)].key != key;
      Vacant(t, at, slot, key, p + 1);
    }
  }

  /** From a step on whose slots are not the changed one, a lookup is as before. */
  lemma {:induction false} LookupBeyond(t: Table, at: nat, slot: Slot, key: nat, p: nat)
    requires at < |t| && Steps(key, at, |t|) < p <= |t|
    ensures LookupFrom(t[at := slot], key, p) == LookupFrom(t, key, p)
    decreases |t| - p
  {
    if p < |t| {
      StepsAt(key, p, |t|);
      LookupBeyond(t, at, slot, key, p + 1);
    }
  }

  /** When the slot that a lookup finds goes to another key, the lookup goes on behind it. */
  lemma {:induction false} LookupGoesOn(t: Table, at: nat, slot: Slot, key: nat, p: nat)
    requires at < |t| && key != 0 && slot.key != 0 && slot.key != key && p <= Steps(key, at, |t|)
    requires forall r :: p <= r < Steps(key, at, |t|) ==> t[At(key, r, |t|)].key != key && t[At(key, r, |t|)].key != 0
    ensures LookupFrom(t[at := slot], key, p) == LookupFrom(t, key, Steps(key, at, |t|) + 1)
    decreases |t| - p
  {
    hide At, Steps;
    if p < Steps(key, at, |t|) {
      StepsAt(key, p, |t|);
      LookupUnfold(t[at := slot], key, p);
      LookupGoesOn(t, at, slot, key, p + 1);
    } else {
      LookupUnfold(t[at := slot], key, p);
      LookupBeyond(t, at, slot, key, p + 1);
    }
  }

  /** A stored record that a lookup does not find is no record that the lookup can lose. */
  lemma {:induction false} LookupFirst(t: Table, at: nat, slot: Slot, key: nat, p: nat)
    requires NoHoles(t) && at < |t| && t[at].key == key != 0 && slot.key != 0 && slot.key != key && p <= Steps(key, at, |t|)
    ensures LookupFrom(t[at := slot], key, p) == LookupFrom(t, key, p)
      || LookupFrom(t[at := slot], key, p) == LookupFrom(t, key, Steps(key, at, |t|) + 1)
    decreases |t| - p
  {
    hide At, Steps;
    var q := Steps(key, at, |t|);
    LookupUnfold(t, key, p);
    LookupUnfold(t[at := slot], key, p);
    if p < q {
      StepsAt(key, p, |t|);
      assert t[At(key, p, |t|)].key != 0;
      if t[At(key, p, |t|)].key != key {
        LookupFirst(t, at, slot, key, p + 1);
      }
    } else {
      LookupGoesOn(t, at, slot, key, p);
    }
  }

  /** A write that succeeds is read back; the only other key whose lookup can change is one whose
      record was stale and has been overwritten, and that key then reads the next record of it
      behind that slot, if there is one; and no probe chain gains a hole. */
  lemma WriteEffect(t: Table, key: nat, data: WordData, stale: WordData -> bool)
    requires NoHoles(t) && key != 0 && WriteStep(t, key, stale, 0) < |t|
    ensures
      var t', at := Written(t, key, data, stale), At(key, WriteStep(t, key, stale, 0), |t|);
      && NoHoles(t')
      && Lookup(t', key) == Some(data)
      && forall k :: k != 0 && k != key && Lookup(t', k) != Lookup(t, k) ==>
           && k == t[at].key && Lookup(t, k) == Some(t[at].data) && stale(t[at].data)
           && Lookup(t', k) == LookupFrom(t, k, Steps(k, at, |t|) + 1)
  {
    hide At, Steps, NoHoles, Lookup;
    var t', at := Written(t, key, data, stale), At(key, WriteStep(t, key, stale, 0), |t|);
    WrittenNoHoles(t, key, data, stale);
    LookupStarts(t', key);
    WrittenLookup(t, key, data, stale, 0);
    forall k | k != 0 && k != key && Lookup(t', k) != Lookup(t, k)
      ensures k == t[at].key && Lookup(t, k) == Some(t[at].data) && stale(t[at].data)
      ensures Lookup(t', k) == LookupFrom(t, k, Steps(k, at, |t|) + 1)
    {
      LookupStarts(t, k);
      LookupStarts(t', k);
      LookupKept(t, at, Slot(key, data), k, 0);
      LookupFirst(t, at, Slot(key, data), k, 0);
    }
  }

  lemma LookupStarts(t: Table, key: nat)
    ensures Lookup(t, key) == LookupFrom(t, key, 0)
  {
  }

  /** A write fails exactly when the key is not stored, every slot is taken and none is stale. */
  lemma WriteFails(t: Table, key: nat, stale: WordData -> bool)
    requires key != 0
    ensures WriteStep(t, key, stale, 0) == |t| <==>
      forall i :: 0 <= i < |t| ==> t[i].key != key && t[i].key != 0 && !stale(t[i].data)
  {
    if WriteStep(t, key, stale, 0) == |t| {
      forall i | 0 <= i < |t| ensures !Takes(t[i], key, stale) {
        assert At(key, Steps(key, i, |t|), |t|) == i;
      }
    }
  }

  /** The records of a table in which each key has one slot. */
  ghost function Contents(t: Table): map<nat, WordData>
    requires Unique(t)
  {
    map i | 0 <= i < |t| && t[i].key != 0 :: t[i].key := t[i].data
  }

  /** Lookup is lookup in the records. */
  lemma LookupContents(t: Table, key: nat)
    requires NoHoles(t) && Unique(t) && key != 0
    ensures Lookup(t, key) == if key in Contents(t) then Some(Contents(t)[key]) else None
  {
    LookupReaches(t, key, 0);
    if Lookup(t, key).Some? {
      LookupFinds(t, key, 0);
    }
  }

  lemma {:induction false} LookupFinds(t: Table, key: nat, p: nat)
    requires p <= |t| && LookupFrom(t, key, p).Some?
    ensures exists i :: 0 <= i < |t| && t[i] == Slot(key, LookupFrom(t, key, p).value)
    decreases |t| - p
  {
    if t[At(key, p, |t|)].key != key {
      LookupFinds(t, key, p + 1);
    }
  }

  /** Without a cleaner no record is ever stale. */
  const NEVER: WordData -> bool := (w: WordData) => false

  lemma ContentsAt(t: Table, k: nat) returns (i: nat)
    requires Unique(t) && k in Contents(t)
    ensures i < |t| && t[i] == Slot(k, Contents(t)[k]) && k != 0
  {
    i :| 0 <= i < |t| && t[i].key == k && k != 0;
  }

  lemma ContentsHolds(t: Table, i: nat)
    requires Unique(t) && i < |t| && t[i].key != 0
    ensures t[i].key in Contents(t) && Contents(t)[t[i].key] == t[i].data
  {
  }

  /** Setting the one slot a key may occupy updates its record alone. */
  lemma ContentsUpdate(t: Table, at: nat, slot: Slot)
    requires Unique(t) && at < |t| && slot.key != 0 && t[at].key in {0, slot.key}
    requires forall j :: 0 <= j < |t| && j != at ==> t[j].key != slot.key
    ensures Unique(t[at := slot])
    ensures Contents(t[at := slot]) == Contents(t)[slot.key := slot.data]
  {
    var t' := t[at := slot];
    UniqueUpdate(t, at, slot);
    hide Contents, Unique;
    var c, c' := Contents(t), Contents(t');
    ContentsHolds(t', at);
    forall k | k in c && k != slot.key ensures k in c' && c'[k] == c[k] {
      var i := ContentsAt(t, k);
      ContentsHolds(t', i);
    }
    forall k | k in c' && k != slot.key ensures k in c {
      var i := ContentsAt(t', k);
      ContentsHolds(t, i);
    }
  }

  lemma UniqueUpdate(t: Table, at: nat, slot: Slot)
    requires Unique(t) && at < |t| && slot.key != 0
    requires forall j :: 0 <= j < |t| && j != at ==> t[j].key != slot.key
    ensures Unique(t[at := slot])
  {
  }

  /** Without a cleaner a write is the update of one record. */
  lemma WriteRefines(t: Table, key: nat, data: WordData)
    requires NoHoles(t) && Unique(t) && key != 0 && WriteStep(t, key, NEVER, 0) < |t|
    ensures Unique(Written(t, key, data, NEVER))
    ensures Contents(Written(t, key, data, NEVER)) == Contents(t)[key := data]
  {
    var q := WriteStep(t, key, NEVER, 0);
    var at := At(key, q, |t|);
    StepsAt(key, q, |t|);
    forall j | 0 <= j < |t| && j != at ensures t[j].key != key {
      assert At(key, Steps(key, j, |t|), |t|) == j;
      assert Steps(key, j, |t|) < q ==> !Takes(t[j], key, NEVER);
      assert t[At(key, q, |t|)] == t[at];
    }
    ContentsUpdate(t, at, Slot(key, data));
  }

  /** A table without keys, and the copy of the first n slots of t whose records are kept. */
  function Empty(size: nat): (t: Table)
    ensures |t| == size
  {
    seq(size, i => Slot(0, ZERO))
  }

  ghost function Rehashed(t: Table, keep: WordData -> bool, n: nat): (r: Table)
    requires n <= |t|
    ensures |r| == |t|
  {
    if n == 0 then Empty(|t|)
    else
      var r, slot := Rehashed(t, keep, n - 1), t[n - 1];
      if slot.key != 0 && keep(slot.data) then Written(r, slot.key, slot.data, NEVER) else r
  }

  lemma RehashedUnfold(t: Table, keep: WordData -> bool, n: nat)
    requires n <= |t|
    ensures n == 0 ==> Rehashed(t, keep, n) == Empty(|t|)
    ensures n > 0 ==>
      var r, slot := Rehashed(t, keep, n - 1), t[n - 1];
      Rehashed(t, keep, n) == if slot.key != 0 && keep(slot.data) then Written(r, slot.key, slot.data, NEVER) else r
  {
  }

  /** The kept records of the first n slots; of two records for one key, the later slot's. */
  ghost function Kept(t: Table, keep: WordData -> bool, n: nat): map<nat, WordData>
    requires n <= |t|
  {
    if n == 0 then map[]
    else
      var m, slot := Kept(t, keep, n - 1), t[n - 1];
      if slot.key != 0 && keep(slot.data) then m[slot.key := slot.data] else m
  }

  /** A table that is full of distinct keys holds as many records as it has slots. */
  lemma {:induction false} FullTable(t: Table, n: nat)
    requires Unique(t) && n <= |t| && forall i :: 0 <= i < |t| ==> t[i].key != 0
    ensures |set i | 0 <= i < n :: t[i].key| == n
  {
    var keys := set i | 0 <= i < n :: t[i].key;
    if n > 0 {
      FullTable(t, n - 1);
      var fewer := set i | 0 <= i < n - 1 :: t[i].key;
      assert t[n - 1].key !in fewer;
      assert keys == fewer + {t[n - 1].key};
    }
  }

  lemma {:induction false} KeptSize(t: Table, keep: WordData -> bool, n: nat)
    requires n <= |t|
    ensures |Kept(t, keep, n).Keys| <= n
  {
    if n > 0 {
      KeptSize(t, keep, n - 1);
      var slot := t[n - 1];
      assert Kept(t, keep, n - 1)[slot.key := slot.data].Keys == Kept(t, keep, n - 1).Keys + {slot.key};
    }
  }

  lemma FullContents(t: Table)
    requires Unique(t) && forall i :: 0 <= i < |t| ==> t[i].key != 0
    ensures |Contents(t).Keys| == |t|
  {
    FullTable(t, |t|);
    assert Contents(t).Keys == set i | 0 <= i < |t| :: t[i].key;
  }

  lemma {:induction false} KeyCount(t: Table, n: nat)
    requires n <= |t|
    ensures |set i | 0 <= i < n && t[i].key != 0 :: t[i].key| <= n
    ensures (exists i :: 0 <= i < n && t[i].key == 0) ==> |set i | 0 <= i < n && t[i].key != 0 :: t[i].key| < n
  {
    if n > 0 {
      KeyCount(t, n - 1);
      var keys := set i | 0 <= i < n && t[i].key != 0 :: t[i].key;
      var fewer := set i | 0 <= i < n - 1 && t[i].key != 0 :: t[i].key;
      assert keys == if t[n - 1].key != 0 then fewer + {t[n - 1].key} else fewer;
    }
  }

  /** Without a cleaner a write fails exactly when the key is absent and there are as many records
      as slots. */
  lemma WriteFailsFull(t: Table, key: nat)
    requires NoHoles(t) && Unique(t) && key != 0
    ensures WriteStep(t, key, NEVER, 0) == |t| <==> key !in Contents(t) && |Contents(t).Keys| == |t|
  {
    WriteFails(t, key, NEVER);
    KeyCount(t, |t|);
    assert Contents(t).Keys == set i | 0 <= i < |t| && t[i].key != 0 :: t[i].key;
    if forall i :: 0 <= i < |t| ==> t[i].key != 0 {
      FullContents(t);
    }
  }

  /** A table with fewer records than slots has room for any key. */
  lemma Room(t: Table, key: nat)
    requires Unique(t) && |Contents(t).Keys| < |t| && key != 0
    ensures WriteStep(t, key, NEVER, 0) < |t|
  {
    WriteFails(t, key, NEVER);
    if forall i :: 0 <= i < |t| ==> t[i].key != 0 {
      FullContents(t);
    }
  }

  /** The copy always finds room, and holds exactly the kept records. */
  lemma {:induction false} RehashedContents(t: Table, keep: WordData -> bool, n: nat)
    requires n <= |t|
    ensures NoHoles(Rehashed(t, keep, n)) && Unique(Rehashed(t, keep, n))
    ensures Contents(Rehashed(t, keep, n)) == Kept(t, keep, n)
    ensures n < |t| && t[n].key != 0 ==> WriteStep(Rehashed(t, keep, n), t[n].key, NEVER, 0) < |t|
  {
    if n > 0 {
      RehashedContents(t, keep, n - 1);
      var r, slot := Rehashed(t, keep, n - 1), t[n - 1];
      if slot.key != 0 && keep(slot.data) {
        WrittenNoHoles(r, slot.key, slot.data, NEVER);
        WriteRefines(r, slot.key, slot.data);
      }
    }
    KeptSize(t, keep, n);
    if n < |t| && t[n].key != 0 {
      Room(Rehashed(t, keep, n), t[n].key);
    }
  }

  lemma RehashedRoom(t: Table, keep: WordData -> bool, n: nat)
    requires n < |t| && t[n].key != 0
    ensures WriteStep(Rehashed(t, keep, n), t[n].key, NEVER, 0) < |t|
  {
    RehashedContents(t, keep, n);
  }

  // ---- the sweep of any table ----

  /** Of the slots before n that hold a kept record of one key, the last in the order of the file. */
  ghost predicate LastKept(t: Table, keep: WordData -> bool, n: nat, i: nat) {
    && i < n <= |t|
    && t[i].key != 0
    && keep(t[i].data)
    && forall j :: i < j < n && t[j].key == t[i].key ==> !keep(t[j].data)
  }

  lemma {:induction false} KeptLast(t: Table, keep: WordData -> bool, n: nat, i: nat)
    requires LastKept(t, keep, n, i)
    ensures t[i].key in Kept(t, keep, n) && Kept(t, keep, n)[t[i].key] == t[i].data
  {
    if i < n - 1 {
      KeptLast(t, keep, n - 1, i);
    }
  }

  lemma {:induction false} KeptHasLast(t: Table, keep: WordData -> bool, n: nat, k: nat) returns (i: nat)
    requires n <= |t| && k in Kept(t, keep, n)
    ensures LastKept(t, keep, n, i) && t[i].key == k
  {
    if t[n - 1].key == k && k != 0 && keep(t[n - 1].data) {
      i := n - 1;
    } else {
      i := KeptHasLast(t, keep, n - 1, k);
    }
  }

  lemma {:induction false} KeptHolds(t: Table, keep: WordData -> bool, n: nat, i: nat)
    requires i < n <= |t| && t[i].key != 0 && keep(t[i].data)
    ensures t[i].key in Kept(t, keep, n)
  {
    if i < n - 1 {
      KeptHolds(t, keep, n - 1, i);
    }
  }

  /** Each key reads the last kept record of it, where there is one. */
  ghost predicate Sweepable(t: Table, keep: WordData -> bool) {
    forall i: nat :: LastKept(t, keep, |t|, i) ==> Lookup(t, t[i].key) == Some(t[i].data)
  }

  /** Each key reads as before where its record is kept, and nothing otherwise. */
  ghost predicate SweptRight(t: Table, keep: WordData -> bool, swept: Table) {
    forall k :: k != 0 ==> SweptAt(t, keep, swept, k)
  }

  ghost predicate SweptAt(t: Table, keep: WordData -> bool, swept: Table, k: nat) {
    Lookup(swept, k) == if Lookup(t, k).Some? && keep(Lookup(t, k).value) then Lookup(t, k) else None
  }

  /** The copy reads the last kept record of each key. */
  lemma RehashedLookup(t: Table, keep: WordData -> bool, key: nat)
    requires key != 0
    ensures Lookup(Rehashed(t, keep, |t|), key) ==
      if key in Kept(t, keep, |t|) then Some(Kept(t, keep, |t|)[key]) else None
  {
    hide Kept, Rehashed, Lookup, NoHoles, Unique, Contents;
    RehashedContents(t, keep, |t|);
    LookupContents(Rehashed(t, keep, |t|), key);
  }

  /** A sweep is right if and only if, before it, each key reads the last kept record of it in the
      order of the file. */
  lemma SweepExact(t: Table, keep: WordData -> bool)
    requires NoHoles(t)
    ensures SweptRight(t, keep, Rehashed(t, keep, |t|)) <==> Sweepable(t, keep)
  {
    hide Kept, Rehashed, Lookup, NoHoles;
    var swept := Rehashed(t, keep, |t|);
    if Sweepable(t, keep) {
      forall k | k != 0 ensures SweptAt(t, keep, swept, k) {
        RehashedLookup(t, keep, k);
        if k in Kept(t, keep, |t|) {
          var i := KeptHasLast(t, keep, |t|, k);
          KeptLast(t, keep, |t|, i);
        } else if Lookup(t, k).Some? {
          LookupStarts(t, k);
          LookupFinds(t, k, 0);
          var i :| 0 <= i < |t| && t[i] == Slot(k, Lookup(t, k).value);
          if keep(t[i].data) {
            KeptHolds(t, keep, |t|, i);
          }
        }
      }
    }
    if SweptRight(t, keep, swept) {
      forall i: nat | LastKept(t, keep, |t|, i) ensures Lookup(t, t[i].key) == Some(t[i].data) {
        KeptLast(t, keep, |t|, i);
        RehashedLookup(t, keep, t[i].key);
        assert SweptAt(t, keep, swept, t[i].key);
      }
    }
  }

  /** So it is where each key has one slot. */
  lemma SweepLookup(t: Table, keep: WordData -> bool)
    requires NoHoles(t) && Unique(t)
    ensures Sweepable(t, keep) && SweptRight(t, keep, Rehashed(t, keep, |t|))
  {
    hide Rehashed, Lookup, NoHoles;
    forall i: nat | LastKept(t, keep, |t|, i) ensures Lookup(t, t[i].key) == Some(t[i].data) {
      LookupStarts(t, t[i].key);
      LookupReaches(t, t[i].key, 0);
      LookupFinds(t, t[i].key, 0);
    }
    SweepExact(t, keep);
  }

  /** A slot of the copy is a slot of the table. */
  lemma {:induction false} RehashedSlots(t: Table, keep: WordData -> bool, n: nat, i: nat)
    requires n <= |t| && i < |t| && Rehashed(t, keep, n)[i].key != 0
    ensures Rehashed(t, keep, n)[i] in t
  {
    hide At, WriteStep;
    if n > 0 {
      RehashedUnfold(t, keep, n);
      if Rehashed(t, keep, n - 1)[i].key != 0 {
        RehashedSlots(t, keep, n - 1, i);
      }
    }
  }

  /** A sweep that goes wrong: when a key takes over a stale slot before its own, it reads the new
      record there, and the sweep brings back the old one. */
  lemma SweepUndoes(size: nat, first: WordData, before: WordData, after: WordData, keep: WordData -> bool,
      early: WordData -> bool, late: WordData -> bool)
    requires size >= 2 && before != after && keep(before) && keep(after) && !early(first) && late(first)
    ensures
      var t := Written(Written(Written(Empty(size), size, first, early), 2 * size, before, early), 2 * size, after, late);
      && |t| == size
      && Lookup(t, 2 * size) == Some(after)
      && Lookup(Rehashed(t, keep, size), 2 * size) == Some(before)
      && !Sweepable(t, keep)
  {
    HomeOfMultiples(size);
    var t0 := Empty(size);
    WriteStepUnfold(t0, size, early, 0);
    var t1 := t0[0 := Slot(size, first)];
    assert Written(t0, size, first, early) == t1;
    WriteStepUnfold(t1, 2 * size, early, 0);
    WriteStepUnfold(t1, 2 * size, early, 1);
    var t2 := t1[1 := Slot(2 * size, before)];
    assert Written(t1, 2 * size, before, early) == t2;
    WriteStepUnfold(t2, 2 * size, late, 0);
    var t := t2[0 := Slot(2 * size, after)];
    assert Written(t2, 2 * size, after, late) == t;
    LookupUnfold(t, 2 * size, 0);
    assert LastKept(t, keep, size, 1);
    KeptLast(t, keep, size, 1);
    RehashedLookup(t, keep, 2 * size);
  }

  lemma HomeOfMultiples(size: nat)
    requires size >= 2
    ensures At(size, 0, size) == 0 && At(2 * size, 0, size) == 0 && At(2 * size, 1, size) == 1
  {
    assert size % size == 0;
    assert (2 * size) % size == 0;
  }
}
