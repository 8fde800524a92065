# SpamProbe in Dafny

SpamProbe classifies mail by the counts of the terms it has seen in good mail and in spam. This
project models the parts of it that keep state in a clever form and are meant to act like something
simple, and proves that they do.

* **Term store.** `LruCaches` is the least-recently-used cache with its two lists; `CachedStores`
  puts it, as a write-back cache, in front of a store (`Stores`: a keyed file, or a private file laid
  over a shared one). `CacheViews` says what of the store a cache shows, `CacheRuns` that whole runs
  read through the cache what they read from the store, and `SharedTerms` that terms known only to the shared file
  stay there.
* **Hash file.** `WordArrays` packs records into bytes, `ProbeTables` is linear probing on values,
  `HashDataFiles` the probe loops over the bytes, and `HashStores` the database kept in such a file,
  with its sweep. `HashRuns` has the whole runs: without a cleaner they cannot be told from runs on
  a finite map, and with one a word never reads as anything that was not written for it.
* **Message ledger.** `Ledgers` adds up what the filed messages call for. `FrequencyDBs` keeps the
  counts equal to it through adding, removing and touching; a sweep may take terms out, but leaves the
  digests and the message counters exact, and so does everything after it. `SpamFilters` drives that
  by classifying and training, with scores left open.
* **MD5.** `Md5` shows the streaming digest equal to the fold of RFC 1321 over the padded message,
  for any compression function.
* **Configuration language.** `HdlTokens` and `HdlParsers` are the tokenizer and the recursive-descent
  parser, proved against the functions `Lex` and those of `HdlGrammars`; `HdlPrinters` is the printer,
  `HdlRoundTrips` puts the two together, and `HdlNumbers` goes back to the numbers in a text.
* **Text.** `CharReaders` reads characters over many lines, `WordTokenizers` and
  `PhrasingTokenizers` turn them into words and phrases, and `Base64` and `QuotedPrintables` decode
  mail bodies.

`WordCounts` holds the term record and the expiry rules; `Characters` and `Options` are small helpers.

The objects of the program are classes here, with its fields and loops; each is proved against
functions on values, and the main results are stated of those functions or of whole runs.
`dafny verify dfyconfig.toml` checks everything.

Some promises do not hold of the code as they are made, and are stated with the exact condition:

* Over a shared store a read through the cache can differ from one of the store. Right after a write
  it does so exactly when a record without counts is written for a word that may be cached and that
  the shared side has: the cache then shows zeros, the store its shared record (`WriteThenRead`).
  Over whole runs, no other word is ever affected (`RunCached`).
* With the auto-cleaner a key can come to hold two slots, and a sweep can then bring back its older
  value (`SweepBringsBack`). A sweep is right exactly when, before it, each key reads the last kept
  record of it in the order of the file (`SweepExact`). Without the cleaner each key has one slot,
  and every sweep is right.
* Printing and parsing is the identity exactly on trees without doubles, negative numbers, strings
  with both quotes, improper names and children of plain statements (`RoundTrip`). For parsed trees
  that depends on the numbers in the text alone: a decimal point, or a number too large for an int
  that is read as a negative one, is not printed so that it could be read (`Normalisation`,
  `TooLarge`).
* The window of the phrase tokenizer holds as many words as the minimum character length says. It
  loses phrases of the history exactly when a phrase of more words than that can be within the limits
  (`WindowExact`). In a window of one word the assertion in `charsStart` does not hold from the second
  word on (`PopOldest`), and the buffer is never compacted.
* A sweep of the keyed file keeps the digests of filed messages (`FrequencyDB.SweepOutOldTerms`). The
  sweep of the hash file sees keys alone: it keeps the message counter, but a digest goes like any other
  word once a limit covers its record (`HashStore.SweepOutOldTerms`).
* Quoted-printable text comes back exactly when no control character other than white space was
  escaped (`QuotedPrintables.RoundTrip`).

## Model

| member | source | states |
|---|---|---|
| `WordCounts.WordData.AdjustGood` | src/includes/WordData.h:106-112 | Adds to the good count, stopping at zero, and leaves the spam count and the flags alone. |
| `WordCounts.WordData.AdjustSpam` | src/includes/WordData.h:114-120 | The same for the spam count. |
| `WordCounts.WordData.AdjustDate` | src/includes/WordData.h:138-142 | Sets the low 16 bits of the flags to the day; counts and the other flag bits stay. |
| `WordCounts.CleanupManager.ShouldDelete` | src/database/CleanupManager.cc:56-70 | True exactly when some limit covers both the total and the age of the record. |
| `LruCaches.LRUCache.Get` | src/includes/LRUCache.h:222-239 | Answers what the index holds; a hit on an unlocked node, and nothing else, moves it to the front of the normal list. |
| `LruCaches.LRUCache.Put` | src/includes/LRUCache.h:241-256 | A known key keeps its place unless its lock changes; a new one evicts only the oldest unlocked nodes that are too many. Keeps the counters equal to the list lengths, each node in exactly the list of its flag, and the normal list in order of last hit, insertion or unlock. |
| `LruCaches.LRUCache.AddNewNode` | src/includes/LRUCache.h:286-304 | The insertion of a new key, with the evictions it needs. |
| `LruCaches.LRUCache.EliminateOldObjects` | src/includes/LRUCache.h:356-363 | Removes exactly a tail of the normal list, never a locked node. |
| `LruCaches.Kept` | src/includes/LRUCache.h:356-363 | How many unlocked nodes survive: no more than leave room for one, and no fewer. |
| `LruCaches.LRUCache.SetLocked` | src/includes/LRUCache.h:315-340 | Moves a node to the front of the other list exactly when its lock changes, and keeps the number of nodes. |
| `LruCaches.LRUCache.RemoveNode` | src/includes/LRUCache.h:342-354 | Takes a node out of the index and out of its one list. |
| `LruCaches.LRUCache.Clear` | src/includes/LRUCache.h:268-276 | Empties the index and both lists. |
| `LruCaches.ToFront` | src/includes/LRUCache.h:231-235 | Moving an unlocked node to the front keeps the list an exact listing of the unlocked nodes. |
| `LruCaches.ListsRelock` | src/includes/LRUCache.h:315-340 | Moving a node between the lists keeps both exact listings. |
| `LruCaches.LatestFirstInsert` | src/includes/LRUCache.h:296-303 | A node put in front with the current moment keeps the list in order of last use. |
| `Stores.MapStore.WriteWord` | src/database/FrequencyDBImpl_pbl.cc:197-236 | Replaces a record, or drops it when it has no counts; no stored record is ever without counts. |
| `Stores.MapStore.SweepOutOldTerms` | src/database/FrequencyDBImpl_pbl.cc:309-360 | Whatever the limits: `__COUNT__`, every digest with counts and every other name that begins with two underscores keep their records; another word stays, unchanged, exactly when no limit covers both its total and its age; nothing is added. A digest without counts would go, but no stored record is without counts. |
| `Stores.SweptSpares` | src/database/FrequencyDBImpl_pbl.cc:321-335 | The removal rule of the code spares exactly those records. |
| `Stores.DualStore.ReadWord` | src/database/FrequencyDBImpl_dual.cc:87-102 | The private record if there is one, else the shared one, flagged as shared. |
| `Stores.DualStore.WriteWord` | src/database/FrequencyDBImpl_dual.cc:75-79 | Writes to the private side only. |
| `Stores.DualStore.BeginTransaction` | src/database/FrequencyDBImpl.h:54-56 | A transaction on a single file; none on the overlay. |
| `Stores.DualStore.EndTransaction` | src/database/FrequencyDBImpl.h:58-60 | The end of a transaction on a single file; nothing on the overlay. |
| `Stores.DualStore.SweepOutOldTerms` | src/database/FrequencyDBImpl_dual.cc:121-124 | The same on the private side only. |
| `CacheViews.CachedReading` | src/database/FrequencyDBImpl_cache.cc:145-155 | A cached record with counts is the record a reader of the store with all dirty entries written to it would get; one without counts stands for no private record. |
| `CacheViews.Evict` | src/includes/LRUCache.h:356-363 | Dropping clean entries changes nothing that can be read and loses no write. |
| `CacheViews.ReadMiss` | src/database/FrequencyDBImpl_cache.cc:157-166 | Bringing in a clean copy, with the evictions it needs, changes nothing that can be read. |
| `CacheViews.WriteMiss` | src/database/FrequencyDBImpl_cache.cc:115-120 | Inserting a dirty entry, with the evictions it needs, is a write to the visible records. |
| `CacheViews.WriteHit` | src/database/FrequencyDBImpl_cache.cc:121-138 | Replacing an entry is a write to the visible records; the writes that are skipped would have changed nothing, or only the date of a shared record. |
| `CacheViews.WriteThrough` | src/database/FrequencyDBImpl_cache.cc:109-113 | A write past the cache is a write to the visible records. |
| `CacheViews.WriteBack` | src/database/FrequencyDBImpl_cache.cc:72-74 | Writing a dirty entry back and unlocking it changes nothing that can be read. |
| `CachedStores.CachedStore.ReadWord` | src/database/FrequencyDBImpl_cache.cc:145-169 | Answers the visible record whether or not it is cached, or zeros for a shared record that a cached record without counts hides; changes no visible record and hides no more. |
| `CachedStores.CachedStore.WriteWord` | src/database/FrequencyDBImpl_cache.cc:99-143 | Updates the visible records, except for a redating of a shared record; hides the shared record of the word exactly when a cacheable word is written without counts; keeps at most the maximal number of locked nodes and at most one node more in all, and writes to the store only when it must flush or may not cache. |
| `CachedStores.CachedStore.Flush` | src/database/FrequencyDBImpl_cache.cc:64-84 | Leaves the store holding exactly the visible records, no entry dirty, and every entry cached as it was. |
| `CachedStores.CachedStore.AddWordData` | src/database/FrequencyDBImpl_cache.cc:86-92 | Inserts an entry; only clean entries can be evicted by it. |
| `CachedStores.CachedStore.Clear` | src/database/FrequencyDBImpl_cache.cc:94-97 | Emptying a cache without dirty entries changes no visible record. |
| `CachedStores.CachedStore.SweepOutOldTerms` | src/database/FrequencyDBImpl_cache.cc:190-195 | The same for the visible records, which the store then holds. |
| `CachedStores.CachedStore.WriteCached` | src/database/FrequencyDBImpl_cache.cc:115-138 | The write of a term that may be cached: the same, without the flush. |
| `CacheRuns.RunCached` | src/database/FrequencyDBImpl_cache.cc:64-195 | Cache transparency, for every run of reads, writes, flushes and sweeps over any store: the records left are the same up to dropped redatings, and each reading is the one of the same run on the store, except that a word of the shared side may read as zeros after a record without counts was written to it. Without such a write all readings are equal. |
| `CacheRuns.RunDirect` | src/database/FrequencyDBImpl_dual.cc:75-124 | The same run on the store itself, against which the cached run is measured. |
| `CacheRuns.SamePut` | src/database/FrequencyDBImpl_cache.cc:125-130 | Writes, and dropped redatings of shared records, keep the records seen through the cache those of the store up to such redatings. |
| `CacheRuns.SameSwept` | src/database/FrequencyDBImpl_cache.cc:190-195 | So do sweeps. |
| `CacheRuns.SameSeen` | src/database/FrequencyDBImpl_cache.cc:125-130 | Such records show the same counts, and over an empty shared side they are equal. |
| `CacheRuns.TransparentReads` | src/database/FrequencyDBImpl_cache.cc:145-169 | Where nothing is hidden every reading is the one of the store. |
| `CacheRuns.WriteThenRead` | src/database/FrequencyDBImpl_cache.cc:99-169 | What the cache answers right after a write is what the store would show if and only if the write has counts, or the shared side lacks the word, or the word is not cached; otherwise the cache shows zeros and the store its shared record. |
| `Ledgers.TotalTakes` | src/database/FrequencyDB.cc:313-384 | The sum that a record must hold does not depend on the order in which the filed messages are added up. |
| `Ledgers.TotalMoves` | src/database/FrequencyDB.cc:313-384 | Filing, refiling or unfiling one message moves each sum by that message alone. |
| `FrequencyDBs.FrequencyDB.AddWord` | src/database/FrequencyDB.cc:174-189 | Over any store: adds to the two counts that the word reads with, each stopped at zero; the word then shows the sums, or has no private record when both are zero; dates its record, and touches no other record. |
| `FrequencyDBs.FrequencyDB.AdjustWordCounts` | src/database/FrequencyDB.cc:281-292 | The same for one of the two counts; over a single file that count moves by the given amount or down to zero, and no other moves. |
| `FrequencyDBs.FrequencyDB.GetWordCounts` | src/database/FrequencyDB.cc:232-240 | The counts that the word reads with over any store, zeros when there is no record. |
| `FrequencyDBs.FrequencyDB.GetMessageCount` | src/database/FrequencyDB.cc:256-273 | The copies with which the message is filed, and its class. |
| `FrequencyDBs.FrequencyDB.AddMessage` | src/database/FrequencyDB.cc:313-355 | Files a message once, or once more when forced, and then dates its terms; no count is clamped. Balanced books stay balanced, and after sweeps the digests and the message counters stay exact. |
| `FrequencyDBs.FrequencyDB.RemoveMessage` | src/database/FrequencyDB.cc:357-384 | Takes a message out with all its copies. Balanced books stay balanced without any count being clamped, so that adding is undone; after sweeps the digests and the message counters stay exact. |
| `FrequencyDBs.FrequencyDB.TouchWord` | src/database/FrequencyDB.cc:162-172 | Redates exactly the record of the word, except for a cacheable one that is only shared, which stays as it is and stays shared. |
| `FrequencyDBs.FrequencyDB.TouchMessage` | src/database/FrequencyDB.cc:294-311 | The same for each term of a message in turn; no count that can be read changes, no cacheable record becomes private that was only shared, and the books stay as good as they were. |
| `FrequencyDBs.FrequencyDB.Flush` | src/database/FrequencyDB.cc:125-131 | Saves the visible records; the books stay as good as they were. |
| `FrequencyDBs.FrequencyDB.SweepOutOldTerms` | src/database/FrequencyDB.cc:410-416 | Over any store: no record of a digest and neither message counter changes, and the other records go or stay as in the store. Over a ledger: every filed message is still filed with its copies in its class, no other message is, and no term counts more than the filed messages put in. |
| `FrequencyDBs.SparedBacked` | src/database/FrequencyDBImpl_pbl.cc:321-335 | What a sweep spares keeps the digests and the message counters exact, and the terms within what the filed messages put in. |
| `FrequencyDBs.FiledOnRecord` | src/database/FrequencyDB.cc:242-273 | Books that are exact for digests and counters have each filed message on record with its copies in its class, no other message, and the number of messages of each class. |
| `FrequencyDBs.TouchedAllRedates` | src/database/FrequencyDB.cc:294-311 | Touching changes no count that can be read, and makes no cacheable record private that was only shared. |
| `FrequencyDBs.Rebalance` | src/database/FrequencyDB.cc:313-384 | The conservation law: changing one message from m to n copies, by the three kinds of updates that the code makes, takes balanced counts to balanced counts; and counts from which terms have been swept to counts that are exact for digests and counters and no larger than the filed messages call for. |
| `FrequencyDBs.ClampTwice` | src/database/FrequencyDB.cc:281-292 | Changes of one sign that are stopped at zero one after the other are one change stopped at zero. |
| `FrequencyDBs.RemovalCovered` | src/database/FrequencyDB.cc:369-372 | The counts hold at least what a filed message has put into them, so that taking it out never meets the clamp. |
| `FrequencyDBs.DigestRecord` | src/database/FrequencyDB.cc:263-272 | The record of a digest is one-sided: the copies in the class the message is filed in, zero in the other; sweeps or not. |
| `FrequencyDBs.CounterRecord` | src/database/FrequencyDB.cc:242-246 | `__COUNT__` holds in each class the number of messages filed in it; sweeps or not. |
| `SharedTerms.RunUses` | src/database/FrequencyDBImpl_cache.cc:121-138 | However reads, touches, writes of other counts and flushes are mixed, a cacheable term that only the shared store had and that no use gave counts of its own is not in the private store when the run is saved. |
| `SpamFilters.SpamFilter.EnsureMessage` | src/spamprobe/SpamFilter.cc:438-458 | Files a message under one class and takes it out of the other; no other message is affected. |
| `SpamFilters.SpamFilter.ClassifyMessage` | src/spamprobe/SpamFilter.cc:460-494 | Terminates whatever the scores are, with measure 25 minus the copies. The message ends up in the requested class alone, with between one copy and the larger of 25 and what it had there; and at the end either the score is within 0.005 of certainty, 0.15 in the alternative mode, or there are 25 copies. Balanced books stay balanced. |
| `SpamFilters.SpamFilter.TrainOnMessage` | src/spamprobe/SpamFilter.cc:497-526 | Classifies when there are fewer than 1500 messages of the class or fewer than of the other, or the score is wrong or further from certainty than 0.005; else leaves the ledger as it is and redates the terms exactly when that is asked for. |
| `SpamFilters.RunCommands` | src/spamprobe/SpamFilter.cc:438-526 | Over every run of classifying, training, filing, removing, touching, sweeping and flushing: in every state each filed message is on record with its copies in its class, the message counters are right, no term counts more than the filed messages put in, and only messages of the run are newly filed. Without sweeps the books balance and no count is ever clamped. |
| `WordArrays.RecordRoundTrip` | src/database/WordArray.cc:63-117 | A record read back has the key modulo 2^32, the counts modulo 2^24 and the flags modulo 2^16. |
| `WordArrays.RecordBytes` | src/database/WordArray.cc:80-103 | Which byte of which field is where: bytes 0 to 3 are the key, 4 to 6 the good count, 7 to 9 the spam count, 10 and 11 the flags, each least significant byte first. |
| `WordArrays.SlotBytes` | src/database/WordArray.cc:63-78 | The fields in terms of the twelve bytes. |
| `WordArrays.WordArray.CopyToArray` | src/database/WordArray.cc:94-103 | Stores the low bytes of a number and changes no other byte. |
| `WordArrays.WordArray.CopyFromArray` | src/database/WordArray.cc:105-117 | Assembles the number from its bytes. |
| `WordArrays.WordArray.WriteWord` | src/database/WordArray.cc:80-92 | Overwrites the twelve bytes of one record and no byte outside them. |
| `WordArrays.WordArray.ReadWord` | src/database/WordArray.cc:63-78 | The record in the bytes of one slot. |
| `WordArrays.WordArray.ReadKey` | src/database/WordArray.cc:52-61 | The key in the bytes of one slot. |
| `WordArrays.RecordReplaced` | src/database/WordArray.cc:80-92 | Replacing the bytes of one record changes that slot and no other. |
| `WordArrays.SlotRange` | src/database/WordArray.cc:63-78 | Whatever the bytes, a record read from them is stored again unchanged. |
| `ProbeTables.LookupReaches` | src/database/HashDataFile.cc:306-330 | Without holes in the probe chains a lookup succeeds exactly for the keys that occupy a slot. |
| `ProbeTables.WrittenNoHoles` | src/database/HashDataFile.cc:266-304 | No write makes a hole in a probe chain, with or without a cleaner. |
| `ProbeTables.WrittenLookup` | src/database/HashDataFile.cc:266-304 | A key reads back what a successful write gave it. |
| `ProbeTables.WriteEffect` | src/database/HashDataFile.cc:266-304 | With a cleaner: the written key reads back, and the only other key whose lookup can change is one whose record was stale and has been overwritten; it then reads the next record of it behind that slot, or nothing. |
| `ProbeTables.WrittenPlace` | src/database/HashDataFile.cc:266-304 | A write goes to the first slot, counted cyclically from the key modulo the size, that is empty, holds the key or is stale. |
| `ProbeTables.WriteFails` | src/database/HashDataFile.cc:266-304 | A write fails if and only if the key is absent, every slot is taken and no record is stale. |
| `ProbeTables.LookupContents` | src/database/HashDataFile.cc:306-330 | Lookup is lookup in a finite map. |
| `ProbeTables.WriteRefines` | src/database/HashDataFile.cc:266-304 | Without a cleaner a write is the update of that map, and each key keeps at most one slot. |
| `ProbeTables.WriteFailsFull` | src/database/HashDataFile.cc:266-304 | Without a cleaner a write fails if and only if the key is absent and there are as many records as slots. |
| `ProbeTables.RehashedContents` | src/database/FrequencyDBImpl_hash.cc:302-317 | The copying loop always finds room and holds exactly the kept records. |
| `ProbeTables.RehashedLookup` | src/database/FrequencyDBImpl_hash.cc:302-317 | After the sweep each key reads the last kept record of it in the order of the file. |
| `ProbeTables.SweepExact` | src/database/FrequencyDBImpl_hash.cc:302-317 | For every table: the sweep is right, each key reading its old record if that is kept and nothing otherwise, if and only if before it each key reads the last kept record of it. |
| `ProbeTables.SweepLookup` | src/database/FrequencyDBImpl_hash.cc:302-317 | So it is where each key has one slot. |
| `ProbeTables.SweepUndoes` | src/database/FrequencyDBImpl_hash.cc:302-317 | For a table of any size: a key that takes over a stale slot before its own reads the new record, and the sweep brings back the old one. |
| `HashDataFiles.HashDataFile.Write` | src/database/HashDataFile.cc:266-304 | The probe loop over the bytes refines the write of the table; headers stay, and success is exactly finding a slot. |
| `HashDataFiles.HashDataFile.MayOverwrite` | src/database/HashDataFile.cc:273-282 | A probe may write at a slot that is empty, holds its key, or holds a record that the cleaner gives up. |
| `HashDataFiles.HashDataFile.Read` | src/database/HashDataFile.cc:306-330 | The probe loop over the bytes refines the lookup. |
| `HashDataFiles.HashDataFile.Initialize` | src/database/HashDataFile.cc:98-113 | The layout: the largest table size on offer that fits the given size. |
| `HashDataFiles.HashDataFile.OpenNew` | src/database/HashDataFile.cc:115-128 | A new file consists of empty records. |
| `HashDataFiles.HashDataFile.CopyHeadersToFile` | src/database/HashDataFile.cc:332-340 | The headers of the other file become the same; its table is unchanged. |
| `HashDataFiles.HashDataFile.WriteHeader` | src/database/HashDataFile.cc:244-253 | Writes one header record and leaves the table alone. |
| `HashDataFiles.ComputeDivisorForMaxElements` | src/database/HashDataFile.cc:75-84 | The largest size on offer within the limit, or the smallest on offer. |
| `HashDataFiles.DivisorFixpoint` | src/database/HashDataFile.cc:98-106 | A size on offer is its own answer. |
| `HashDataFiles.Ascending` | src/database/HashDataFile.cc:49-71 | The sizes on offer ascend. |
| `HashStores.HashStore.constructor` | src/database/FrequencyDBImpl_hash.cc:68-80 | An empty table behind a file header, with or without the built-in cleaner. |
| `HashStores.AutoCleaner` | src/database/FrequencyDBImpl_hash.cc:72-79 | The four limits of the built-in cleaner. |
| `HashStores.HashStore.WriteWord` | src/database/FrequencyDBImpl_hash.cc:145-166 | The counter goes to its header, any other word to the table under its key; fails with the word exactly when there is no room. |
| `HashStores.HashStore.ReadWord` | src/database/FrequencyDBImpl_hash.cc:168-193 | The counter from its header, any other word by lookup of its key. |
| `HashStores.HashStore.NextWord` | src/database/FrequencyDBImpl_hash.cc:239-255 | The next record with a positive total, in the order of the file: every record passed over has none. |
| `HashStores.HashStore.AllWords` | src/database/FrequencyDBImpl_hash.cc:227-255 | Going through the file lists each record with a positive total once, after the counter. |
| `HashStores.ListedExact` | src/database/FrequencyDBImpl_hash.cc:239-255 | A record with a positive total is listed as often as the table has it, any other never. |
| `HashStores.HashStore.OpenMirror` | src/database/FrequencyDBImpl_hash.cc:294-297 | A file made for the size of another one has the same layout. |
| `HashStores.HashStore.CopyToNewDataFile` | src/database/FrequencyDBImpl_hash.cc:281-320 | The copy has the same number of slots and the same headers, no write into it fails, and its table is the rehashed one. |
| `HashStores.HashStore.SweepOutOldTerms` | src/database/FrequencyDBImpl_hash.cc:262-279 | Afterwards each key looks up to its old record if that has counts and is not expired, and to nothing otherwise, if and only if before it each key read the last kept record of it; always so for a table without duplicates. Size, headers and cleaner stay. |
| `HashRuns.KeptFilters` | src/database/FrequencyDBImpl_hash.cc:302-317 | What the copying loop keeps of a table is what filtering its map keeps. |
| `HashRuns.RunStore` | src/database/FrequencyDBImpl_hash.cc:145-320 | Every run of writes, reads and sweeps on a database without a cleaner gives the answers, and leaves the records, of a finite map from keys to stored records that has room for as many keys as there are slots. |
| `HashRuns.SweepBringsBack` | src/database/FrequencyDBImpl_hash.cc:262-317 | The sweep that goes wrong, on a database with the built-in cleaner, a size on offer and two days: a word whose good count was 4 reads 3 again after a sweep by the same limits. |
| `HashRuns.WriteOvertaking` | src/database/HashDataFile.cc:266-304 | The writes before it: a word takes over the stale record of another one that its probe meets first. |
| `HashRuns.RunAny` | src/database/FrequencyDBImpl_hash.cc:145-320 | Every run on any database, with a cleaner or without, on whatever days: a word reads as nothing or as something that was written under its key, and as what was last written when no other record was written and no sweep made since. |
| `HashRuns.PerformAny` | src/database/FrequencyDBImpl_hash.cc:145-320 | One operation of such a run: every record of the table was there before or is the one written, and a successful write reads back. |
| `HashRuns.Perform` | src/database/FrequencyDBImpl_hash.cc:145-320 | One operation on the database is one step of that map. |
| `Md5.State.constructor` | src/utility/md5.c:312-320 | The initial registers and an empty message. |
| `Md5.State.Append` | src/utility/md5.c:322-358 | Keeps the registers the fold over the whole blocks of all bytes so far, the buffer the rest, and the two words the bit length modulo 2^64. |
| `Md5.State.FillPartial` | src/utility/md5.c:339-349 | Fills the buffer, and takes it into the registers exactly when it is full. |
| `Md5.State.TakeRest` | src/utility/md5.c:351-357 | Takes in all whole blocks and leaves the rest in the buffer. |
| `Md5.CounterStep` | src/utility/md5.c:333-337 | Adding to the low word with a carry seen by wrapping, and to the high word, adds to the 64-bit length. |
| `Md5.PadLength` | src/utility/md5.c:375-376 | The padding taken from the table is that of section 3.1 of RFC 1321. |
| `Md5.LengthBytes` | src/utility/md5.c:372-374 | The eight bytes taken from the two words are those of section 3.2 of RFC 1321. |
| `Md5.State.Finish` | src/utility/md5.c:360-381 | The digest of the message: the fold of the compression over the padded message; byte i of the digest is byte i % 4, least significant first, of register i / 4. |
| `Md5.OutputBytes` | src/utility/md5.c:379-380 | Which byte of which register is where in the digest. |
| `Md5.InitialBytes` | src/utility/md5.c:312-320 | The initial registers, in order, are the bytes 01 23 45 67 89 ab cd ef fe dc ba 98 76 54 32 10 of section 3.3 of RFC 1321. |
| `Md5.FoldAppend` | src/utility/md5.c:351-353 | Folding whole blocks in two parts is folding them at once. |
| `Md5.PaddedBlocks` | src/utility/md5.c:375-378 | A padded message consists of whole blocks. |
| `Md5.PaddedInjective` | src/utility/md5.c:375-378 | Different messages are padded differently, below 2^61 bytes. |
| `Md5.DigestChunks` | src/utility/md5.c:322-381 | However a message is cut into appends, the digest is that of the whole message. |
| `HdlTokens.StringReader.Forward` | src/input/StringReader.cc:56-74 | Moves on by one character; at the end the last character stays current. |
| `HdlTokens.HdlTokenizer.NextToken` | src/hdl/HdlTokenizer.cc:57-102 | The next token, semicolon, end or error of the text, as the lexical specification has it; terminates on every text. |
| `HdlTokens.HdlTokenizer.ReadNumber` | src/hdl/HdlTokenizer.cc:125-157 | The number at the front of the text, or the error for what follows it. |
| `HdlTokens.HdlTokenizer.ReadIdentifier` | src/hdl/HdlTokenizer.cc:159-176 | The identifier at the front of the text, or the error for what follows it. |
| `HdlTokens.HdlTokenizer.ReadString` | src/hdl/HdlTokenizer.cc:178-207 | The string at the front of the text, or the error for its missing end or for what follows it. |
| `HdlTokens.HdlTokenizer.SkipToEOL` | src/hdl/HdlTokenizer.cc:104-109 | A comment ends at the end of its line; one that the text ends in is judged by its last character. |
| `HdlTokens.HdlTokenizer.OnInvalidInterTokenCharacter` | src/hdl/HdlTokenizer.cc:111-123 | True exactly when neither the end nor a semicolon nor white space follows. |
| `HdlTokens.Atoi` | src/hdl/HdlTokenizer.cc:153-153 | The number itself when it fits an int; else its low 32 bits as a signed number, or -1 from 2^63 - 1 on. |
| `HdlTokens.PointMoves` | src/hdl/HdlTokenizer.cc:151-151 | The value of a number with a decimal point: moving the point over a digit divides by ten, and a point at the end changes nothing. |
| `Characters.Classes` | src/includes/util.h:112-130 | The digits, letters and spaces of the C locale, by their members. |
| `HdlParsers.HdlParser.Parse` | src/hdl/HdlParser.cc:55-69 | Yields the statement, the rest of the text and the errors that the grammar specifies; terminates on every text. |
| `HdlParsers.HdlParser.ParseBlock` | src/hdl/HdlParser.cc:71-89 | The loop over the children of a block follows the grammar at any depth. |
| `HdlParsers.HdlParser.ParseStatement` | src/hdl/HdlParser.cc:114-124 | A name other than begin and end, and its arguments. |
| `HdlParsers.HdlParser.ParseArgumentsForStatement` | src/hdl/HdlParser.cc:126-149 | The tokens up to the semicolon, or the first error. |
| `HdlParsers.HdlParser.SkipAndEnsureIdentifier` | src/hdl/HdlParser.cc:101-112 | An identifier, or the error for what is there. |
| `HdlParsers.HdlParser.SkipAndEnsureSemiColon` | src/hdl/HdlParser.cc:91-99 | A semicolon, or the error for what is there. |
| `HdlPrinters.HdlPrinter.PrintStatement` | src/hdl/HdlPrinter.cc:135-155 | Appends the printed form of the tree and comes back to its depth, at the start of a line. |
| `HdlPrinters.HdlPrinter.PrintToken` | src/hdl/HdlPrinter.cc:123-133 | Appends the printed form of one token; a double is printed as an empty string. |
| `HdlPrinters.HdlPrinter.AddString` | src/hdl/HdlPrinter.cc:95-103 | Quotes a string by what it holds. |
| `HdlPrinters.HdlPrinter.PrintIndent` | src/hdl/HdlPrinter.cc:157-166 | Indents at the start of a line only. |
| `HdlPrinters.LeadRepeats` | src/hdl/HdlPrinter.cc:157-166 | The indentation is followed by one increment for each level. |
| `HdlPrinters.HdlPrinter.BeginBlock` | src/hdl/HdlPrinter.cc:55-60 | Opens a block and goes one deeper. |
| `HdlPrinters.HdlPrinter.EndBlock` | src/hdl/HdlPrinter.cc:62-68 | Goes back and closes a block. |
| `HdlRoundTrips.PrintParses` | src/hdl/HdlPrinter.cc:135-155 | What the parser makes of any printed tree: the tree with doubles read as empty strings, or the error for a minus sign, leaving the text behind it. |
| `HdlRoundTrips.RoundTrip` | src/hdl/HdlPrinter.cc:135-155 | For every tree, depth and white-space indentation: printing and parsing gives the tree back and consumes exactly its text if and only if the tree is printable. |
| `HdlRoundTrips.PrintAndParse` | src/hdl/HdlPrinter.cc:135-155 | What the printer writes of a statement the parser reads as that statement if and only if it is printable. |
| `HdlRoundTrips.ParseProper` | src/hdl/HdlParser.cc:55-149 | Every accepted statement has proper names, strings that do not hold both quotes, and children under blocks only. |
| `HdlRoundTrips.ParsedNormalisation` | src/hdl/HdlPrinter.cc:135-155 | Parsing what was printed of a parsed statement gives it again if and only if it holds no double and no negative number. |
| `HdlNumbers.ParseNumbers` | src/hdl/HdlTokenizer.cc:125-157 | A parsed statement holds neither if and only if each number in its text is written without a decimal point and is not read as negative. |
| `HdlNumbers.Normalisation` | src/hdl/HdlPrinter.cc:135-155 | Parse, print and parse is parse if and only if each number in the text is written without a decimal point and is not read as negative; so it is when each fits an int. |
| `HdlNumbers.TooLarge` | src/hdl/HdlTokenizer.cc:153-153 | Every number beyond the ints and within 32 bits, such as 2147483648, is read as negative, and what is printed for it is refused. |
| `HdlGrammars.FinalComment` | src/hdl/HdlTokenizer.cc:87-94 | A text that ends in a comment while more is needed is refused; the last character of the comment decides only with which error. |
| `CharReaders.Join` | src/utility/AbstractMultiLineString.cc:53-60 | Appends every line and its terminator, in order. |
| `CharReaders.Position.EnsureCharReady` | src/input/SimpleMultiLineStringCharReader.cc:129-158 | Normalises a place without moving it: ready exactly inside the joined text, and then at its character; terminates over any number of empty lines. |
| `CharReaders.CharReader.Skip` | src/input/SimpleMultiLineStringCharReader.cc:185-192 | Moves by the given distance in the joined text and answers whether it is still inside; a failing skip leaves the current character. |
| `CharReaders.CharReader.Forward` | src/input/SimpleMultiLineStringCharReader.cc:180-183 | The same for one character. |
| `CharReaders.CharReader.HasChar` | src/input/SimpleMultiLineStringCharReader.cc:194-197 | Once reading has begun, true exactly inside the text; before that it only tells whether there are lines. |
| `CharReaders.CharReader.AtEnd` | src/input/SimpleMultiLineStringCharReader.cc:199-202 | Once reading has begun, true exactly past the text. |
| `CharReaders.CharReader.CreateMark` | src/input/SimpleMultiLineStringCharReader.cc:209-212 | A copy of the place. |
| `CharReaders.CharReader.ReturnToMark` | src/input/SimpleMultiLineStringCharReader.cc:214-218 | Restores the place and the current character of the mark, whatever was read since. |
| `CharReaders.Position.CopyPosition` | src/input/SimpleMultiLineStringCharReader.cc:52-65 | Every field is taken over. |
| `CharReaders.ReadAll` | src/input/SimpleMultiLineStringCharReader.cc:129-192 | Reading to the end yields exactly what was left of the joined text: from a new reader, all of it. |
| `CharReaders.SkipOrForward` | src/input/SimpleMultiLineStringCharReader.cc:180-192 | Skipping n at once and going forward n times end at the same place with the same answer and character. |
| `WordTokenizers.RunEnds` | src/parser/SimpleTokenizer.cc:131-168 | The words of a text are the word of its first run of word characters and the words of what follows. |
| `WordTokenizers.BodyStep` | src/parser/SimpleTokenizer.cc:119-129 | What comes before the first starter of a run is no part of its word. |
| `WordTokenizers.TrimmedStep` | src/parser/SimpleTokenizer.cc:131-168 | Special characters belong to a word only once a letter follows them; a first character always does. |
| `WordTokenizers.SimpleTokenizer.ProcessStart` | src/parser/SimpleTokenizer.cc:109-117 | Forgets the last word and waits for a starter. |
| `WordTokenizers.SimpleTokenizer.ProcessInWord` | src/parser/SimpleTokenizer.cc:131-148 | The step inside a word. |
| `WordTokenizers.SimpleTokenizer.ProcessPending` | src/parser/SimpleTokenizer.cc:150-168 | The step after special characters inside a word. |
| `WordTokenizers.SimpleTokenizer.ProcessCharForState` | src/parser/SimpleTokenizer.cc:170-192 | One step of the machine: a word character extends the run, any other ends it and sends its word if it has one. |
| `WordTokenizers.SimpleTokenizer.TakeChar` | src/parser/SimpleTokenizer.cc:60-68 | The body of the loop: the words sent are those found so far. |
| `WordTokenizers.SimpleTokenizer.Tokenize` | src/parser/SimpleTokenizer.cc:54-73 | For every text the receiver gets, in order, one word for each longest run of word characters with a starter, from the first starter on and without the special characters at its end; each has the shape that `WordsShaped` says, so none holds a capital letter. |
| `WordTokenizers.WordsShaped` | src/parser/SimpleTokenizer.cc:82-107 | Every word is made of small letters, digits, percent signs, bytes above 127 and the characters .-+,_$, begins with none of these but $, and ends with none of them unless it is one character long. |
| `WordTokenizers.WordsSmall` | src/parser/SimpleTokenizer.cc:82-107 | No word is empty, and none holds a character from A to Z or a NUL. |
| `WordTokenizers.WordFound` | src/parser/SimpleTokenizer.cc:54-73 | Every string of that shape is a word, found as it is. |
| `WordTokenizers.CaseBlind` | src/parser/SimpleTokenizer.cc:104-107 | Two texts that differ only in the case of letters have the same words. |
| `WordTokenizers.WordsWithin` | src/parser/SimpleTokenizer.cc:82-107 | Every word is a piece of the text, with its capital letters made small. |
| `WordTokenizers.WordsSplit` | src/parser/SimpleTokenizer.cc:131-168 | The words of two texts with another character between them are the words of the one and the words of the other. |
| `WordTokenizers.WordsFoundAgain` | src/parser/SimpleTokenizer.cc:54-73 | The words of any text, written with spaces, are found again, the same and in the same order. |
| `PhrasingTokenizers.PhrasesEnd` | src/parser/PhrasingTokenizer.cc:98-112 | The first phrase over a limit is followed only by phrases over a limit, so that stopping there loses none. |
| `PhrasingTokenizers.PhrasesKept` | src/parser/PhrasingTokenizer.cc:89-91 | What a window leaves out are exactly the phrases with more words than it holds. |
| `PhrasingTokenizers.WindowExact` | src/parser/PhrasingTokenizer.cc:51-51 | The window gives the phrases of the whole history, for every history of non-empty words, if and only if the limits meet a condition on four numbers: the minimum character length is not positive, or no phrase that is allowed has more words than it. |
| `PhrasingTokenizers.WindowLoses` | src/parser/PhrasingTokenizer.cc:51-51 | For all other limits, a history whose phrases the window loses. |
| `PhrasingTokenizers.MarksPushed` | src/parser/PhrasingTokenizer.cc:93-95 | A new word lengthens every phrase that the offsets mark, and begins one. |
| `PhrasingTokenizers.MarksShifted` | src/parser/PhrasingTokenizer.cc:77-83 | Compaction moves no phrase. |
| `PhrasingTokenizers.PhrasingTokenizer.CharsStart` | src/parser/PhrasingTokenizer.cc:59-72 | The start of the oldest word of the window. |
| `PhrasingTokenizers.PhrasingTokenizer.CompactChars` | src/parser/PhrasingTokenizer.cc:74-84 | Leaves at most 2048 characters before the oldest word, and the same phrases; does nothing when the window is empty. |
| `PhrasingTokenizers.PhrasingTokenizer.PopOldest` | src/parser/PhrasingTokenizer.cc:89-91 | Leaves room in the window for one word; the buffer and the offsets are then empty together, as is asserted when the buffer is compacted, if and only if nothing has been received or the window is not of one word. |
| `PhrasingTokenizers.PhrasingTokenizer.ShiftOffsets` | src/parser/PhrasingTokenizer.cc:78-81 | Moves every offset by the part that is erased. |
| `PhrasingTokenizers.PhrasingTokenizer.SendPhrases` | src/parser/PhrasingTokenizer.cc:97-112 | Sends exactly the phrases of the window that are within the limits, the shortest first. |
| `PhrasingTokenizers.PhrasingTokenizer.ReceiveToken` | src/parser/PhrasingTokenizer.cc:86-113 | After each word, exactly the phrases that the kept words make with it and that are within the limits. Each is the last words of the history with single spaces between them, and is read as just those words; the buffer stays bounded, except for a window of one word, where it only grows. |
| `PhrasingTokenizers.PhrasingTokenizer.Tokenize` | src/parser/PhrasingTokenizer.cc:115-125 | The phrases of all words of a text, each made of words that follow one another with single spaces between them. |
| `PhrasingTokenizers.PhraseSpaced` | src/parser/PhrasingTokenizer.cc:93-95 | A phrase is its words with single spaces between them. |
| `PhrasingTokenizers.PhraseWords` | src/parser/PhrasingTokenizer.cc:93-95 | The words of a phrase, found again in it, are the words it was made of. |
| `PhrasingTokenizers.PhrasesJoin` | src/parser/PhrasingTokenizer.cc:97-112 | Every phrase sent after a word is the last words of the history, joined so. |
| `PhrasingTokenizers.StreamJoins` | src/parser/PhrasingTokenizer.cc:86-113 | Every phrase of a stream is joined so from words that follow one another. |
| `PhrasingTokenizers.TextPhrases` | src/parser/PhrasingTokenizer.cc:86-113 | For the words of any text and sufficient limits, the phrases are those of the whole history, and none is cut short. |
| `Base64.NextChar64` | src/parser/MimeDecoder.cc:76-106 | The next character of the alphabet or `=`, past everything else, with its value. |
| `Base64.Alphabet` | src/parser/MimeDecoder.cc:56-72 | The characters and values are those of table 1 of RFC 2045, and no other character has a value. |
| `Base64.OneNumber` | src/parser/MimeDecoder.cc:312-325 | A group stands for one number of 24 bits: the octets are its bytes and the characters its digits to the base 64, most significant first, each determined by the other. |
| `Base64.DecodeData` | src/parser/MimeDecoder.cc:304-327 | Appends the octets of the whole groups among the characters that count; what is left of a group is dropped. |
| `Base64.AppendGroup` | src/parser/MimeDecoder.cc:312-325 | The octets of one group, one less for each padding character. |
| `Base64.DecodeLines` | src/parser/MimeDecoder.cc:297-302 | Whatever octets are encoded in the lines are what is appended. |
| `Base64.GroupBack` | src/parser/MimeDecoder.cc:312-325 | The first four characters of an encoding decode to its first octets. |
| `Base64.EncodedDecodes` | src/parser/MimeDecoder.cc:309-326 | Encodings that follow one another decode to their octets in order. |
| `Base64.FilteredLines` | src/parser/MimeDecoder.cc:80-101 | Line breaks and characters that do not count make no difference. |
| `Base64.RoundTrip` | src/parser/MimeDecoder.cc:304-327 | Any lines whose counting characters are the encoding of section 6.8 of RFC 2045 of some octets decode to those octets. |
| `QuotedPrintables.UnquoteLine` | src/parser/MimeDecoder.cc:228-246 | The decoded characters of a line, whether it had anything to decode, and whether it ends. |
| `QuotedPrintables.UnquoteString` | src/parser/MimeDecoder.cc:213-259 | The decoded lines, with soft lines joined and one more at the end; the same lines when there is nothing to decode. |
| `QuotedPrintables.EscapeDecodes` | src/parser/MimeDecoder.cc:235-238 | An escape decodes to the byte whose digits it holds, or to a space for a control character other than white space. |
| `QuotedPrintables.StrayDropped` | src/parser/MimeDecoder.cc:232-239 | An '=' that no two hexadecimal digits follow stands for nothing. |
| `QuotedPrintables.LineDecodes` | src/parser/MimeDecoder.cc:221-251 | The lines that one line was written as decode to one line again, whatever is left over before them. |
| `QuotedPrintables.LineMarks` | src/parser/MimeDecoder.cc:230-242 | What a line is written as has something to decode exactly when it holds an escape, a soft break or an underscore to convert. |
| `QuotedPrintables.RoundTrip` | src/parser/MimeDecoder.cc:213-259 | Lines written with any choice of the escapes and soft breaks of section 6.7 of RFC 2045, where an escape is the two hexadecimal digits of the byte, computed from it, in either case, decode to the original lines, and one empty line when there was anything to decode, if and only if no control character other than white space was escaped and no underscore to be converted was written as it is. |

## Left out

What the model assumes:

- Assertions: the default build defines NDEBUG, so they check nothing; those that state a caller's duty are preconditions here.
- Integer width: counts, ledgers, sizes and positions are unbounded; a count that overflows an int is not modelled. `md5_append` is modelled with its shifts modulo 2^32 and pieces below 2^31 bytes.
- Keys: an unsigned long is taken as 32 bits, as `src/includes/hash.h:17` says; where it is wider, a key of 2^31 or more is sign-extended when it is read back. The hash of a word is any function to nonzero keys.
- Today: the day is a parameter, nonzero and below 2^16, as `setTodayDate` makes it.
- Messages: equal digests mean equal terms, and no term has a reserved name. Editing and import are not among the runs of the ledger.
- Characters: text is a sequence of bytes, in the C locale.

What is modelled on values, or weaker than the code could promise:

- LruCaches.LRUCache.Put: nodes are values in a map and the lists hold their keys; the shared node objects and the stored list positions, and so aliasing, are not modelled. The same goes for the entries of the cached store, which the code changes in place.
- CachedStores.CachedStore.Flush: visits the entries in any order, where the code goes by key; proved for every order.
- CachedStores.CachedStore.ReadWord: what a failed read leaves in its out-parameter is not modelled; callers see no record.
- Stores.MapStore.SweepOutOldTerms: its transactions and its cursor over the file are not modelled, nor is the truncation of long words to 254 characters.
- FrequencyDBs.FrequencyDB.AddMessage: the ledger is proved over a plain store; over a shared one the counts of both sides would have to be added.
- SpamFilters.SpamFilter.ScoreMessage: looks every term up and returns any score; the arithmetic of scores is floating point.
- HashDataFiles.HashDataFile.Write: the file is an array in memory; opening an existing file, mapping it and its errors are not modelled.
- HashStores.HashStore.SweepOutOldTerms: the new file takes the place of the old one at once; renaming and recovery are not modelled.
- HdlTokens.HdlTokenizer.ReadNumber: a number with a decimal point is an exact decimal; an integer out of range, for which the C standard says nothing, is cut as the common library does.
- HdlParsers.HdlParser.Parse: line numbers and file names in errors are not modelled, and the text comes from a string, not from a stream; a statement keeps its name as a string, not as a token.
- CharReaders.CharReader.Skip: a skip to before the start of the current line reads outside it and is excluded.
- PhrasingTokenizers.PhrasingTokenizer.Tokenize: hands the words on after they have all been found, where the code hands on each at once; neither tokenizer looks at the other's state.
- PhrasingTokenizers.PhrasingTokenizer.ReceiveToken: a window of zero words is excluded; there the code would pop from an empty deque.
- Base64.DecodeData: shifts and bitwise ors of parts without common bits are written as sums; the variant that yields a string, with control characters replaced, is not modelled.
- Md5.State.Append: the compression of a block is left open.

What is not modelled:

- The Berkeley DB, PBL and DBM files themselves, memory mapping, locks, signals and interrupts.
- The cache over a plain hash file, where colliding words share a record.
- `firstWord` and `nextWord` of the cached and the map store, `close`, and the split store.
- The mixing of the Jenkins hash and the rounds of MD5.
- The syntax checker of the configuration language and its constraint classes.
- The line and mailbox readers, and the reader over a stream, whose `hasChar` means something else than that of a string.
- The HTML, header and MIME boundary parsers, which rest on regular expressions, and the image parsers.
- Commands, options, help texts and configuration setters.
