# StateDatabase: a verified model

This project models the parts of the repository whose correctness rests on an argument rather than on reading one
function, and proves that argument:

- **The chainbase undo stack** (`UndoStack`, `GenericIndex`, `Database`, `DatabaseObjects`).  An index is a map from id
  to row with any number of further unique keys; each undo frame is the compacted difference that the recorders keep.
  The main theorem compares every run with a reference index that keeps a full copy of the rows for each session.
  Undo and squash are given exact conditions, for the ascending id order in which the containers iterate, and sessions
  of a whole database are told apart from its own undo.
- **Contract tables** (`IteratorCache`, `ContractRows`, `ContractTables`, `ContractEntries`, `CursorWalks`, `EosDb`).
  Tables, rows of four kinds and one handle table per kind, with one invariant over all of them, cached table pointers
  included.  Every operation is described by the entries that callers see, by code, scope, table name and primary key,
  and cursor walks by the sorted table.
- **Huffman codes and Adler-32 of miniz** (`Bits`, `CanonicalCodes`, `InflateTables`, `TreeBound`, `Inflate`,
  `Deflate`, `HuffmanTree`, `HuffmanCost`, `MinimumRedundancy`, `HuffmanRoundTrip`, `Adler32`), from frequencies to a
  code of least cost, through the bit stream, to the tables of the decoder and back to the message (sections 3.2.2 of
  RFC 1951 and 2.2 of RFC 1950).
- **128-bit arithmetic** (`Words`, `Uint128`, `Division`, `DecimalText`, `Real128`): limb multiplication, the 256-bit
  product, shifts, shift-and-subtract division, decimal text, and the fixed-point numbers on top of them.
- **CRC-32C by slicing** (`Crc32c`), down to the shift register that takes one bit at a time.
- **The WebAuthn client data handler** (`WebauthnJson`), against the JSON values whose events it receives (client data
  as in section 5.8.1 of W3C Web Authentication Level 2).
- **Names** (`Names`, `CStrings`), as an order isomorphism between 64-bit values and strings.

Code that works by changing things is modelled by classes and by methods with loops; each is proved against a function
of the old state, and the theorems are lemmas about these functions.  Ids are visited in ascending order where the
order matters, as in the ordered containers of the original; the loops of `squash` are proved for any order.

`dafny verify dfyconfig.toml` checks the whole project.

## Results that differ from what the code promises

- `squash` assumes that no id is removed and created again in one frame, which nothing enforces since ids are chosen
  by callers.  `UndoStack.SquashExact` gives the exact condition, `UndoStack.SquashCanLoseARow` a reachable failure.
- `undo` aborts if a row that was changed now has the former unique key of a changed row with a smaller id, as in the
  run `UndoStack.UndoAborts`, whose modifications the container accepts.  `UndoStack.UndoSafeExact` gives the exact
  condition; `UndoStack.UndoNeverAborts` shows that what the comment on `modify` asks (chainbase.hpp:260-263), that
  changes can be undone in any order, is enough, and that kept keys are enough for that.
- A session undoes and squashes only the indices it captured when it was opened.  An index added since keeps its frame
  and falls out of step: `Databases.SessionKeepsLockstep`, with the run `Databases.SessionBreaksLockstep`.
- A handle table keeps the pointer to a table under the id of that table (eos_db.hpp:21-31), also after the table was
  deleted (eos_db.cpp:92-95).  A table created later under the same id is not cached anew, and the next removal of one of
  its rows writes through the pointer to the destroyed table; so does, reading, a step back from the end iterator of a
  deleted table.  Ids are reused since `eos_db` never sets them and they start at 0 (chainbase.hpp:93): the run
  `ContractTables.ReusedIdDangles`, with the exact conditions in `ContractTables.StoreKeeps` and
  `ContractTables.StepKeeps`.
- The count of a table has 32 bits: `ContractTables.StoreKeeps` says exactly when it overflows,
  `ContractTables.FullTable` shows a state in which it does.
- `db_store_i64` uses the primary key as row id as well, so a key can be stored only once over all tables:
  `ContractTables.KeyValueStoreSucceeds` and `ContractTables.SameKeyInAnotherTableThrows`.
- The nesting depth of the JSON handler is a 32-bit counter: `WebauthnJson.ExactNesting`, with a wrong rejection in
  `WebauthnJson.TooDeep` and a wrong value in `WebauthnJson.TakenFromBelow`; `WebauthnJson.ExactPerValue` tells for each
  value whether it is judged rightly.
- `real128` reads its whole part into 64 bits: `Real128s.RoundTrip`.
- The Huffman builder counts depths in an array of 33 entries, into which a leaf deeper than 32 does not fit.  There is
  one exactly if the node merged first has depth 32 or more (`HuffmanRoundTrip.BuildFromFrequencies`), for example
  with the frequencies 100, 100 and 32 times 65535, whose 16-bit sums wrap around (`HuffmanRoundTrip.DeepFails`).  It
  cannot happen, and the tree has least cost, if the frequencies of a block have a sum below 2^16, a condition on the
  input alone (`HuffmanTrees.Countable`).  tdefl meets it: its code buffer of at most 64 KB
  (miniz.c:843-848), which is not part of this model, ends a block before it counts that many symbols.

## Model

| member | source | states |
|---|---|---|
| UndoStack.CreateRecorded | chainbase/include/chainbase/chainbase.hpp:584-589 | recording a creation keeps the top frame an exact difference to the rows at its start, also when the id was removed earlier in the same session, and never makes an undo unsafe |
| UndoStack.ModifyRecorded | chainbase/include/chainbase/chainbase.hpp:260-269 | any change the container accepts keeps the frame an exact difference; where the undo was safe it stays so if and only if the row was born in the session or no changed row of smaller id had the new unique key at the start |
| UndoStack.RemoveRecorded | chainbase/include/chainbase/chainbase.hpp:562-582 | recording a removal keeps the frame an exact difference: rows born in the session vanish from it, changed rows keep their first value; it never makes an undo unsafe |
| UndoStack.UndoInverts | chainbase/include/chainbase/chainbase.hpp:356-381 | undoing an exact difference restores the earlier rows completely, nothing more and nothing less |
| UndoStack.UndoSafeExact | chainbase/include/chainbase/chainbase.hpp:356-381 | restoring and reinserting in ascending id order, as the containers iterate, passes every unique index on the way if and only if no surviving row now has the former key of a survivor with a smaller id |
| UndoStack.AnyOrderExact | chainbase/include/chainbase/chainbase.hpp:260-263 | what is asked of modifications, that the changes can be undone in any order, holds if and only if no surviving row has the former unique key of another survivor |
| UndoStack.UndoNeverAborts | chainbase/include/chainbase/chainbase.hpp:260-263 | changes that can be undone in any order can be undone in the order of the ids, and surviving rows that kept their unique keys can be undone in any order, even when a removed key was reused under a new id |
| UndoStack.TwoChanges | chainbase/include/chainbase/chainbase.hpp:356-381 | two changed rows: the undo is safe exactly if the second does not hold the former key of the first, and safe in any order exactly if neither holds that of the other |
| UndoStack.UndoAborts | chainbase/include/chainbase/chainbase.hpp:356-381 | counterexample: a run of accepted operations after which undo aborts, and one more accepted modification after which it is safe again |
| UndoStack.UntradedKeysOrdered | chainbase/include/chainbase/chainbase.hpp:356-381 | that condition can be read off frame and rows before the undo |
| UndoStack.MergeRecords | chainbase/include/chainbase/chainbase.hpp:401-484 | squash turns two exact differences into one exact difference over both, if every id removed and re-created in the top frame has the contents the merge expects |
| UndoStack.SquashAssertsHold | chainbase/include/chainbase/chainbase.hpp:401-484 | of the pairs of changes that the two frames can hold for one id only the possible ones occur, so the two asserts in squash never fire |
| UndoStack.SquashExact | chainbase/include/chainbase/chainbase.hpp:389-490 | the merge of two exact differences is one if and only if those contents agree; one undo after squash cannot abort and equals two undos if and only if, besides, the merged frame trades no unique key between survivors |
| UndoStack.PlainSquashComposes | chainbase/include/chainbase/chainbase.hpp:389-490 | so a squash composes whenever survivors kept their keys and no id was re-created |
| UndoStack.SquashCanLoseARow | chainbase/include/chainbase/chainbase.hpp:461-473 | counterexample: a row removed and re-created with another body in the top frame is not restored by undoing the merged frame |
| UndoStack.SquashFailureReached | chainbase/include/chainbase/chainbase.hpp:389-490 | an allowed run of five operations ends in that state |
| UndoStack.CommitDrops | chainbase/include/chainbase/chainbase.hpp:495-501 | commit drops exactly the oldest frames at or below the revision and keeps the revisions contiguous |
| UndoStack.StepSimulates | chainbase/include/chainbase/chainbase.hpp:242-520 | every operation agrees with a reference index that keeps a full copy of the rows for each open session |
| UndoStack.UndoSimulates | chainbase/include/chainbase/chainbase.hpp:356-381 | undo returns to the newest full copy, and aborts if and only if the newest frame trades a unique key between survivors |
| UndoStack.RunSimulates | chainbase/include/chainbase/chainbase.hpp:242-520 | over every run of modifications the container accepts, undos that do not abort and squashes whose contents agree, the compacted frames agree with the full copies; and at every point undoing everything is safe if and only if no frame trades a unique key on the way down |
| UndoStack.CarefulRunsNeverAbort | chainbase/include/chainbase/chainbase.hpp:242-520 | a run that checks each modification and squash by the exact condition before taking it can undo at every point, any number of times |
| UndoStack.SquashExactInRuns | chainbase/include/chainbase/chainbase.hpp:389-490 | at every reachable state the exact condition for squash holds and its two asserts do not fire |
| UndoStack.UndoThroughRestores | chainbase/include/chainbase/chainbase.hpp:356-381 | undoing down through a live frame gives exactly the copy taken when that frame was opened, and aborts if and only if a frame on the way trades a unique key |
| UndoStack.SessionRestores | chainbase/include/chainbase/chainbase.hpp:336-381 | after any run, opening a session, any further run that keeps it open, and undoing through it without an abort, rows and revision are those from before the session |
| UndoStack.InsertRefused | chainbase/include/chainbase/chainbase.hpp:242-252 | a row is refused exactly if its id is taken or some stored row has the same key in the same unique index, whichever of them it is |
| UndoStack.KeysDistinctInRuns | chainbase/include/chainbase/chainbase.hpp:242-520 | after every run no two rows have the same key in any unique index |
| GenericIndexes.GenericIndex.Create | chainbase/include/chainbase/chainbase.hpp:242-259 | inserts exactly if the id is free and no stored row has the same key in any unique index, records the id, and otherwise changes nothing |
| GenericIndexes.GenericIndex.Modify | chainbase/include/chainbase/chainbase.hpp:260-269 | takes the modify step when no other row has one of the new keys in its unique index, and aborts otherwise |
| GenericIndexes.GenericIndex.Remove | chainbase/include/chainbase/chainbase.hpp:271-274 | takes the remove step |
| GenericIndexes.GenericIndex.StartUndoSession | chainbase/include/chainbase/chainbase.hpp:336-345 | an enabled session opens an empty frame with the next revision, a disabled one nothing |
| GenericIndexes.GenericIndex.Undo | chainbase/include/chainbase/chainbase.hpp:356-381 | the three loops in ascending id order take the undo step, and reach abort if and only if the undo is not safe |
| GenericIndexes.UndoPhases | chainbase/include/chainbase/chainbase.hpp:358-377 | erasing, restoring and reinserting one id at a time adds up to the undo |
| GenericIndexes.GenericIndex.Squash | chainbase/include/chainbase/chainbase.hpp:389-490 | the rows stay as they are and the two newest frames become their merge; a single frame is dropped |
| GenericIndexes.MergeLoops | chainbase/include/chainbase/chainbase.hpp:442-484 | the loops over the top frame compute the merge of the two frames for any iteration order |
| GenericIndexes.GenericIndex.Commit | chainbase/include/chainbase/chainbase.hpp:495-501 | takes the commit step and leaves rows and revision alone |
| GenericIndexes.GenericIndex.UndoAll | chainbase/include/chainbase/chainbase.hpp:506-510 | terminates and undoes every frame, and aborts if and only if some undo on the way is not safe |
| GenericIndexes.GenericIndex.SetRevision | chainbase/include/chainbase/chainbase.hpp:512-521 | sets the revision exactly if no frame is open and it fits into 63 bits |
| GenericIndexes.GenericIndex.UndoStackRevisionRange | chainbase/include/chainbase/chainbase.hpp:530-540 | with contiguous revisions the range is from revision less stack size to revision |
| Databases.StepKeepsLockstep | chainbase/src/chainbase.cpp:41-85 | every operation of the database itself keeps one common revision range over all indices |
| Databases.AddAlwaysAllowed | chainbase/include/chainbase/chainbase.hpp:849-877 | with revisions of 63 bits a new index can always be brought to the common range |
| Databases.SessionKeepsLockstep | chainbase/include/chainbase/chainbase.hpp:766-784 | undo and squash through a session, which reach the indices captured when it was opened, equal those of the database if and only if no index was added since (or no frame is open), and keep the lockstep under that condition or if nothing was captured |
| Databases.SessionBreaksLockstep | chainbase/include/chainbase/chainbase.hpp:744-784 | counterexample: open a session, add an index, undo through the session |
| Databases.StartUntilShape | chainbase/include/chainbase/chainbase.hpp:872-875 | opening sessions one by one ends at the wanted revision with one frame for each step |
| Databases.AddedStateShape | chainbase/include/chainbase/chainbase.hpp:849-877 | an index added mid-stack is empty and has the common revision and stack size |
| Databases.DatabaseRunSimulates | chainbase/src/chainbase.cpp:41-85 | over every database run, with indices added at any time, all indices agree with their full-copy references, and each can be undone completely if and only if none of its frames trades a unique key on the way down |
| Databases.DatabaseCarefulRuns | chainbase/src/chainbase.cpp:41-85 | a database run that checks each modification and squash by the exact condition before taking it can undo all indices at every point |
| Databases.DatabaseUndoThroughRestores | chainbase/src/chainbase.cpp:41-47 | undoing the database through a live frame gives every index the rows it had when that frame was opened, empty if it was added later |
| Databases.DatabaseSessionRestores | chainbase/src/chainbase.cpp:41-85 | opening a session, any run that keeps its frame, and undoing the database through that frame gives every index its rows back and leaves later ones empty |
| Databases.SessionUndoRestores | chainbase/include/chainbase/chainbase.hpp:744-784 | undoing through the session object instead restores the indices it captured, leaves indices added since untouched, and keeps the lockstep if and only if there are none |
| DatabaseObjects.Database.StartUndoSession | chainbase/src/chainbase.cpp:73-85 | opens a session on every index, or on none, and captures these indices |
| DatabaseObjects.Database.UndoSession | chainbase/include/chainbase/chainbase.hpp:744-784 | undoing a session takes the session step on the captured indices; aborts if and only if the undo of one of them is not safe |
| DatabaseObjects.Session.Undo | chainbase/include/chainbase/chainbase.hpp:744-784 | undoes each captured index once and forgets them; aborts if and only if one of them does |
| DatabaseObjects.Session.Squash | chainbase/include/chainbase/chainbase.hpp:744-784 | squashes each captured index once and forgets them |
| DatabaseObjects.Database.Undo | chainbase/src/chainbase.cpp:41-47 | undoes every index once; aborts if and only if one undo is not safe |
| DatabaseObjects.Database.Squash | chainbase/src/chainbase.cpp:49-55 | squashes every index once |
| DatabaseObjects.Database.Commit | chainbase/src/chainbase.cpp:57-63 | commits every index |
| DatabaseObjects.Database.UndoAll | chainbase/src/chainbase.cpp:65-71 | undoes every index completely |
| DatabaseObjects.Database.AddIndex | chainbase/include/chainbase/chainbase.hpp:818-889 | for a fresh type id it succeeds exactly if the file holds no index of that name and is writable, or holds one that has the common range; keeps the lockstep, and a failing call leaves everything as it was |
| DatabaseObjects.MatchRange | chainbase/include/chainbase/chainbase.hpp:872-875 | the repair loop terminates and gives the wanted range |
| DatabaseObjects.SetRevisionStopsFirst | chainbase/include/chainbase/chainbase.hpp:512-521 | in lockstep only the first index can refuse a revision, so a failing call leaves all of them unchanged |
| IteratorCaches.CacheTableKeepsValid | eos_db.hpp:21-31 | caching keeps the handle table valid; the end iterator is below -1, decodes to its table, and never changes |
| IteratorCaches.AddKeepsValid | eos_db.hpp:79-89 | a known row keeps its handle, a new row gets a never used one, and both directions stay inverse |
| IteratorCaches.DropKeepsValid | eos_db.hpp:66-77 | only the dropped handle dies and it is never reissued |
| IteratorCaches.HandlesInjective | eos_db.hpp:94-95 | two live handles of one row are the same handle |
| IteratorCaches.IteratorCache.CacheTable | eos_db.hpp:21-31 | returns the end iterator of the table and keeps all earlier ones |
| IteratorCaches.IteratorCache.FindTableByEndIterator | eos_db.hpp:47-54 | finds the table an end iterator was issued for, none for an unknown one |
| IteratorCaches.IteratorCache.Get | eos_db.hpp:56-64 | gives the row of a live handle and fails for -1, end iterators, unknown and dropped handles |
| IteratorCaches.IteratorCache.Add | eos_db.hpp:79-89 | issues or finds the handle of a row |
| IteratorCaches.IteratorCache.Remove | eos_db.hpp:66-77 | drops a handle |
| ContractTables.StoreKeeps | eos_db.cpp:43-61 | a store of any kind keeps counts, tables, pointers and handles right if and only if its table does not already hold 2^32 - 1 rows and no table is created under an id that a handle table still caches; its result is a handle of the new row, or it throws |
| ContractTables.NewTableKeeps | eos_db.hpp:21-31 | creating a table keeps the invariant if and only if no handle table has a pointer cached under its id |
| ContractTables.StoreByScopeKeeps | eos_db.cpp:24-33 | creating a table with a value of its own does so under the same condition, and throws for a taken place or id |
| ContractTables.FullTable | eos_db.cpp:56-58 | a state with 2^32 - 1 rows in one table satisfies the invariant, and the next store into that table breaks it |
| ContractTables.UpdateKeeps | eos_db.cpp:68-79 | an update succeeds exactly on a live handle; then the row behind it has the given payer and content and its old table and key, and every other row of every kind is unchanged |
| ContractTables.RemoveKeeps | eos_db.cpp:81-98 | a removal succeeds exactly on a live handle, lowers the count of the live table through its cached pointer and kills that handle |
| ContractTables.DeleteTableKeeps | eos_db.cpp:92-95 | a table is deleted only when no row of any kind refers to it |
| ContractTables.DeletedIdStaysCached | eos_db.cpp:92-97 | the id of a deleted table stays cached with its dead pointer through every further run |
| ContractTables.OldIdDangles | eos_db.hpp:21-45 | after any store that creates a table under such an id, removing the new row decrements the count of the destroyed table object |
| ContractTables.ReusedIdDangles | eos_db.cpp:81-150 | counterexample: store, remove and store again, with the id 0 that tables have by default; the next removal, and moving back from the old end iterator, follow a pointer to the destroyed table |
| ContractTables.LiveHandle | eos_db.hpp:33-45 | the table of a row behind a live handle exists, counts it, and is cached with a pointer to this very table, so neither the cache asserts fire nor the pointer dangles |
| ContractTables.SearchFindsFirstMatch | eos_db.cpp:184-222 | the search of the whole ordered index, cut off at the table, finds the first match of that table |
| ContractTables.SeekKeeps | eos_db.cpp:167-233 | find, lower bound, upper bound and end return the first match, the end iterator of the table if there is none, and -1 without a table |
| ContractTables.NextKeeps | eos_db.cpp:112-128 | moving forward gives the next larger key of the same table, its end iterator after the last, -1 past an end iterator |
| ContractTables.PreviousFromRowKeeps | eos_db.cpp:152-164 | moving back from a row gives the next smaller key of the table, or -1 |
| ContractTables.PreviousFromEndKeeps | eos_db.cpp:134-150 | moving back from an end iterator gives the largest key of its table, or -1; it follows a dangling pointer if and only if the table was deleted |
| ContractTables.StepKeeps | eos_db.cpp:8-233 | no operation breaks the invariant as long as counts have room and created tables have ids that are not cached, none reports an uncached table, and only moving back from the end iterator of a deleted table follows a dangling pointer |
| ContractTables.RunKeeps | eos_db.cpp:8-233 | over every run in which no table reaches 2^32 rows and no table is created under a cached id, each count is the number of rows of the four kinds, no row is orphaned, all handle tables stay bijective and covered, and the pointer cached for every live table is to that table |
| ContractTables.FreshCachesInvariant | eos_db.cpp:4-6 | a database with right counts and empty handle tables satisfies the invariant |
| ContractTables.HandleNeverReissued | eos_db.hpp:79-89 | through every run a handle denotes the row it was issued for, or nothing |
| ContractTables.KeyValueStoreSucceeds | eos_db.cpp:48-54 | a key-value store succeeds if and only if no row of any table has that primary key, since the key is also used as the row id |
| ContractTables.SameKeyInAnotherTableThrows | eos_db.cpp:48-54 | counterexample: in an allowed run the same key in two tables throws at the second store |
| ContractEntries.FindTableIs | eos_db.cpp:63-66 | the table looked up is the one with this code, this scope and this name, and none is found only if no table has all three |
| ContractEntries.CreatedTableIs | eos_db.cpp:16-33 | a created table has the place, payer and value given and no rows, and is the only change to the tables |
| ContractEntries.CreatedTableFound | eos_db.cpp:10-33 | after a table was created at one place, looking up a place gives it if and only if it is the same place |
| ContractEntries.FindOrCreateIs | eos_db.cpp:8-22 | the table of the place is returned, and created with the payer and without a value exactly if there was none |
| ContractEntries.KeysApart | qos_contract_table.hpp:80-86 | within one kind no two rows have the same code, scope, table name and primary key |
| ContractEntries.StoreAdds | eos_db.hpp:194-210 | a store of any kind adds exactly the entry given, under its code, scope, name and primary key, in its kind only; it succeeds if and only if that kind has no entry under that key, the row id is free, and the table is there or can be created |
| ContractEntries.UpdateChanges | eos_db.cpp:68-79 | an update replaces payer and content of exactly one entry |
| ContractEntries.RemoveTakes | eos_db.cpp:81-98 | a removal takes exactly one entry away; the table goes with it if and only if it was a key-value entry and no entry of any kind is left at its place |
| ContractEntries.StoreByScopeCreates | eos_db.cpp:24-33 | succeeds if and only if place and id are free, then the table has the payer and value given, and no entry changes |
| ContractEntries.SeekFinds | eos_db.cpp:167-233 | the searches give the entry with the least key sought among those of the place, an end iterator if there is none, and -1 if and only if there is no table at the place |
| ContractEntries.HandleKeepsKey | eos_db.hpp:79-95 | through every run a live handle stands for the same code, scope, name and primary key, or for nothing |
| CursorWalks.WalkVisits | eos_db.cpp:112-128 | a walk from any live handle visits the keys from there on in strictly increasing order, changes no row, and ends with the end iterator |
| CursorWalks.LowerBoundWalk | eos_db.cpp:112-202 | a lower bound and repeated next visit exactly the keys of the table at or above the bound, sorted, then its end iterator |
| CursorWalks.PreviousInvertsNext | eos_db.cpp:112-165 | previous undoes next: same handle, same state, also over the end of the table |
| EosDbs.EosDb.FindOrCreateTable | eos_db.cpp:8-22 | finds or creates the table with exactly this code, scope and name; throws exactly if there is none and the id for a new one is taken |
| EosDbs.EosDb.Store | eos_db.hpp:194-210 | stores a row of any kind, and keeps the invariant if and only if the count has room and a created table has an id that is not cached |
| EosDbs.EosDb.DbStoreI64 | eos_db.cpp:43-61 | stores a key-value row under its primary key, and keeps the invariant if and only if the count has room and a created table has an id that is not cached |
| EosDbs.EosDb.DbStoreByScope | eos_db.cpp:24-33 | creates a table with a value of its own, and keeps the invariant if and only if its id is not cached |
| EosDbs.EosDb.Update | eos_db.hpp:225-233 | the row behind a live handle gets the given payer and content and keeps its table and key; keeps the invariant |
| EosDbs.EosDb.Remove | eos_db.hpp:213-224 | removes the row behind a handle, and an emptied table for key-value rows only, and keeps the invariant |
| EosDbs.EosDb.Seek | eos_db.cpp:167-233 | the four searches, keeping the invariant |
| EosDbs.EosDb.DbNextI64 | eos_db.cpp:112-128 | moves forward and keeps the invariant |
| EosDbs.EosDb.DbPreviousI64 | eos_db.cpp:130-165 | moves back and keeps the invariant; follows a dangling pointer only from the end iterator of a deleted table |
| CanonicalCodes.PrefixFree | fc/src/compress/miniz.c:1899-1906 | in a code that fits, no word of a symbol is a prefix of the word of another |
| CanonicalCodes.WordExists | fc/src/compress/miniz.c:1517-1518 | with the full sum every string of 15 bits starts with a word |
| CanonicalCodes.RfcExample | fc/src/compress/miniz.c:1899-1906 | the example of section 3.2.2 of RFC 1951 has the eight codes given there |
| InflateTables.ReverseCode | fc/src/compress/miniz.c:1525-1525 | the reversed code, sent low bit first, is the code sent high bit first |
| InflateTables.ShortKeepsTables | fc/src/compress/miniz.c:1526-1526 | entering a short code keeps look-up table and tree right for all symbols so far |
| InflateTables.RootAdded | fc/src/compress/miniz.c:1527-1527 | giving the first ten bits of a long code a node keeps the tables right |
| InflateTables.NodeAdded | fc/src/compress/miniz.c:1529-1533 | adding an inner node keeps the tables right |
| InflateTables.LeafAdded | fc/src/compress/miniz.c:1534-1534 | writing the symbol of a long code completes its path |
| TreeBound.NodesBounded | fc/src/compress/miniz.c:743-750 | the inner nodes of any accepted code fit into the overflow tree, so the builder never writes outside it |
| Inflate.CountSizes | fc/src/compress/miniz.c:1515-1515 | counts the symbols of each size |
| Inflate.NextCodes | fc/src/compress/miniz.c:1516-1517 | computes the first canonical code of each size and the sum that is compared with 65536 |
| Inflate.HuffTable.Build | fc/src/compress/miniz.c:1511-1535 | accepts exactly complete codes and codes with at most one symbol, and then look-up table and tree represent the code |
| Inflate.LookUpFinds | fc/src/compress/miniz.c:1422-1425 | the ten-bit look-up yields symbol and size of a short word, and the right tree node for a long one, whatever bits follow |
| Inflate.BranchFinds | fc/src/compress/miniz.c:1425-1425 | each tree step follows the word by one bit, inside the array, and the last one yields the symbol |
| Inflate.HuffTable.Decode | fc/src/compress/miniz.c:1422-1426 | returns the symbol whose word the buffer starts with and consumes exactly its length |
| Deflate.EnforceMaxCodeSize | fc/src/compress/miniz.c:1861-1872 | terminates with a Kraft sum of exactly 2^max and the same number of codes: longer codes are folded, then the longest shorter code is split as often as the sum is too large; nothing changes where nothing is longer |
| Deflate.LimitNeedsRoom | fc/src/compress/miniz.c:1861-1872 | without room for all symbols no limited code exists, so that requirement is needed |
| Deflate.AssignSizes | fc/src/compress/miniz.c:1894-1896 | hands out sizes by rarity: right histogram, every used symbol gets one, rarer symbols never shorter ones |
| Deflate.LimitedIsComplete | fc/src/compress/miniz.c:1894-1899 | sizes with a limited histogram form a complete code |
| Deflate.FirstCodes | fc/src/compress/miniz.c:1899-1899 | computes the first canonical code of each size |
| Deflate.AssignCodes | fc/src/compress/miniz.c:1901-1906 | every used symbol gets its canonical word, reversed, and unused ones none |
| Deflate.OptimizeHuffmanTable | fc/src/compress/miniz.c:1888-1906 | from a histogram of depths to a prefix code that the decoder accepts, using exactly the given symbols |
| MinimumRedundancy.MergeTrees | fc/src/compress/miniz.c:1843-1848 | merging in place leaves the parents that the two-queue construction gives, for any frequencies |
| MinimumRedundancy.LevelAtMostDoubles | fc/src/compress/miniz.c:1850-1856 | a level of the tree has at most twice as many nodes as the level above has inner nodes |
| MinimumRedundancy.LeavesOfLevels | fc/src/compress/miniz.c:1850-1856 | the third pass terminates, fills every slot, and yields the leaf depths of a full tree, the deepest first |
| MinimumRedundancy.CalculateMinimumRedundancy | fc/src/compress/miniz.c:1839-1857 | each slot gets the depth of its leaf in the merged tree; for ascending frequencies whose sum fits 16 bits no code at all costs less |
| MinimumRedundancy.DepthsOfLeaves | fc/src/compress/miniz.c:1850-1856 | the lengths handed out level by level are those of the leaves themselves |
| MinimumRedundancy.DeepestLeaf | fc/src/compress/miniz.c:1850-1856 | the deepest leaf is exactly one level below the node merged first |
| MinimumRedundancy.DepthsAreOptimal | fc/src/compress/miniz.c:1839-1857 | the depths have a code, and every other lengths that have one cost at least as much |
| HuffmanTrees.ParentsOfOk | fc/src/compress/miniz.c:1843-1848 | parents follow their children and never fall, and each has at most two, even if weights wrap around |
| HuffmanTrees.Grandparent | fc/src/compress/miniz.c:1843-1848 | without wrap-around a tree and its child weigh no more than its parent |
| HuffmanTrees.DepthNeedsWeight | fc/src/compress/miniz.c:1843-1848 | so a node of depth d needs a total frequency of at least the Fibonacci number d + 3 |
| HuffmanTrees.DepthBound | fc/src/compress/miniz.c:1839-1857 | ascending positive frequencies with a sum below 2^16 have no inner node below depth 21 |
| HuffmanTrees.DeepTree | fc/src/compress/miniz.c:1843-1848 | counterexample: 34 ascending frequencies of 16 bits whose sums wrap around to a chain of depth 32 |
| HuffmanCost.TakeSiblings | fc/src/compress/miniz.c:1843-1848 | in any code two lightest symbols can become siblings of the longest length at no cost |
| HuffmanCost.LeastCost | fc/src/compress/miniz.c:1843-1848 | no code for what is left to merge costs less than the merges still to come |
| HuffmanCost.TreeCost | fc/src/compress/miniz.c:1843-1856 | the depths of the leaves cost exactly what the merges weigh |
| HuffmanCost.MergedIsLeast | fc/src/compress/miniz.c:1839-1857 | the merged tree has least cost among all codes |
| HuffmanCost.WrappingCostsMore | fc/src/compress/miniz.c:1845-1847 | counterexample: with frequencies 32768, 32768, 40000, 40000 the sums wrap around and another code costs less |
| HuffmanCost.EqualsStayFlat | fc/src/compress/miniz.c:1846-1847 | of a leaf and a tree of the same weight the leaf is taken: 1, 1, 2, 2 give a tree of depth 2 |
| HuffmanRoundTrip.DepthsAreFullTree | fc/src/compress/miniz.c:1890-1890 | the histogram of those depths is what the limiter requires |
| HuffmanRoundTrip.BuildFromFrequencies | fc/src/compress/miniz.c:1886-1906 | from sorted frequencies to a code the decoder accepts; a depth exceeds 32 if and only if the first merged node is 32 deep, never if the sum is below 2^16; and if no depth exceeds the limit no code costs less |
| HuffmanRoundTrip.CountableIsShallow | fc/src/compress/miniz.c:1839-1857 | with a sum below 2^16 no leaf is deeper than 22, so the array of 33 counts is large enough |
| HuffmanRoundTrip.DeepFails | fc/src/compress/miniz.c:1888-1890 | counterexample: 34 ascending frequencies of 16 bits with a leaf of depth 33 |
| HuffmanRoundTrip.SizesAreDepths | fc/src/compress/miniz.c:1894-1896 | if no depth exceeds the limit every symbol gets the depth of its own leaf |
| HuffmanRoundTrip.SentWord | fc/src/compress/miniz.c:1413-1426 | a buffer that starts with the code of a symbol starts with no other word, whatever follows |
| HuffmanRoundTrip.Receive | fc/src/compress/miniz.c:1413-1426 | decoding a stream symbol by symbol returns the message and leaves the tail |
| HuffmanRoundTrip.RoundTrip | fc/src/compress/miniz.c:1874-1907 | building the code from frequencies, sending any message, building the tables from the sizes alone and decoding returns the message, exactly when the tree is not too deep |
| HuffmanRoundTrip.BlockRoundTrip | fc/src/compress/miniz.c:1874-1907 | for ascending positive frequencies with a sum below 2^16 every message comes back |
| Adler32.NoOverflow | fc/src/compress/miniz.c:982-986 | within 5552 bytes no 32-bit sum overflows, even from a start that is not reduced |
| Adler32.BlockIsLongest | fc/src/compress/miniz.c:979-987 | 5553 bytes can overflow, so the block length is the largest possible |
| Adler32.DelayedRemainder | fc/src/compress/miniz.c:987-987 | one remainder at the end gives what a remainder after every byte gives |
| Adler32.ChecksumConcat | fc/src/compress/miniz.c:977-990 | checksumming in pieces equals checksumming the whole |
| Adler32.MzAdler32 | fc/src/compress/miniz.c:977-990 | for every buffer and every start below 2^32 the program computes the checksum of section 2.2 of RFC 1950; a null buffer gives 1, and the result is below 2^32 for any start |
| Adler32.CheckHighBytes | fc/src/compress/miniz.c:987-987 | a literal checksum that fixes the modulus |
| Uint128s.Uint128.Less | fc/include/fc/uint128.hpp:48-48 | word-wise comparison is the order of the numbers |
| Uint128s.Uint128.Increment | fc/include/fc/uint128.hpp:54-54 | adds one modulo 2^128 with the carry |
| Uint128s.Uint128.PlusAssign | fc/include/fc/uint128.hpp:65-65 | the sum modulo 2^128, also of a number with itself |
| Uint128s.Uint128.Negated | fc/include/fc/uint128.hpp:51-51 | the negative modulo 2^128 |
| Uint128s.Uint128.MinusAssign | fc/include/fc/uint128.hpp:66-66 | the difference modulo 2^128 |
| Uint128s.Uint128.OrAssign | fc/include/fc/uint128.hpp:59-59 | word-wise or is the or of the numbers |
| Uint128s.Uint128.ShiftLeftAssign | fc/src/uint128.cpp:154-187 | a left shift by any 128-bit distance keeps exactly the low 128 bits |
| Uint128s.Uint128.ShiftRightAssign | fc/src/uint128.cpp:189-222 | a right shift by any 128-bit distance |
| Words.AndMask | fc/src/uint128.cpp:176-219 | the two masks select exactly the bits that cross the word boundary |
| Words.PairShiftedLeft | fc/src/uint128.cpp:172-183 | masking, shifting and joining two words is one left shift of the pair |
| Words.PairShiftedRight | fc/src/uint128.cpp:207-219 | masking, shifting and joining two words is one right shift of the pair |
| Uint128s.LimbSumIsProduct | fc/src/uint128.cpp:269-277 | the product is the weighted sum of ten limb products plus a multiple of 2^128 |
| Uint128s.Uint128.TimesAssign | fc/src/uint128.cpp:257-295 | the product modulo 2^128, also of a number with itself |
| Uint128s.NoLostCarry | fc/src/uint128.cpp:331-346 | the last addition of the high words cannot overflow, and the four words make up the exact product |
| Uint128s.Uint128.FullProduct | fc/src/uint128.cpp:297-349 | high result times 2^128 plus low result is the exact product of any two 128-bit numbers |
| Division.ShiftUp | fc/src/uint128.cpp:27-30 | the first loop terminates with the numerator below twice the shifted divisor, also when the top bit of the divisor is set |
| Division.ShiftDown | fc/src/uint128.cpp:32-40 | the second loop subtracts down to a remainder below the divisor and collects the quotient |
| Division.Divide | fc/src/uint128.cpp:14-45 | for every nonzero divisor numerator = quotient * divisor + remainder with remainder < divisor; zero fails |
| Division.QuotientUnique | fc/src/uint128.cpp:14-45 | these two properties leave only one quotient and remainder |
| Division.RemainderAssign | fc/src/uint128.cpp:250-255 | the remainder replaces the number; zero fails |
| DecimalText.ToString | fc/src/uint128.cpp:131-151 | prints the decimal numeral without leading zeros; 39 digits are enough, so the buffer is never exhausted |
| DecimalText.FromString | fc/src/uint128.cpp:47-117 | reads the longest numeral after sign and radix prefix, modulo 2^128; a minus sign takes the complement |
| DecimalText.ReadsDecimal | fc/src/uint128.cpp:47-117 | decimal text of any number is read as that number modulo 2^128 |
| DecimalText.DigitsAre | fc/src/uint128.cpp:77-99 | the characters accepted as digits of a radix, and their values |
| DecimalText.ReadsPrefixed | fc/src/uint128.cpp:61-120 | an octal numeral behind 0 and a hexadecimal one behind 0x, with small or capital letters and with or without a minus sign, are read as their numbers modulo 2^128 |
| DecimalText.RoundTrip | fc/src/uint128.cpp:47-151 | printing and reading returns every 128-bit number, despite the octal rule for a leading zero |
| Real128s.Real128.TimesAssign | fc/src/real128.cpp:42-50 | the exact product rounded down to 18 places, modulo 2^128 |
| Real128s.Real128.DivideAssign | fc/src/real128.cpp:29-40 | the exact quotient rounded down to 18 places, modulo 2^128; zero fails |
| Real128s.FractionQuotient | fc/src/real128.cpp:96-96 | dividing up to 18 fraction digits by their magnitude loses nothing |
| Real128s.FractionBits | fc/src/real128.cpp:85-95 | fraction and magnitude fit into 63 bits exactly up to 18 digits |
| Real128s.ReadFraction | fc/src/real128.cpp:85-95 | reads the fraction digits; overflow happens exactly beyond 18 of them |
| Real128s.Real128.ToString | fc/src/real128.cpp:100-112 | prints whole part, point and 18 digits without the zeros at the end |
| Real128s.FromString | fc/src/real128.cpp:53-99 | reads whole part (modulo 2^64) and fraction, or fails without digit and point |
| Real128s.PrintThenParse | fc/src/real128.cpp:53-112 | a printed number is read back with its fraction intact and its whole part modulo 2^64 |
| Real128s.PrintsFewestDigits | fc/src/real128.cpp:100-112 | the text is the whole part without leading zeros, a point, and the fraction in units of 10^-18 without zeros at the end |
| Real128s.RoundTrip | fc/src/real128.cpp:53-112 | printing and reading returns a number if and only if its whole part is below 2^64 |
| Crc32c.BytesXor | fc/src/crypto/crc.cpp:9-24 | the register is linear: sums of registers move on as the sum |
| Crc32c.ByTable | fc/src/crypto/crc.cpp:483-483 | one look into the first table and a shift by eight are eight steps of the shift register |
| Crc32c.AddByTable | fc/src/crypto/crc.cpp:483-483 | adding a signed byte by the table is the bit-wise definition; the sign extension is masked out |
| Crc32c.GenerateTables | fc/src/crypto/crc.cpp:9-24 | the generator fills all eight tables so that they satisfy its recurrence and have the entries spelled out for the bytes with a single bit |
| Crc32c.BitEntries | fc/src/crypto/crc.cpp:41-470 | the tables hold, for the bytes with a single bit, the numbers that the program spells out |
| Crc32c.EntryXor | fc/src/crypto/crc.cpp:9-24 | all other entries are sums of those |
| Crc32c.CheckValue | fc/src/crypto/crc.cpp:6-7 | the register of the digits 1 to 9 has the check value of CRC-32C |
| Crc32c.TableEntry | fc/src/crypto/crc.cpp:17-23 | entry b of table j is b moved on by j + 1 bytes |
| Crc32c.LoadedParts | fc/src/crypto/crc.cpp:491-505 | the four parts of a loaded word are its bytes in little-endian order |
| Crc32c.Slices | fc/src/crypto/crc.cpp:493-505 | four look-ups in consecutive tables move a whole word on |
| Crc32c.EightBytes | fc/src/crypto/crc.cpp:490-507 | eight bytes one after the other equal the two words moved on by eight and four bytes |
| Crc32c.OneBlock | fc/src/crypto/crc.cpp:491-505 | the eight look-ups of a block compute that |
| Crc32c.CrcConcat | fc/src/crypto/crc.cpp:476-514 | checksumming in pieces equals checksumming the whole |
| Crc32c.Crc32cSlicingBy8 | fc/src/crypto/crc.cpp:476-514 | for every buffer, length, alignment and start the result is the bit-wise CRC-32C register |
| WebauthnJson.HandlerReads | fc/src/crypto/elliptic_webauthn.cpp:18-182 | for every JSON value, however deep, the handler ends as a recursion over the value says: where the 32-bit depth counter has wrapped, the members that follow are taken for outermost ones |
| WebauthnJson.HandlerMeans | fc/src/crypto/elliptic_webauthn.cpp:18-182 | over the events of a JSON value nested up to 2^32 + 1 deep the handler accepts exactly objects whose challenge, origin and type members are strings, and holds the last of each |
| WebauthnJson.ExactPerValue | fc/src/crypto/elliptic_webauthn.cpp:98-148 | value by value: everything that is not such an object is judged rightly at any depth, and such an object if and only if the members that spill from its depths are strings where they must be and do not change the three results |
| WebauthnJson.ImproperIsRejected | fc/src/crypto/elliptic_webauthn.cpp:18-182 | an object whose challenge, origin or type is not a string is never accepted, at any depth |
| WebauthnJson.ExactNesting | fc/src/crypto/elliptic_webauthn.cpp:98-101 | that holds for all values up to a nesting bound if and only if the bound is at most 2^32 + 1, where the 32-bit depth counter wraps |
| WebauthnJson.TooDeep | fc/src/crypto/elliptic_webauthn.cpp:141-144 | a deeper value is rejected although it should be accepted |
| WebauthnJson.TakenFromBelow | fc/src/crypto/elliptic_webauthn.cpp:133-148 | a deeper object can also be accepted with a wrong value: the end of a nested object is taken for that of the outermost level, so a key 2^32 levels down counts as its own |
| WebauthnJson.ValueRead | fc/src/crypto/elliptic_webauthn.cpp:34-180 | any value that is not asked for, at any depth, is read as the recursion says, whatever state the counter is in |
| WebauthnJson.OwnMembersOnly | fc/src/crypto/elliptic_webauthn.cpp:34-109 | up to that depth the handler sees the members of the outermost object and no others |
| WebauthnJson.WantedValue | fc/src/crypto/elliptic_webauthn.cpp:66-89 | a wanted member is accepted only if it is a string |
| WebauthnJson.DepthTellsNested | fc/src/crypto/elliptic_webauthn.cpp:23-32 | for any events with at most 2^32 openings the depth is nonzero exactly in a nested container |
| WebauthnJson.JsonHandler.BasicStuff | fc/src/crypto/elliptic_webauthn.cpp:34-64 | scalars are skipped inside containers and where no value is wanted, and rejected elsewhere; a rejected event changes nothing |
| WebauthnJson.JsonHandler.String | fc/src/crypto/elliptic_webauthn.cpp:66-89 | a string goes to the field that waits for it |
| WebauthnJson.JsonHandler.Key | fc/src/crypto/elliptic_webauthn.cpp:110-132 | a key at the outermost level decides which value is wanted; it is compared up to its first NUL |
| WebauthnJson.JsonHandler.StartObject | fc/src/crypto/elliptic_webauthn.cpp:91-109 | opens the outermost object or one more container |
| WebauthnJson.JsonHandler.EndObject | fc/src/crypto/elliptic_webauthn.cpp:133-148 | closes a container, or the outermost object |
| WebauthnJson.JsonHandler.StartArray | fc/src/crypto/elliptic_webauthn.cpp:150-166 | opens one more container where a value may be skipped |
| WebauthnJson.JsonHandler.EndArray | fc/src/crypto/elliptic_webauthn.cpp:167-180 | closes a container |
| WebauthnJson.Parse | fc/src/crypto/elliptic_webauthn.cpp:186-190 | the handler fed with a whole text of any depth accepts proper objects only, and up to 2^32 + 1 levels exactly these with their last values |
| Names.StringToUint64 | name.hpp:14-32 | shifting and or-ing the symbols yields the number whose digits they are, for any string, also a short one or one with a NUL inside |
| Names.OthersAreDots | name.hpp:5-12 | characters outside the alphabet are read as dots, and no others |
| Names.EncodeExample | name.hpp:14-32 | the number of the name eosio |
| Names.Name.ToString | name.cpp:13-29 | writes the thirteen digits from the right and trims the dots |
| Names.Name.Set | name.cpp:5-11 | passes its asserts exactly for proper names and then prints as the given string |
| Names.RoundTrip | name.cpp:5-29 | every 64-bit value survives printing and reading |
| Names.AcceptsExactlyNames | name.cpp:5-11 | the check passes exactly for strings of the stated form, which are exactly the strings some value prints as |
| Names.OrderIsomorphism | name.hpp:54-57 | one value is smaller than another if and only if its printed name comes first in string order |

## Left out

- UndoStack.RunSimulates: the runs stop where the process aborts: at a modification that the container refuses and at an undo that is not safe, for which UndoSimulates gives the exact condition.  A squash whose contents do not agree is left out as well; SquashExact shows that it breaks the agreement with the full copies.
- UndoStack.SessionRestores: says nothing about the rows when the undo aborts; UndoThroughRestores says when it does.
- GenericIndexes.GenericIndex.Modify: says nothing about the rows after a failed modification, since the process aborts there.
- GenericIndexes.GenericIndex.Undo: says nothing about the rows after an unsafe undo, since the process aborts there.
- Databases.DatabaseRunSimulates: the runs use undo and squash of the database itself; those of session objects are compared with them in SessionKeepsLockstep and SessionUndoRestores.
- DatabaseObjects.Database.SetRevision: the new state is stated for databases in lockstep only, which every database operation keeps.
- ContractTables.RunKeeps: runs in which a table would come to hold 2^32 rows, or is created under an id that a handle table still caches, are left out; StoreKeeps and StoreByScopeKeeps show that these steps break the invariant.
- ContractTables.ReusedIdDangles: what an access through a dangling pointer does is undefined in C++ and reported as an outcome of its own that changes nothing.
- EosDbs.EosDb.DbStoreI64: row ids are those the caller's key gives, as in the original; the ids of index rows are parameters.
- HuffmanRoundTrip.RoundTrip: the stream is one bit buffer; cutting it into bytes and refilling the decoder's buffer are left out.
- HuffmanRoundTrip.BuildFromFrequencies: where a depth exceeds the limit, least cost is not claimed, as the limiter is a heuristic; where a depth exceeds 32 the original has no array entry for it, which is reported as a failure here.
- Adler32.MzAdler32: the checksum of starts of 2^32 or more, which no checksum is, is not stated.
- WebauthnJson.HandlerReads: the JSON reader itself is left out; its events are taken to be those of a JSON value.
- Names.Name.Set: reading the character after the last one assumes that the text is ended by a NUL.
- Real128s.FromString: a signed overflow of the fraction is reported as an outcome of its own, since C++ leaves it undefined; the big integers are mathematical ones, and their decimal text is taken to be exact.
- Crc32c.Crc32cSlicingBy8: of the 2048 literal table constants the 64 for single bits are compared with the generated ones, which determine the others; the remaining literals are not.
- Handles, revisions and sizes are unbounded: overflow of `int` handles and of 64-bit revisions is not modelled.
- Rows are identified by ids where the code uses pointers; a row is removed together with its handle.  Table objects have an identity of their own besides the id.
- Handle tables across a database undo: cached pointers are not maintained there.
- Move mechanics of undo sessions; a destructor undoes, which is modelled as a call.
- The operator `/=` of 128-bit numbers, which delegates to a foreign library; division by the program's own loops is modelled.
- The radix sort of symbols before the Huffman tree is built, which puts the frequencies into ascending order, and static tables.
- `find_secondary`, `db_get_i64`, `db_update_by_scope` and the key-hash operations of the contract tables, memory mapping, locks, the rest of miniz, OpenSSL wrappers and hashes: foreign calls, plain map operations or easy members.
