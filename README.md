# Bookmark store

A model of the bookmark store of an event-sourcing library. A bookmark names a
consumer of an ordered event stream and holds the last sequence number it has
processed, so that the consumer can resume after a restart. The store looks
bookmarks up one at a time or in batches, and saves them by upsert.

The model has three modules:

- `Bookmarks` (`bookmark.dfy`): the `Bookmark` value, Kotlin's `Long` as the
  newtype `int64`, and `OnePerName`. `OnePerName` is the promise every
  `bookmarksFor` makes: one bookmark per requested name, and no other names.
- `RelationalStore` (`relational_store.dfy`): `RelationalDatabaseBookmarkStore`.
  The database table becomes `Table = map<string, Row>`, keyed by the primary
  key `name`, so the table holds at most one row per name. The SQL of
  `bookmarksFor`, `isExists`, `rowsForBookmarks` and of the check-then-upsert
  in `save` becomes functions on that map. The class holds the table and a
  ghost log of the calls made on it.
- `CachingStore` (`caching_store.dfy`): `CachingBookmarkStore`. It is a class
  with the `cache` map as a mutable field and the relational store as its
  delegate. Its methods update the cache in place. The delegate's call log is
  used to state which reads reach the delegate.

`DateTime.now()` is an explicit `now: Timestamp` parameter of `Save`. The
caching `Save` passes it on to the delegate.

## Model

| member | source | states |
|---|---|---|
| `Bookmarks.OnePerNameSize` | src/main/kotlin/com/cultureamp/eventsourcing/BookmarkStore.kt:10 | a batch answer that keeps the interface promise (every requested name once, no other name) has exactly as many bookmarks as names were requested |
| `RelationalStore.RowsForBookmarks` | src/main/kotlin/com/cultureamp/eventsourcing/BookmarkStore.kt:46 | the selected rows are exactly the table's rows whose name is requested, unchanged |
| `RelationalStore.IsExists` | src/main/kotlin/com/cultureamp/eventsourcing/BookmarkStore.kt:47 | the one-name lookup is non-empty if and only if the table has a row for the name |
| `RelationalStore.SelectBookmarks` | src/main/kotlin/com/cultureamp/eventsourcing/BookmarkStore.kt:17-22 | every requested name gets a bookmark carrying its stored sequence, or 0 when it has no row; every returned bookmark has a requested name and that sequence; the answer keeps the one-per-name promise; the span covers the helpers `FoundBookmarks` (:19), `EmptyBookmarks` and `Bookmarks.Names` (:20), which build the answer and carry no contract of their own |
| `RelationalStore.SelectBookmarksSize` | src/main/kotlin/com/cultureamp/eventsourcing/BookmarkStore.kt:20-21 | the batch answer has as many bookmarks as names were requested, because the key allows one row per name |
| `RelationalStore.SelectBookmarksIsImage` | src/main/kotlin/com/cultureamp/eventsourcing/BookmarkStore.kt:19-21 | found plus defaults equals the set of `Bookmark(n, stored-or-0)` over the requested names |
| `RelationalStore.SingleRequest` | src/main/kotlin/com/cultureamp/eventsourcing/BookmarkStore.kt:15 | the batch answer for one name is a singleton: the stored bookmark, or sequence 0 |
| `RelationalStore.NeverSavedReadsZero` | src/main/kotlin/com/cultureamp/eventsourcing/BookmarkStore.kt:20 | a name with no row reads back as `Bookmark(name, 0)` |
| `RelationalStore.Upsert` | src/main/kotlin/com/cultureamp/eventsourcing/BookmarkStore.kt:24-38 | afterwards the key set is the old one plus the saved name; the saved row has the new sequence and `updatedAt == now`; `createdAt` is `now` on insert and kept on update; every other row is unchanged |
| `RelationalStore.ReadAfterSave` | src/main/kotlin/com/cultureamp/eventsourcing/BookmarkStore.kt:15-38 | after a save, reading the saved name returns exactly the saved bookmark |
| `RelationalStore.SaveIsolation` | src/main/kotlin/com/cultureamp/eventsourcing/BookmarkStore.kt:33 | a save leaves the batch answer for any set of other names unchanged |
| `RelationalStore.OverwriteKeepsOneRow` | src/main/kotlin/com/cultureamp/eventsourcing/BookmarkStore.kt:24-38 | two saves of one name leave one row for it, with the second sequence, the second instant as `updatedAt` and the first save's `createdAt` |
| `RelationalStore.BatchOfSavedAndUnsaved` | src/main/kotlin/com/cultureamp/eventsourcing/BookmarkStore.kt:17-22 | a batch of one saved and one unsaved name is the stored bookmark plus a zero bookmark |
| `RelationalStore.ProjectAScenario` | src/main/kotlin/com/cultureamp/eventsourcing/BookmarkStore.kt:15-38 | from an empty table, a name reads 0, then 42 after saving 42, and after saving 100 it is the only row and reads 100 |
| `RelationalStore.RelationalDatabaseBookmarkStore.constructor` | src/main/kotlin/com/cultureamp/eventsourcing/BookmarkStore.kt:14 | a store over the given table contents, with no calls made on it yet |
| `RelationalStore.RelationalDatabaseBookmarkStore.BookmarkFor` | src/main/kotlin/com/cultureamp/eventsourcing/BookmarkStore.kt:15 | an element of the one-name batch answer is `Bookmark(name, stored-or-0)`, the table is unchanged, and one read is logged |
| `RelationalStore.RelationalDatabaseBookmarkStore.BookmarksFor` | src/main/kotlin/com/cultureamp/eventsourcing/BookmarkStore.kt:17-22 | the answer is the batch lookup on the current table, the table is unchanged, and one batch read is logged |
| `RelationalStore.RelationalDatabaseBookmarkStore.Save` | src/main/kotlin/com/cultureamp/eventsourcing/BookmarkStore.kt:24-38 | check for the row, then insert or update it in place; the new table is the upsert of the old one, and one write is logged |
| `CachingStore.CachingBookmarkStore.constructor` | src/main/kotlin/com/cultureamp/eventsourcing/BookmarkStore.kt:50-51 | a decorator over the given delegate with an empty cache, which is trivially coherent |
| `CachingStore.CachingBookmarkStore.BookmarkFor` | src/main/kotlin/com/cultureamp/eventsourcing/BookmarkStore.kt:52-54 | on a hit: returns the cached bookmark, leaves the cache alone and makes no delegate call; on a miss: makes exactly one delegate read, stores the answer under the name and returns it; a coherent cache stays coherent |
| `CachingStore.CachingBookmarkStore.BookmarksFor` | src/main/kotlin/com/cultureamp/eventsourcing/BookmarkStore.kt:56 | one bookmark per requested name and as many as names; every requested name becomes a key; old entries are kept; new entries hold what the delegate stores; the delegate is read once per missed name and for no other name; with a coherent cache the answer equals the delegate's batch answer |
| `CachingStore.CachingBookmarkStore.Save` | src/main/kotlin/com/cultureamp/eventsourcing/BookmarkStore.kt:58-61 | the cache entry for the name becomes the bookmark and no other entry changes; the delegate's table is upserted with the same bookmark; exactly one delegate write is logged; coherence is kept |
| `CachingStore.GrowStep` | src/main/kotlin/com/cultureamp/eventsourcing/BookmarkStore.kt:53 | one read-through keeps the old entries and adds the delegate's answer for a missed name |
| `CachingStore.AnswerStep` | src/main/kotlin/com/cultureamp/eventsourcing/BookmarkStore.kt:56 | each per-name read through the cache adds that name's entry to the mapped result |
| `CachingStore.MissStep` | src/main/kotlin/com/cultureamp/eventsourcing/BookmarkStore.kt:53 | a name counts as a delegate read exactly when it was not cached when the batch started |
| `CachingStore.CachedAnswer` | src/main/kotlin/com/cultureamp/eventsourcing/BookmarkStore.kt:56 | a result made of each requested name's cache entry keeps the one-per-name promise and has as many bookmarks as names |
| `CachingStore.CoherentAnswer` | src/main/kotlin/com/cultureamp/eventsourcing/BookmarkStore.kt:50-56 | when every cache entry matches the table, the cached answer equals the relational batch answer |
| `CachingStore.ReadTwice` | src/main/kotlin/com/cultureamp/eventsourcing/BookmarkStore.kt:52-54 | two reads of one name return the same bookmark, and at most the first reaches the delegate |
| `CachingStore.SaveThenRead` | src/main/kotlin/com/cultureamp/eventsourcing/BookmarkStore.kt:52-61 | a read after a save on the same instance returns the saved bookmark; the only delegate call is the write; the delegate then stores the new sequence |

## Left out

- The `BookmarkStore` interface is not a Dafny trait, because this model avoids traits. In the source, `CachingBookmarkStore` also implements the interface, and its delegate can be any `BookmarkStore`, including another caching store. This module models the decorator over the relational delegate only. So the caching contracts (a miss reads `StoredSequence(delegate.table, name)`, the delegate's log entries, coherence with the delegate's table) are proved only for that delegate. The interface's batch promise is the shared predicate `Bookmarks.OnePerName`, and both `BookmarksFor` methods ensure it.
- Exposed's `transaction(db)`, the `Database` handle and SQL generation (`select`, `insert`, `update`, `inList`) are foreign calls. The table's contents, a map keyed by name, stand in for them.
- Name comparison in the database is not modelled. The map compares names with exact string equality, so the model assumes that the database's collation for `name` agrees with Kotlin's `String.equals`. The source compares names in two ways: the `IN` filter (BookmarkStore.kt:46) and the primary key (:69) use the database's collation, while the set difference at :20 uses `String.equals` and :19 takes each bookmark's name from the stored row. Under a case-insensitive or pad-space collation, a row `"a"` and a request for `{"A"}` yield both `Bookmark("a", s)` and `Bookmark("A", 0)`: two bookmarks for one requested name, one of them unrequested. A `save(Bookmark("A", k))` then updates row `"a"`, and `bookmarkFor("A")` (:15, `first()`) need not return the saved bookmark. Without that assumption, `OnePerName`, `SelectBookmarksSize`, `ReadAfterSave` and the caching store's `Valid()` do not hold.
- `createSchemaIfNotExists` is not part of this model. It is DDL against the database and has no behaviour to state.
- The column declarations of `Bookmarks` are not modelled, except that the table is keyed by `name`. The 160-character limit on `name` is enforced by the database, not by this code.
- Wall-clock time is not modelled; `now` is a parameter. The source reads the clock twice on insert, once for `createdAt` and once for `updatedAt`. The model uses one instant for both.
- Concurrency is not modelled: the race between the existence check and the insert or update in `save`, and unsynchronised access to the cache `HashMap`. Every operation runs alone.
- Failures are not modelled: exceptions from the database or the delegate, including a failing delegate `save` after the cache was already written. The delegate always succeeds.
- `CachingStore.CachingBookmarkStore.BookmarkFor`, `BookmarksFor`, `Save`: coherence with the delegate is stated as "kept if it held before", not as an invariant. Writes that bypass the decorator can break it, and the source does not guard against them.
- Sequences are meant to be non-negative and names non-empty, but the code checks neither. The model follows the code and accepts any `int64` sequence and any name.
