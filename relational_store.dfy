/**
  `RelationalDatabaseBookmarkStore`: a bookmark store backed by one table
  keyed by bookmark name. The database is replaced by the table's contents,
  a map from the primary key `name` to the rest of the row.
 */
module RelationalStore {
  import opened Bookmarks

  /** An instant as read from the clock; the model only compares and copies instants. */
  type Timestamp = int

  /** The non-key columns of a row of the `bookmarks` table. */
  datatype Row = Row(sequence: int64, createdAt: Timestamp, updatedAt: Timestamp)

  /** The table's contents, keyed by its primary key, so there is at most one row per name. */
  type Table = map<string, Row>

  /** One call made on the store through its interface, recorded for the proofs about callers. */
  datatype Call =
    | ReadOne(name: string)
    | ReadMany(names: set<string>)
    | Write(bookmark: Bookmark, now: Timestamp)

  /** The sequence a reader finds for `name`: the stored one, or 0 when the table has no row for it. */
  function StoredSequence(t: Table, name: string): int64 {
    if name in t then t[name].sequence else 0
  }

  /** `rowsForBookmarks`: the rows whose name is among the requested names (`name IN names`). */
  function RowsForBookmarks(t: Table, names: set<string>): (rows: Table)
    ensures rows.Keys == t.Keys * names
    ensures forall n :: n in rows ==> rows[n] == t[n]
  {
    map n | n in t && n in names :: t[n]
  }

  /** `isExists`: whether the lookup of the single name finds a row. */
  function IsExists(t: Table, name: string): (b: bool)
    ensures b <==> name in t
  {
    var rows := RowsForBookmarks(t, {name});
    assert name in t ==> name in rows;
    rows != map[]
  }

  /** The matching rows turned into bookmarks. */
  function FoundBookmarks(rows: Table): set<Bookmark> {
    set n | n in rows :: Bookmark(n, rows[n].sequence)
  }

  /** A zero-sequence bookmark for each requested name that no found bookmark carries. */
  function EmptyBookmarks(names: set<string>, found: set<Bookmark>): set<Bookmark> {
    set n | n in names - Names(found) :: Bookmark(n, 0)
  }

  /**
    `bookmarksFor` on the table: the found bookmarks together with the
    defaults. Every requested name gets the sequence a reader finds for it,
    and nothing else is returned.
   */
  function SelectBookmarks(t: Table, names: set<string>): (r: set<Bookmark>)
    ensures forall n :: n in names ==> Bookmark(n, StoredSequence(t, n)) in r
    ensures forall b :: b in r ==> b.name in names && b.sequence == StoredSequence(t, b.name)
    ensures OnePerName(names, r)
  {
    var found := FoundBookmarks(RowsForBookmarks(t, names));
    found + EmptyBookmarks(names, found)
  }

  /**
    The check-then-upsert of `save` on the table: insert a row stamped `now`
    when the name is absent, otherwise overwrite the sequence and `updatedAt`.
   */
  function Upsert(t: Table, b: Bookmark, now: Timestamp): (t': Table)
    ensures t'.Keys == t.Keys + {b.name}
    ensures t'[b.name].sequence == b.sequence && t'[b.name].updatedAt == now
    ensures b.name !in t ==> t'[b.name].createdAt == now
    ensures b.name in t ==> t'[b.name].createdAt == t[b.name].createdAt
    ensures forall n :: n in t && n != b.name ==> t'[n] == t[n]
  {
    if !IsExists(t, b.name) then
      t[b.name := Row(b.sequence, now, now)]
    else
      t[b.name := t[b.name].(sequence := b.sequence, updatedAt := now)]
  }

  /** The batch answer has as many bookmarks as names were requested. */
  lemma SelectBookmarksSize(t: Table, names: set<string>)
    ensures |SelectBookmarks(t, names)| == |names|
  {
    OnePerNameSize(names, SelectBookmarks(t, names));
  }

  /** The batch answer is the image of the requested names under the reader's lookup. */
  lemma SelectBookmarksIsImage(t: Table, names: set<string>)
    ensures SelectBookmarks(t, names) == set n | n in names :: Bookmark(n, StoredSequence(t, n))
  {
  }

  /** `bookmarkFor` asks for one name: the answer is a single bookmark, stored or zero. */
  lemma SingleRequest(t: Table, name: string)
    ensures SelectBookmarks(t, {name}) == {Bookmark(name, StoredSequence(t, name))}
  {
  }

  /** A name never saved reads back with sequence 0. */
  lemma NeverSavedReadsZero(t: Table, name: string)
    requires name !in t
    ensures SelectBookmarks(t, {name}) == {Bookmark(name, 0)}
  {
  }

  /** After a save, reading the saved name returns exactly the saved bookmark. */
  lemma ReadAfterSave(t: Table, b: Bookmark, now: Timestamp)
    ensures SelectBookmarks(Upsert(t, b, now), {b.name}) == {b}
  {
  }

  /** A save leaves what readers find for every other name as it was. */
  lemma SaveIsolation(t: Table, b: Bookmark, now: Timestamp, names: set<string>)
    requires b.name !in names
    ensures SelectBookmarks(Upsert(t, b, now), names) == SelectBookmarks(t, names)
  {
  }

  /**
    Saving the same name twice leaves one row for it, holding the second
    sequence and the creation time of the first save.
   */
  lemma OverwriteKeepsOneRow(t: Table, name: string, s1: int64, s2: int64, now1: Timestamp, now2: Timestamp)
    ensures var t2 := Upsert(Upsert(t, Bookmark(name, s1), now1), Bookmark(name, s2), now2);
      && t2.Keys == t.Keys + {name}
      && t2[name] == Row(s2, if name in t then t[name].createdAt else now1, now2)
  {
  }

  /** A batch over one saved and one unsaved name finds the stored sequence and a zero. */
  lemma BatchOfSavedAndUnsaved(t: Table, a: string, b: string)
    requires a != b && a in t && b !in t
    ensures SelectBookmarks(t, {a, b}) == {Bookmark(a, t[a].sequence), Bookmark(b, 0)}
  {
  }

  /**
    From an empty table: "proj-A" reads as 0, reads 42 after it is saved with
    42, and after a second save with 100 it is still the only row, holding 100.
   */
  lemma ProjectAScenario(at1: Timestamp, at2: Timestamp)
    ensures var empty: Table := map[];
      var once := Upsert(empty, Bookmark("proj-A", 42), at1);
      var twice := Upsert(once, Bookmark("proj-A", 100), at2);
      && SelectBookmarks(empty, {"proj-A"}) == {Bookmark("proj-A", 0)}
      && SelectBookmarks(once, {"proj-A"}) == {Bookmark("proj-A", 42)}
      && twice.Keys == {"proj-A"}
      && SelectBookmarks(twice, {"proj-A"}) == {Bookmark("proj-A", 100)}
  {
  }

  /** The relational store: the table it reads and writes, and the calls made on it. */
  class RelationalDatabaseBookmarkStore {
    var table: Table
    ghost var log: seq<Call>

    /** A store over a table holding `rows`, on which nothing has been called yet. */
    constructor (rows: Table)
      ensures table == rows && log == []
    {
      table := rows;
      log := [];
    }

    /** `bookmarkFor`: the single element of the batch answer for `{name}`. */
    method BookmarkFor(name: string) returns (b: Bookmark)
      modifies this`log
      ensures b == Bookmark(name, StoredSequence(table, name))
      ensures table == old(table)
      ensures log == old(log) + [ReadOne(name)]
    {
      var found := SelectBookmarks(table, {name});
      SingleRequest(table, name);
      b :| b in found;
      log := log + [ReadOne(name)];
    }

    /** `bookmarksFor`: one query over the table for all requested names. */
    method BookmarksFor(names: set<string>) returns (r: set<Bookmark>)
      modifies this`log
      ensures r == SelectBookmarks(table, names)
      ensures table == old(table)
      ensures log == old(log) + [ReadMany(names)]
    {
      r := SelectBookmarks(table, names);
      log := log + [ReadMany(names)];
    }

    /** `save`: check whether a row exists, then insert it or update it in place. */
    method Save(b: Bookmark, now: Timestamp)
      modifies this
      ensures table == Upsert(old(table), b, now)
      ensures log == old(log) + [Write(b, now)]
    {
      if !IsExists(table, b.name) {
        table := table[b.name := Row(b.sequence, now, now)];
      } else {
        table := table[b.name := table[b.name].(sequence := b.sequence, updatedAt := now)];
      }
      log := log + [Write(b, now)];
    }
  }
}
