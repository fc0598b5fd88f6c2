/**
  The bookmark value object and the batch contract that every bookmark store
  shares (`Bookmark` and the `BookmarkStore` interface in BookmarkStore.kt).
 */
module Bookmarks {

  /** Kotlin's `Long`: the type of a bookmark's sequence and of the `value` column. */
  newtype int64 = x: int | -0x8000_0000_0000_0000 <= x < 0x8000_0000_0000_0000

  /** A named progress marker: the last sequence number the consumer `name` has processed. */
  datatype Bookmark = Bookmark(name: string, sequence: int64)

  /** The names that occur in a set of bookmarks. */
  function Names(bs: set<Bookmark>): set<string> {
    set b | b in bs :: b.name
  }

  /**
    The interface promise of `bookmarksFor(names)`: every requested name has a
    bookmark in the result, the result names nothing that was not requested,
    and no name has two bookmarks.
   */
  ghost predicate OnePerName(names: set<string>, r: set<Bookmark>) {
    && (forall n :: n in names ==> exists b :: b in r && b.name == n)
    && (forall b :: b in r ==> b.name in names)
    && (forall b, b' :: b in r && b' in r && b.name == b'.name ==> b == b')
  }

  /** A result that keeps the batch promise has exactly as many bookmarks as names were requested. */
  lemma {:induction false} OnePerNameSize(names: set<string>, r: set<Bookmark>)
    requires OnePerName(names, r)
    ensures |r| == |names|
    decreases names
  {
    if names == {} {
      assert r == {};
    } else {
      var n :| n in names;
      var b :| b in r && b.name == n;
      var names', r' := names - {n}, r - {b};
      forall m | m in names' ensures exists c :: c in r' && c.name == m {
        var c :| c in r && c.name == m;
        assert c != b;
        assert c in r';
      }
      assert OnePerName(names', r');
      OnePerNameSize(names', r');
    }
  }
}
