/**
  `CachingBookmarkStore`: a read-through, write-through in-process cache in
  front of a delegate store. The delegate is the relational store; its call
  log shows which operations reach it.
 */
module CachingStore {
  import opened Bookmarks
  import opened RelationalStore

  class CachingBookmarkStore {
    const delegate: RelationalDatabaseBookmarkStore
    var cache: map<string, Bookmark>

    /** Every entry is filed under its own bookmark's name. */
    ghost predicate Valid()
      reads this
    {
      forall n :: n in cache ==> cache[n].name == n
    }

    /**
      Every entry is what the delegate would answer for its name. Saves through
      this instance keep it; writes that bypass the cache can break it.
     */
    ghost predicate Coherent()
      reads this, delegate
    {
      forall n :: n in cache ==> cache[n] == Bookmark(n, StoredSequence(delegate.table, n))
    }

    /** A decorator over `delegate` with an empty cache. */
    constructor (delegate: RelationalDatabaseBookmarkStore)
      ensures this.delegate == delegate && cache == map[]
      ensures Valid() && Coherent()
    {
      this.delegate := delegate;
      cache := map[];
    }

    /**
      `bookmarkFor`: a hit answers from the cache and makes no delegate call; a
      miss asks the delegate once and remembers its answer.
     */
    method BookmarkFor(name: string) returns (b: Bookmark)
      requires Valid()
      modifies this`cache, delegate`log
      ensures Valid() && b.name == name
      ensures delegate.table == old(delegate.table)
      ensures name in old(cache) ==>
        && b == old(cache)[name]
        && cache == old(cache)
        && delegate.log == old(delegate.log)
      ensures name !in old(cache) ==>
        && b == Bookmark(name, StoredSequence(delegate.table, name))
        && cache == old(cache)[name := b]
        && delegate.log == old(delegate.log) + [ReadOne(name)]
      ensures old(Coherent()) ==> Coherent() && b == Bookmark(name, StoredSequence(delegate.table, name))
    {
      if name in cache {
        b := cache[name];
      } else {
        b := delegate.BookmarkFor(name);
        cache := cache[name := b];
      }
    }

    /**
      `bookmarksFor`: one `bookmarkFor` per requested name, in no particular
      order. The cache only grows, the delegate is read once for each name
      that missed (the ghost `misses`, in the order of the reads) and for no
      other, and a coherent cache answers as the delegate would.
     */
    method BookmarksFor(names: set<string>) returns (r: set<Bookmark>, ghost misses: seq<string>)
      requires Valid()
      modifies this`cache, delegate`log
      ensures Valid() && OnePerName(names, r) && |r| == |names|
      ensures Grown(old(cache), cache, names, delegate.table)
      ensures AnswersFrom(cache, names, r)
      ensures delegate.table == old(delegate.table)
      ensures delegate.log == old(delegate.log) + ReadsOf(misses)
      ensures MissesOf(misses, names, old(cache).Keys)
      ensures old(Coherent()) ==> Coherent() && r == SelectBookmarks(delegate.table, names)
    {
      ghost var log0, cache0, t := delegate.log, cache, delegate.table;
      ghost var done: set<string> := {};
      var rest := names;
      r, misses := {}, [];
      while rest != {}
        invariant rest == names - done && done <= names && Valid()
        invariant Grown(cache0, cache, done, t)
        invariant AnswersFrom(cache, done, r)
        invariant delegate.table == t
        invariant delegate.log == log0 + ReadsOf(misses)
        invariant MissesOf(misses, done, cache0.Keys)
        invariant old(Coherent()) ==> Coherent()
        decreases rest
      {
        var n :| n in rest;
        ghost var before := cache;
        var b := BookmarkFor(n);
        GrowStep(cache0, before, cache, done, n, b, t);
        AnswerStep(before, cache, done, n, b, r);
        MissStep(misses, done, cache0.Keys, n);
        if n !in cache0 {
          LogStep(log0, misses, n);
          misses := misses + [n];
        }
        rest, done := rest - {n}, done + {n};
        r := r + {b};
      }
      assert done == names;
      CachedAnswer(names, cache, r);
      if old(Coherent()) {
        CoherentAnswer(names, cache, r, delegate.table);
      }
    }

    /**
      `save`: write the cache entry first, then pass the same bookmark to the
      delegate. Other entries stay as they were.
     */
    method Save(b: Bookmark, now: Timestamp)
      requires Valid()
      modifies this`cache, delegate
      ensures Valid()
      ensures cache == old(cache)[b.name := b]
      ensures delegate.table == Upsert(old(delegate.table), b, now)
      ensures delegate.log == old(delegate.log) + [Write(b, now)]
      ensures old(Coherent()) ==> Coherent()
    {
      cache := cache[b.name := b];
      delegate.Save(b, now);
    }
  }

  /**
    `c` is `c0` with every name of `done` added: old entries kept, each new one
    the sequence the table holds for its name.
   */
  ghost predicate Grown(c0: map<string, Bookmark>, c: map<string, Bookmark>, done: set<string>, t: Table) {
    && c.Keys == c0.Keys + done
    && (forall n :: n in c0 ==> c[n] == c0[n])
    && (forall n :: n in done && n !in c0 ==> c[n] == Bookmark(n, StoredSequence(t, n)))
  }

  /** `r` holds the cache entry of each name in `done`, and nothing else. */
  ghost predicate AnswersFrom(c: map<string, Bookmark>, done: set<string>, r: set<Bookmark>) {
    && (forall n :: n in done ==> n in c && c[n] in r)
    && (forall b :: b in r ==> b.name in done && b.name in c && c[b.name] == b)
  }

  /** `misses` lists, once each, the names of `done` that were not cached at the start. */
  ghost predicate MissesOf(misses: seq<string>, done: set<string>, keys0: set<string>) {
    && Distinct(misses)
    && (forall n :: n in misses <==> n in done && n !in keys0)
  }

  /** One read-through step keeps the cache grown over the names read so far. */
  lemma GrowStep(c0: map<string, Bookmark>, c: map<string, Bookmark>, c': map<string, Bookmark>,
                 done: set<string>, n: string, b: Bookmark, t: Table)
    requires Grown(c0, c, done, t) && n !in done
    requires n in c ==> c' == c && b == c[n]
    requires n !in c ==> c' == c[n := b] && b == Bookmark(n, StoredSequence(t, n))
    ensures Grown(c0, c', done + {n}, t)
  {
  }

  /** One read-through step adds the name's entry to the answer. */
  lemma AnswerStep(c: map<string, Bookmark>, c': map<string, Bookmark>,
                   done: set<string>, n: string, b: Bookmark, r: set<Bookmark>)
    requires AnswersFrom(c, done, r) && n !in done
    requires n in c ==> c' == c && b == c[n]
    requires b.name == n && (n !in c ==> c' == c[n := b])
    ensures AnswersFrom(c', done + {n}, r + {b})
  {
  }

  /** One read-through step records the name as a miss exactly when it was not cached at the start. */
  lemma MissStep(misses: seq<string>, done: set<string>, keys0: set<string>, n: string)
    requires MissesOf(misses, done, keys0) && n !in done
    ensures n in keys0 ==> MissesOf(misses, done + {n}, keys0)
    ensures n !in keys0 ==> MissesOf(misses + [n], done + {n}, keys0)
  {
  }

  /** An answer read off the cache, one entry per requested name, keeps the batch promise. */
  lemma CachedAnswer(names: set<string>, cache: map<string, Bookmark>, r: set<Bookmark>)
    requires forall n :: n in names ==> n in cache && cache[n].name == n && cache[n] in r
    requires forall b :: b in r ==> b.name in names && b.name in cache && cache[b.name] == b
    ensures OnePerName(names, r) && |r| == |names|
  {
    forall n | n in names ensures exists c :: c in r && c.name == n {
      assert cache[n] in r;
    }
    OnePerNameSize(names, r);
  }

  /** When the cache agrees with the table, an answer read off the cache is the table's answer. */
  lemma CoherentAnswer(names: set<string>, cache: map<string, Bookmark>, r: set<Bookmark>, t: Table)
    requires forall n :: n in names ==> n in cache && cache[n] in r
    requires forall b :: b in r ==> b.name in names && b.name in cache && cache[b.name] == b
    requires forall n :: n in cache ==> cache[n] == Bookmark(n, StoredSequence(t, n))
    ensures r == SelectBookmarks(t, names)
  {
  }

  /** The delegate calls made by reading `ns` one at a time. */
  function ReadsOf(ns: seq<string>): seq<Call> {
    seq(|ns|, i requires 0 <= i < |ns| => ReadOne(ns[i]))
  }

  /** Reading one more name appends its call to the log. */
  lemma LogStep(log0: seq<Call>, ns: seq<string>, n: string)
    ensures log0 + ReadsOf(ns) + [ReadOne(n)] == log0 + ReadsOf(ns + [n])
  {
  }

  /** No name occurs twice. */
  ghost predicate Distinct(ns: seq<string>) {
    forall i, j :: 0 <= i < j < |ns| ==> ns[i] != ns[j]
  }

  /** A second read of the same name is served by the cache: at most the first reaches the delegate. */
  method ReadTwice(store: CachingBookmarkStore, name: string) returns (first: Bookmark, second: Bookmark)
    requires store.Valid()
    modifies store`cache, store.delegate`log
    ensures store.Valid() && first == second
    ensures store.delegate.log ==
      old(store.delegate.log) + (if name in old(store.cache) then [] else [ReadOne(name)])
  {
    first := store.BookmarkFor(name);
    second := store.BookmarkFor(name);
  }

  /** A save is visible to the next read on the same instance, without a delegate read. */
  method SaveThenRead(store: CachingBookmarkStore, b: Bookmark, now: Timestamp) returns (r: Bookmark)
    requires store.Valid()
    modifies store`cache, store.delegate
    ensures store.Valid() && r == b
    ensures store.delegate.log == old(store.delegate.log) + [Write(b, now)]
    ensures StoredSequence(store.delegate.table, b.name) == b.sequence
  {
    store.Save(b, now);
    r := store.BookmarkFor(b.name);
  }
}
