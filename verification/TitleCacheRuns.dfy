// What the title cache is for: the next launch does not read the titles again. And when it
// does after all (platform/3ds/source/title_cache.c:350-434, platform/3ds/source/main.c:321
// and 2429, where a launch writes the cache more than once).

module TitleCacheRuns {
  import opened Common
  import opened TitleCache

  function TitlesOf(tids: seq<nat>): set<nat> { set t | t in tids }

  lemma NoTitles(tids: seq<nat>)
    ensures TitlesOf(tids[..0]) == {}
  {
  }

  lemma OneMoreTitle(tids: seq<nat>, i: nat)
    requires i < |tids|
    ensures TitlesOf(tids[..i]) <= TitlesOf(tids) && tids[i] in TitlesOf(tids)
    ensures TitlesOf(tids[..i + 1]) == TitlesOf(tids[..i]) + {tids[i]}
  {
    assert tids[..i + 1] == tids[..i] + [tids[i]];
  }

  lemma OneMore(known: set<nat>, live: set<nat>, some: set<nat>, all: set<nat>, tid: nat)
    requires some <= all && tid in all
    ensures known + some + {tid} == known + (some + {tid}) && live + some + {tid} == live + (some + {tid})
    ensures known + some + {tid} <= known + all && (all <= known ==> tid in known + some)
    ensures !(some + {tid} <= known) == (!(some <= known) || tid !in known + some)
  {
  }

  lemma RoomOrKnown(es: seq<Entry>, tid: nat, all: set<nat>, lookup: Lookup, lang: nat)
    requires lang < LANG_COUNT && Truthful(es, lookup, lang)
    requires TidsOf(es) + {tid} <= all && |all| <= MAX_ENTRIES
    ensures |es| < MAX_ENTRIES || tid in TidsOf(es)
  {
    hide TidsOf, ProbeOf;
    if |es| == MAX_ENTRIES && tid !in TidsOf(es) {
      FullTable(es, tid, all, lookup, lang);
    }
  }

  // Asking for one name that finds room.
  method AskOne(cache: Cache, tid: nat, ghost all: set<nat>)
    requires cache.Valid() && cache.Known() + {tid} <= all && |all| <= MAX_ENTRIES
    modifies cache, cache.entries, cache.live
    ensures cache.Valid() && cache.Known() == old(cache.Known()) + {tid} && cache.Live() == old(cache.Live()) + {tid}
    ensures tid in old(cache.Known()) ==> cache.misses == old(cache.misses)
    ensures cache.dirty == (old(cache.dirty) || tid !in old(cache.Known()))
  {
    hide Truthful, TidsOf, LiveTids, DirectName;
    RoomOrKnown(cache.entries[..cache.count], tid, all, cache.lookup, cache.lang);
    assert tid in cache.Known() ==> cache.Known() + {tid} == cache.Known();
    var _ := cache.CacheName(tid, false);
  }

  // Asking for the names of some titles, all of which find room.
  method AskAll(cache: Cache, tids: seq<nat>, ghost all: set<nat>)
    requires cache.Valid() && cache.Known() + TitlesOf(tids) <= all && |all| <= MAX_ENTRIES
    modifies cache, cache.entries, cache.live
    ensures cache.Valid() && cache.Known() == old(cache.Known()) + TitlesOf(tids)
    ensures cache.Live() == old(cache.Live()) + TitlesOf(tids)
    ensures TitlesOf(tids) <= old(cache.Known()) ==> cache.misses == old(cache.misses)
    ensures cache.dirty == (old(cache.dirty) || !(TitlesOf(tids) <= old(cache.Known())))
    decreases |tids|
  {
    hide Truthful, TidsOf, LiveTids, TitlesOf, Cache.Known, Cache.Live;
    NoTitles(tids);
    if tids == [] {
      assert tids[..0] == tids;
      return;
    }
    var k := |tids| - 1;
    ghost var known, live := cache.Known(), cache.Live();
    assert tids[..k + 1] == tids;
    OneMoreTitle(tids, k);
    OneMore(known, live, TitlesOf(tids[..k]), TitlesOf(tids), tids[k]);
    AskAll(cache, tids[..k], all);
    AskOne(cache, tids[k], all);
  }

  // A launch without a file that asks for some names and writes them at its end.
  method FirstLaunch(lookup: Lookup, lang: nat, tids: seq<nat>) returns (file: Option<CacheFile>)
    requires lang < LANG_COUNT && |TitlesOf(tids)| <= MAX_ENTRIES
    ensures FileTruthful(file, lookup) && TidsOf(Loaded(file, lang)) == TitlesOf(tids)
  {
    hide Truthful, TidsOf, LiveTids, FileTruthful, DirectName, TitlesOf;
    NoFileIsTruthful(lookup);
    NothingKnown();
    var cache := new Cache(lookup, lang, None);
    assert {} + TitlesOf(tids) == TitlesOf(tids);
    AskAll(cache, tids, TitlesOf(tids));
    file := cache.Flush(None, NoTrouble);
  }

  // Names asked for in one launch and written at its end are there in the next launch in the
  // same language, without reading any title again.
  method SecondLaunch(lookup: Lookup, lang: nat, tids: seq<nat>) returns (misses: nat)
    requires lang < LANG_COUNT && |TitlesOf(tids)| <= 256
    ensures misses == 0
  {
    hide Truthful, TidsOf, LiveTids, FileTruthful, DirectName, TitlesOf, Loaded;
    var file := FirstLaunch(lookup, lang, tids);
    var second := new Cache(lookup, lang, file);
    assert second.Known() + TitlesOf(tids) == TitlesOf(tids);
    AskAll(second, tids, TitlesOf(tids));
    misses := second.misses;
  }

  // A launch that asked for nothing keeps what an earlier one wrote.
  method NothingAsked(lookup: Lookup, lang: nat, tids: seq<nat>) returns (before: Option<CacheFile>, after: Option<CacheFile>)
    requires lang < LANG_COUNT && 1 <= |TitlesOf(tids)| <= MAX_ENTRIES
    ensures TidsOf(Loaded(before, lang)) == TitlesOf(tids) && after == before
  {
    hide Truthful, TidsOf, LiveTids, FileTruthful, DirectName, TitlesOf, Loaded;
    before := FirstLaunch(lookup, lang, tids);
    NothingKnown();
    var cache := new Cache(lookup, lang, before);
    after := cache.Flush(before, NoTrouble);
  }

  // A launch that forgets everything leaves a file nothing is taken from.
  method Forgotten(lookup: Lookup, lang: nat, tids: seq<nat>) returns (after: Option<CacheFile>)
    requires lang < LANG_COUNT && |TitlesOf(tids)| <= MAX_ENTRIES
    ensures TidsOf(Loaded(after, lang)) == {}
  {
    hide Truthful, TidsOf, LiveTids, FileTruthful, DirectName, TitlesOf, Loaded;
    var file := FirstLaunch(lookup, lang, tids);
    var cache := new Cache(lookup, lang, file);
    cache.Forget();
    NothingKnown();
    NoneMarked([], []);
    assert cache.entries[..cache.count] == [] && cache.live[..cache.count] == [];
    after := cache.Flush(file, NoTrouble);
  }

  // A flush that leaves a record out forgets that it did: when that title is asked for again
  // in the same launch, the next flush sees nothing to write.
  method FlushTwice(lookup: Lookup, lang: nat, file: Option<CacheFile>, a: nat, b: nat) returns (after: Option<CacheFile>)
    requires lang < LANG_COUNT && FileTruthful(file, lookup) && a != b && TidsOf(Loaded(file, lang)) == {a, b}
    ensures FileTruthful(after, lookup) && TidsOf(Loaded(after, lang)) == {a}
  {
    hide Truthful, TidsOf, LiveTids, FileTruthful, DirectName;
    assert TitlesOf([a]) == {a} && TitlesOf([b]) == {b};
    hide TitlesOf;
    var cache := new Cache(lookup, lang, file);
    assert {a, b} + {a} == {a, b} && {a, b} + {b} == {a, b} && {a} + {b} == {a, b} && |{a, b}| == 2;
    AskAll(cache, [a], {a, b});
    assert cache.Live() == {a} && cache.Known() == {a, b};
    after := cache.Flush(file, NoTrouble);
    AskAll(cache, [b], {a, b});
    after := cache.Flush(after, NoTrouble);
  }

  // So the next launch reads that title again.
  method RecordLeftOut(lookup: Lookup, lang: nat, a: nat, b: nat) returns (misses: nat)
    requires lang < LANG_COUNT && a != b
    ensures misses == 1
  {
    hide Truthful, TidsOf, LiveTids, FileTruthful, DirectName, Loaded;
    assert TitlesOf([a, b]) == {a, b} && TitlesOf([b]) == {b} && |{a, b}| == 2;
    var file := FirstLaunch(lookup, lang, [a, b]);
    file := FlushTwice(lookup, lang, file, a, b);
    var cache := new Cache(lookup, lang, file);
    assert cache.Known() == {a} && {a} + {b} == {a, b};
    RoomOrKnown(cache.entries[..cache.count], b, {a, b}, lookup, lang);
    var _ := cache.CacheName(b, false);
    misses := cache.misses;
  }
}
