// The title cache (platform/3ds/source/title_cache.c) against the lookup it remembers
// (platform/3ds/source/save_backend.c:604-668, 778-823).

module TitleCache {
  import opened Common
  import opened Strbuf

  const MAX_ENTRIES: nat := 256
  const FORMAT: nat := 1
  const ENGLISH: nat := 1
  const JAPANESE: nat := 0
  const LANG_COUNT: nat := 12

  // ------------------------------------------------------------- the direct lookup

  type Name = s: Bytes | NulFree(s) witness []

  // The twelve name slots of an SMDH as UTF-8. None is a slot whose text does not convert
  // into a buffer of any size.
  type Slots = s: seq<Option<Name>> | |s| == LANG_COUNT witness seq(LANG_COUNT, _ => None)

  datatype Smdh = Smdh(slots: Slots, icon: Bytes)

  // What reading a title's SMDH gives; None where it cannot be opened or read. The same
  // title gives the same answer every time.
  type Lookup = nat -> Option<Smdh>

  datatype Found = Ok(text: Bytes) | NotFound | Unsupported | TooSmall

  predicate Blank(s: Bytes) {
    forall i :: 0 <= i < |s| ==> s[i] == 0x20 || s[i] == 0x0A || s[i] == 0x0D || s[i] == 0x09
  }

  // is_ascii_printable, is_ascii_name
  predicate Printable(s: Bytes) { forall i :: 0 <= i < |s| ==> 0x20 <= s[i] <= 0x7E }

  // take_smdh_slot into a buffer of NAME_MAX bytes
  function TakeSlot(slots: Slots, lang: nat, ascii: bool): Found
    requires lang < LANG_COUNT
  {
    if slots[lang].None? || |slots[lang].value| > NAME_MAX - 1 then TooSmall
    else if Blank(slots[lang].value) then Found.NotFound
    else if ascii && !Printable(slots[lang].value) then Unsupported
    else Ok(slots[lang].value)
  }

  // The order in which slots are asked: the console's language, English, Japanese, then
  // all of them.
  function ChainFrom(lang: nat): (c: seq<nat>)
    ensures lang < LANG_COUNT ==> forall i :: 0 <= i < |c| ==> c[i] < LANG_COUNT
  {
    [lang] + (if lang != ENGLISH then [ENGLISH] else []) + (if lang != JAPANESE then [JAPANESE] else [])
    + seq(LANG_COUNT, i => i)
  }

  // The first slot of a chain that gives a name, or what the last one said.
  function FirstName(slots: Slots, chain: seq<nat>, ascii: bool): Found
    requires chain != [] && forall i :: 0 <= i < |chain| ==> chain[i] < LANG_COUNT
  {
    var r := TakeSlot(slots, chain[0], ascii);
    if r.Ok? || |chain| == 1 then r else FirstName(slots, chain[1..], ascii)
  }

  function SmdhName(smdh: Smdh, lang: nat, ascii: bool): Found
    requires lang < LANG_COUNT
  {
    FirstName(smdh.slots, ChainFrom(lang), ascii)
  }

  // Where things stand in the chain: before the last LANG_COUNT slots come the preferred
  // ones, the language itself first and Japanese last.
  lemma ChainShape(lang: nat)
    requires lang < LANG_COUNT
    ensures
      var c := ChainFrom(lang);
      var n := |c| - LANG_COUNT;
      && 1 <= n <= 3 && c[0] == lang
      && n == 1 + (if lang != ENGLISH then 1 else 0) + (if lang != JAPANESE then 1 else 0)
      && (lang != ENGLISH ==> c[1] == ENGLISH) && (lang != JAPANESE ==> c[n - 1] == JAPANESE)
      && forall k :: n <= k < |c| ==> c[k] == k - n
  {
  }

  lemma BlankMeans(s: Bytes)
    ensures Blank(s) <==> forall b :: b in s ==> b in {0x20, 0x0A, 0x0D, 0x09}
    ensures Printable(s) <==> forall b :: b in s ==> 0x20 <= b < 0x7F
  {
    if i: nat :| i < |s| && s[i] !in {0x20, 0x0A, 0x0D, 0x09} {
      assert s[i] in s;
    }
    if i: nat :| i < |s| && !(0x20 <= s[i] < 0x7F) {
      assert s[i] in s;
    }
  }

  // A slot gives its text when it converts, fits 127 bytes, says something, and, where only
  // drawable names are wanted, is printable ASCII throughout.
  lemma SlotGives(slots: Slots, lang: nat, ascii: bool, text: Bytes)
    requires lang < LANG_COUNT
    ensures slots[lang].None? ==> TakeSlot(slots, lang, ascii) == TooSmall
    ensures slots[lang] == Some(text) && |text| > 127 ==> TakeSlot(slots, lang, ascii) == TooSmall
    ensures slots[lang] == Some(text) && |text| <= 127 ==>
      TakeSlot(slots, lang, ascii) ==
        if forall b :: b in text ==> b in {0x20, 0x0A, 0x0D, 0x09} then Found.NotFound
        else if ascii && exists b :: b in text && !(0x20 <= b < 0x7F) then Unsupported
        else Ok(text)
  {
    BlankMeans(text);
  }

  // A slot that gives a name.
  predicate Gives(slots: Slots, lang: nat, ascii: bool) {
    lang < LANG_COUNT && TakeSlot(slots, lang, ascii).Ok?
  }

  lemma {:induction false} FirstNameIs(slots: Slots, chain: seq<nat>, ascii: bool, k: nat)
    requires k < |chain| && forall i :: 0 <= i < |chain| ==> chain[i] < LANG_COUNT
    requires forall i :: 0 <= i < k ==> !TakeSlot(slots, chain[i], ascii).Ok?
    requires TakeSlot(slots, chain[k], ascii).Ok? || k == |chain| - 1
    ensures FirstName(slots, chain, ascii) == TakeSlot(slots, chain[k], ascii)
  {
    hide TakeSlot;
    if k > 0 {
      assert !TakeSlot(slots, chain[0], ascii).Ok?;
      assert forall i :: 0 <= i < k - 1 ==> chain[1..][i] == chain[i + 1];
      FirstNameIs(slots, chain[1..], ascii, k - 1);
    }
  }

  // No slot before it gives one.
  predicate GivesFirst(slots: Slots, lang: nat, ascii: bool) {
    Gives(slots, lang, ascii) && forall k: nat :: k < lang ==> !Gives(slots, k, ascii)
  }

  // Which name a title goes by: the one in the console's language, else the English one,
  // else the Japanese one, else the first there is. Without any, the last slot has the word.
  lemma NamePreference(smdh: Smdh, lang: nat, ascii: bool)
    requires lang < LANG_COUNT
    ensures
      var slots, name := smdh.slots, SmdhName(smdh, lang, ascii);
      if Gives(slots, lang, ascii) then name == TakeSlot(slots, lang, ascii)
      else if Gives(slots, 1, ascii) then name == TakeSlot(slots, 1, ascii)
      else if Gives(slots, 0, ascii) then name == TakeSlot(slots, 0, ascii)
      else if forall l: nat :: !Gives(slots, l, ascii) then name == TakeSlot(slots, 11, ascii)
      else exists l: nat :: GivesFirst(slots, l, ascii) && name == TakeSlot(slots, l, ascii)
  {
    hide TakeSlot, FirstName, ChainFrom;
    var slots, c := smdh.slots, ChainFrom(lang);
    var n := |c| - LANG_COUNT;
    ChainShape(lang);
    if Gives(slots, lang, ascii) {
      FirstNameIs(slots, c, ascii, 0);
    } else if Gives(slots, 1, ascii) {
      FirstNameIs(slots, c, ascii, 1);
    } else if Gives(slots, 0, ascii) {
      FirstNameIs(slots, c, ascii, n - 1);
    } else if forall l: nat :: !Gives(slots, l, ascii) {
      assert forall i :: 0 <= i < |c| ==> !Gives(slots, c[i], ascii);
      FirstNameIs(slots, c, ascii, |c| - 1);
    } else {
      var l := LeastGiving(slots, ascii, 12);
      assert forall i :: 0 <= i < n + l ==> !Gives(slots, c[i], ascii);
      FirstNameIs(slots, c, ascii, n + l);
    }
  }

  lemma {:induction false} LeastGiving(slots: Slots, ascii: bool, bound: nat) returns (l: nat)
    requires exists k: nat :: k < bound && Gives(slots, k, ascii)
    ensures l < bound && GivesFirst(slots, l, ascii)
  {
    if k: nat :| k < bound - 1 && Gives(slots, k, ascii) {
      l := LeastGiving(slots, ascii, bound - 1);
    } else {
      l := bound - 1;
    }
  }

  // r is what slot number k of the chain says, and no slot before it gave a name.
  ghost predicate AskedUpTo(slots: Slots, chain: seq<nat>, ascii: bool, k: nat, r: Found)
    requires k < |chain| && forall i :: 0 <= i < |chain| ==> chain[i] < LANG_COUNT
  {
    && r == TakeSlot(slots, chain[k], ascii)
    && FirstName(slots, chain, ascii) == FirstName(slots, chain[k..], ascii)
  }

  lemma AskedFirst(slots: Slots, chain: seq<nat>, ascii: bool)
    requires chain != [] && forall i :: 0 <= i < |chain| ==> chain[i] < LANG_COUNT
    ensures AskedUpTo(slots, chain, ascii, 0, TakeSlot(slots, chain[0], ascii))
  {
    assert chain[0..] == chain;
  }

  lemma AskedNext(slots: Slots, chain: seq<nat>, ascii: bool, k: nat, r: Found)
    requires k + 1 < |chain| && (forall i :: 0 <= i < |chain| ==> chain[i] < LANG_COUNT)
    requires AskedUpTo(slots, chain, ascii, k, r) && !r.Ok?
    ensures AskedUpTo(slots, chain, ascii, k + 1, TakeSlot(slots, chain[k + 1], ascii))
  {
    hide TakeSlot;
    assert chain[k..][1..] == chain[k + 1..];
  }

  lemma AskedEnough(slots: Slots, chain: seq<nat>, ascii: bool, k: nat, r: Found)
    requires k < |chain| && (forall i :: 0 <= i < |chain| ==> chain[i] < LANG_COUNT)
    requires AskedUpTo(slots, chain, ascii, k, r) && (r.Ok? || k == |chain| - 1)
    ensures r == FirstName(slots, chain, ascii)
  {
    hide TakeSlot;
  }

  // daemoon_3ds_smdh_name
  method ReadName(smdh: Smdh, lang: nat, ascii: bool) returns (r: Found)
    requires lang < LANG_COUNT
    ensures r == SmdhName(smdh, lang, ascii)
  {
    hide TakeSlot, FirstName, ChainFrom, AskedUpTo;
    var slots := smdh.slots;
    ghost var chain := ChainFrom(lang);
    ChainShape(lang);
    ghost var k := 0;
    AskedFirst(slots, chain, ascii);
    r := TakeSlot(slots, lang, ascii);
    if !r.Ok? && lang != ENGLISH {
      AskedNext(slots, chain, ascii, k, r);
      r := TakeSlot(slots, ENGLISH, ascii);
      k := k + 1;
    }
    if !r.Ok? && lang != JAPANESE {
      AskedNext(slots, chain, ascii, k, r);
      r := TakeSlot(slots, JAPANESE, ascii);
      k := k + 1;
    }
    var i := 0;
    while !r.Ok? && i < LANG_COUNT
      invariant 0 <= i <= LANG_COUNT && k < |chain| && AskedUpTo(slots, chain, ascii, k, r)
      invariant !r.Ok? ==> k == |chain| - LANG_COUNT - 1 + i
      decreases LANG_COUNT - i
    {
      AskedNext(slots, chain, ascii, k, r);
      r := TakeSlot(slots, i, ascii);
      k := k + 1;
      i := i + 1;
    }
    AskedEnough(slots, chain, ascii, k, r);
  }

  // daemoon_3ds_title_name: what a caller without a cache gets.
  function DirectName(lookup: Lookup, tid: nat, lang: nat, ascii: bool): Found
    requires lang < LANG_COUNT
  {
    var smdh := lookup(tid);
    if smdh.None? then Found.NotFound else SmdhName(smdh.value, lang, ascii)
  }

  function DirectIcon(lookup: Lookup, tid: nat): Option<Bytes> {
    var smdh := lookup(tid);
    if smdh.None? then None else Some(smdh.value.icon)
  }

  // ------------------------------------------------------------------------- entries

  // One record: the three flags say which of the three answers it has.
  datatype Entry = Entry(tid: nat, name: Option<Bytes>, ascii: Option<Bytes>, icon: Option<Bytes>)

  function TextOf(r: Found): Option<Bytes> { if r.Ok? then Some(r.text) else None }

  // What probing a title puts into a record.
  function ProbeOf(lookup: Lookup, tid: nat, lang: nat): Entry
    requires lang < LANG_COUNT
  {
    Entry(tid, TextOf(DirectName(lookup, tid, lang, false)), TextOf(DirectName(lookup, tid, lang, true)), DirectIcon(lookup, tid))
  }

  // Records that say what the lookup says, each title once.
  ghost predicate Truthful(es: seq<Entry>, lookup: Lookup, lang: nat)
    requires lang < LANG_COUNT
  {
    && |es| <= MAX_ENTRIES
    && (forall i :: 0 <= i < |es| ==> es[i] == ProbeOf(lookup, es[i].tid, lang))
    && (forall i, j :: 0 <= i < j < |es| ==> es[i].tid != es[j].tid)
  }

  function TidsOf(es: seq<Entry>): set<nat> { set e | e in es :: e.tid }

  lemma TruthfulAt(es: seq<Entry>, lookup: Lookup, lang: nat, i: nat)
    requires lang < LANG_COUNT && Truthful(es, lookup, lang) && i < |es|
    ensures es[i] == ProbeOf(lookup, es[i].tid, lang)
  {
  }

  // The answers a record gives.
  function NameIn(e: Entry, ascii: bool): Found {
    if ascii then
      if e.ascii.Some? then Ok(e.ascii.value)
      else if e.name.Some? && Printable(e.name.value) then Ok(e.name.value)
      else Unsupported
    else if e.name.Some? then Ok(e.name.value)
    else Found.NotFound
  }

  // A slot that gives a drawable name gives it with the ASCII constraint as well.
  lemma {:induction false} DrawableIsFound(slots: Slots, chain: seq<nat>)
    requires chain != [] && forall i :: 0 <= i < |chain| ==> chain[i] < LANG_COUNT
    requires FirstName(slots, chain, false).Ok? && Printable(FirstName(slots, chain, false).text)
    ensures FirstName(slots, chain, true).Ok?
  {
    hide Blank, Printable;
    if !TakeSlot(slots, chain[0], true).Ok? {
      if |chain| > 1 && !TakeSlot(slots, chain[0], false).Ok? {
        DrawableIsFound(slots, chain[1..]);
      }
    }
  }

  // So the fallback from the constrained name to a drawable plain one is never needed.
  lemma FallbackIsNeverTaken(lookup: Lookup, tid: nat, lang: nat)
    requires lang < LANG_COUNT
    ensures
      var e := ProbeOf(lookup, tid, lang);
      e.name.Some? && Printable(e.name.value) ==> e.ascii.Some?
  {
    hide FirstName, ChainFrom, Printable;
    var smdh := lookup(tid);
    if smdh.Some? {
      var plain := SmdhName(smdh.value, lang, false);
      if plain.Ok? && Printable(plain.text) {
        ChainShape(lang);
        DrawableIsFound(smdh.value.slots, ChainFrom(lang));
      }
    }
  }

  // A record answers exactly when the lookup does, with the same text.
  lemma RecordAgrees(lookup: Lookup, tid: nat, lang: nat, ascii: bool)
    requires lang < LANG_COUNT
    ensures TextOf(NameIn(ProbeOf(lookup, tid, lang), ascii)) == TextOf(DirectName(lookup, tid, lang, ascii))
  {
    hide DirectName, DirectIcon, Printable;
    FallbackIsNeverTaken(lookup, tid, lang);
  }

  // ------------------------------------------------------------------ the cache file

  // What is on the card: a header and the records that can be read back whole. A file that
  // was cut short has fewer records than its header says.
  datatype CacheFile = CacheFile(magic: bool, format: nat, lang: nat, count: nat, records: seq<Entry>)

  // A header this launch takes records from.
  predicate Accepted(file: Option<CacheFile>, lang: nat) {
    && file.Some? && file.value.magic && file.value.format == FORMAT
    && file.value.lang == lang && file.value.count <= MAX_ENTRIES
  }

  // The records a launch takes from a file.
  function Loaded(file: Option<CacheFile>, lang: nat): seq<Entry> {
    if !Accepted(file, lang) then []
    else if file.value.count <= |file.value.records| then file.value.records[..file.value.count]
    else file.value.records
  }

  // A file some launch of this build wrote, or one it will not take anything from.
  ghost predicate FileTruthful(file: Option<CacheFile>, lookup: Lookup) {
    forall lang :: 0 <= lang < LANG_COUNT ==> Truthful(Loaded(file, lang), lookup, lang)
  }

  function FileTids(file: Option<CacheFile>): set<nat> {
    if file.None? then {} else TidsOf(file.value.records)
  }

  // The titles of the records that are marked.
  function LiveTids(es: seq<Entry>, live: seq<bool>): set<nat>
    requires |es| == |live|
  {
    set i | 0 <= i < |es| && live[i] :: es[i].tid
  }

  lemma MarkOne(es: seq<Entry>, live: seq<bool>, i: nat)
    requires |es| == |live| && i < |es|
    ensures LiveTids(es, live[i := true]) == LiveTids(es, live) + {es[i].tid}
  {
    var marked := live[i := true];
    assert marked[i];
    forall t | t in LiveTids(es, live)
      ensures t in LiveTids(es, marked)
    {
      var j :| 0 <= j < |es| && live[j] && es[j].tid == t;
      assert marked[j];
    }
  }

  lemma AddMarked(es: seq<Entry>, live: seq<bool>, e: Entry)
    requires |es| == |live|
    ensures LiveTids(es + [e], live + [true]) == LiveTids(es, live) + {e.tid}
  {
    var fs, marks := es + [e], live + [true];
    assert marks[|es|] && fs[|es|] == e;
    forall t | t in LiveTids(es, live)
      ensures t in LiveTids(fs, marks)
    {
      var j :| 0 <= j < |es| && live[j] && es[j].tid == t;
      assert marks[j] && fs[j] == es[j];
    }
  }

  lemma NoneMarked(es: seq<Entry>, live: seq<bool>)
    requires |es| == |live| && forall i :: 0 <= i < |live| ==> !live[i]
    ensures LiveTids(es, live) == {}
  {
  }

  lemma LoadedTids(file: Option<CacheFile>, lang: nat)
    ensures TidsOf(Loaded(file, lang)) <= FileTids(file)
  {
  }

  // What becomes of the file when a flush runs into trouble: nothing before the old file is
  // removed, and no file at all after.
  datatype Trouble = NoTrouble | BeforeRemove | AfterRemove

  // daemoon_3ds_title_cache
  class Cache {
    const lookup: Lookup
    const entries: array<Entry>
    const live: array<bool>
    const lang: nat
    var count: nat
    var dirty: bool
    var hits: nat
    var misses: nat

    ghost predicate Valid()
      reads this, entries, live
    {
      && lang < LANG_COUNT && entries.Length == MAX_ENTRIES && live.Length == MAX_ENTRIES && count <= MAX_ENTRIES
      && Truthful(entries[..count], lookup, lang)
    }

    // The titles asked for since the start.
    ghost function Live(): set<nat>
      reads this, entries, live
      requires count <= entries.Length && count <= live.Length
    {
      LiveTids(entries[..count], live[..count])
    }

    // As long as nothing new was recorded the file has what the table has. That is so from the
    // start up to a flush that leaves records out.
    ghost predicate InStep(file: Option<CacheFile>)
      reads this, entries
      requires count <= entries.Length
    {
      !dirty ==> Loaded(file, lang) == entries[..count]
    }

    // The titles that have a record.
    ghost function Known(): set<nat>
      reads this, entries
      requires count <= entries.Length
    {
      TidsOf(entries[..count])
    }

    // daemoon_3ds_cache_open and load_file
    constructor (lookup: Lookup, lang: nat, file: Option<CacheFile>)
      requires lang < LANG_COUNT && FileTruthful(file, lookup)
      ensures Valid() && fresh(entries) && fresh(live)
      ensures this.lookup == lookup && this.lang == lang && hits == 0 && misses == 0
      ensures entries[..count] == Loaded(file, lang) && Known() <= FileTids(file)
      ensures Live() == {} && InStep(file)
    {
      this.lookup, this.lang := lookup, lang;
      entries := new Entry[MAX_ENTRIES](_ => Entry(0, None, None, None));
      live := new bool[MAX_ENTRIES](_ => false);
      count, dirty, hits, misses := 0, false, 0, 0;
      new;
      var records := Loaded(file, lang);
      var i := 0;
      assert Truthful(records, lookup, lang);
      while i < |records|
        modifies entries
        invariant 0 <= i <= |records| && entries[..i] == records[..i]
        invariant forall j :: 0 <= j < live.Length ==> !live[j]
      {
        entries[i] := records[i];
        i := i + 1;
      }
      count := |records|;
      LoadedTids(file, lang);
      dirty := Accepted(file, lang) && |records| != file.value.count;
      NoneMarked(entries[..count], live[..count]);
    }

    // find: the place of a title's record, which is thereby asked for.
    method Find(tid: nat) returns (at: Option<nat>)
      requires Valid()
      modifies live
      ensures Valid()
      ensures at.Some? ==> at.value < count && entries[at.value].tid == tid
      ensures at.None? ==> forall i :: 0 <= i < count ==> entries[i].tid != tid
      ensures Live() == old(Live()) + if at.Some? then {tid} else {}
    {
      hide Truthful, TidsOf, LiveTids;
      var i := 0;
      while i < count
        invariant 0 <= i <= count && forall j :: 0 <= j < i ==> entries[j].tid != tid
        invariant live[..] == old(live[..])
      {
        if entries[i].tid == tid {
          MarkOne(entries[..count], live[..count], i);
          live[i] := true;
          assert live[..count] == old(live[..count])[i := true];
          return Some(i);
        }
        i := i + 1;
      }
      at := None;
    }

    // probe: reads the SMDH once and fills a record from it, while there is room.
    method Probe(tid: nat) returns (at: Option<nat>)
      requires Valid() && forall i :: 0 <= i < count ==> entries[i].tid != tid
      modifies this, entries, live
      ensures Valid() && hits == old(hits)
      ensures at.None? <==> old(count) == MAX_ENTRIES
      ensures at.None? ==> count == old(count) && misses == old(misses) && Known() == old(Known())
      ensures at.Some? ==> at.value == old(count) < count == old(count) + 1 && entries[at.value].tid == tid
      ensures at.Some? ==> misses == old(misses) + 1 && Known() == old(Known()) + {tid}
      ensures Live() == (if at.Some? then old(Live()) + {tid} else old(Live())) && dirty == (old(dirty) || at.Some?)
      ensures dirty || (!old(dirty) && entries[..count] == old(entries[..count]))
    {
      hide LiveTids;
      if count >= MAX_ENTRIES {
        return None;
      }
      var slot := count;
      var smdh := lookup(tid);
      var e := Entry(tid, None, None, None);
      if smdh.Some? {
        var name := ReadName(smdh.value, lang, false);
        var ascii := ReadName(smdh.value, lang, true);
        e := Entry(tid, TextOf(name), TextOf(ascii), Some(smdh.value.icon));
      }
      ghost var before := entries[..count];
      TruthfulGrows(before, lookup, lang, e);
      entries[slot] := e;
      live[slot] := true;
      count := count + 1;
      dirty := true;
      misses := misses + 1;
      assert entries[..count] == before + [e];
      assert TidsOf(before + [e]) == TidsOf(before) + {tid};
      assert live[..count] == old(live[..count]) + [true];
      AddMarked(before, old(live[..count]), e);
      at := Some(slot);
    }

    // entry_for: no record only for a title that has none while the table is full.
    method EntryFor(tid: nat) returns (at: Option<nat>)
      requires Valid()
      modifies this, entries, live
      ensures Valid() && (at.Some? ==> at.value < count && entries[at.value].tid == tid)
      ensures at.None? <==> old(count) == MAX_ENTRIES && tid !in old(Known())
      ensures Known() == old(Known()) + if at.Some? then {tid} else {}
      ensures count >= old(count) && hits + misses == old(hits + misses) + if at.Some? then 1 else 0
      ensures misses == old(misses) + if tid in old(Known()) || at.None? then 0 else 1
      ensures dirty == (old(dirty) || (at.Some? && tid !in old(Known())))
      ensures Live() == old(Live()) + if at.Some? then {tid} else {}
      ensures dirty || (!old(dirty) && entries[..count] == old(entries[..count]))
    {
      hide Truthful, LiveTids;
      at := Find(tid);
      if at.Some? {
        assert entries[..count][at.value] == entries[at.value];
        assert tid in Known();
        hits := hits + 1;
        return;
      }
      at := Probe(tid);
    }

    // daemoon_3ds_cache_name into a buffer of NAME_MAX bytes
    method CacheName(tid: nat, ascii: bool) returns (r: Found)
      requires Valid()
      modifies this, entries, live
      ensures Valid() && TextOf(r) == TextOf(DirectName(lookup, tid, lang, ascii))
      ensures old(count) < MAX_ENTRIES ==> Known() == old(Known()) + {tid}
      ensures old(count) == MAX_ENTRIES ==> Known() == old(Known()) && count == MAX_ENTRIES
      ensures !r.Ok? && (old(count) < MAX_ENTRIES || tid in old(Known())) ==> r == if ascii then Unsupported else Found.NotFound
      ensures misses == old(misses) + if tid in old(Known()) || old(count) == MAX_ENTRIES then 0 else 1
      ensures old(count) < MAX_ENTRIES || tid in old(Known()) ==> Live() == old(Live()) + {tid}
      ensures dirty == (old(dirty) || (tid !in old(Known()) && old(count) < MAX_ENTRIES))
      ensures dirty || (!old(dirty) && entries[..count] == old(entries[..count]))
    {
      hide TidsOf, LiveTids;
      var at := EntryFor(tid);
      if at.None? {
        r := DirectName(lookup, tid, lang, ascii);
        return;
      }
      hide Truthful, DirectName, Printable;
      var e := entries[at.value];
      if ascii {
        if e.ascii.Some? {
          r := Ok(e.ascii.value);
        } else if e.name.Some? && Printable(e.name.value) {
          r := Ok(e.name.value);
        } else {
          r := Unsupported;
        }
      } else {
        r := if e.name.Some? then Ok(e.name.value) else Found.NotFound;
      }
      assert r == NameIn(e, ascii);
      assert e == entries[..count][at.value];
      TruthfulAt(entries[..count], lookup, lang, at.value);
      RecordAgrees(lookup, tid, lang, ascii);
    }

    // daemoon_3ds_cache_icon: the icon, except for a title that finds the table full.
    method CacheIcon(tid: nat) returns (r: Option<Bytes>)
      requires Valid()
      modifies this, entries, live
      ensures Valid()
      ensures r == if old(count) == MAX_ENTRIES && tid !in old(Known()) then None else DirectIcon(lookup, tid)
      ensures old(count) < MAX_ENTRIES ==> Known() == old(Known()) + {tid}
      ensures old(count) == MAX_ENTRIES ==> Known() == old(Known())
    {
      hide TidsOf;
      var at := EntryFor(tid);
      if at.None? {
        return None;
      }
      assert entries[at.value] == entries[..count][at.value];
      TruthfulAt(entries[..count], lookup, lang, at.value);
      r := entries[at.value].icon;
    }

    // daemoon_3ds_cache_forget
    method Forget()
      requires Valid()
      modifies this, live
      ensures Valid() && count == 0 && dirty
    {
      count, dirty := 0, true;
      var i := 0;
      while i < live.Length
        invariant 0 <= i <= live.Length && Valid() && count == 0 && dirty
      {
        live[i] := false;
        i := i + 1;
      }
    }

    // Whether a flush writes: not when nothing was asked for, and not when the table is
    // unchanged and all of it was asked for.
    ghost predicate Writes()
      reads this, entries, live
      requires count <= entries.Length && count <= live.Length
    {
      (count == 0 || Live() != {}) && (dirty || Live() != Known())
    }

    // The records asked for, in the order of the table.
    method Gather() returns (kept: seq<Entry>)
      requires Valid()
      ensures KeptFrom(kept, entries[..count], count, lookup, lang) && TidsOf(kept) == Live()
      ensures (|kept| == count <==> Live() == Known()) && (|kept| == 0 <==> Live() == {})
    {
      hide Truthful, TidsOf, LiveTids;
      kept := [];
      var i := 0;
      NothingKept(entries[..count], lookup, lang);
      NoneMarked([], []);
      NothingKnown();
      while i < count
        invariant 0 <= i <= count && KeptFrom(kept, entries[..count], i, lookup, lang)
        invariant TidsOf(kept) == LiveTids(entries[..i], live[..i])
        invariant |kept| == i <==> forall j :: 0 <= j < i ==> live[j]
        invariant |kept| == 0 <==> forall j :: 0 <= j < i ==> !live[j]
      {
        OneMoreTid(kept, entries[..i], live[..i], entries[i], live[i]);
        assert entries[..i + 1] == entries[..i] + [entries[i]] && live[..i + 1] == live[..i] + [live[i]];
        if live[i] {
          OneMoreKept(kept, entries[..count], i, lookup, lang);
          kept := kept + [entries[i]];
        } else {
          OneSkipped(kept, entries[..count], i, lookup, lang);
        }
        i := i + 1;
      }
      MarkedOrNot(entries[..count], live[..count], lookup, lang);
    }

    // daemoon_3ds_cache_flush: what the file is afterwards. Only records asked for are kept.
    method Flush(file: Option<CacheFile>, trouble: Trouble) returns (after: Option<CacheFile>)
      requires Valid() && FileTruthful(file, lookup)
      modifies this`dirty
      ensures Valid() && FileTruthful(after, lookup) && Known() == old(Known()) && Live() == old(Live())
      ensures FileTids(after) <= FileTids(file) + Known()
      ensures !old(Writes()) || trouble == BeforeRemove ==> after == file && dirty == old(dirty)
      ensures old(Writes()) && trouble == AfterRemove ==> after == None
      ensures old(Writes()) && trouble == NoTrouble ==> TidsOf(Loaded(after, lang)) == Live() && !dirty
      ensures old(InStep(file)) && trouble == NoTrouble ==> Live() <= TidsOf(Loaded(after, lang))
    {
      hide FileTruthful, Truthful, TidsOf, LiveTids;
      var kept := Gather();
      MarkedAreKnown(entries[..count], live[..count]);
      if (count > 0 && |kept| == 0) || (!dirty && |kept| == count) || trouble == BeforeRemove {
        return file;
      }
      NoFileIsTruthful(lookup);
      if trouble == AfterRemove {
        return None;
      }
      after := Some(CacheFile(true, FORMAT, lang, |kept|, kept));
      KeptTids(kept, entries[..count], lookup, lang);
      WrittenIsTruthful(kept, entries[..count], lookup, lang);
      dirty := false;
      assert kept[..|kept|] == kept;
    }
  }

  lemma MarkedAreKnown(es: seq<Entry>, live: seq<bool>)
    requires |es| == |live|
    ensures LiveTids(es, live) <= TidsOf(es)
  {
  }

  lemma OneMoreTid(kept: seq<Entry>, es: seq<Entry>, live: seq<bool>, e: Entry, mark: bool)
    requires |es| == |live| && TidsOf(kept) == LiveTids(es, live)
    ensures LiveTids(es + [e], live + [mark]) == TidsOf(if mark then kept + [e] else kept)
  {
    var fs, marks := es + [e], live + [mark];
    assert TidsOf(kept + [e]) == TidsOf(kept) + {e.tid};
    if mark {
      AddMarked(es, live, e);
    } else {
      forall t
        ensures t in LiveTids(fs, marks) <==> t in LiveTids(es, live)
      {
        if t in LiveTids(es, live) {
          var j :| 0 <= j < |es| && live[j] && es[j].tid == t;
          assert marks[j] && fs[j] == es[j];
        }
        if t in LiveTids(fs, marks) {
          var j :| 0 <= j < |fs| && marks[j] && fs[j].tid == t;
          assert live[j] && fs[j] == es[j];
        }
      }
    }
  }

  // All are marked when the marked titles are all titles, none when there are none.
  lemma MarkedOrNot(es: seq<Entry>, live: seq<bool>, lookup: Lookup, lang: nat)
    requires lang < LANG_COUNT && |es| == |live| && Truthful(es, lookup, lang)
    ensures LiveTids(es, live) == TidsOf(es) <==> forall i :: 0 <= i < |live| ==> live[i]
    ensures LiveTids(es, live) == {} <==> forall i :: 0 <= i < |live| ==> !live[i]
  {
    hide ProbeOf;
    if i: nat :| i < |live| && !live[i] {
      assert es[i].tid in TidsOf(es) && es[i].tid !in LiveTids(es, live);
    }
    if i: nat :| i < |live| && live[i] {
      assert es[i].tid in LiveTids(es, live);
    }
    if forall i :: 0 <= i < |live| ==> live[i] {
      forall t | t in TidsOf(es)
        ensures t in LiveTids(es, live)
      {
        var e :| e in es && e.tid == t;
        var i :| 0 <= i < |es| && es[i] == e;
        assert live[i];
      }
    }
  }

  lemma TruthfulGrows(es: seq<Entry>, lookup: Lookup, lang: nat, e: Entry)
    requires lang < LANG_COUNT && Truthful(es, lookup, lang) && |es| < MAX_ENTRIES
    requires e == ProbeOf(lookup, e.tid, lang) && forall i :: 0 <= i < |es| ==> es[i].tid != e.tid
    ensures Truthful(es + [e], lookup, lang)
  {
    hide ProbeOf;
  }

  // kept holds records of es from before place i, in their order.
  ghost predicate KeptFrom(kept: seq<Entry>, es: seq<Entry>, i: nat, lookup: Lookup, lang: nat)
    requires lang < LANG_COUNT
  {
    && i <= |es| && |kept| <= i && Truthful(es, lookup, lang) && Truthful(kept, lookup, lang)
    && (forall j, k :: 0 <= j < |kept| && i <= k < |es| ==> kept[j].tid != es[k].tid)
    && forall e :: e in kept ==> e in es
  }

  lemma KeptTids(kept: seq<Entry>, es: seq<Entry>, lookup: Lookup, lang: nat)
    requires lang < LANG_COUNT && KeptFrom(kept, es, |es|, lookup, lang)
    ensures TidsOf(kept) <= TidsOf(es)
  {
    hide Truthful;
  }

  lemma NothingKept(es: seq<Entry>, lookup: Lookup, lang: nat)
    requires lang < LANG_COUNT && Truthful(es, lookup, lang)
    ensures KeptFrom([], es, 0, lookup, lang)
  {
  }

  lemma OneMoreKept(kept: seq<Entry>, es: seq<Entry>, i: nat, lookup: Lookup, lang: nat)
    requires lang < LANG_COUNT && i < |es| && KeptFrom(kept, es, i, lookup, lang)
    ensures KeptFrom(kept + [es[i]], es, i + 1, lookup, lang)
  {
    hide ProbeOf;
    TruthfulGrows(kept, lookup, lang, es[i]);
  }

  lemma OneSkipped(kept: seq<Entry>, es: seq<Entry>, i: nat, lookup: Lookup, lang: nat)
    requires lang < LANG_COUNT && i < |es| && KeptFrom(kept, es, i, lookup, lang)
    ensures KeptFrom(kept, es, i + 1, lookup, lang)
  {
    hide Truthful;
  }

  lemma NoFileIsTruthful(lookup: Lookup)
    ensures FileTruthful(None, lookup)
  {
  }

  lemma WrittenIsTruthful(kept: seq<Entry>, es: seq<Entry>, lookup: Lookup, lang: nat)
    requires lang < LANG_COUNT && KeptFrom(kept, es, |es|, lookup, lang)
    ensures FileTruthful(Some(CacheFile(true, FORMAT, lang, |kept|, kept)), lookup)
  {
    hide ProbeOf;
    assert kept[..|kept|] == kept;
  }

  // A file cut short anywhere still says only what is true.
  lemma CutFileIsTruthful(file: CacheFile, n: nat, lookup: Lookup)
    requires FileTruthful(Some(file), lookup) && n <= |file.records|
    ensures FileTruthful(Some(file.(records := file.records[..n])), lookup)
  {
    hide ProbeOf;
    var cut := file.(records := file.records[..n]);
    forall lang | 0 <= lang < LANG_COUNT
      ensures Truthful(Loaded(Some(cut), lang), lookup, lang)
    {
      var whole := Loaded(Some(file), lang);
      assert Truthful(whole, lookup, lang);
      assert Loaded(Some(cut), lang) <= whole;
    }
  }

  // ------------------------------------------------------------------ whole sessions

  // What can happen to the application and its file, in any order.
  datatype Op =
    | AskName(tid: nat, ascii: bool)
    | AskIcon(tid: nat)
    | DoFlush(trouble: Trouble)
    | DoForget
    | Relaunch(lang: nat)
    | CutFile(records: nat)

  datatype Answer = NameAnswer(text: Option<Bytes>) | IconAnswer(icon: Option<Bytes>) | Silence

  // The language the console is in when operation i happens.
  function LangAt(ops: seq<Op>, i: nat, lang: nat): nat
    requires i <= |ops|
  {
    if i == 0 then lang
    else if ops[i - 1].Relaunch? then ops[i - 1].lang
    else LangAt(ops, i - 1, lang)
  }

  predicate KnownLanguages(ops: seq<Op>) {
    forall i :: 0 <= i < |ops| ==> ops[i].Relaunch? ==> ops[i].lang < LANG_COUNT
  }

  // The titles a session asks about.
  function Asked(ops: seq<Op>): set<nat> {
    set op | op in ops && (op.AskName? || op.AskIcon?) :: op.tid
  }

  // The answer the direct lookup gives to an operation. Icons may be missing when there are
  // more titles than records.
  ghost predicate Agrees(a: Answer, op: Op, lookup: Lookup, lang: nat, titles: nat)
    requires lang < LANG_COUNT
  {
    match op
    case AskName(tid, ascii) => a == NameAnswer(TextOf(DirectName(lookup, tid, lang, ascii)))
    case AskIcon(tid) =>
      a == IconAnswer(DirectIcon(lookup, tid)) || (a == IconAnswer(None) && titles > MAX_ENTRIES)
    case _ => a == Silence
  }

  lemma {:induction false} LangStaysKnown(ops: seq<Op>, i: nat, lang: nat)
    requires i <= |ops| && lang < LANG_COUNT && KnownLanguages(ops)
    ensures LangAt(ops, i, lang) < LANG_COUNT
  {
    if i > 0 {
      LangStaysKnown(ops, i - 1, lang);
    }
  }

  lemma {:induction false} TidsAreDistinct(es: seq<Entry>)
    requires forall i, j :: 0 <= i < j < |es| ==> es[i].tid != es[j].tid
    ensures |TidsOf(es)| == |es|
  {
    if es != [] {
      var n := |es| - 1;
      TidsAreDistinct(es[..n]);
      assert es == es[..n] + [es[n]];
      assert TidsOf(es) == TidsOf(es[..n]) + {es[n].tid};
      assert es[n].tid !in TidsOf(es[..n]);
    }
  }

  // A full table that lacks a title means more titles than records.
  lemma FullTable(es: seq<Entry>, tid: nat, asked: set<nat>, lookup: Lookup, lang: nat)
    requires lang < LANG_COUNT && Truthful(es, lookup, lang) && |es| == MAX_ENTRIES
    requires tid !in TidsOf(es) && TidsOf(es) + {tid} <= asked
    ensures |asked| > MAX_ENTRIES
  {
    hide TidsOf, ProbeOf;
    TidsAreDistinct(es);
    Subset(TidsOf(es) + {tid}, asked);
  }

  lemma {:induction false} Subset(a: set<nat>, b: set<nat>)
    requires a <= b
    ensures |a| <= |b|
  {
    if a != {} {
      var x :| x in a;
      Subset(a - {x}, b - {x});
    }
  }

  // One operation.
  method Perform(cache: Cache, file: Option<CacheFile>, op: Op, ghost asked: set<nat>)
    returns (next: Cache, after: Option<CacheFile>, a: Answer)
    requires cache.Valid() && FileTruthful(file, cache.lookup) && cache.Known() <= asked && FileTids(file) <= asked
    requires op.AskName? || op.AskIcon? ==> op.tid in asked
    requires op.Relaunch? ==> op.lang < LANG_COUNT
    modifies cache, cache.entries, cache.live
    ensures next.Valid() && next.count <= next.entries.Length
    ensures next.lookup == cache.lookup && FileTruthful(after, cache.lookup)
    ensures next.Known() <= asked && FileTids(after) <= asked
    ensures next == cache || (fresh(next) && fresh(next.entries) && fresh(next.live))
    ensures next.lang == if op.Relaunch? then op.lang else cache.lang
    ensures Agrees(a, op, cache.lookup, cache.lang, |asked|)
  {
    hide FileTruthful, Truthful, DirectName, TidsOf, DirectIcon;
    next, after, a := cache, file, Silence;
    if op.AskName? {
      var r := cache.CacheName(op.tid, op.ascii);
      a := NameAnswer(TextOf(r));
    } else if op.AskIcon? {
      if cache.count == MAX_ENTRIES && op.tid !in cache.Known() {
        FullTable(cache.entries[..cache.count], op.tid, asked, cache.lookup, cache.lang);
      }
      var r := cache.CacheIcon(op.tid);
      a := IconAnswer(r);
    } else if op.DoFlush? {
      after := cache.Flush(file, op.trouble);
    } else if op.DoForget? {
      NothingKnown();
      cache.Forget();
    } else if op.Relaunch? {
      next := new Cache(cache.lookup, op.lang, file);
    } else if file.Some? && op.records <= |file.value.records| {
      CutFileIsTruthful(file.value, op.records, cache.lookup);
      CutTids(file.value, op.records);
      after := Some(file.value.(records := file.value.records[..op.records]));
    }
  }

  lemma NothingKnown()
    ensures TidsOf([]) == {}
  {
  }

  lemma CutTids(file: CacheFile, n: nat)
    requires n <= |file.records|
    ensures TidsOf(file.records[..n]) <= TidsOf(file.records)
  {
  }

  lemma AskedContains(ops: seq<Op>, i: nat)
    requires i < |ops| && (ops[i].AskName? || ops[i].AskIcon?)
    ensures ops[i].tid in Asked(ops)
  {
    assert ops[i] in ops;
  }

  // The first i answers agree with the direct lookup.
  ghost predicate AgreeUpTo(answers: seq<Answer>, ops: seq<Op>, i: nat, lookup: Lookup, lang: nat)
    requires i <= |answers| && i <= |ops|
  {
    forall j :: 0 <= j < i ==>
      LangAt(ops, j, lang) < LANG_COUNT && Agrees(answers[j], ops[j], lookup, LangAt(ops, j, lang), |Asked(ops)|)
  }

  lemma OneMoreAgrees(answers: seq<Answer>, ops: seq<Op>, a: Answer, lookup: Lookup, lang: nat)
    requires |answers| < |ops| && AgreeUpTo(answers, ops, |answers|, lookup, lang)
    requires LangAt(ops, |answers|, lang) < LANG_COUNT
    requires Agrees(a, ops[|answers|], lookup, LangAt(ops, |answers|, lang), |Asked(ops)|)
    ensures AgreeUpTo(answers + [a], ops, |answers| + 1, lookup, lang)
  {
    hide Agrees, Asked;
  }

  lemma NoneAgree(ops: seq<Op>, lookup: Lookup, lang: nat)
    ensures AgreeUpTo([], ops, 0, lookup, lang)
  {
  }

  // Any session, with relaunches in any language and a file cut at any point, gives the
  // answers the direct lookup gives.
  method Session(lookup: Lookup, lang: nat, ops: seq<Op>) returns (answers: seq<Answer>)
    requires lang < LANG_COUNT && KnownLanguages(ops)
    ensures |answers| == |ops| && AgreeUpTo(answers, ops, |ops|, lookup, lang)
  {
    hide FileTruthful, Truthful, Agrees, AgreeUpTo, Asked, TidsOf, Cache.Valid;
    NoneAgree(ops, lookup, lang);
    var file: Option<CacheFile> := None;
    NoFileIsTruthful(lookup);
    var cache := new Cache(lookup, lang, file);
    answers := [];
    var i := 0;
    while i < |ops|
      invariant 0 <= i <= |ops| && |answers| == i
      invariant fresh(cache) && fresh(cache.entries) && fresh(cache.live) && cache.Valid()
      invariant cache.count <= cache.entries.Length
      invariant cache.lookup == lookup && cache.lang == LangAt(ops, i, lang) && FileTruthful(file, lookup)
      invariant cache.Known() <= Asked(ops) && FileTids(file) <= Asked(ops)
      invariant AgreeUpTo(answers, ops, i, lookup, lang)
    {
      LangStaysKnown(ops, i, lang);
      if ops[i].AskName? || ops[i].AskIcon? {
        AskedContains(ops, i);
      }
      var a;
      cache, file, a := Perform(cache, file, ops[i], Asked(ops));
      OneMoreAgrees(answers, ops, a, lookup, lang);
      answers := answers + [a];
      i := i + 1;
    }
  }

  function Below(n: nat): (s: set<nat>)
    ensures |s| == n && forall t: nat :: t in s <==> t < n
  {
    if n == 0 then {}
    else
      assert n - 1 !in Below(n - 1);
      Below(n - 1) + {n - 1}
  }

  // In a session that has asked for the names of 256 titles, one more title gets its name,
  // but not the icon the direct lookup would give.
  method OneTitleTooMany(lookup: Lookup, lang: nat) returns (name: Found, icon: Option<Bytes>)
    requires lang < LANG_COUNT && lookup(256).Some?
    ensures TextOf(name) == TextOf(DirectName(lookup, 256, lang, false))
    ensures icon.None? && DirectIcon(lookup, 256).Some?
  {
    hide DirectName, TidsOf, LiveTids, Below, FileTruthful, ProbeOf;
    NoFileIsTruthful(lookup);
    var cache := new Cache(lookup, lang, None);
    NothingKnown();
    var i := 0;
    while i < MAX_ENTRIES
      invariant 0 <= i <= MAX_ENTRIES && cache.Valid() && cache.lookup == lookup && cache.lang == lang
      invariant fresh(cache.entries) && fresh(cache.live) && cache.Known() == Below(i)
    {
      TidsAreDistinct(cache.entries[..cache.count]);
      var _ := cache.CacheName(i, false);
      i := i + 1;
    }
    TidsAreDistinct(cache.entries[..cache.count]);
    name := cache.CacheName(MAX_ENTRIES, false);
    icon := cache.CacheIcon(MAX_ENTRIES);
  }
}
