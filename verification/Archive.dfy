// Save packages (core/src/archive.c): pack, hash, verify and unpack each compute the
// payload digest their own way. The zip container is a sequence of named byte strings,
// the save a map from paths to contents.

module Archive {
  import opened Common
  import opened Strbuf
  import opened Sha256
  import opened Payload
  import M = Manifest

  const PATH_MAX: nat := 256
  const MAX_ENTRIES: nat := 192
  const MANIFEST_PATH: Bytes := Ascii("manifest.json")
  const PAYLOAD_DIR: Bytes := Ascii("payload/")

  const SLASH: Byte := 0x2F
  const DOT: Byte := 0x2E

  // -------------------------------------------------------------------- path safety

  // Two equal bytes stand next to each other.
  predicate HasPair(p: Path, b: Byte) {
    exists i :: 0 <= i < |p| - 1 && p[i] == b && p[i + 1] == b
  }

  predicate PathByte(b: Byte) { b >= 0x20 && b != 0x7F && b != 0x5C && b != 0x3A }

  // What path_is_safe lets through.
  predicate SafePath(p: Path) {
    && 0 < |p| < PATH_MAX
    && p[0] != SLASH && p[|p| - 1] != SLASH
    && !HasPair(p, DOT) && !HasPair(p, SLASH)
    && forall i :: 0 <= i < |p| ==> PathByte(p[i])
  }

  // path_is_safe; the C library's searches are one pass each.
  method PathIsSafe(p: Path) returns (ok: bool)
    requires NulFree(p)
    ensures ok <==> SafePath(p)
  {
    if |p| == 0 || |p| >= PATH_MAX || p[0] == SLASH || p[0] == 0x5C {
      return false;
    }
    var dots := FindPair(p, DOT);
    if dots {
      return false;
    }
    var i := 0;
    while i < |p|
      invariant 0 <= i <= |p| && forall j :: 0 <= j < i ==> PathByte(p[j])
    {
      if p[i] == 0x5C || p[i] == 0x3A || p[i] < 0x20 || p[i] == 0x7F {
        return false;
      }
      i := i + 1;
    }
    var slashes := FindPair(p, SLASH);
    ok := !slashes && p[|p| - 1] != SLASH;
  }

  method FindPair(p: Path, b: Byte) returns (found: bool)
    ensures found <==> HasPair(p, b)
  {
    var i := 0;
    while i + 1 < |p|
      invariant 0 <= i && (i <= |p| - 1 || |p| == 0)
      invariant forall j :: 0 <= j < i && j + 1 < |p| ==> !(p[j] == b && p[j + 1] == b)
    {
      if p[i] == b && p[i + 1] == b {
        return true;
      }
      i := i + 1;
    }
    found := false;
  }

  // The names between the slashes of a path.
  function Components(p: Path): (cs: seq<Bytes>)
    ensures cs != []
  {
    if p == [] then [[]]
    else if p[0] == SLASH then [[]] + Components(p[1..])
    else
      var cs := Components(p[1..]);
      [[p[0]] + cs[0]] + cs[1..]
  }

  // No component of a safe path is empty or climbs, so following it never leaves the
  // directory it starts in.
  lemma SafePathStaysInside(p: Path)
    requires SafePath(p)
    ensures forall c :: c in Components(p) ==> c != [] && c != [DOT, DOT]
  {
    ComponentsAreNames(p);
  }

  // The first component is the part before the first slash.
  lemma {:induction false} FirstComponent(p: Path)
    ensures Components(p)[0] <= p
    ensures SLASH !in Components(p)[0]
  {
    if p != [] && p[0] != SLASH {
      FirstComponent(p[1..]);
      var c := Components(p[1..])[0];
      assert [p[0]] + c <= [p[0]] + p[1..] == p;
    }
  }

  lemma PairTail(p: Path, b: Byte)
    requires p != [] && HasPair(p[1..], b)
    ensures HasPair(p, b)
  {
    var i :| 0 <= i < |p| - 2 && p[1..][i] == b && p[1..][i + 1] == b;
    assert p[i + 1] == b && p[(i + 1) + 1] == b;
  }

  lemma {:induction false} ComponentsAreNames(p: Path)
    requires !HasPair(p, DOT) && !HasPair(p, SLASH)
    requires p != [] ==> p[|p| - 1] != SLASH
    ensures forall c :: c in Components(p) ==> c != [DOT, DOT]
    ensures forall i :: 0 < i < |Components(p)| ==> Components(p)[i] != []
    ensures Components(p)[0] == [] ==> p == [] || p[0] == SLASH
  {
    if p != [] {
      var tail := p[1..];
      if HasPair(tail, DOT) {
        PairTail(p, DOT);
      }
      if HasPair(tail, SLASH) {
        PairTail(p, SLASH);
      }
      ComponentsAreNames(tail);
      FirstComponent(p);
      if p[0] == SLASH {
        assert tail != [] && tail[0] == p[0 + 1];
      } else {
        var c, cs := Components(p)[0], Components(tail);
        assert forall x :: x in cs[1..] ==> x in cs;
        assert |c| == 2 ==> c[0] == p[0] && c[1] == p[0 + 1];
      }
    }
  }

  lemma {:induction false} NoEmptyComponent(p: Path)
    ensures [] !in Components(p) <==> p != [] && p[0] != SLASH && p[|p| - 1] != SLASH && !HasPair(p, SLASH)
  {
    if p != [] && p[0] != SLASH {
      var tail, cs := p[1..], Components(p[1..]);
      PairFront(p, SLASH);
      FirstIsEmpty(tail);
      assert Components(p)[1..] == cs[1..] && Components(p)[0] != [];
      assert [] in Components(p) <==> [] in cs[1..];
      if tail != [] && tail[0] == SLASH {
        NoEmptyComponent(tail[1..]);
        PairFront(tail, SLASH);
      } else {
        NoEmptyComponent(tail);
        assert [] in cs <==> cs[0] == [] || [] in cs[1..];
      }
    }
  }

  lemma FirstIsEmpty(p: Path)
    ensures Components(p)[0] == [] <==> p == [] || p[0] == SLASH
    ensures p == [] ==> Components(p) == [[]]
    ensures p != [] && p[0] == SLASH ==> Components(p)[1..] == Components(p[1..])
  {
  }

  // A pair is in front or further on.
  lemma PairFront(p: Path, b: Byte)
    requires p != []
    ensures HasPair(p, b) <==> (|p| >= 2 && p[0] == b && p[1] == b) || HasPair(p[1..], b)
  {
    if HasPair(p, b) {
      var i :| 0 <= i < |p| - 1 && p[i] == b && p[i + 1] == b;
      if i > 0 {
        assert p[1..][i - 1] == b && p[1..][i - 1 + 1] == b;
      }
    }
    if HasPair(p[1..], b) {
      PairTail(p, b);
    }
    if |p| >= 2 && p[0] == b && p[1] == b {
      assert p[0] == b && p[0 + 1] == b;
    }
  }

  lemma PathBytes(p: Path)
    ensures (forall i :: 0 <= i < |p| ==> PathByte(p[i])) <==> forall b :: b in p ==> 0x20 <= b && b != 0x7F && b !in Ascii("\\:")
    ensures Ascii(".") == [DOT] && Ascii("/") == [SLASH]
  {
    assert Ascii("\\:") == [0x5C, 0x3A];
    assert forall i :: 0 <= i < |p| ==> p[i] in p;
  }

  // The path rule by components: no component is empty or has two dots side by side, and
  // every other byte is printable and neither a backslash nor a colon.
  lemma SafePathMeans(p: Path)
    ensures SafePath(p) <==>
      && 1 <= |p| <= 255 && [] !in Components(p) && !HasPair(p, Ascii(".")[0])
      && forall b :: b in p ==> 0x20 <= b && b != 0x7F && b !in Ascii("\\:")
    ensures SLASH == Ascii("/")[0]
  {
    hide Components, HasPair, PathByte, Ascii;
    NoEmptyComponent(p);
    PathBytes(p);
  }

  // ------------------------------------------------------------------- entry tables

  // One row of the table, and what a backend lists.
  datatype Listed = Listed(path: Path, size: U64)

  function Paths(es: seq<Listed>): (ps: seq<Path>)
    ensures |ps| == |es|
  {
    seq(|es|, i requires 0 <= i < |es| => es[i].path)
  }

  // What list_entries may report without the operation being refused.
  predicate Listable(listing: seq<Listed>) {
    |listing| <= MAX_ENTRIES && forall i :: 0 <= i < |listing| ==> SafePath(listing[i].path)
  }

  // Every listed file can be opened and has the listed size.
  predicate Consistent(es: seq<Listed>, files: Tree) {
    forall e :: e in es ==> e.path in files && |files[e.path]| == e.size
  }

  // A listing that describes a save: every file once, with its size.
  ghost predicate Honest(listing: seq<Listed>, files: Tree) {
    Lists(Paths(listing), files) && Consistent(listing, files)
  }

  lemma PathsPresent(es: seq<Listed>, files: Tree)
    requires Consistent(es, files)
    ensures forall p :: p in Paths(es) ==> p in files
  {
    forall p | p in Paths(es)
      ensures p in files
    {
      var i :| 0 <= i < |es| && Paths(es)[i] == p;
      assert es[i] in es;
    }
  }

  // The sorted table.
  function InsertEntry(e: Listed, es: seq<Listed>): (r: seq<Listed>)
    ensures |r| == |es| + 1
  {
    if es == [] || Before(e.path, es[0].path) then [e] + es else [es[0]] + InsertEntry(e, es[1..])
  }

  lemma {:induction false} InsertEntryPaths(e: Listed, es: seq<Listed>)
    ensures Paths(InsertEntry(e, es)) == Insert(e.path, Paths(es))
    ensures multiset(InsertEntry(e, es)) == multiset([e]) + multiset(es)
  {
    if es == [] || Before(e.path, es[0].path) {
      assert Paths([e] + es) == [e.path] + Paths(es);
    } else {
      InsertEntryPaths(e, es[1..]);
      assert es == [es[0]] + es[1..];
      assert Paths(es)[1..] == Paths(es[1..]);
      assert Paths([es[0]] + InsertEntry(e, es[1..])) == [es[0].path] + Paths(InsertEntry(e, es[1..]));
    }
  }

  // Sorting from the last row to the first.
  lemma FromRow(es: seq<Listed>, i: nat)
    requires i < |es|
    ensures es[i..] == [es[i]] + es[i + 1..]
    ensures Sort(Paths(es[i..])) == Insert(es[i].path, Sort(Paths(es[i + 1..])))
  {
    assert Paths(es[i..])[1..] == Paths(es[i + 1..]);
  }

  lemma NoRows(es: seq<Listed>)
    ensures es[|es|..] == [] && Sort(Paths(es[|es|..])) == Paths([])
  {
  }

  lemma AllRows(es: seq<Listed>)
    ensures es[0..] == es
  {
  }

  // daemoon_archive_ctx_t, owned by the caller.
  class Context {
    const entries: array<Listed>
    var count: nat

    ghost predicate Valid()
      reads this
    {
      entries.Length == MAX_ENTRIES && count <= MAX_ENTRIES
    }

    function Table(): seq<Listed>
      reads this, entries
      requires count <= entries.Length
    {
      entries[..count]
    }

    constructor ()
      ensures Valid() && fresh(entries)
    {
      entries := new Listed[MAX_ENTRIES](_ => Listed([], 0));
      count := 0;
    }

    // collect_entry. A safe path always fits its field.
    method Collect(e: Listed) returns (ok: bool)
      requires Valid() && NulFree(e.path)
      modifies this, entries
      ensures Valid()
      ensures ok <==> SafePath(e.path) && old(count) < MAX_ENTRIES
      ensures Table() == if ok then old(Table()) + [e] else old(Table())
    {
      ok := PathIsSafe(e.path);
      if !ok || count >= MAX_ENTRIES {
        return false;
      }
      entries[count] := e;
      count := count + 1;
    }

    // list_entries with collect_entry as its callback: it stops at the first refusal.
    method List(listing: seq<Listed>) returns (ok: bool)
      requires Valid() && forall i :: 0 <= i < |listing| ==> NulFree(listing[i].path)
      modifies this, entries
      ensures Valid() && (ok <==> Listable(listing))
      ensures ok ==> Table() == listing
    {
      hide SafePath;
      count := 0;
      var i := 0;
      while i < |listing|
        invariant 0 <= i <= |listing| && Valid() && i <= MAX_ENTRIES
        invariant Table() == listing[..i]
        invariant forall j :: 0 <= j < i ==> SafePath(listing[j].path)
      {
        var taken := Collect(listing[i]);
        if !taken {
          return false;
        }
        i := i + 1;
      }
      assert listing[..i] == listing;
      ok := true;
    }

    // qsort with entry_cmp. Only what any sort does is promised: the same rows, never
    // decreasing by path.
    method SortTable()
      requires Valid()
      modifies entries
      ensures multiset(Table()) == old(multiset(Table()))
      ensures Paths(Table()) == Sort(old(Paths(Table())))
    {
      hide Sort, Insert, InsertEntry, Paths;
      ghost var before := Table();
      var sorted: seq<Listed> := [];
      var i := count;
      NoRows(before);
      while i > 0
        invariant 0 <= i <= count && |sorted| == count - i && Table() == before
        invariant multiset(sorted) == multiset(before[i..])
        invariant Paths(sorted) == Sort(Paths(before[i..]))
      {
        i := i - 1;
        InsertEntryPaths(entries[i], sorted);
        FromRow(before, i);
        sorted := InsertEntry(entries[i], sorted);
      }
      AllRows(before);
      Put(sorted);
    }

    method Put(sorted: seq<Listed>)
      requires Valid() && |sorted| == count
      modifies entries
      ensures Table() == sorted
    {
      var i := 0;
      while i < count
        invariant 0 <= i <= count && entries[..i] == sorted[..i]
      {
        entries[i] := sorted[i];
        i := i + 1;
      }
    }
  }

  // --------------------------------------------------------------------- hashing files

  method NewHasher() returns (h: Hasher)
    ensures fresh(h) && fresh(h.block) && h.Valid() && h.message == []
  {
    h := new Hasher();
  }

  method SizeBytes(size: U64) returns (be: Bytes)
    ensures be == BigEndian(size, |LENGTH_FIELD|)
  {
    be := [];
    var i := 0;
    while i < |LENGTH_FIELD|
      invariant 0 <= i <= |LENGTH_FIELD|
      invariant be == BigEndian(size, |LENGTH_FIELD|)[..i]
    {
      BigEndianAt(size, |LENGTH_FIELD|, i);
      be := be + [Shift(size, |LENGTH_FIELD| - 1 - i) % 256];
      i := i + 1;
    }
  }

  // hash_entry_header
  method HashHeader(h: Hasher, path: Path, size: U64)
    requires h.Valid()
    modifies h, h.block
    ensures h.Valid() && h.message == old(h.message) + Header(path, size)
  {
    hide Hasher.Valid;
    h.Update(path);
    h.Update([0]);
    var be := SizeBytes(size);
    h.Update(be);
  }

  // Reading a file through the scratch buffer, hashing on the way past.
  method HashContents(h: Hasher, data: Bytes, scratch: nat) returns (total: nat)
    requires h.Valid() && scratch > 0
    modifies h, h.block
    ensures h.Valid() && h.message == old(h.message) + data && total == |data|
  {
    hide Hasher.Valid;
    total := 0;
    while total < |data|
      invariant 0 <= total <= |data| && h.Valid()
      invariant h.message == old(h.message) + data[..total]
    {
      var got := if |data| - total < scratch then |data| - total else scratch;
      h.Update(data[total..total + got]);
      assert data[..total] + data[total..total + got] == data[..total + got];
      total := total + got;
    }
    assert data[..total] == data;
  }

  method Finish(h: Hasher) returns (hex: Bytes)
    requires h.Valid()
    modifies h, h.block
    ensures hex == Hex(Digest(h.message))
    ensures h.message == old(h.message)
  {
    hide Hasher.Valid, Digest, Hex;
    var out := new Byte[32](_ => 0);
    h.Final(out);
    hex := ToHex(out[..]);
  }

  // ----------------------------------------------------------------- hashing a save

  // A save as the backend shows it: what it lists, what can be read, and the code with
  // which it answers for a file that is not there.
  datatype SaveView = SaveView(listing: seq<Listed>, files: Tree, missing: Code := NotFound)

  predicate ListsCStrings(es: seq<Listed>) {
    forall i :: 0 <= i < |es| ==> NulFree(es[i].path)
  }

  // What hash_save answers: the code, the digest in hexadecimal, the size.
  datatype Hashed = Hashed(status: Status, hex: Bytes, size: nat)

  // The digest and the size of the files some rows name.
  function HashOf(es: seq<Listed>, files: Tree): Hashed
    requires Consistent(es, files)
  {
    PathsPresent(es, files);
    SortMembers(Paths(es));
    Hashed(Success, Hex(Digest(ImageOf(Paths(es), files))), TotalSize(FilesAt(Sort(Paths(es)), files)) % U64_LIMIT)
  }

  // What is read of the files. hash_save reads them as they are; the zip library that pack
  // hands them to never reads one that is listed as empty.
  function AsRead(view: SaveView, packing: bool): Tree {
    if !packing then view.files
    else map p | p in view.files :: if ListedEmpty(view.listing, p) then [] else view.files[p]
  }

  predicate ListedEmpty(listing: seq<Listed>, p: Path) {
    exists e :: e in listing && e.path == p && e.size == 0
  }

  // The code a row stops the operation with. Hashing reads the file to its end and compares;
  // the zip library gives up when more comes than was listed.
  function RowFault(e: Listed, view: SaveView, packing: bool): Option<Code> {
    if e.path !in view.files then Some(view.missing)
    else
      var n := |view.files[e.path]|;
      if n == e.size || (packing && e.size == 0) then None
      else if packing && n > e.size then Some(ArchiveError)
      else Some(IoError)
  }

  ghost function PathFault(p: Path, view: SaveView, packing: bool): Option<Code> {
    if exists e :: e in view.listing && e.path == p && RowFault(e, view, packing).Some? then
      var e :| e in view.listing && e.path == p && RowFault(e, view, packing).Some?;
      RowFault(e, view, packing)
    else None
  }

  ghost function FirstFault(ps: seq<Path>, view: SaveView, packing: bool): Code {
    if ps == [] then IoError
    else if PathFault(ps[0], view, packing).Some? then PathFault(ps[0], view, packing).value
    else FirstFault(ps[1..], view, packing)
  }

  // The code, digest and size that come out of going through the listed files in order.
  ghost function ReadResult(view: SaveView, packing: bool): Hashed {
    if !Listable(view.listing) then Hashed(ArchiveError, [], 0)
    else if !Consistent(view.listing, AsRead(view, packing)) then
      Hashed(FirstFault(Sort(Paths(view.listing)), view, packing), [], 0)
    else HashOf(view.listing, AsRead(view, packing))
  }

  ghost function HashSaveResult(view: SaveView): Hashed { ReadResult(view, false) }

  // A backend that names a path more than once names it with one size. Otherwise what is
  // packed depends on how qsort orders the two rows.
  predicate OneSize(listing: seq<Listed>) {
    forall e, f :: e in listing && f in listing && e.path == f.path ==> e.size == f.size
  }

  lemma RowFaultMeans(e: Listed, view: SaveView, packing: bool)
    requires e in view.listing && (packing ==> OneSize(view.listing))
    ensures RowFault(e, view, packing).None? <==> e.path in AsRead(view, packing) && |AsRead(view, packing)[e.path]| == e.size
  {
  }

  lemma PathFaultMeans(e: Listed, view: SaveView, packing: bool)
    requires e in view.listing && (packing ==> OneSize(view.listing)) && RowFault(e, view, packing).Some?
    ensures PathFault(e.path, view, packing) == RowFault(e, view, packing)
  {
  }

  lemma {:induction false} FirstFaultAt(ps: seq<Path>, i: nat, view: SaveView, packing: bool)
    requires i < |ps| && PathFault(ps[i], view, packing).Some?
    requires forall k :: 0 <= k < i ==> PathFault(ps[k], view, packing).None? || ps[k] == ps[i]
    ensures FirstFault(ps, view, packing) == PathFault(ps[i], view, packing).value
  {
    hide PathFault;
    if PathFault(ps[0], view, packing).None? {
      FirstFaultAt(ps[1..], i - 1, view, packing);
    }
  }

  // The first row that fails decides the code, and no order of rows with equal paths gives
  // another one.
  lemma FaultFound(es: seq<Listed>, i: nat, view: SaveView, packing: bool)
    requires i < |es| && multiset(es) == multiset(view.listing) && Paths(es) == Sort(Paths(view.listing))
    requires Consistent(es[..i], AsRead(view, packing)) && (packing ==> OneSize(view.listing))
    requires RowFault(es[i], view, packing).Some?
    ensures !Consistent(view.listing, AsRead(view, packing))
    ensures FirstFault(Sort(Paths(view.listing)), view, packing) == RowFault(es[i], view, packing).value
  {
    hide RowFault, PathFault, AsRead, OneSize, FirstFault, Before;
    var ps := Paths(es);
    assert es[i] in multiset(view.listing);
    assert es[i] in view.listing;
    RowFaultMeans(es[i], view, packing);
    PathFaultMeans(es[i], view, packing);
    SortSorts(Paths(view.listing));
    forall k | 0 <= k < i
      ensures PathFault(ps[k], view, packing).None? || ps[k] == ps[i]
    {
      if PathFault(ps[k], view, packing).Some? {
        var j := LaterRowFails(es, i, k, view, packing);
        assert ps[j] == ps[k] && !Before(ps[i], ps[k]) && (i < j ==> !Before(ps[j], ps[i]));
        BeforeIsTotal(ps[k], ps[i]);
      }
    }
    FirstFaultAt(ps, i, view, packing);
  }

  // A path of an earlier row that was fine fails only in a row still to come.
  lemma LaterRowFails(es: seq<Listed>, i: nat, k: nat, view: SaveView, packing: bool) returns (j: nat)
    requires k < i < |es| && multiset(es) == multiset(view.listing)
    requires Consistent(es[..i], AsRead(view, packing)) && (packing ==> OneSize(view.listing))
    requires PathFault(es[k].path, view, packing).Some?
    ensures i <= j < |es| && es[j].path == es[k].path
  {
    hide RowFault, AsRead, OneSize;
    var e :| e in view.listing && e.path == es[k].path && RowFault(e, view, packing).Some?;
    assert e in multiset(view.listing);
    RowFaultMeans(e, view, packing);
    assert e in es && e !in es[..i];
    j :| 0 <= j < |es| && es[j] == e;
  }

  // How far hashing the sorted rows has come: message is the image of the first i files.
  ghost predicate HashedUpTo(message: Bytes, total: nat, es: seq<Listed>, i: nat, files: Tree)
    requires i <= |es|
  {
    && Consistent(es[..i], files)
    && (forall p :: p in Paths(es[..i]) ==> p in files)
    && message == Image(FilesAt(Paths(es[..i]), files))
    && total == TotalSize(FilesAt(Paths(es[..i]), files)) % U64_LIMIT
  }

  lemma NothingHashed(es: seq<Listed>, files: Tree)
    ensures HashedUpTo([], 0, es, 0, files)
  {
  }

  lemma OneMoreHashed(message: Bytes, total: nat, es: seq<Listed>, i: nat, files: Tree)
    requires i < |es| && HashedUpTo(message, total, es, i, files)
    requires es[i].path in files && |files[es[i].path]| == es[i].size
    ensures HashedUpTo(message + Header(es[i].path, es[i].size) + files[es[i].path], (total + es[i].size) % U64_LIMIT, es, i + 1, files)
  {
    hide Header;
    var fs := FilesAt(Paths(es[..i]), files);
    assert es[..i + 1] == es[..i] + [es[i]];
    assert Paths(es[..i + 1]) == Paths(es[..i]) + [es[i].path];
    var gs := FilesAt(Paths(es[..i + 1]), files);
    assert gs[..i] == fs && gs[i] == File(es[i].path, files[es[i].path]);
    WrapSum(TotalSize(fs), es[i].size);
  }

  lemma WrapSum(a: nat, b: nat)
    ensures (a % U64_LIMIT + b) % U64_LIMIT == (a + b) % U64_LIMIT
  {
  }

  // All rows hashed, in sorted order: the answer for the rows as they were listed.
  lemma AllHashed(message: Bytes, total: nat, es: seq<Listed>, listing: seq<Listed>, files: Tree)
    requires HashedUpTo(message, total, es, |es|, files)
    requires multiset(es) == multiset(listing) && Paths(es) == Sort(Paths(listing))
    ensures Consistent(listing, files)
    ensures HashOf(listing, files) == Hashed(Success, Hex(Digest(message)), total)
  {
    hide Image, TotalSize, Digest, Hex;
    assert es[..|es|] == es;
    SameRows(es, listing, files);
  }

  lemma SameRows(es: seq<Listed>, listing: seq<Listed>, files: Tree)
    requires multiset(es) == multiset(listing)
    ensures Consistent(es, files) <==> Consistent(listing, files)
  {
    assert forall e :: e in es <==> e in multiset(es);
    assert forall e :: e in listing <==> e in multiset(listing);
  }

  // daemoon_archive_hash_save
  method HashSave(ctx: Context, view: SaveView, scratch: nat) returns (r: Hashed)
    requires ctx.Valid() && scratch > 0 && ListsCStrings(view.listing)
    modifies ctx, ctx.entries
    ensures ctx.Valid() && r == HashSaveResult(view)
  {
    hide Hasher.Valid, Hex, Digest, HashOf, HashedUpTo, Consistent, Header, AsRead, FirstFault;
    var listed := ctx.List(view.listing);
    if !listed {
      return Hashed(ArchiveError, [], 0);
    }
    ctx.SortTable();
    ghost var es, files := ctx.Table(), AsRead(view, false);
    var h := NewHasher();
    var total: nat, i: nat := 0, 0;
    NothingHashed(es, files);
    while i < ctx.count
      modifies h, h.block
      invariant 0 <= i <= ctx.count && h.Valid()
      invariant HashedUpTo(h.message, total, es, i, files)
    {
      ghost var message := h.message;
      var e := ctx.entries[i];
      assert e == es[i];
      RowIsRead(message, total, es, i, view, false);
      HashHeader(h, e.path, e.size);
      if e.path !in view.files {
        return Hashed(view.missing, [], 0);
      }
      var got := HashContents(h, view.files[e.path], scratch);
      if got != e.size {
        return Hashed(IoError, [], 0);
      }
      OneMoreHashed(message, total, es, i, files);
      total := (total + got) % U64_LIMIT;
      i := i + 1;
    }
    var hex := Finish(h);
    AllHashed(h.message, total, es, view.listing, files);
    r := Hashed(Success, hex, total);
  }

  // The bytes whose digest hash_save answers begin with the first path in the order of strcmp.
  lemma HashStartsWithTheFirst(view: SaveView) returns (p: Path, others: seq<Path>, size: Bytes)
    requires Listable(view.listing) && Consistent(view.listing, view.files) && view.listing != []
    ensures p in Paths(view.listing) && forall q :: q in Paths(view.listing) ==> q == p || ComesFirst(p, q)
    ensures multiset(Paths(view.listing)) == multiset([p]) + multiset(others)
    ensures forall q :: q in [p] + others ==> q in view.files
    ensures |size| == 8 && Weight(size) == |view.files[p]|
    ensures
      && HashSaveResult(view).status == Success
      && HashSaveResult(view).hex == Hex(Digest(p + [0] + size + view.files[p] + ImageOf(others, view.files)))
  {
    hide Hex, Digest, Weight, ComesFirst, Listable, TotalSize, Sort;
    PathsPresent(view.listing, view.files);
    p, others, size := ImageStartsWithTheFirst(Paths(view.listing), view.files);
  }

  // What going on to row i means: it fails and so does everything, or it is read as it is
  // counted.
  lemma RowIsRead(message: Bytes, total: nat, es: seq<Listed>, i: nat, view: SaveView, packing: bool)
    requires i < |es| && multiset(es) == multiset(view.listing) && Paths(es) == Sort(Paths(view.listing))
    requires HashedUpTo(message, total, es, i, AsRead(view, packing)) && (packing ==> OneSize(view.listing))
    requires Listable(view.listing)
    ensures
      var fault := RowFault(es[i], view, packing);
      if fault.Some? then ReadResult(view, packing) == Hashed(fault.value, [], 0)
      else
        && es[i].path in view.files && es[i].path in AsRead(view, packing)
        && AsRead(view, packing)[es[i].path] == (if packing && es[i].size == 0 then [] else view.files[es[i].path])
        && |AsRead(view, packing)[es[i].path]| == es[i].size
  {
    hide Image, TotalSize, FirstFault, HashOf, Listable, Sort, OneSize;
    assert es[i] in multiset(view.listing);
    RowFaultMeans(es[i], view, packing);
    if RowFault(es[i], view, packing).Some? {
      FaultFound(es, i, view, packing);
    }
  }

  // ------------------------------------------------------------------------- packing

  // One entry of the container, as the zip library meets it: its name and size in the
  // central directory, what extracting it delivers, and whether extracting it succeeds.
  // Directory entries are ones the readers skip.
  datatype ZipEntry = ZipEntry(name: Bytes, directory: bool, data: Contents, announced: U64 := |data|, sound: bool := true)

  type Zip = seq<ZipEntry>

  function EntryOf(p: Path, data: Contents): ZipEntry { ZipEntry(PAYLOAD_DIR + p, false, data) }

  // The container pack writes: the files in sorted order, then the manifest.
  function PayloadEntries(ps: seq<Path>, files: Tree): (zip: Zip)
    requires forall p :: p in ps ==> p in files
    ensures |zip| == |ps|
  {
    seq(|ps|, i requires 0 <= i < |ps| => EntryOf(ps[i], files[ps[i]]))
  }

  datatype Packed = Packed(status: Status, zip: Zip, manifest: M.Manifest)

  // The manifest pack completes: identity from the caller, digest and size from the files.
  function Completed(m: M.Manifest, hash: Hashed): M.Manifest {
    m.(sha256 := hash.hex, size := hash.size)
  }

  lemma HashIsDigest(es: seq<Listed>, files: Tree)
    requires Consistent(es, files)
    ensures M.IsDigest(HashOf(es, files).hex) && NulFree(HashOf(es, files).hex) && HashOf(es, files).size < U64_LIMIT
  {
    hide Digest, Image, TotalSize;
    PathsPresent(es, files);
    HexIsLower(Digest(ImageOf(Paths(es), files)));
  }

  lemma {:induction false} HexIsLower(d: Bytes)
    ensures forall i :: 0 <= i < |Hex(d)| ==> M.LowerHex(Hex(d)[i])
  {
    if d != [] {
      HexIsLower(d[..|d| - 1]);
    }
  }

  ghost function PackResult(view: SaveView, m: M.Manifest): Packed {
    var hash, files := ReadResult(view, true), AsRead(view, true);
    if hash.status != Success then Packed(hash.status, [], m)
    else
      var done := Completed(m, hash);
      if !M.Valid(done) then Packed(InvalidManifest, [], m)
      else if |M.ManifestText(done)| >= M.MAX_BYTES then Packed(BufferTooSmall, [], m)
      else
        PathsPresent(view.listing, files);
        SortMembers(Paths(view.listing));
        Packed(Success,
               PayloadEntries(Sort(Paths(view.listing)), files) + [ZipEntry(MANIFEST_PATH, false, M.ManifestText(done))],
               done)
  }

  // What a packed container looks like: one entry for each listed file, named payload/ and
  // its path, first paths first, and the manifest at the end.
  lemma PackedLayout(view: SaveView, m: M.Manifest, r: Packed, i: nat) returns (p: Path, n: nat)
    requires r == PackResult(view, m) && r.status == Success && i < |view.listing|
    ensures n == |view.listing| <= 192 && |r.zip| == n + 1 && |Sort(Paths(view.listing))| == n
    ensures p == Sort(Paths(view.listing))[i] && p in view.files
    ensures r.zip[i].name == Ascii("payload/") + p && r.zip[n].name == Ascii("manifest.json")
    ensures !r.zip[i].directory && r.zip[i].data == if ListedEmpty(view.listing, p) then [] else view.files[p]
    ensures !r.zip[n].directory && r.zip[n].data == M.ManifestText(r.manifest)
  {
    hide M.Valid, M.ManifestText, HashOf, Consistent, ListedEmpty, Sort;
    ReadSucceeds(view, true);
    var files := AsRead(view, true);
    PathsPresent(view.listing, files);
    SortMembers(Paths(view.listing));
    SortSorts(Paths(view.listing));
    n := |view.listing|;
    p := Sort(Paths(view.listing))[i];
    assert p in Sort(Paths(view.listing));
  }

  // What the loop of pack has done after i rows.
  ghost predicate PackedUpTo(zip: Zip, es: seq<Listed>, i: nat, files: Tree)
    requires i <= |es|
  {
    && (forall p :: p in Paths(es[..i]) ==> p in files)
    && zip == PayloadEntries(Paths(es[..i]), files)
  }

  lemma OneMorePacked(zip: Zip, es: seq<Listed>, i: nat, files: Tree)
    requires i < |es| && PackedUpTo(zip, es, i, files) && es[i].path in files
    ensures PackedUpTo(zip + [EntryOf(es[i].path, files[es[i].path])], es, i + 1, files)
  {
    hide EntryOf;
    assert Paths(es[..i + 1]) == Paths(es[..i]) + [es[i].path];
  }

  lemma NothingPacked(es: seq<Listed>, files: Tree)
    ensures PackedUpTo([], es, 0, files)
  {
  }

  // mz_zip_writer_add_read_buf_callback with pack_read_cb: the file goes through a buffer,
  // hashed on the way past, until it ends or is more than was announced. A file announced
  // as empty is not read.
  method PackContents(h: Hasher, data: Bytes, announced: nat, buffer: nat) returns (ok: bool, total: nat)
    requires h.Valid() && buffer > 0
    modifies h, h.block
    ensures h.Valid() && (ok <==> announced == 0 || |data| <= announced)
    ensures ok ==> total == (if announced == 0 then 0 else |data|)
    ensures ok ==> h.message == old(h.message) + if announced == 0 then [] else data
  {
    hide Hasher.Valid;
    total := 0;
    if announced == 0 {
      return true, 0;
    }
    while total < |data|
      invariant 0 <= total <= |data| && total <= announced && h.Valid()
      invariant h.message == old(h.message) + data[..total]
    {
      var got := if |data| - total < buffer then |data| - total else buffer;
      h.Update(data[total..total + got]);
      assert data[..total] + data[total..total + got] == data[..total + got];
      if total + got > announced {
        return false, total;
      }
      total := total + got;
    }
    assert data[..total] == data;
    ok := true;
  }

  // The payload half of daemoon_archive_pack: hash and container in one pass.
  method PackPayload(ctx: Context, view: SaveView, buffer: nat) returns (r: Hashed, zip: Zip)
    requires ctx.Valid() && buffer > 0 && ListsCStrings(view.listing) && OneSize(view.listing)
    modifies ctx, ctx.entries
    ensures ctx.Valid() && r == ReadResult(view, true)
    ensures r.status == Success ==>
      && (forall p :: p in Sort(Paths(view.listing)) ==> p in AsRead(view, true))
      && zip == PayloadEntries(Sort(Paths(view.listing)), AsRead(view, true))
  {
    hide Hasher.Valid, Hex, Digest, HashOf, HashedUpTo, Consistent, Header, PayloadEntries, PackedUpTo, EntryOf, AsRead, FirstFault, OneSize;
    zip := [];
    var listed := ctx.List(view.listing);
    if !listed {
      return Hashed(ArchiveError, [], 0), [];
    }
    ctx.SortTable();
    ghost var es, files := ctx.Table(), AsRead(view, true);
    var h := NewHasher();
    var total: nat, i: nat := 0, 0;
    NothingHashed(es, files);
    NothingPacked(es, files);
    while i < ctx.count
      modifies h, h.block
      invariant 0 <= i <= ctx.count && h.Valid()
      invariant HashedUpTo(h.message, total, es, i, files) && PackedUpTo(zip, es, i, files)
    {
      ghost var message := h.message;
      var e := ctx.entries[i];
      assert e == es[i];
      RowIsRead(message, total, es, i, view, true);
      HashHeader(h, e.path, e.size);
      if e.path !in view.files {
        return Hashed(view.missing, [], 0), [];
      }
      var ok, got := PackContents(h, view.files[e.path], e.size, buffer);
      if !ok {
        return Hashed(ArchiveError, [], 0), [];
      }
      if got != e.size {
        return Hashed(IoError, [], 0), [];
      }
      OneMorePacked(zip, es, i, files);
      zip := zip + [EntryOf(e.path, if e.size == 0 then [] else view.files[e.path])];
      OneMoreHashed(message, total, es, i, files);
      total := (total + got) % U64_LIMIT;
      i := i + 1;
    }
    var hex := Finish(h);
    AllHashed(h.message, total, es, view.listing, files);
    AllPacked(zip, es, files);
    r := Hashed(Success, hex, total);
  }

  lemma AllPacked(zip: Zip, es: seq<Listed>, files: Tree)
    requires PackedUpTo(zip, es, |es|, files)
    ensures (forall p :: p in Paths(es) ==> p in files) && zip == PayloadEntries(Paths(es), files)
  {
    assert es[..|es|] == es;
  }

  // daemoon_archive_pack
  method Pack(ctx: Context, view: SaveView, m: M.Manifest, buffer: nat) returns (r: Packed)
    requires ctx.Valid() && buffer > 0 && ListsCStrings(view.listing) && OneSize(view.listing) && M.Storable(m)
    modifies ctx, ctx.entries
    ensures ctx.Valid() && r == PackResult(view, m)
  {
    hide M.Valid, M.ManifestText, HashOf, Consistent, PayloadEntries, M.IsDigest, Listable, Context.Valid;
    var hash, zip := PackPayload(ctx, view, buffer);
    if hash.status != Success {
      return Packed(hash.status, [], m);
    }
    ReadSucceeds(view, true);
    HashIsDigest(view.listing, AsRead(view, true));
    var done := Completed(m, hash);
    DigestFits(hash.hex);
    var json := new Byte[M.MAX_BYTES](_ => 0);
    var status, len := M.Write(done, json);
    if status != Success {
      return Packed(status, [], m);
    }
    zip := zip + [ZipEntry(MANIFEST_PATH, false, json[..len])];
    r := Packed(Success, zip, done);
  }

  lemma ReadSucceeds(view: SaveView, packing: bool)
    requires ReadResult(view, packing).status == Success
    ensures Listable(view.listing) && Consistent(view.listing, AsRead(view, packing))
    ensures ReadResult(view, packing) == HashOf(view.listing, AsRead(view, packing))
  {
    hide Listable, AsRead, HashOf;
  }

  lemma DigestFits(s: Bytes)
    requires M.IsDigest(s) && NulFree(s)
    ensures M.Fits(s, M.SHA256_HEX)
  {
  }
}
