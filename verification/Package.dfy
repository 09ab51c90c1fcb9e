// Reading packages back: collect, verify, unpack (core/src/archive.c:428-692), and the
// theorems that tie them to packing and to hashing a save.

module Package {
  import opened Common
  import opened Strbuf
  import opened Sha256
  import opened Payload
  import opened Archive
  import M = Manifest
  import Utf8

  // ------------------------------------------------------------------ the container

  // mz_zip_reader_locate_file: where a name stands, compared as a whole. Among equal names
  // the first counts.
  function Locate(zip: Zip, name: Bytes): (r: Option<nat>)
    ensures r.Some? ==> r.value < |zip| && zip[r.value].name == name
    ensures r.None? ==> forall i :: 0 <= i < |zip| ==> zip[i].name != name
  {
    if zip == [] then None
    else if zip[0].name == name then Some(0)
    else
      var r := Locate(zip[1..], name);
      if r.None? then
        assert forall i :: 1 <= i < |zip| ==> zip[i] == zip[1..][i - 1];
        None
      else Some(r.value + 1)
  }

  // The name of an entry as mz_zip_reader_file_stat hands it out: cut to a buffer of 512
  // bytes, and read as a C string.
  const STAT_NAME_MAX: nat := 512

  function ReadName(e: ZipEntry): (r: Bytes)
    ensures NulFree(r)
  {
    CString(Take(e.name, STAT_NAME_MAX - 1))
  }

  // Entries that count as payload, and the path one stands for.
  predicate IsPayload(e: ZipEntry) { !e.directory && ReadName(e) != MANIFEST_PATH }

  predicate WellNamed(e: ZipEntry) {
    var name := ReadName(e);
    |name| >= |PAYLOAD_DIR| && name[..|PAYLOAD_DIR|] == PAYLOAD_DIR && SafePath(name[|PAYLOAD_DIR|..])
  }

  lemma {:induction false} LocateIsFirst(zip: Zip, name: Bytes, i: nat)
    ensures Locate(zip, name) == Some(i) <==> i < |zip| && zip[i].name == name && forall j :: 0 <= j < i ==> zip[j].name != name
  {
    if zip != [] && zip[0].name != name && i > 0 {
      LocateIsFirst(zip[1..], name, i - 1);
      assert forall j :: 0 < j < i && j < |zip| ==> zip[j] == zip[1..][j - 1];
    }
  }

  // What the readers make of a name: everything but directories and manifest.json is payload,
  // and has to be payload/ and a safe path.
  lemma EntryMeans(e: ZipEntry)
    requires NulFree(e.name) && |e.name| <= 511
    ensures IsPayload(e) <==> !e.directory && e.name != Ascii("manifest.json")
    ensures WellNamed(e) <==> exists p :: SafePath(p) && e.name == Ascii("payload/") + p
  {
    hide SafePath, Ascii;
    CStringWhole(e.name);
    assert ReadName(e) == e.name;
    assert PAYLOAD_DIR == Ascii("payload/");
    if WellNamed(e) {
      var p := e.name[|PAYLOAD_DIR|..];
      assert e.name == PAYLOAD_DIR + p;
    }
    if p :| SafePath(p) && e.name == Ascii("payload/") + p {
      assert e.name[|PAYLOAD_DIR|..] == p;
    }
  }

  // Longer names are read up to their first 511 bytes, and none further than its first NUL.
  lemma LongNames(e: ZipEntry, rest: Bytes)
    requires NulFree(e.name)
    ensures |e.name| > 511 ==> ReadName(e) == e.name[..511]
    ensures |e.name| <= 510 ==> ReadName(e.(name := e.name + [0] + rest)) == e.name
  {
    CStringWhole(Take(e.name, 511));
    if |e.name| <= 510 {
      var s := Take(e.name + [0] + rest, 511);
      StopsAtNul(e.name, s[|e.name| + 1..]);
      assert s == e.name + [0] + s[|e.name| + 1..];
    }
  }

  lemma {:induction false} StopsAtNul(s: Bytes, rest: Bytes)
    requires NulFree(s)
    ensures CString(s + [0] + rest) == s
  {
    if s != [] {
      assert (s + [0] + rest)[1..] == s[1..] + [0] + rest;
      assert s[0] in s;
      StopsAtNul(s[1..], rest);
    }
  }

  // The row an entry adds to the table, if any.
  function RowOf(e: ZipEntry): seq<Listed> {
    if IsPayload(e) && WellNamed(e) then [Listed(ReadName(e)[|PAYLOAD_DIR|..], e.announced)] else []
  }

  // The rows collect_payload puts into the table, in container order. An entry that is
  // neither payload nor manifest nor directory makes it refuse.
  function PayloadRows(zip: Zip): seq<Listed> {
    if zip == [] then []
    else PayloadRows(zip[..|zip| - 1]) + RowOf(zip[|zip| - 1])
  }

  predicate Collectable(zip: Zip) {
    (forall i :: 0 <= i < |zip| ==> IsPayload(zip[i]) ==> WellNamed(zip[i])) && |PayloadRows(zip)| <= MAX_ENTRIES
  }

  lemma CollectableMeans(zip: Zip)
    ensures Collectable(zip) <==> (forall e :: e in zip && IsPayload(e) ==> WellNamed(e)) && |PayloadRows(zip)| <= 192
  {
    hide IsPayload, WellNamed, PayloadRows;
    assert forall i :: 0 <= i < |zip| ==> zip[i] in zip;
  }

  lemma RowsGrow(zip: Zip, i: nat)
    requires i < |zip|
    ensures PayloadRows(zip[..i + 1]) == PayloadRows(zip[..i]) + RowOf(zip[i])
  {
    hide RowOf;
    assert zip[..i + 1][..i] == zip[..i];
  }

  lemma {:induction false} RowsMonotone(zip: Zip, i: nat)
    requires i <= |zip|
    ensures |PayloadRows(zip[..i])| <= |PayloadRows(zip)|
    decreases |zip| - i
  {
    if i == |zip| {
      assert zip[..i] == zip;
    } else {
      RowsGrow(zip, i);
      RowsMonotone(zip, i + 1);
    }
  }

  lemma RowIsSafe(e: ZipEntry)
    ensures forall r :: r in RowOf(e) ==> SafePath(r.path)
  {
    hide SafePath, ReadName;
  }

  lemma {:induction false} EveryRowIsSafe(zip: Zip)
    ensures forall r :: r in PayloadRows(zip) ==> SafePath(r.path)
  {
    hide SafePath, RowOf;
    if zip != [] {
      EveryRowIsSafe(zip[..|zip| - 1]);
      RowIsSafe(zip[|zip| - 1]);
    }
  }

  lemma RowsAreSafe(zip: Zip)
    ensures forall p :: p in Paths(PayloadRows(zip)) ==> SafePath(p)
  {
    hide SafePath, PayloadRows;
    var rows := PayloadRows(zip);
    EveryRowIsSafe(zip);
    forall p | p in Paths(rows)
      ensures SafePath(p)
    {
      var k :| 0 <= k < |rows| && Paths(rows)[k] == p;
      assert rows[k] in rows;
    }
  }

  // What extracting an entry delivers, and whether that succeeds: a directory gives nothing
  // and no error. An entry that is not sound fails after some data.
  function Delivered(e: ZipEntry): Contents { if e.directory then [] else e.data }

  predicate Extracts(e: ZipEntry) { e.directory || e.sound }

  // A file can be read for a path: an entry has its whole name, and extracting it succeeds.
  predicate CanRead(zip: Zip, p: Path) {
    var at := Locate(zip, PAYLOAD_DIR + p);
    at.Some? && Extracts(zip[at.value])
  }

  // The file a reader gets for a path: what it locates under the path's name.
  function Extracted(zip: Zip, p: Path): Contents
    requires Locate(zip, PAYLOAD_DIR + p).Some?
  {
    Delivered(zip[Locate(zip, PAYLOAD_DIR + p).value])
  }

  // The files of a package that can be read, as unpacking writes them.
  function FilesOf(zip: Zip): Tree {
    map p | p in Paths(PayloadRows(zip)) && CanRead(zip, p) :: Extracted(zip, p)
  }

  // One turn of collect_payload's loop.
  method CollectEntry(ctx: Context, e: ZipEntry) returns (ok: bool)
    requires ctx.Valid()
    modifies ctx, ctx.entries
    ensures ctx.Valid()
    ensures ok <==> IsPayload(e) ==> WellNamed(e) && old(ctx.count) < MAX_ENTRIES
    ensures ok ==> ctx.Table() == old(ctx.Table()) + RowOf(e)
  {
    hide SafePath;
    var name := ReadName(e);
    if e.directory || name == MANIFEST_PATH {
      return true;
    }
    if |name| < |PAYLOAD_DIR| || name[..|PAYLOAD_DIR|] != PAYLOAD_DIR {
      return false;
    }
    var rel := name[|PAYLOAD_DIR|..];
    assert forall b :: b in rel ==> b in name;
    ok := ctx.Collect(Listed(rel, e.announced));
  }

  lemma RowsOfPayload(e: ZipEntry)
    ensures |RowOf(e)| <= 1 && (IsPayload(e) && WellNamed(e) ==> |RowOf(e)| == 1)
  {
  }

  // collect_payload
  method CollectPayload(ctx: Context, zip: Zip) returns (ok: bool)
    requires ctx.Valid()
    modifies ctx, ctx.entries
    ensures ctx.Valid() && (ok <==> Collectable(zip))
    ensures ok ==> multiset(ctx.Table()) == multiset(PayloadRows(zip))
    ensures ok ==> Paths(ctx.Table()) == Sort(Paths(PayloadRows(zip)))
  {
    hide RowOf, IsPayload, WellNamed;
    ctx.count := 0;
    var i := 0;
    while i < |zip|
      invariant 0 <= i <= |zip| && ctx.Valid() && ctx.Table() == PayloadRows(zip[..i])
      invariant forall j :: 0 <= j < i ==> IsPayload(zip[j]) ==> WellNamed(zip[j])
    {
      RowsGrow(zip, i);
      RowsMonotone(zip, i + 1);
      RowsOfPayload(zip[i]);
      var taken := CollectEntry(ctx, zip[i]);
      if !taken {
        return false;
      }
      i := i + 1;
    }
    assert zip[..i] == zip;
    ctx.SortTable();
    ok := true;
  }

  // ------------------------------------------------------------------- verify, unpack

  function VerifyResult(zip: Zip, m: M.Manifest): Status {
    var rows, files := PayloadRows(zip), FilesOf(zip);
    if !Collectable(zip) then ArchiveError
    else if !Consistent(rows, files) then ArchiveError
    else if HashOf(rows, files).hex == m.sha256 && HashOf(rows, files).size == m.size then Success
    else ChecksumMismatch
  }

  // A row has a file exactly when one can be read for it.
  lemma RowIsLocated(zip: Zip, es: seq<Listed>, i: nat)
    requires i < |es| && multiset(es) == multiset(PayloadRows(zip))
    ensures es[i].path in FilesOf(zip) <==> CanRead(zip, es[i].path)
    ensures es[i].path in FilesOf(zip) ==> FilesOf(zip)[es[i].path] == Extracted(zip, es[i].path)
  {
    var rows := PayloadRows(zip);
    assert es[i] in multiset(es);
    assert es[i] in rows;
    var k :| 0 <= k < |rows| && rows[k] == es[i];
    assert Paths(rows)[k] == es[i].path;
  }

  // The header of a row, then the contents of the entry located under its name.
  method HashLocated(h: Hasher, zip: Zip, e: Listed) returns (ok: bool, got: nat)
    requires h.Valid()
    modifies h, h.block
    ensures h.Valid() && (ok <==> CanRead(zip, e.path))
    ensures ok ==> h.message == old(h.message) + Header(e.path, e.size) + Extracted(zip, e.path)
    ensures ok ==> got == |Extracted(zip, e.path)|
  {
    hide Hasher.Valid, Header;
    var at := Locate(zip, PAYLOAD_DIR + e.path);
    if at.None? {
      return false, 0;
    }
    HashHeader(h, e.path, e.size);
    var data := Delivered(zip[at.value]);
    h.Update(data);
    ok, got := Extracts(zip[at.value]), |data|;
  }

  lemma Mismatch(es: seq<Listed>, i: nat, rows: seq<Listed>, files: Tree)
    requires i < |es| && multiset(es) == multiset(rows)
    requires es[i].path !in files || |files[es[i].path]| != es[i].size
    ensures !Consistent(rows, files)
  {
    SameRows(es, rows, files);
    assert es[i] in es;
  }

  // daemoon_archive_verify
  method Verify(ctx: Context, zip: Zip, m: M.Manifest) returns (r: Status)
    requires ctx.Valid()
    modifies ctx, ctx.entries
    ensures ctx.Valid() && r == VerifyResult(zip, m)
  {
    hide Hasher.Valid, Hex, Digest, HashOf, HashedUpTo, Consistent, Header, FilesOf, Collectable, PayloadRows, Extracted, CanRead, Sort;
    var collected := CollectPayload(ctx, zip);
    if !collected {
      return ArchiveError;
    }
    ghost var rows, files := PayloadRows(zip), FilesOf(zip);
    ghost var es := ctx.Table();
    var h := NewHasher();
    var total: nat, i: nat := 0, 0;
    NothingHashed(es, files);
    while i < ctx.count
      modifies h, h.block
      invariant 0 <= i <= ctx.count && h.Valid()
      invariant HashedUpTo(h.message, total, es, i, files)
    {
      ghost var message := h.message;
      var e := ctx.entries[i];
      assert e == es[i];
      RowIsLocated(zip, es, i);
      var ok, got := HashLocated(h, zip, e);
      if !ok || got != e.size {
        Mismatch(es, i, rows, files);
        return ArchiveError;
      }
      OneMoreHashed(message, total, es, i, files);
      total := (total + got) % U64_LIMIT;
      i := i + 1;
    }
    var hex := Finish(h);
    AllHashed(h.message, total, es, rows, files);
    r := Compare(hex, total, m);
    HashIsDigest(rows, files);
  }

  method Compare(hex: Bytes, total: nat, m: M.Manifest) returns (r: Status)
    requires |hex| == 64
    ensures r == if hex == m.sha256 && total == m.size then Success else ChecksumMismatch
  {
    var equal := HexEqual(Some(hex), Some(m.sha256));
    r := if !equal || total != m.size then ChecksumMismatch else Success;
  }

  // An open, writable save archive.
  class SaveArchive {
    var files: Tree

    constructor (files: Tree)
      ensures this.files == files
    {
      this.files := files;
    }

    method RemoveAll()
      modifies this
      ensures files == map[]
    {
      files := map[];
    }

    method WriteFile(p: Path, data: Contents)
      modifies this
      ensures files == old(files)[p := data]
    {
      files := files[p := data];
    }
  }

  // The first i rows have been written and nothing else is there.
  ghost predicate WrittenUpTo(files: Tree, es: seq<Listed>, i: nat, all: Tree)
    requires i <= |es|
  {
    && (forall p :: p in files <==> p in Paths(es[..i]))
    && (forall p :: p in files ==> p in all && files[p] == all[p])
  }

  lemma OneMoreWritten(files: Tree, es: seq<Listed>, i: nat, all: Tree)
    requires i < |es| && WrittenUpTo(files, es, i, all) && es[i].path in all
    ensures WrittenUpTo(files[es[i].path := all[es[i].path]], es, i + 1, all)
  {
    assert Paths(es[..i + 1]) == Paths(es[..i]) + [es[i].path];
  }

  // How many of some paths come before the first for which no file can be read.
  function ReadableFront(zip: Zip, ps: seq<Path>): (n: nat)
    ensures n <= |ps| && forall k :: 0 <= k < n ==> CanRead(zip, ps[k])
    ensures n < |ps| ==> !CanRead(zip, ps[n])
  {
    if ps == [] || !CanRead(zip, ps[0]) then 0
    else
      var n := ReadableFront(zip, ps[1..]);
      assert forall k :: 1 <= k < n + 1 ==> ps[k] == ps[1..][k - 1];
      1 + n
  }

  // What unpacking leaves in an archive: the files of the sorted rows up to the first that
  // cannot be read, and of that one what was delivered, if an entry has its name.
  function Unpacked(zip: Zip): Tree {
    var ps := Sort(Paths(PayloadRows(zip)));
    var n := ReadableFront(zip, ps);
    var whole: Tree := map p | p in ps[..n] :: Extracted(zip, p);
    if n < |ps| && Locate(zip, PAYLOAD_DIR + ps[n]).Some? then whole[ps[n] := Extracted(zip, ps[n])] else whole
  }

  predicate CanReadAll(zip: Zip) {
    forall p :: p in Paths(PayloadRows(zip)) ==> CanRead(zip, p)
  }

  lemma UnpackedWhole(zip: Zip)
    requires CanReadAll(zip)
    ensures Unpacked(zip) == FilesOf(zip)
  {
    hide PayloadRows, Sort, Extracts;
    var ps := Sort(Paths(PayloadRows(zip)));
    SortMembers(Paths(PayloadRows(zip)));
    assert ReadableFront(zip, ps) == |ps|;
    assert ps[..|ps|] == ps;
  }

  lemma FrontIs(zip: Zip, ps: seq<Path>, i: nat)
    requires i <= |ps| && forall k :: 0 <= k < i ==> CanRead(zip, ps[k])
    requires i < |ps| ==> !CanRead(zip, ps[i])
    ensures ReadableFront(zip, ps) == i
  {
    hide CanRead;
  }

  // Writing stops at row i because it cannot be read, or because there is no row i.
  lemma StoppedAt(files: Tree, es: seq<Listed>, i: nat, zip: Zip)
    requires i <= |es| && WrittenUpTo(files, es, i, FilesOf(zip))
    requires multiset(es) == multiset(PayloadRows(zip)) && Paths(es) == Sort(Paths(PayloadRows(zip)))
    requires i < |es| ==> !CanRead(zip, es[i].path)
    ensures CanReadAll(zip) <==> i == |es|
    ensures
      Unpacked(zip) ==
      if i < |es| && Locate(zip, PAYLOAD_DIR + es[i].path).Some? then files[es[i].path := Extracted(zip, es[i].path)] else files
  {
    hide PayloadRows, Sort, Locate, Extracts, Extracted;
    var ps := Paths(es);
    SortMembers(Paths(PayloadRows(zip)));
    assert Paths(es[..i]) == ps[..i];
    forall k | 0 <= k < i
      ensures CanRead(zip, ps[k])
    {
      assert ps[..i][k] == ps[k] && ps[k] in files;
    }
    FrontIs(zip, ps, i);
    assert i < |es| ==> ps[i] in Paths(PayloadRows(zip));
    assert files == map p | p in ps[..i] :: Extracted(zip, p);
  }

  // daemoon_archive_unpack: the archive is cleared first, so nothing of what it held
  // before survives, also when a row turns out not to be readable.
  method Unpack(ctx: Context, zip: Zip, save: SaveArchive) returns (r: Status)
    requires ctx.Valid()
    modifies ctx, ctx.entries, save
    ensures ctx.Valid() && r == if Collectable(zip) && CanReadAll(zip) then Success else ArchiveError
    ensures save.files == if Collectable(zip) then Unpacked(zip) else old(save.files)
    ensures r == Success ==> save.files == FilesOf(zip)
  {
    hide Collectable, PayloadRows, FilesOf, WrittenUpTo, Unpacked, CanReadAll;
    var collected := CollectPayload(ctx, zip);
    if !collected {
      return ArchiveError;
    }
    save.RemoveAll();
    ghost var es := ctx.Table();
    var i := 0;
    NothingWritten(es, FilesOf(zip));
    while i < ctx.count
      modifies save
      invariant 0 <= i <= ctx.count && WrittenUpTo(save.files, es, i, FilesOf(zip))
    {
      var e := ctx.entries[i];
      assert e == es[i];
      RowIsLocated(zip, es, i);
      var at := Locate(zip, PAYLOAD_DIR + e.path);
      if at.None? || !Extracts(zip[at.value]) {
        StoppedAt(save.files, es, i, zip);
        if at.Some? {
          save.WriteFile(e.path, Delivered(zip[at.value]));
        }
        return ArchiveError;
      }
      OneMoreWritten(save.files, es, i, FilesOf(zip));
      save.WriteFile(e.path, Delivered(zip[at.value]));
      i := i + 1;
    }
    StoppedAt(save.files, es, i, zip);
    UnpackedWhole(zip);
    r := Success;
  }

  lemma NothingWritten(es: seq<Listed>, all: Tree)
    ensures WrittenUpTo(map[], es, 0, all)
  {
  }

  // read_manifest_from
  function ReadManifest(zip: Zip): M.Outcome<M.Manifest> {
    var at := Locate(zip, MANIFEST_PATH);
    if at.None? || |Delivered(zip[at.value])| > M.MAX_BYTES then M.Failed(InvalidManifest)
    else if !Extracts(zip[at.value]) then M.Failed(ArchiveError)
    else M.ParseManifest(Delivered(zip[at.value]))
  }

  // Reading the manifest of a package is parsing the first entry of that name, however long
  // it is, as long as it can be extracted.
  lemma ManifestIsParsed(zip: Zip, i: nat)
    requires i < |zip| && Locate(zip, Ascii("manifest.json")) == Some(i) && !zip[i].directory && zip[i].sound
    ensures ReadManifest(zip) == M.ParseManifest(zip[i].data)
  {
    hide M.ParseText, M.FromMembers;
  }

  // ------------------------------------------------------- verified, then unpacked

  // What was verified can be unpacked whole: unpacking stops half way only in packages that
  // do not verify.
  lemma VerifiedUnpacksWhole(zip: Zip, m: M.Manifest)
    requires VerifyResult(zip, m) == Success
    ensures Collectable(zip) && CanReadAll(zip) && Unpacked(zip) == FilesOf(zip)
  {
    hide Collectable, Consistent, HashOf, PayloadRows, CanRead, Extracted;
    PathsPresent(PayloadRows(zip), FilesOf(zip));
    UnpackedWhole(zip);
  }

  // No two payload entries are read as the same name.
  predicate UniqueNames(zip: Zip) { Distinct(Paths(PayloadRows(zip))) }

  // When names are unique every row's size is the size of its own file.
  lemma RowsAreListing(zip: Zip)
    requires UniqueNames(zip) && Consistent(PayloadRows(zip), FilesOf(zip))
    ensures Honest(PayloadRows(zip), FilesOf(zip))
  {
    hide PayloadRows, Consistent, Locate;
    PathsPresent(PayloadRows(zip), FilesOf(zip));
  }

  // Two honest listings of the same files hash alike.
  lemma HonestListingsHashAlike(es: seq<Listed>, fs: seq<Listed>, files: Tree)
    requires Honest(es, files) && Honest(fs, files)
    ensures HashOf(es, files) == HashOf(fs, files)
  {
    hide Image, Hex, Digest, TotalSize;
    PathsPresent(es, files);
    PathsPresent(fs, files);
    CompleteListsAgree(Paths(es), Paths(fs), files);
    ImageIgnoresOrder(Paths(es), Paths(fs), files);
    SortSorts(Paths(es));
    SortSorts(Paths(fs));
    SortedIsUnique(Sort(Paths(es)), Sort(Paths(fs)));
  }

  // A package that verifies against its manifest, unpacked into any save, hashes to exactly
  // what the manifest says, however the backend lists the files.
  lemma VerifiedPackageRestores(zip: Zip, m: M.Manifest, listing: seq<Listed>)
    requires UniqueNames(zip) && VerifyResult(zip, m) == Success
    requires Honest(listing, FilesOf(zip))
    ensures HashSaveResult(SaveView(listing, FilesOf(zip))) == Hashed(Success, m.sha256, m.size)
  {
    hide FilesOf, Consistent, HashOf, PayloadRows, SafePath;
    var rows, files := PayloadRows(zip), FilesOf(zip);
    RowsAreListing(zip);
    HonestListingsHashAlike(rows, listing, files);
    HashSucceeds(listing, files);
    ListingIsListable(zip, listing);
  }

  lemma HashSucceeds(es: seq<Listed>, files: Tree)
    requires Consistent(es, files)
    ensures HashOf(es, files).status == Success
  {
  }

  lemma SafeIsShort(p: Path)
    requires SafePath(p)
    ensures |p| < PATH_MAX
  {
  }

  lemma SafeIsCString(p: Path)
    requires SafePath(p)
    ensures NulFree(p)
  {
  }

  lemma ListingIsListable(zip: Zip, listing: seq<Listed>)
    requires Collectable(zip) && UniqueNames(zip) && Consistent(PayloadRows(zip), FilesOf(zip))
    requires Lists(Paths(listing), FilesOf(zip))
    ensures Listable(listing)
  {
    hide PayloadRows, Locate, SafePath, Consistent;
    var rows := PayloadRows(zip);
    RowsAreSafe(zip);
    PathsPresent(rows, FilesOf(zip));
    CompleteListsAgree(Paths(rows), Paths(listing), FilesOf(zip));
    assert |multiset(Paths(rows))| == |multiset(Paths(listing))|;
    forall i | 0 <= i < |listing|
      ensures SafePath(listing[i].path)
    {
      assert Paths(listing)[i] in FilesOf(zip);
    }
  }

  // What verify hashed is what the unpacked save hashes if and only if no name occurs twice.
  lemma ImagesAgreeExactlyWhenUnique(zip: Zip, listing: seq<Listed>)
    requires Collectable(zip) && Consistent(PayloadRows(zip), FilesOf(zip))
    requires Honest(listing, FilesOf(zip))
    ensures forall p :: p in Paths(PayloadRows(zip)) ==> p in FilesOf(zip)
    ensures forall p :: p in Paths(listing) ==> p in FilesOf(zip)
    ensures ImageOf(Paths(PayloadRows(zip)), FilesOf(zip)) == ImageOf(Paths(listing), FilesOf(zip)) <==> UniqueNames(zip)
  {
    hide PayloadRows, Consistent, Locate, SafePath, Image;
    var rows, files := PayloadRows(zip), FilesOf(zip);
    var ps, qs := Paths(rows), Paths(listing);
    RowsAreSafe(zip);
    PathsPresent(rows, files);
    forall p | p in files
      ensures NulFree(p)
    {
      SafeIsCString(p);
    }
    if UniqueNames(zip) {
      CompleteListsAgree(ps, qs, files);
      ImageIgnoresOrder(ps, qs, files);
    }
    if ImageOf(ps, files) == ImageOf(qs, files) {
      SameImageSamePaths(ps, qs, files);
      DistinctIsAboutCounts(ps, qs);
    }
  }

  lemma SameFilesSamePaths(ps: seq<Path>, qs: seq<Path>, files: Tree)
    requires (forall p :: p in ps ==> p in files) && (forall p :: p in qs ==> p in files)
    requires FilesAt(ps, files) == FilesAt(qs, files)
    ensures ps == qs
  {
    var fs, gs := FilesAt(ps, files), FilesAt(qs, files);
    assert forall i :: 0 <= i < |fs| ==> fs[i].path == ps[i];
    assert forall i :: 0 <= i < |gs| ==> gs[i].path == qs[i];
  }

  lemma SameImageSamePaths(ps: seq<Path>, qs: seq<Path>, files: Tree)
    requires (forall p :: p in ps ==> p in files) && (forall p :: p in qs ==> p in files)
    requires (forall p :: p in files ==> NulFree(p)) && ImageOf(ps, files) == ImageOf(qs, files)
    ensures multiset(ps) == multiset(qs)
  {
    hide Image, Sorted, NulFree;
    SortMembers(ps);
    SortMembers(qs);
    ImageIsInjective(FilesAt(Sort(ps), files), FilesAt(Sort(qs), files));
    SameFilesSamePaths(Sort(ps), Sort(qs), files);
    SortSorts(ps);
    SortSorts(qs);
  }

  lemma CountedTwice(ps: seq<Path>, i: nat, j: nat)
    requires i < j < |ps| && ps[i] == ps[j]
    ensures multiset(ps)[ps[i]] >= 2
  {
    assert ps == ps[..j] + [ps[j]] + ps[j + 1..];
    assert ps[i] in ps[..j];
  }

  lemma DistinctIsAboutCounts(ps: seq<Path>, qs: seq<Path>)
    requires multiset(ps) == multiset(qs) && Distinct(qs)
    ensures Distinct(ps)
  {
    forall i, j | 0 <= i < j < |ps|
      ensures ps[i] != ps[j]
    {
      DistinctCount(qs, ps[i]);
      if ps[i] == ps[j] {
        CountedTwice(ps, i, j);
      }
    }
  }

  // ------------------------------------------------------------- packed, then verified

  // The container pack writes for some paths.
  function Container(ps: seq<Path>, files: Tree, text: Contents): (zip: Zip)
    requires forall p :: p in ps ==> p in files
    ensures |zip| == |ps| + 1
  {
    PayloadEntries(ps, files) + [ZipEntry(MANIFEST_PATH, false, text)]
  }

  lemma ContainerAt(ps: seq<Path>, files: Tree, text: Contents, i: nat)
    requires (forall p :: p in ps ==> p in files) && i < |ps|
    ensures Container(ps, files, text)[i] == EntryOf(ps[i], files[ps[i]])
    ensures Container(ps, files, text)[|ps|] == ZipEntry(MANIFEST_PATH, false, text)
  {
  }

  // A short name without a NUL is read as it is.
  lemma ReadWhole(e: ZipEntry)
    requires NulFree(e.name) && |e.name| < STAT_NAME_MAX
    ensures ReadName(e) == e.name
  {
    CStringWhole(e.name);
  }

  lemma FixedNames()
    ensures NulFree(PAYLOAD_DIR) && NulFree(MANIFEST_PATH)
  {
  }

  lemma EntryReadsBack(p: Path, data: Contents)
    requires SafePath(p)
    ensures IsPayload(EntryOf(p, data)) && WellNamed(EntryOf(p, data))
    ensures RowOf(EntryOf(p, data)) == [Listed(p, |data|)]
  {
    var e := EntryOf(p, data);
    SafeIsCString(p);
    FixedNames();
    SafeIsShort(p);
    hide SafePath, ReadName;
    ReadWhole(e);
    assert e.name[|PAYLOAD_DIR|..] == p && e.name[..|PAYLOAD_DIR|] == PAYLOAD_DIR;
    assert e.name[0] == PAYLOAD_DIR[0] == 0x70 && MANIFEST_PATH[0] == 0x6D;
  }

  lemma ManifestIsNoRow(text: Contents)
    ensures RowOf(ZipEntry(MANIFEST_PATH, false, text)) == [] && !IsPayload(ZipEntry(MANIFEST_PATH, false, text))
  {
    hide ReadName, WellNamed;
    FixedNames();
    ReadWhole(ZipEntry(MANIFEST_PATH, false, text));
  }

  function RowsFor(ps: seq<Path>, files: Tree): (rows: seq<Listed>)
    requires forall p :: p in ps ==> p in files
    ensures |rows| == |ps|
  {
    seq(|ps|, i requires 0 <= i < |ps| => Listed(ps[i], |files[ps[i]]|))
  }

  lemma {:induction false} ContainerRowsUpTo(ps: seq<Path>, files: Tree, text: Contents, n: nat)
    requires (forall p :: p in ps ==> p in files && SafePath(p)) && n <= |ps|
    ensures PayloadRows(Container(ps, files, text)[..n]) == RowsFor(ps, files)[..n]
  {
    hide SafePath, RowOf, Container, EntryOf;
    var zip := Container(ps, files, text);
    if n > 0 {
      ContainerRowsUpTo(ps, files, text, n - 1);
      RowsGrow(zip, n - 1);
      ContainerAt(ps, files, text, n - 1);
      EntryReadsBack(ps[n - 1], files[ps[n - 1]]);
    }
  }

  // Collecting the container gives back exactly the rows that were packed.
  lemma ContainerRows(ps: seq<Path>, files: Tree, text: Contents)
    requires forall p :: p in ps ==> p in files && SafePath(p)
    ensures PayloadRows(Container(ps, files, text)) == RowsFor(ps, files)
    ensures Paths(RowsFor(ps, files)) == ps && Consistent(RowsFor(ps, files), files)
  {
    hide SafePath, RowOf, PayloadEntries;
    var zip := Container(ps, files, text);
    ContainerRowsUpTo(ps, files, text, |ps|);
    assert zip[..|zip| - 1] == zip[..|ps|];
    ManifestIsNoRow(text);
    assert RowsFor(ps, files)[..|ps|] == RowsFor(ps, files);
  }

  lemma ContainerIsCollectable(ps: seq<Path>, files: Tree, text: Contents)
    requires (forall p :: p in ps ==> p in files && SafePath(p)) && |ps| <= MAX_ENTRIES
    ensures Collectable(Container(ps, files, text))
  {
    hide SafePath, RowOf, PayloadRows, IsPayload, WellNamed;
    var zip := Container(ps, files, text);
    ContainerRows(ps, files, text);
    forall i | 0 <= i < |zip|
      ensures IsPayload(zip[i]) ==> WellNamed(zip[i])
    {
      if i < |ps| {
        ContainerAt(ps, files, text, i);
        EntryReadsBack(ps[i], files[ps[i]]);
      } else {
        ManifestIsNoRow(text);
      }
    }
  }

  // A name that only one entry has is located there.
  lemma LocateOnly(zip: Zip, i: nat)
    requires i < |zip| && forall j :: 0 <= j < |zip| && j != i ==> zip[j].name != zip[i].name
    ensures Locate(zip, zip[i].name) == Some(i)
  {
  }

  lemma NamesInContainer(ps: seq<Path>, files: Tree, text: Contents, i: nat, j: nat)
    requires (forall p :: p in ps ==> p in files) && Distinct(ps) && i < j <= |ps|
    ensures Container(ps, files, text)[i].name != Container(ps, files, text)[j].name
  {
    var zip := Container(ps, files, text);
    assert zip[i].name == PAYLOAD_DIR + ps[i];
    assert PAYLOAD_DIR[0] == 0x70 && MANIFEST_PATH[0] == 0x6D && zip[i].name[0] == PAYLOAD_DIR[0];
    if j < |ps| {
      assert zip[j].name == PAYLOAD_DIR + ps[j];
      assert zip[i].name[|PAYLOAD_DIR|..] == ps[i] && zip[j].name[|PAYLOAD_DIR|..] == ps[j];
    }
  }

  lemma LocatedInContainer(ps: seq<Path>, files: Tree, text: Contents, i: nat)
    requires (forall p :: p in ps ==> p in files) && Distinct(ps) && i <= |ps|
    ensures Locate(Container(ps, files, text), Container(ps, files, text)[i].name) == Some(i)
  {
    hide Container, Locate, Distinct;
    var zip := Container(ps, files, text);
    forall j | 0 <= j < |zip| && j != i
      ensures zip[j].name != zip[i].name
    {
      if j < i {
        NamesInContainer(ps, files, text, j, i);
      } else {
        NamesInContainer(ps, files, text, i, j);
      }
    }
    LocateOnly(zip, i);
  }

  // Unpacking the container gives back exactly the files that were packed.
  lemma ContainerFiles(ps: seq<Path>, files: Tree, text: Contents)
    requires Lists(ps, files) && forall p :: p in ps ==> SafePath(p)
    ensures FilesOf(Container(ps, files, text)) == files
  {
    hide SafePath, PayloadRows, Container, Locate;
    var zip := Container(ps, files, text);
    ContainerRows(ps, files, text);
    forall p | p in files
      ensures CanRead(zip, p) && Extracted(zip, p) == files[p]
    {
      var i :| 0 <= i < |ps| && ps[i] == p;
      LocatedInContainer(ps, files, text, i);
      ContainerAt(ps, files, text, i);
    }
  }

  lemma ContainerManifest(ps: seq<Path>, files: Tree, text: Contents)
    requires (forall p :: p in ps ==> p in files) && Distinct(ps)
    ensures Locate(Container(ps, files, text), MANIFEST_PATH) == Some(|ps|)
    ensures Container(ps, files, text)[|ps|].data == text
  {
    hide Locate;
    LocatedInContainer(ps, files, text, |ps|);
  }

  // What pack does not object to: every listed file is there and has the listed size, or is
  // listed as empty.
  lemma PackReadsExactlyWhen(view: SaveView)
    ensures Consistent(view.listing, AsRead(view, true)) <==>
      && OneSize(view.listing)
      && forall e :: e in view.listing ==> e.path in view.files && (e.size == 0 || |view.files[e.path]| == e.size)
  {
    hide AsRead;
    if OneSize(view.listing) {
      forall e | e in view.listing
        ensures RowFault(e, view, true).None? <==> e.path in AsRead(view, true) && |AsRead(view, true)[e.path]| == e.size
      {
        RowFaultMeans(e, view, true);
      }
    }
  }

  // Packing then succeeds exactly when the paths are safe and the completed manifest is
  // valid: a valid manifest always fits its buffer.
  lemma PackSucceedsWhenValid(view: SaveView, m: M.Manifest)
    requires M.Storable(m)
    ensures PackResult(view, m).status == Success <==>
      && Listable(view.listing) && Consistent(view.listing, AsRead(view, true))
      && M.Valid(Completed(m, HashOf(view.listing, AsRead(view, true))))
  {
    hide HashOf, M.Valid, M.ManifestText, PayloadEntries, Consistent, M.IsDigest, AsRead, Listable;
    var files := AsRead(view, true);
    if Listable(view.listing) && Consistent(view.listing, files) {
      var hash := HashOf(view.listing, files);
      HashSucceeds(view.listing, files);
      HashIsDigest(view.listing, files);
      DigestFits(hash.hex);
      if M.Valid(Completed(m, hash)) {
        M.ManifestFits(Completed(m, hash));
      }
    }
  }

  // What pack hands out, in terms of the files as they are read and the completed manifest.
  lemma PackShape(view: SaveView, m: M.Manifest)
    requires PackResult(view, m).status == Success
    ensures Listable(view.listing) && Consistent(view.listing, AsRead(view, true))
    ensures forall p :: p in Sort(Paths(view.listing)) ==> p in AsRead(view, true)
    ensures
      var r, files := PackResult(view, m), AsRead(view, true);
      && r.manifest == Completed(m, HashOf(view.listing, files)) && M.Valid(r.manifest)
      && |M.ManifestText(r.manifest)| < M.MAX_BYTES
      && r.zip == Container(Sort(Paths(view.listing)), files, M.ManifestText(r.manifest))
  {
    hide HashOf, M.Valid, M.ManifestText, PayloadEntries, Consistent, AsRead, ReadResult;
    ReadSucceeds(view, true);
    PathsPresent(view.listing, AsRead(view, true));
    SortMembers(Paths(view.listing));
  }

  // Sorting the paths of a complete listing leaves it complete.
  lemma SortedLists(ps: seq<Path>, files: Tree)
    requires Lists(ps, files)
    ensures Lists(Sort(ps), files)
  {
    hide Sort;
    SortSorts(ps);
    SortMembers(ps);
    DistinctIsAboutCounts(Sort(ps), ps);
  }

  // A save listed as it is, is read as it is.
  lemma HonestIsReadAsItIs(view: SaveView)
    requires Consistent(view.listing, view.files)
    ensures AsRead(view, true) == view.files
  {
  }

  // A save of which every file is listed once, packed under a storable manifest, gives a
  // package that holds exactly the files as they were read and exactly that manifest, and
  // that verifies. Where the listed sizes are right, they were read as they are.
  lemma PackedPackageVerifies(view: SaveView, m: M.Manifest)
    requires Lists(Paths(view.listing), view.files) && M.Storable(m)
    requires PackResult(view, m).status == Success
    ensures
      var r := PackResult(view, m);
      && FilesOf(r.zip) == AsRead(view, true)
      && (Honest(view.listing, view.files) ==> FilesOf(r.zip) == view.files)
      && ReadManifest(r.zip) == M.Done(r.manifest)
      && VerifyResult(r.zip, r.manifest) == Success
      && UniqueNames(r.zip)
  {
    hide HashOf, M.Valid, M.ManifestText, PayloadEntries, Consistent, PackResult, SafePath, PayloadRows, FilesOf, Locate, Sort, AsRead;
    var r, files := PackResult(view, m), AsRead(view, true);
    if Honest(view.listing, view.files) {
      HonestIsReadAsItIs(view);
    }
    SamePaths(view);
    PackShape(view, m);
    var ps, text := Sort(Paths(view.listing)), M.ManifestText(r.manifest);
    SortedLists(Paths(view.listing), files);
    SortedPathsAreSafe(view.listing);
    ContainerFiles(ps, files, text);
    ContainerRows(ps, files, text);
    ContainerIsCollectable(ps, files, text);
    HonestListingsHashAlike(RowsFor(ps, files), view.listing, files);
    ContainerManifest(ps, files, text);
    CompletedIsStorable(m, view.listing, files);
    M.ParseUndoesWrite(r.manifest);
  }

  lemma SamePaths(view: SaveView)
    requires Lists(Paths(view.listing), view.files)
    ensures Lists(Paths(view.listing), AsRead(view, true))
  {
  }

  // Packing and hashing one save agree on its digest and size unless a file that is listed
  // as empty is not: hash_save notices that, and pack leaves out what the file holds.
  lemma PackAndHashAgreeExactlyWhen(view: SaveView)
    requires ReadResult(view, true).status == Success
    ensures forall e :: e in view.listing ==> e.path in view.files
    ensures HashSaveResult(view) == ReadResult(view, true) <==>
      forall e :: e in view.listing && e.size == 0 ==> view.files[e.path] == []
  {
    hide HashOf, OneSize, FirstFault;
    ReadSucceeds(view, true);
    PackReadsExactlyWhen(view);
    if forall e :: e in view.listing && e.size == 0 ==> view.files[e.path] == [] {
      assert AsRead(view, true) == view.files;
    } else {
      assert !Consistent(view.listing, view.files);
      HashSucceeds(view.listing, AsRead(view, true));
    }
  }

  // A save with one file of one byte that is listed as empty: hashing it is refused, and it
  // is packed as a save with one empty file.
  lemma ListedEmptyIsPackedEmpty()
    ensures
      var view := SaveView([Listed([0x61], 0)], map[[0x61] := [0x78]]);
      && HashSaveResult(view).status == IoError
      && PackResult(view, M.SAMPLE).status == Success
      && FilesOf(PackResult(view, M.SAMPLE).zip) == map[[0x61] := []]
  {
    hide HashOf, PackResult, FilesOf, M.Valid, M.Storable;
    var row, view := Listed([0x61], 0), SaveView([Listed([0x61], 0)], map[[0x61] := [0x78]]);
    assert Paths(view.listing) == [[0x61]] && row in view.listing;
    assert AsRead(view, true) == map[[0x61] := []] by {
      assert ListedEmpty(view.listing, row.path);
    }
    FaultOfOne(view);
    M.SampleIsValid();
    SampleTakes(view.listing, AsRead(view, true));
    PackSucceedsWhenValid(view, M.SAMPLE);
    PackedPackageVerifies(view, M.SAMPLE);
  }

  lemma FaultOfOne(view: SaveView)
    requires view == SaveView([Listed([0x61], 0)], map[[0x61] := [0x78]])
    ensures HashSaveResult(view).status == IoError
  {
    hide HashOf;
    var row := Listed([0x61], 0);
    assert Paths(view.listing) == [[0x61]] && Sort([[0x61]]) == [[0x61]];
    assert RowFault(row, view, false) == Some(IoError);
    PathFaultMeans(row, view, false);
    assert !Consistent(view.listing, view.files) by {
      assert row in view.listing;
    }
  }

  // The sample manifest can be completed for any files.
  lemma SampleTakes(es: seq<Listed>, files: Tree)
    requires Consistent(es, files)
    ensures M.Storable(Completed(M.SAMPLE, HashOf(es, files))) && M.Valid(Completed(M.SAMPLE, HashOf(es, files)))
  {
    hide HashOf, M.IsDigest, Utf8.Valid;
    M.SampleIsValid();
    HashIsDigest(es, files);
    CompletedIsStorable(M.SAMPLE, es, files);
  }

  lemma CompletedIsStorable(m: M.Manifest, es: seq<Listed>, files: Tree)
    requires M.Storable(m) && Consistent(es, files)
    ensures M.Storable(Completed(m, HashOf(es, files)))
  {
    hide HashOf, M.IsDigest, Consistent;
    HashIsDigest(es, files);
    DigestFits(HashOf(es, files).hex);
  }

  lemma SortedPathsAreSafe(es: seq<Listed>)
    requires Listable(es)
    ensures forall p :: p in Sort(Paths(es)) ==> SafePath(p)
    ensures |Sort(Paths(es))| <= MAX_ENTRIES
  {
    hide SafePath, Sort;
    SortMembers(Paths(es));
    SortSorts(Paths(es));
    forall p | p in Paths(es)
      ensures SafePath(p)
    {
      var i :| 0 <= i < |es| && Paths(es)[i] == p;
    }
  }

  // The digests of two saves agree only when the saves do, or when SHA-256 maps two
  // different inputs to one digest.
  lemma EqualDigestsMeanEqualSaves(t: SaveView, u: SaveView)
    requires Honest(t.listing, t.files) && Honest(u.listing, u.files)
    requires TreeReadable(t.files) && TreeReadable(u.files)
    requires HashOf(t.listing, t.files).hex == HashOf(u.listing, u.files).hex
    ensures forall p :: p in Paths(t.listing) ==> p in t.files
    ensures forall p :: p in Paths(u.listing) ==> p in u.files
    ensures
      var a, b := ImageOf(Paths(t.listing), t.files), ImageOf(Paths(u.listing), u.files);
      t.files == u.files || (a != b && Digest(a) == Digest(b))
  {
    hide Digest, Hex, ImageOf, TotalSize;
    PathsPresent(t.listing, t.files);
    PathsPresent(u.listing, u.files);
    ImageDeterminesTree(Paths(t.listing), t.files, Paths(u.listing), u.files);
    HexInjective(Digest(ImageOf(Paths(t.listing), t.files)), Digest(ImageOf(Paths(u.listing), u.files)));
  }
}
