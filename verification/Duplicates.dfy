// Packages in which two payload entries are read as the same name, because the names are
// equal or agree up to a NUL: verify takes the first file of that name for every row
// (core/src/archive.c:553-572), unpack writes it once. Exactly what that does to a restore.

module Duplicates {
  import opened Common
  import opened Strbuf
  import opened Sha256
  import opened Payload
  import opened Archive
  import opened Package
  import M = Manifest

  // ------------------------------------------------------------------------ total sizes

  lemma {:induction false} TotalConcat(a: seq<File>, b: seq<File>)
    ensures TotalSize(a + b) == TotalSize(a) + TotalSize(b)
  {
    if b == [] {
      assert a + b == a;
    } else {
      assert (a + b)[..|a + b| - 1] == a + b[..|b| - 1];
      TotalConcat(a, b[..|b| - 1]);
    }
  }

  // The sizes of the files some paths name, a path counted as often as it is named.
  function SizeAt(ps: seq<Path>, tree: Tree): nat
    requires forall p :: p in ps ==> p in tree
  {
    TotalSize(FilesAt(ps, tree))
  }

  lemma SizeWithout(ps: seq<Path>, j: nat, tree: Tree)
    requires (forall p :: p in ps ==> p in tree) && j < |ps|
    ensures SizeAt(ps, tree) == SizeAt(ps[..j] + ps[j + 1..], tree) + |tree[ps[j]]|
  {
    hide TotalSize;
    var a, f, b := FilesAt(ps[..j], tree), File(ps[j], tree[ps[j]]), FilesAt(ps[j + 1..], tree);
    assert FilesAt(ps, tree) == a + ([f] + b);
    assert FilesAt(ps[..j] + ps[j + 1..], tree) == a + b;
    TotalConcat(a, [f] + b);
    TotalConcat([f], b);
    TotalConcat(a, b);
    OneFile(f);
  }

  lemma OneFile(f: File)
    ensures TotalSize([f]) == |f.data|
  {
    assert [f][..0] == [];
  }

  // Naming each of them once never counts more.
  lemma {:induction false} SizeOnceIsLeast(qs: seq<Path>, ps: seq<Path>, tree: Tree)
    requires Distinct(qs) && (forall q :: q in qs ==> q in ps) && forall p :: p in ps ==> p in tree
    ensures |qs| <= |ps| && SizeAt(qs, tree) <= SizeAt(ps, tree)
    decreases |qs|
  {
    hide SizeAt;
    if qs == [] {
      SizeOfNothing(tree);
    } else {
      assert qs[0] in ps;
      var k :| 0 <= k < |ps| && ps[k] == qs[0];
      var rest := ps[..k] + ps[k + 1..];
      SizeWithout(ps, k, tree);
      SizeWithout(qs, 0, tree);
      assert qs[..0] + qs[0 + 1..] == qs[1..];
      forall q | q in qs[1..]
        ensures q in rest
      {
        StillThere(ps, k, q);
      }
      SizeOnceIsLeast(qs[1..], rest, tree);
    }
  }

  lemma SizeOfNothing(tree: Tree)
    ensures SizeAt([], tree) == 0
  {
  }

  lemma StillThere(ps: seq<Path>, k: nat, q: Path)
    requires k < |ps| && q in ps && q != ps[k]
    ensures q in ps[..k] + ps[k + 1..]
  {
    var i :| 0 <= i < |ps| && ps[i] == q;
    assert if i < k then q == ps[..k][i] else q == ps[k + 1..][i - k - 1];
  }

  // Naming a file that is not empty twice counts more.
  lemma SizeTwiceIsMore(qs: seq<Path>, ps: seq<Path>, tree: Tree, i: nat, j: nat)
    requires Distinct(qs) && (forall q :: q in qs ==> q in ps) && forall p :: p in ps ==> p in tree
    requires i < j < |ps| && ps[i] == ps[j] && tree[ps[j]] != []
    ensures SizeAt(qs, tree) < SizeAt(ps, tree)
  {
    hide SizeAt;
    var rest := ps[..j] + ps[j + 1..];
    SizeWithout(ps, j, tree);
    forall q | q in qs
      ensures q in rest
    {
      if q == ps[j] {
        assert rest[i] == q;
      } else {
        StillThere(ps, j, q);
      }
    }
    SizeOnceIsLeast(qs, rest, tree);
  }

  lemma {:induction false} InsertSize(p: Path, ps: seq<Path>, tree: Tree)
    requires p in tree && forall q :: q in ps ==> q in tree
    ensures forall q :: q in Insert(p, ps) ==> q in tree
    ensures SizeAt(Insert(p, ps), tree) == |tree[p]| + SizeAt(ps, tree)
  {
    hide SizeAt;
    if ps == [] || Before(p, ps[0]) {
      SizeWithout([p] + ps, 0, tree);
      assert ([p] + ps)[..0] + ([p] + ps)[0 + 1..] == ps;
    } else {
      InsertSize(p, ps[1..], tree);
      var r := Insert(p, ps);
      assert r[..0] + r[0 + 1..] == Insert(p, ps[1..]) && ps[..0] + ps[0 + 1..] == ps[1..];
      SizeWithout(r, 0, tree);
      SizeWithout(ps, 0, tree);
    }
  }

  lemma {:induction false} SortSize(ps: seq<Path>, tree: Tree)
    requires forall p :: p in ps ==> p in tree
    ensures forall p :: p in Sort(ps) ==> p in tree
    ensures SizeAt(Sort(ps), tree) == SizeAt(ps, tree)
  {
    hide SizeAt, Insert;
    if ps != [] {
      SortSize(ps[1..], tree);
      InsertSize(ps[0], Sort(ps[1..]), tree);
      SizeWithout(ps, 0, tree);
      assert ps[..0] + ps[0 + 1..] == ps[1..];
    } else {
      assert Sort(ps) == ps;
    }
  }

  // ------------------------------------------------------------------------- restoring

  // Any backend can list what was unpacked, and lists the verified paths.
  lemma UnpackedIsListed(zip: Zip, listing: seq<Listed>)
    requires Collectable(zip) && Consistent(PayloadRows(zip), FilesOf(zip))
    requires Lists(Paths(listing), FilesOf(zip))
    ensures Listable(listing)
    ensures forall p :: p in Paths(PayloadRows(zip)) <==> p in FilesOf(zip)
    ensures forall p :: p in Paths(listing) <==> p in FilesOf(zip)
  {
    hide PayloadRows, Locate, SafePath, SizeAt, Consistent;
    RowsAreSafe(zip);
    PathsPresent(PayloadRows(zip), FilesOf(zip));
    SizeOnceIsLeast(Paths(listing), Paths(PayloadRows(zip)), FilesOf(zip));
    forall i | 0 <= i < |listing|
      ensures SafePath(listing[i].path)
    {
      assert Paths(listing)[i] in FilesOf(zip);
    }
  }

  lemma HashOfMeans(es: seq<Listed>, files: Tree)
    requires Consistent(es, files)
    ensures forall p :: p in Paths(es) ==> p in files
    ensures HashOf(es, files) == Hashed(Success, Hex(Digest(ImageOf(Paths(es), files))), SizeAt(Paths(es), files) % U64_LIMIT)
  {
    hide Digest, Hex, ImageOf, Sort;
    PathsPresent(es, files);
    SortSize(Paths(es), files);
  }

  // For every package that verifies: the save it is unpacked to hashes to what the manifest
  // says if and only if no two payload entries are read as the same name, or else SHA-256
  // maps the two different inputs to one digest while the sizes agree.
  lemma RestoresExactlyWhenUnique(zip: Zip, m: M.Manifest, listing: seq<Listed>)
    requires VerifyResult(zip, m) == Success && Honest(listing, FilesOf(zip))
    ensures forall p :: p in Paths(PayloadRows(zip)) ==> p in FilesOf(zip)
    ensures forall p :: p in Paths(listing) ==> p in FilesOf(zip)
    ensures
      var files, ps, qs := FilesOf(zip), Paths(PayloadRows(zip)), Paths(listing);
      var a, b := ImageOf(ps, files), ImageOf(qs, files);
      HashSaveResult(SaveView(listing, files)) == Hashed(Success, m.sha256, m.size) <==>
        UniqueNames(zip) || (a != b && Digest(a) == Digest(b) && SizeAt(ps, files) % U64_LIMIT == SizeAt(qs, files) % U64_LIMIT)
  {
    hide FilesOf, Consistent, HashOf, PayloadRows, SafePath, Digest, Hex, ImageOf, SizeAt, Collectable, Listable;
    var files, ps, qs := FilesOf(zip), Paths(PayloadRows(zip)), Paths(listing);
    UnpackedIsListed(zip, listing);
    HashOfMeans(PayloadRows(zip), files);
    HashOfMeans(listing, files);
    ImagesAgreeExactlyWhenUnique(zip, listing);
    if UniqueNames(zip) {
      VerifiedPackageRestores(zip, m, listing);
    }
    if Hex(Digest(ImageOf(ps, files))) == Hex(Digest(ImageOf(qs, files))) {
      HexInjective(Digest(ImageOf(ps, files)), Digest(ImageOf(qs, files)));
    }
  }

  // A file that is not empty and is named twice makes the restored save smaller than the
  // manifest says, whatever the digests do, unless the sizes add up to 2^64 bytes.
  lemma NamedTwiceIsNotRestored(zip: Zip, m: M.Manifest, listing: seq<Listed>, i: nat, j: nat)
    requires VerifyResult(zip, m) == Success && Honest(listing, FilesOf(zip))
    requires forall p :: p in Paths(PayloadRows(zip)) ==> p in FilesOf(zip)
    requires SizeAt(Paths(PayloadRows(zip)), FilesOf(zip)) < U64_LIMIT
    requires i < j < |PayloadRows(zip)| && PayloadRows(zip)[i].path == PayloadRows(zip)[j].path && PayloadRows(zip)[j].size > 0
    ensures HashSaveResult(SaveView(listing, FilesOf(zip))).status == Success
    ensures HashSaveResult(SaveView(listing, FilesOf(zip))).size < m.size
  {
    hide FilesOf, HashOf, PayloadRows, SafePath, Digest, Hex, ImageOf, SizeAt, Collectable, Listable;
    var rows, files := PayloadRows(zip), FilesOf(zip);
    UnpackedIsListed(zip, listing);
    HashOfMeans(rows, files);
    HashOfMeans(listing, files);
    assert rows[j] in rows;
    SizeTwiceIsMore(Paths(listing), Paths(rows), files, i, j);
  }

  // ------------------------------------------------------------------------ examples

  // A package of one file with one byte and a second entry that is read as the same name:
  // the entry itself again, or one whose name goes on behind a NUL.
  const ONE: Listed := Listed([0x61], 1)
  const ONE_FILE: Tree := map[[0x61] := [0x78]]
  const ENTRY: ZipEntry := EntryOf([0x61], [0x78])
  const SHADOW: ZipEntry := EntryOf([0x61, 0, 0x62], [0x78])

  function Twice(second: ZipEntry, text: Contents): (zip: Zip)
    ensures |zip| == 3
  {
    [ENTRY, second, ZipEntry(MANIFEST_PATH, false, text)]
  }

  lemma ShadowIsReadAsEntry()
    ensures ReadName(SHADOW) == ENTRY.name != SHADOW.name
  {
    var s := SHADOW.name;
    var n := |PAYLOAD_DIR| + 1;
    assert s == PAYLOAD_DIR + [0x61, 0, 0x62];
    assert s[..n] == ENTRY.name && s[n] == 0;
    FixedNames();
    CStringEnds(s, n);
  }

  lemma SecondReadsBack(second: ZipEntry)
    requires second == ENTRY || second == SHADOW
    ensures IsPayload(second) && WellNamed(second) && RowOf(second) == [ONE]
  {
    hide SafePath, ReadName;
    SafeLetter();
    EntryReadsBack([0x61], [0x78]);
    ShadowIsReadAsEntry();
    FixedNames();
    ReadWhole(ENTRY);
  }

  lemma SafeLetter()
    ensures SafePath([0x61])
  {
  }

  lemma TwiceRows(second: ZipEntry, text: Contents)
    requires second == ENTRY || second == SHADOW
    ensures PayloadRows(Twice(second, text)) == [ONE, ONE]
    ensures forall e :: e in Twice(second, text) && IsPayload(e) ==> WellNamed(e)
  {
    hide RowOf, EntryOf, WellNamed, IsPayload;
    var zip := Twice(second, text);
    SecondReadsBack(ENTRY);
    SecondReadsBack(second);
    ManifestIsNoRow(text);
    RowsGrow(zip, 0);
    RowsGrow(zip, 1);
    RowsGrow(zip, 2);
    assert zip[..3] == zip && zip[..0] == [];
  }

  lemma TwiceFiles(second: ZipEntry, text: Contents)
    requires second == ENTRY || second == SHADOW
    ensures Locate(Twice(second, text), MANIFEST_PATH) == Some(2)
    ensures FilesOf(Twice(second, text)) == ONE_FILE && Collectable(Twice(second, text))
  {
    hide PayloadRows, WellNamed, SafePath, IsPayload;
    var zip := Twice(second, text);
    TwiceRows(second, text);
    assert Paths([ONE, ONE]) == [[0x61], [0x61]];
    assert ENTRY.name == PAYLOAD_DIR + [0x61];
    assert PAYLOAD_DIR[0] == 0x70 && MANIFEST_PATH[0] == 0x6D && ENTRY.name[0] == second.name[0] == PAYLOAD_DIR[0];
    LocateOnly(zip, 2);
    assert Locate(zip, PAYLOAD_DIR + [0x61]) == Some(0);
  }

  lemma TwiceSizes()
    ensures Consistent([ONE], ONE_FILE) && Consistent([ONE, ONE], ONE_FILE) && Honest([ONE], ONE_FILE) && Listable([ONE])
    ensures HashOf([ONE], ONE_FILE).size == 1 && HashOf([ONE, ONE], ONE_FILE).size == 2
  {
    hide Digest, Hex, ImageOf, TotalSize, HashOf;
    var p := [0x61];
    assert Paths([ONE]) == [p] && Paths([ONE, ONE]) == [p, p];
    HashOfMeans([ONE], ONE_FILE);
    HashOfMeans([ONE, ONE], ONE_FILE);
    assert FilesAt([p], ONE_FILE) == [File(p, [0x78])];
    OneFile(File(p, [0x78]));
    SizeWithout([p, p], 1, ONE_FILE);
    assert [p, p][..1] + [p, p][2..] == [p];
  }

  // With the right manifest either is read and verified, and what it is restored to has
  // half the size the manifest says.
  lemma VerifiedButNotRestored(second: ZipEntry) returns (zip: Zip, m: M.Manifest)
    requires second == ENTRY || second == SHADOW
    ensures |zip| == 3 && zip[0] == ENTRY && zip[1] == second
    ensures ReadManifest(zip) == M.Done(m) && VerifyResult(zip, m) == Success
    ensures Honest([ONE], FilesOf(zip))
    ensures HashSaveResult(SaveView([ONE], FilesOf(zip))).size == 1 && m.size == 2
  {
    hide Digest, Hex, ImageOf, M.ManifestText, M.ParseManifest, PayloadRows, FilesOf, Collectable, Locate, M.Valid, M.Storable, HashOf, Consistent, Listable, EntryOf;
    TwiceSizes();
    m := Completed(M.SAMPLE, HashOf([ONE, ONE], ONE_FILE));
    SampleTakes([ONE, ONE], ONE_FILE);
    M.ManifestFits(m);
    M.ParseUndoesWrite(m);
    var text := M.ManifestText(m);
    zip := Twice(second, text);
    TwiceRows(second, text);
    TwiceFiles(second, text);
    HashSucceeds([ONE, ONE], ONE_FILE);
  }

  // A package with nothing but the second of these: no entry has the name its row is looked
  // up under, so that unpacking clears the archive and then gives up.
  lemma UnlocatedIsCleared()
    ensures Collectable([SHADOW]) && !CanReadAll([SHADOW]) && Unpacked([SHADOW]) == map[]
  {
    hide SafePath, EntryOf, IsPayload, WellNamed;
    var zip := [SHADOW];
    SecondReadsBack(SHADOW);
    ShadowIsReadAsEntry();
    RowsGrow(zip, 0);
    assert zip[..1] == zip && zip[..0] == [];
    assert PayloadRows(zip) == [ONE] && Paths([ONE]) == [[0x61]] && Sort([[0x61]]) == [[0x61]];
    assert ENTRY.name == PAYLOAD_DIR + [0x61] by {
      NameOfEntry();
    }
    assert [0x61] in Paths(PayloadRows(zip));
  }

  lemma NameOfEntry()
    ensures ENTRY.name == PAYLOAD_DIR + [0x61]
  {
  }
}
