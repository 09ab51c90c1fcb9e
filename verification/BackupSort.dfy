// The order in which backups are shown (platform/3ds/source/backup_list.c:70-109).

module BackupSort {
  import opened Common
  import opened Payload

  // What a row shows of a backup; name is the file it stands for.
  datatype Row = Row(name: Bytes, readable: bool, createdAt: Bytes)

  const TIMESTAMP_NONE: Bytes := Ascii("1970-01-01T00:00:00Z")

  // daemoon_manifest_has_date
  predicate HasDate(createdAt: Bytes) { createdAt != [] && createdAt != TIMESTAMP_NONE }

  // Every date is one but the empty one and the start of 1970.
  lemma DateMeans(createdAt: Bytes)
    ensures HasDate(createdAt) <==> createdAt != [] && createdAt != Ascii("1970-01-01") + Ascii("T00:00:00Z")
  {
    assert Ascii("1970-01-01T00:00:00Z") == Ascii("1970-01-01") + Ascii("T00:00:00Z");
  }

  // The test of the sort: prev has to go behind key. Readable rows come first, then dated
  // ones, then the later date.
  predicate Worse(prev: Row, key: Row) {
    if prev.readable != key.readable then !prev.readable
    else if HasDate(prev.createdAt) != HasDate(key.createdAt) then !HasDate(prev.createdAt)
    else Before(prev.createdAt, key.createdAt)
  }

  predicate Tied(a: Row, b: Row) { !Worse(a, b) && !Worse(b, a) }

  // -------------------------------------------------------------- a strict weak order

  lemma NotBeforeIsTransitive(a: Path, b: Path, c: Path)
    requires !Before(a, b) && !Before(b, c)
    ensures !Before(a, c)
  {
    BeforeIsTotal(a, b);
    BeforeIsTotal(b, c);
    BeforeIsTotal(a, c);
    if Before(b, a) && Before(c, b) {
      BeforeIsTransitive(c, b, a);
    }
  }

  // No row is worse than itself, worse is one way, and it carries over; so does not worse,
  // which makes rows that tie interchangeable.
  lemma WorseIsAStrictWeakOrder(a: Row, b: Row, c: Row)
    ensures !Worse(a, a)
    ensures !(Worse(a, b) && Worse(b, a))
    ensures Worse(a, b) && Worse(b, c) ==> Worse(a, c)
    ensures !Worse(a, b) && !Worse(b, c) ==> !Worse(a, c)
    ensures Tied(a, b) && Tied(b, c) ==> Tied(a, c)
  {
    hide HasDate, Before;
    var x, y, z := a.createdAt, b.createdAt, c.createdAt;
    BeforeIsTotal(x, x);
    BeforeIsTotal(x, y);
    if Before(x, y) && Before(y, z) {
      BeforeIsTransitive(x, y, z);
    }
    if !Before(x, y) && !Before(y, z) {
      NotBeforeIsTransitive(x, y, z);
    }
    if !Before(z, y) && !Before(y, x) {
      NotBeforeIsTransitive(z, y, x);
    }
  }

  // ------------------------------------------------------------------------ the sort

  // key walks towards the front past everything worse.
  function InsertRow(s: seq<Row>, key: Row): (r: seq<Row>)
    ensures |r| == |s| + 1
  {
    if s == [] || !Worse(s[|s| - 1], key) then s + [key]
    else InsertRow(s[..|s| - 1], key) + [s[|s| - 1]]
  }

  function SortedRows(s: seq<Row>): (r: seq<Row>)
    ensures |r| == |s|
  {
    if s == [] then [] else InsertRow(SortedRows(s[..|s| - 1]), s[|s| - 1])
  }

  // No row stands before one it is worse than.
  predicate Ordered(s: seq<Row>) {
    forall i, j :: 0 <= i < j < |s| ==> !Worse(s[i], s[j])
  }

  // The rows that tie with k, in their order.
  function TiedWith(s: seq<Row>, k: Row): seq<Row> {
    if s == [] then []
    else TiedWith(s[..|s| - 1], k) + if Tied(s[|s| - 1], k) then [s[|s| - 1]] else []
  }

  // rows[..j] is the untouched front of the sorted part p, the hole is at j, and behind it
  // stands what was shifted.
  ghost predicate Shifted(rows: seq<Row>, p: seq<Row>, j: nat, key: Row)
    requires j <= |p| < |rows|
  {
    && rows[..j] == p[..j] && rows[j + 1..|p| + 1] == p[j..]
    && InsertRow(p, key) == InsertRow(p[..j], key) + p[j..]
  }

  // One step of the inner loop.
  lemma ShiftStep(rows: seq<Row>, p: seq<Row>, j: nat, key: Row)
    requires 0 < j <= |p| < |rows| && Shifted(rows, p, j, key) && Worse(p[j - 1], key)
    ensures rows[j - 1] == p[j - 1]
    ensures Shifted(rows[j := rows[j - 1]], p, j - 1, key)
  {
    hide Worse;
    var next := rows[j := rows[j - 1]];
    assert rows[..j][j - 1] == p[..j][j - 1];
    assert next[..j - 1] == rows[..j][..j - 1];
    assert next[j..|p| + 1] == [next[j]] + rows[j + 1..|p| + 1];
    assert p[..j][..j - 1] == p[..j - 1] && p[j - 1..] == [p[j - 1]] + p[j..];
    assert InsertRow(p[..j], key) == InsertRow(p[..j - 1], key) + [p[j - 1]];
  }

  lemma ShiftEnd(rows: seq<Row>, p: seq<Row>, j: nat, key: Row)
    requires j <= |p| < |rows| && Shifted(rows, p, j, key) && (j > 0 ==> !Worse(p[j - 1], key))
    ensures rows[j := key][..|p| + 1] == InsertRow(p, key)
  {
    hide Worse;
    assert rows[j := key][..|p| + 1] == rows[..j] + [key] + rows[j + 1..|p| + 1];
    assert InsertRow(p[..j], key) == p[..j] + [key];
  }

  // sort_rows
  method SortRows(rows: array<Row>, count: nat)
    requires count <= rows.Length
    modifies rows
    ensures rows[..count] == SortedRows(old(rows[..count]))
    ensures rows[count..] == old(rows[count..])
  {
    hide Worse, Shifted, SortedRows, InsertRow;
    ghost var given := rows[..];
    var i := 1;
    SortedFew(given);
    assert count > 0 ==> given[..1] == [given[0]];
    while i < count
      invariant 1 <= i && (i <= count || count == 0) && (count > 0 ==> rows[..i] == SortedRows(given[..i]))
      invariant forall k :: i <= k < rows.Length ==> rows[k] == given[k]
      invariant count == 0 ==> rows[..] == given
    {
      InsertAt(rows, i);
      SortedGrow(given, i);
      i := i + 1;
    }
    if count == 0 {
      assert rows[..0] == [];
    }
    assert given[..count] == old(rows[..count]);
  }

  lemma SortedFew(given: seq<Row>)
    ensures SortedRows([]) == []
    ensures |given| > 0 ==> SortedRows([given[0]]) == [given[0]]
  {
    if |given| > 0 {
      assert [given[0]][..0] == [];
    }
  }

  lemma SortedGrow(given: seq<Row>, i: nat)
    requires i < |given|
    ensures SortedRows(given[..i + 1]) == InsertRow(SortedRows(given[..i]), given[i])
  {
    assert given[..i + 1][..i] == given[..i];
  }

  // One turn of the outer loop: row i finds its place in the sorted part before it.
  method InsertAt(rows: array<Row>, i: nat)
    requires i < rows.Length
    modifies rows
    ensures rows[..i + 1] == InsertRow(old(rows[..i]), old(rows[i]))
    ensures forall k :: i < k < rows.Length ==> rows[k] == old(rows[k])
  {
    hide Worse, Shifted, InsertRow;
    ghost var p := rows[..i];
    var key := rows[i];
    var j := i;
    NothingShifted(rows[..], p, key);
    while j > 0
      invariant 0 <= j <= i && Shifted(rows[..], p, j, key)
      invariant forall k :: i < k < rows.Length ==> rows[k] == old(rows[k])
    {
      FrontUntouched(rows[..], p, j, key);
      if !Worse(rows[j - 1], key) {
        break;
      }
      ShiftStep(rows[..], p, j, key);
      ghost var before := rows[..];
      rows[j] := rows[j - 1];
      assert rows[..] == before[j := before[j - 1]];
      j := j - 1;
    }
    ShiftEnd(rows[..], p, j, key);
    ghost var before := rows[..];
    rows[j] := key;
    assert rows[..] == before[j := key];
  }

  lemma NothingShifted(rows: seq<Row>, p: seq<Row>, key: Row)
    requires |p| < |rows| && rows[..|p|] == p
    ensures Shifted(rows, p, |p|, key)
  {
    assert p[..|p|] == p;
  }

  lemma FrontUntouched(rows: seq<Row>, p: seq<Row>, j: nat, key: Row)
    requires 0 < j <= |p| < |rows| && Shifted(rows, p, j, key)
    ensures rows[j - 1] == p[j - 1]
  {
    assert rows[..j][j - 1] == p[..j][j - 1];
  }

  // ---------------------------------------------------------------------- properties

  lemma {:induction false} InsertKeepsRows(s: seq<Row>, key: Row)
    ensures multiset(InsertRow(s, key)) == multiset(s) + multiset([key])
  {
    if s != [] && Worse(s[|s| - 1], key) {
      InsertKeepsRows(s[..|s| - 1], key);
      assert s == s[..|s| - 1] + [s[|s| - 1]];
    }
  }

  lemma {:induction false} InsertKeepsOrder(s: seq<Row>, key: Row)
    requires Ordered(s)
    ensures Ordered(InsertRow(s, key))
  {
    hide Worse;
    var n := |s| - 1;
    if s == [] {
    } else if !Worse(s[n], key) {
      forall i | 0 <= i < |s|
        ensures !Worse(s[i], key)
      {
        WorseIsAStrictWeakOrder(s[i], s[n], key);
      }
    } else {
      var front := InsertRow(s[..n], key);
      InsertKeepsOrder(s[..n], key);
      InsertKeepsRows(s[..n], key);
      forall i | 0 <= i < |front|
        ensures !Worse(front[i], s[n])
      {
        assert front[i] in multiset(front);
        assert front[i] in multiset(s[..n]) || front[i] == key;
        WorseIsAStrictWeakOrder(s[n], key, key);
      }
    }
  }

  lemma {:induction false} TiedWithConcat(a: seq<Row>, b: seq<Row>, k: Row)
    ensures TiedWith(a + b, k) == TiedWith(a, k) + TiedWith(b, k)
  {
    hide Tied;
    if b == [] {
      assert a + b == a;
    } else {
      assert (a + b)[..|a + b| - 1] == a + b[..|b| - 1];
      TiedWithConcat(a, b[..|b| - 1], k);
    }
  }

  // Inserting puts key behind every row it ties with.
  lemma {:induction false} InsertIsStable(s: seq<Row>, key: Row, k: Row)
    ensures TiedWith(InsertRow(s, key), k) == TiedWith(s, k) + TiedWith([key], k)
  {
    hide Worse;
    if s == [] || !Worse(s[|s| - 1], key) {
      TiedWithConcat(s, [key], k);
    } else {
      var n := |s| - 1;
      InsertIsStable(s[..n], key, k);
      TiedWithConcat(InsertRow(s[..n], key), [s[n]], k);
      TiedWithConcat(s[..n], [s[n]], k);
      assert s == s[..n] + [s[n]];
      NotBothTied(s[n], key, k);
    }
  }

  lemma NotBothTied(worse: Row, key: Row, k: Row)
    requires Worse(worse, key)
    ensures TiedWith([worse], k) == [] || TiedWith([key], k) == []
  {
    hide Worse;
    assert [worse][..0] == [] && [key][..0] == [];
    WorseIsAStrictWeakOrder(worse, k, key);
  }

  // The sort is a stable permutation into the order: the same rows, none before one it is
  // worse than, and rows that tie in the order they had.
  lemma {:induction false} SortedRowsAreAStablePermutation(s: seq<Row>, k: Row)
    ensures multiset(SortedRows(s)) == multiset(s)
    ensures Ordered(SortedRows(s))
    ensures TiedWith(SortedRows(s), k) == TiedWith(s, k)
  {
    hide Worse, InsertRow, Tied;
    if s != [] {
      var front, key := s[..|s| - 1], s[|s| - 1];
      SortedRowsAreAStablePermutation(front, k);
      InsertKeepsRows(SortedRows(front), key);
      InsertKeepsOrder(SortedRows(front), key);
      InsertIsStable(SortedRows(front), key, k);
      TiedWithConcat(front, [key], k);
      assert s == front + [key];
    }
  }

  // In the sorted list every readable row stands before every unreadable one, dated ones
  // before undated ones, and later dates first.
  lemma OrderedMeans(s: seq<Row>, i: nat, j: nat)
    requires Ordered(s) && i < j < |s|
    ensures s[j].readable ==> s[i].readable
    ensures s[i].readable == s[j].readable && HasDate(s[j].createdAt) ==> HasDate(s[i].createdAt)
    ensures s[i].readable == s[j].readable && HasDate(s[i].createdAt) == HasDate(s[j].createdAt)
            ==> s[i].createdAt == s[j].createdAt || ComesFirst(s[j].createdAt, s[i].createdAt)
  {
    hide ComesFirst;
    assert !Worse(s[i], s[j]);
    BeforeIsTotal(s[i].createdAt, s[j].createdAt);
    BeforeMeans(s[j].createdAt, s[i].createdAt);
  }
}
