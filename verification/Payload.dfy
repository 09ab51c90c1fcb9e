// What the payload digest is taken over: the files of a save in raw byte order, each with
// a header that says where it ends (core/include/daemoon/archive.h:8-16,
// core/src/archive.c:113-164).

module Payload {
  import opened Common
  import opened Strbuf
  import opened Sha256

  type Path = Bytes

  // A file's contents; sizes are 64 bit numbers.
  type Contents = b: Bytes | |b| < U64_LIMIT

  // The files of a save, or of a package: path to contents.
  type Tree = map<Path, Contents>

  datatype File = File(path: Path, data: Contents)

  // -------------------------------------------------------------------- byte order

  // strcmp(a, b) < 0 on unsigned bytes.
  predicate Before(a: Path, b: Path) {
    b != [] && (a == [] || a[0] < b[0] || (a[0] == b[0] && Before(a[1..], b[1..])))
  }

  // The first place where they differ, and a has the smaller byte there.
  predicate SmallerAt(a: Path, b: Path, i: nat) {
    i < |a| && i < |b| && a[..i] == b[..i] && a[i] < b[i]
  }

  // The order of strcmp without the recursion: a is a shorter beginning of b, or has the
  // smaller byte at the first place where they differ.
  ghost predicate ComesFirst(a: Path, b: Path) {
    a < b || exists i: nat :: SmallerAt(a, b, i)
  }

  lemma {:induction false} BeforeMeans(a: Path, b: Path)
    ensures Before(a, b) <==> ComesFirst(a, b)
  {
    if a != [] && b != [] && a[0] == b[0] {
      BeforeMeans(a[1..], b[1..]);
      ComesFirstBehind(a, b);
    } else if a != [] && b != [] {
      assert a[0] < b[0] ==> SmallerAt(a, b, 0);
      assert forall i: nat :: SmallerAt(a, b, i) && i > 0 ==> a[..i][0] == b[..i][0];
    }
  }

  lemma SmallerBehind(a: Path, b: Path, i: nat)
    requires a != [] && b != [] && a[0] == b[0]
    ensures SmallerAt(a[1..], b[1..], i) <==> SmallerAt(a, b, i + 1)
  {
    if i < |a| - 1 && i < |b| - 1 {
      assert a[..i + 1] == [a[0]] + a[1..][..i] && b[..i + 1] == [b[0]] + b[1..][..i];
      assert a[..i + 1][1..] == a[1..][..i] && b[..i + 1][1..] == b[1..][..i];
    }
  }

  lemma ShorterBehind(a: Path, b: Path)
    requires a != [] && b != [] && a[0] == b[0]
    ensures a < b <==> a[1..] < b[1..]
  {
    assert a == [a[0]] + a[1..] && b == [b[0]] + b[1..];
    if a < b {
      assert b[..|a|][1..] == b[1..][..|a| - 1];
    }
    if a[1..] < b[1..] {
      assert b[..|a|] == [b[0]] + b[1..][..|a| - 1];
    }
  }

  // An equal first byte does not matter.
  lemma ComesFirstBehind(a: Path, b: Path)
    requires a != [] && b != [] && a[0] == b[0]
    ensures ComesFirst(a, b) <==> ComesFirst(a[1..], b[1..])
  {
    ShorterBehind(a, b);
    assert !SmallerAt(a, b, 0);
    hide SmallerAt;
    forall i: nat
      ensures SmallerAt(a[1..], b[1..], i) <==> SmallerAt(a, b, i + 1)
    {
      SmallerBehind(a, b, i);
    }
    if j: nat :| SmallerAt(a, b, j) {
      assert SmallerAt(a[1..], b[1..], j - 1);
    }
    if i: nat :| SmallerAt(a[1..], b[1..], i) {
      assert SmallerAt(a, b, i + 1);
    }
  }

  lemma {:induction false} BeforeIsTotal(a: Path, b: Path)
    ensures Before(a, b) || Before(b, a) || a == b
    ensures !(Before(a, b) && Before(b, a)) && !Before(a, a)
  {
    if a != [] && b != [] && a[0] == b[0] {
      BeforeIsTotal(a[1..], b[1..]);
      assert a == [a[0]] + a[1..] && b == [b[0]] + b[1..];
    }
    if a != [] {
      BeforeIsTotal(a[1..], a[1..]);
    }
  }

  lemma {:induction false} BeforeIsTransitive(a: Path, b: Path, c: Path)
    requires Before(a, b) && Before(b, c)
    ensures Before(a, c)
  {
    if a != [] && a[0] == b[0] == c[0] {
      BeforeIsTransitive(a[1..], b[1..], c[1..]);
    }
  }

  // Never decreasing; what sorting with entry_cmp promises.
  predicate Sorted(ps: seq<Path>) {
    forall i, j :: 0 <= i < j < |ps| ==> !Before(ps[j], ps[i])
  }

  predicate Distinct(ps: seq<Path>) {
    forall i, j :: 0 <= i < j < |ps| ==> ps[i] != ps[j]
  }

  // The one sorted arrangement of some paths.
  function Insert(p: Path, ps: seq<Path>): seq<Path> {
    if ps == [] || Before(p, ps[0]) then [p] + ps else [ps[0]] + Insert(p, ps[1..])
  }

  function Sort(ps: seq<Path>): seq<Path> {
    if ps == [] then [] else Insert(ps[0], Sort(ps[1..]))
  }

  lemma {:induction false} InsertKeeps(p: Path, ps: seq<Path>)
    ensures multiset(Insert(p, ps)) == multiset([p]) + multiset(ps)
  {
    if ps != [] && !Before(p, ps[0]) {
      InsertKeeps(p, ps[1..]);
      assert ps == [ps[0]] + ps[1..];
    }
  }

  lemma InsertHead(p: Path, ps: seq<Path>)
    ensures Insert(p, ps) != [] && (Insert(p, ps)[0] == p || (ps != [] && Insert(p, ps)[0] == ps[0]))
  {
  }

  // A list is sorted when nothing in it comes before its head and the rest is sorted.
  lemma SortedCons(p: Path, ps: seq<Path>)
    requires Sorted(ps) && (ps != [] ==> !Before(ps[0], p))
    ensures Sorted([p] + ps)
  {
    var s := [p] + ps;
    forall i, j | 0 <= i < j < |s|
      ensures !Before(s[j], s[i])
    {
      if i == 0 && j > 1 {
        assert s[j] == ps[j - 1] && !Before(ps[j - 1], ps[0]) && s[0] == p;
        BeforeIsTotal(ps[0], p);
        BeforeIsTotal(s[j], ps[0]);
        if Before(s[j], p) {
          if s[j] != ps[0] && p != ps[0] {
            BeforeIsTransitive(ps[0], s[j], p);
          }
        }
      }
    }
  }

  lemma {:induction false} InsertSorts(p: Path, ps: seq<Path>)
    requires Sorted(ps)
    ensures Sorted(Insert(p, ps))
  {
    if ps != [] && !Before(p, ps[0]) {
      InsertSorts(p, ps[1..]);
      InsertHead(p, ps[1..]);
      SortedCons(ps[0], Insert(p, ps[1..]));
    } else if ps != [] {
      BeforeIsTotal(p, ps[0]);
      SortedCons(p, ps);
    }
  }

  lemma {:induction false} SortSorts(ps: seq<Path>)
    ensures Sorted(Sort(ps)) && multiset(Sort(ps)) == multiset(ps) && |Sort(ps)| == |ps|
  {
    if ps != [] {
      SortSorts(ps[1..]);
      InsertSorts(ps[0], Sort(ps[1..]));
      InsertKeeps(ps[0], Sort(ps[1..]));
      assert ps == [ps[0]] + ps[1..];
      assert |multiset(Sort(ps))| == |multiset(ps)|;
    }
  }

  lemma SmallestFirst(ps: seq<Path>, qs: seq<Path>)
    requires Sorted(ps) && Sorted(qs) && multiset(ps) == multiset(qs) && ps != [] && qs != []
    ensures ps[0] == qs[0]
  {
    hide Before;
    assert ps[0] in multiset(qs) && qs[0] in multiset(ps);
    var i :| 0 <= i < |qs| && qs[i] == ps[0];
    var j :| 0 <= j < |ps| && ps[j] == qs[0];
    BeforeIsTotal(ps[0], qs[0]);
  }

  lemma SortedTail(ps: seq<Path>)
    requires Sorted(ps) && ps != []
    ensures Sorted(ps[1..]) && multiset(ps[1..]) == multiset(ps) - multiset([ps[0]])
  {
    assert ps == [ps[0]] + ps[1..];
  }

  // Two sorted lists of the same paths are the same list.
  lemma {:induction false} SortedIsUnique(ps: seq<Path>, qs: seq<Path>)
    requires Sorted(ps) && Sorted(qs) && multiset(ps) == multiset(qs)
    ensures ps == qs
  {
    hide Sorted;
    assert |multiset(ps)| == |multiset(qs)|;
    if ps != [] {
      SmallestFirst(ps, qs);
      SortedTail(ps);
      SortedTail(qs);
      SortedIsUnique(ps[1..], qs[1..]);
      assert ps == [ps[0]] + ps[1..] && qs == [qs[0]] + qs[1..];
    }
  }

  // Any way of sorting gives the one arrangement, whatever order the paths came in.
  lemma AnySortIsSort(ps: seq<Path>, sorted: seq<Path>)
    requires Sorted(sorted) && multiset(sorted) == multiset(ps)
    ensures sorted == Sort(ps)
  {
    SortSorts(ps);
    SortedIsUnique(sorted, Sort(ps));
  }

  // Sorted paths ascend: any two in order are equal or the earlier one comes first.
  lemma SortAscends(ps: seq<Path>, i: nat, j: nat)
    requires i < j < |Sort(ps)|
    ensures Sort(ps)[i] == Sort(ps)[j] || ComesFirst(Sort(ps)[i], Sort(ps)[j])
  {
    var a, b := Sort(ps)[i], Sort(ps)[j];
    SortSorts(ps);
    BeforeIsTotal(a, b);
    BeforeMeans(a, b);
  }

  // ---------------------------------------------------------------------- the image

  // hash_entry_header: path, NUL, size as eight big endian bytes.
  function Header(path: Path, size: nat): Bytes {
    path + [0] + BigEndian(size, |LENGTH_FIELD|)
  }

  // Everything that is hashed, in order.
  function Image(fs: seq<File>): Bytes {
    if fs == [] then [] else Image(fs[..|fs| - 1]) + Header(fs[|fs| - 1].path, |fs[|fs| - 1].data|) + fs[|fs| - 1].data
  }

  // The files at the given paths, in that order.
  function FilesAt(ps: seq<Path>, tree: Tree): (fs: seq<File>)
    requires forall p :: p in ps ==> p in tree
    ensures |fs| == |ps|
  {
    seq(|ps|, i requires 0 <= i < |ps| => File(ps[i], tree[ps[i]]))
  }

  // The image of the files of a tree that a list of paths names.
  function ImageOf(ps: seq<Path>, tree: Tree): Bytes
    requires forall p :: p in ps ==> p in tree
  {
    SortSorts(ps);
    assert forall p :: p in Sort(ps) ==> p in multiset(Sort(ps));
    Image(FilesAt(Sort(ps), tree))
  }

  function TotalSize(fs: seq<File>): nat {
    if fs == [] then 0 else TotalSize(fs[..|fs| - 1]) + |fs[|fs| - 1].data|
  }

  // ------------------------------------------------------------ unique decodability

  // What a file must be for its header to be readable: its path is a C string.
  predicate Readable(f: File) { NulFree(f.path) }

  predicate AllReadable(fs: seq<File>) { forall f :: f in fs ==> Readable(f) }

  // The image from its front: the first file, then the image of the rest.
  lemma {:induction false} ImageFront(fs: seq<File>)
    requires fs != []
    ensures Image(fs) == Header(fs[0].path, |fs[0].data|) + fs[0].data + Image(fs[1..])
  {
    hide Header;
    if |fs| == 1 {
      assert fs[..0] == [] && fs[1..] == [];
    } else {
      assert fs[..|fs| - 1][1..] == fs[1..][..|fs| - 2];
      ImageFront(fs[..|fs| - 1]);
    }
  }

  // Without recursion: the image starts with the path that comes first, its terminator, the
  // eight bytes that weigh its size and its contents, and goes on with the image of the others.
  lemma ImageStartsWithTheFirst(ps: seq<Path>, tree: Tree) returns (p: Path, others: seq<Path>, size: Bytes)
    requires ps != [] && forall q :: q in ps ==> q in tree
    ensures p in ps && forall q :: q in ps ==> q == p || ComesFirst(p, q)
    ensures multiset(ps) == multiset([p]) + multiset(others) && forall q :: q in others ==> q in tree
    ensures |size| == 8 && Weight(size) == |tree[p]|
    ensures ImageOf(ps, tree) == p + [0] + size + tree[p] + ImageOf(others, tree)
  {
    hide BigEndian, Weight, ComesFirst, Before, Image, Sort, Sorted;
    SortSorts(ps);
    SortMembers(ps);
    var sorted := Sort(ps);
    p, others, size := sorted[0], sorted[1..], BigEndian(|tree[sorted[0]]|, |LENGTH_FIELD|);
    assert sorted == [p] + others;
    forall q | q in ps
      ensures q == p || ComesFirst(p, q)
    {
      var j :| 0 <= j < |sorted| && sorted[j] == q;
      if j > 0 {
        SortAscends(ps, 0, j);
      }
    }
    EightBytesWeigh(|tree[p]|);
    var fs := FilesAt(sorted, tree);
    ImageFront(fs);
    SortedTail(sorted);
    AnySortIsSort(others, others);
    assert fs[1..] == FilesAt(others, tree);
    assert Header(p, |tree[p]|) == p + [0] + size;
  }

  lemma ImageOfNothing(tree: Tree)
    ensures ImageOf([], tree) == []
  {
  }

  // Two C strings with their terminators, each followed by anything: equal texts mean equal
  // strings.
  lemma {:induction false} PathsAgree(p: Path, q: Path, a: Bytes, b: Bytes)
    requires NulFree(p) && NulFree(q) && p + [0] + a == q + [0] + b
    ensures p == q && a == b
  {
    var s, t := p + [0] + a, q + [0] + b;
    assert s[0] == (if p == [] then 0 else p[0]) && t[0] == (if q == [] then 0 else q[0]);
    assert (p != [] ==> p[0] in p) && (q != [] ==> q[0] in q);
    if p == [] {
      assert s[1..] == a && t[1..] == b;
    } else {
      assert s[1..] == p[1..] + [0] + a && t[1..] == q[1..] + [0] + b;
      PathsAgree(p[1..], q[1..], a, b);
      assert p == [p[0]] + p[1..] && q == [q[0]] + q[1..];
    }
  }

  lemma SplitAt(a: Bytes, b: Bytes, c: Bytes, d: Bytes)
    requires a + b == c + d && |a| == |c|
    ensures a == c && b == d
  {
    assert (a + b)[..|a|] == a && (c + d)[..|c|] == c;
    assert (a + b)[|a|..] == b && (c + d)[|c|..] == d;
  }

  lemma FirstFilesAgree(f: File, g: File, a: Bytes, b: Bytes)
    requires Readable(f) && Readable(g)
    requires Header(f.path, |f.data|) + f.data + a == Header(g.path, |g.data|) + g.data + b
    ensures f == g && a == b
  {
    hide BigEndian;
    var m, n := BigEndian(|f.data|, |LENGTH_FIELD|), BigEndian(|g.data|, |LENGTH_FIELD|);
    assert f.path + [0] + (m + (f.data + a)) == Header(f.path, |f.data|) + f.data + a;
    assert g.path + [0] + (n + (g.data + b)) == Header(g.path, |g.data|) + g.data + b;
    PathsAgree(f.path, g.path, m + (f.data + a), n + (g.data + b));
    SplitAt(m, f.data + a, n, g.data + b);
    EightBytesInjective(|f.data|, |g.data|);
    SplitAt(f.data, a, g.data, b);
  }

  // The image can be read back in one way only: equal images mean equal files.
  lemma {:induction false} ImageIsInjective(fs: seq<File>, gs: seq<File>)
    requires AllReadable(fs) && AllReadable(gs) && Image(fs) == Image(gs)
    ensures fs == gs
  {
    if fs == [] || gs == [] {
      if fs != [] {
        ImageFront(fs);
      }
      if gs != [] {
        ImageFront(gs);
      }
    } else {
      ImageFront(fs);
      ImageFront(gs);
      FirstFilesAgree(fs[0], gs[0], Image(fs[1..]), Image(gs[1..]));
      ImageIsInjective(fs[1..], gs[1..]);
      assert fs == [fs[0]] + fs[1..] && gs == [gs[0]] + gs[1..];
    }
  }

  // The order of a listing does not matter.
  lemma ImageIgnoresOrder(ps: seq<Path>, qs: seq<Path>, tree: Tree)
    requires forall p :: p in ps ==> p in tree
    requires multiset(ps) == multiset(qs)
    ensures forall q :: q in qs ==> q in tree
    ensures ImageOf(ps, tree) == ImageOf(qs, tree)
  {
    assert forall q :: q in qs ==> q in multiset(ps);
    SortSorts(ps);
    SortSorts(qs);
    SortedIsUnique(Sort(ps), Sort(qs));
  }

  // A list of all paths of a tree, each once.
  ghost predicate Lists(ps: seq<Path>, tree: Tree) {
    Distinct(ps) && forall p :: p in tree <==> p in ps
  }

  // Two complete lists of the same tree are rearrangements of each other.
  lemma CompleteListsAgree(ps: seq<Path>, qs: seq<Path>, tree: Tree)
    requires Lists(ps, tree) && Lists(qs, tree)
    ensures multiset(ps) == multiset(qs)
  {
    forall p
      ensures multiset(ps)[p] == multiset(qs)[p]
    {
      DistinctCount(ps, p);
      DistinctCount(qs, p);
    }
  }

  lemma {:induction false} DistinctCount(ps: seq<Path>, p: Path)
    requires Distinct(ps)
    ensures multiset(ps)[p] == if p in ps then 1 else 0
  {
    if ps != [] {
      assert ps == [ps[0]] + ps[1..];
      DistinctCount(ps[1..], p);
      if p == ps[0] {
        assert p !in ps[1..];
      }
    }
  }

  predicate TreeReadable(tree: Tree) {
    forall p :: p in tree ==> NulFree(p)
  }

  // So the digest's input determines the save: complete lists of two trees give the same
  // bytes exactly when the trees are equal.
  lemma ImageDeterminesTree(ps: seq<Path>, t: Tree, qs: seq<Path>, u: Tree)
    requires Lists(ps, t) && Lists(qs, u) && TreeReadable(t) && TreeReadable(u)
    ensures ImageOf(ps, t) == ImageOf(qs, u) <==> t == u
  {
    SortSorts(ps);
    SortSorts(qs);
    SortMembers(ps);
    SortMembers(qs);
    var fs, gs := FilesAt(Sort(ps), t), FilesAt(Sort(qs), u);
    if t == u {
      CompleteListsAgree(ps, qs, t);
      ImageIgnoresOrder(ps, qs, t);
    }
    if Image(fs) == Image(gs) {
      ImageIsInjective(fs, gs);
      SameFilesSameTree(Sort(ps), t, Sort(qs), u);
    }
  }

  lemma SortMembers(ps: seq<Path>)
    ensures forall p :: p in Sort(ps) <==> p in ps
  {
    SortSorts(ps);
    assert forall p :: p in Sort(ps) <==> p in multiset(Sort(ps));
    assert forall p :: p in ps <==> p in multiset(ps);
  }

  lemma SameFilesSameTree(ps: seq<Path>, t: Tree, qs: seq<Path>, u: Tree)
    requires forall p :: p in t <==> p in ps
    requires forall p :: p in u <==> p in qs
    requires FilesAt(ps, t) == FilesAt(qs, u)
    ensures t == u
  {
    var fs, gs := FilesAt(ps, t), FilesAt(qs, u);
    assert ps == qs by {
      forall i | 0 <= i < |ps|
        ensures ps[i] == qs[i]
      {
        assert fs[i] == gs[i];
      }
    }
    forall p | p in t
      ensures t[p] == u[p]
    {
      var i :| 0 <= i < |ps| && ps[i] == p;
      assert fs[i] == gs[i];
    }
  }
}
