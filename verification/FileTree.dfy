// The order in which hw2/CrawlFileTree.c visits the files of a tree, and why
// it does not depend on the order in which directories list their entries.
module FileTree {
  import opened Wrappers
  import opened WordSpec
  import opened SortSpec

  // A file whose contents are None cannot be read.
  datatype Entry =
    | FileEntry(name: Word, contents: Option<seq<Byte>>)
    | DirEntry(name: Word, entries: seq<Entry>)

  // One element of the array that HandleDir sorts.
  datatype Item = Item(pathname: Word, entry: Entry)

  // One call of HandleFile.
  datatype Visit = Visit(fpath: Word, contents: Option<seq<Byte>>)

  const SLASH: Byte := '/' as int
  const DOT: Byte := '.' as int
  const MAX_PATHNAME_LENGTH := 1024

  function Pathname(dirpath: Word, name: Word): Word
    requires dirpath != []
  {
    if dirpath[|dirpath| - 1] == SLASH then dirpath + name else dirpath + [SLASH] + name
  }

  predicate Skipped(name: Word) {
    name == [DOT] || name == [DOT, DOT]
  }

  // --- What a pathname says. ---

  // The part of a pathname behind its last '/', and the part in front of it.
  function Basename(p: Word): Word {
    if p == [] || p[|p| - 1] == '/' as int then [] else Basename(p[..|p| - 1]) + [p[|p| - 1]]
  }

  function Dirname(p: Word): Word {
    if p == [] then [] else if p[|p| - 1] == '/' as int then p[..|p| - 1] else Dirname(p[..|p| - 1])
  }

  function WithoutFinalSlash(dirpath: Word): Word {
    if dirpath != [] && dirpath[|dirpath| - 1] == '/' as int then dirpath[..|dirpath| - 1] else dirpath
  }

  ghost predicate PlainName(name: Word) {
    name != [] && '/' as int !in name
  }

  lemma {:induction false} SplitAtSlash(front: Word, name: Word)
    requires '/' as int !in name
    ensures Basename(front + ['/' as int] + name) == name
    ensures Dirname(front + ['/' as int] + name) == front
    decreases |name|
  {
    var p := front + ['/' as int] + name;
    if name == [] {
      assert p[..|p| - 1] == front;
    } else {
      var init := name[..|name| - 1];
      SplitAtSlash(front, init);
      assert p[..|p| - 1] == front + ['/' as int] + init;
    }
  }

  // A pathname leads from the directory to the entry.
  lemma PathnameLeads(dirpath: Word, name: Word)
    requires dirpath != [] && PlainName(name)
    ensures Basename(Pathname(dirpath, name)) == name
    ensures Dirname(Pathname(dirpath, name)) == WithoutFinalSlash(dirpath)
  {
    var front := WithoutFinalSlash(dirpath);
    SplitAtSlash(front, name);
    assert Pathname(dirpath, name) == front + ['/' as int] + name;
  }

  // So different entries, or different directories, have different pathnames.
  lemma PathnamesDiffer(d1: Word, n1: Word, d2: Word, n2: Word)
    requires d1 != [] && d2 != [] && PlainName(n1) && PlainName(n2)
    ensures Pathname(d1, n1) == Pathname(d2, n2) <==> n1 == n2 && WithoutFinalSlash(d1) == WithoutFinalSlash(d2)
  {
    PathnameLeads(d1, n1);
    PathnameLeads(d2, n2);
    hide Pathname;
    if n1 == n2 && WithoutFinalSlash(d1) == WithoutFinalSlash(d2) {
      SamePathname(d1, d2, n1);
    }
  }

  lemma SamePathname(d1: Word, d2: Word, name: Word)
    requires d1 != [] && d2 != [] && WithoutFinalSlash(d1) == WithoutFinalSlash(d2)
    ensures Pathname(d1, name) == Pathname(d2, name)
  {
    assert Pathname(d1, name) == WithoutFinalSlash(d1) + ['/' as int] + name;
    assert Pathname(d2, name) == WithoutFinalSlash(d2) + ['/' as int] + name;
  }

  // --- strncmp and the sort. ---

  function Strncmp(a: Word, b: Word, n: nat): int {
    var x := if a == [] then NUL else a[0];
    var y := if b == [] then NUL else b[0];
    if n == 0 then 0
    else if x != y then x - y
    else if x == NUL then 0
    else Strncmp(a[1..], b[1..], n - 1)
  }

  // The byte of a C string at a place, 0 behind its end.
  function ByteAt(a: Word, i: nat): Byte {
    if i < |a| then a[i] else 0
  }

  // Before n, the strings first differ at k, where a has the smaller byte.
  ghost predicate FirstLessAt(a: Word, b: Word, n: nat, k: nat) {
    && k < n && ByteAt(a, k) < ByteAt(b, k)
    && forall i | 0 <= i < k :: ByteAt(a, i) == ByteAt(b, i) != 0
  }

  // strncmp orders by the first byte that differs.
  lemma {:induction false} StrncmpIff(a: Word, b: Word, n: nat)
    ensures Strncmp(a, b, n) < 0 <==> exists k :: FirstLessAt(a, b, n, k)
    decreases n
  {
    if n == 0 {
    } else if ByteAt(a, 0) != ByteAt(b, 0) || ByteAt(a, 0) == 0 {
      if Strncmp(a, b, n) < 0 {
        assert FirstLessAt(a, b, n, 0);
      }
    } else {
      var c, d, m := a[1..], b[1..], n - 1;
      StrncmpIff(c, d, m);
      if k: nat :| FirstLessAt(c, d, m, k) {
        FirstLessBehind(a, b, n, k);
      }
      if k: nat :| FirstLessAt(a, b, n, k) {
        FirstLessInFront(a, b, n, k);
        assert FirstLessAt(c, d, m, k - 1);
      }
    }
  }

  // The order of the items.
  lemma AlphasortIff(e1: Item, e2: Item)
    ensures Alphasort(e1, e2) < 0 <==> exists k :: FirstLessAt(e1.pathname, e2.pathname, 1024, k)
  {
    StrncmpIff(e1.pathname, e2.pathname, 1024);
  }

  lemma FirstLessBehind(a: Word, b: Word, n: nat, k: nat)
    requires n > 0 && a != [] && b != [] && a[0] == b[0] != 0 && FirstLessAt(a[1..], b[1..], n - 1, k)
    ensures FirstLessAt(a, b, n, k + 1)
  {
    forall i | 0 <= i < k + 1
      ensures ByteAt(a, i) == ByteAt(b, i) != 0
    {
      if i > 0 {
        assert ByteAt(a[1..], i - 1) == ByteAt(b[1..], i - 1) != 0;
      }
    }
  }

  lemma FirstLessInFront(a: Word, b: Word, n: nat, k: nat)
    requires n > 0 && a != [] && b != [] && a[0] == b[0] && FirstLessAt(a, b, n, k)
    ensures k > 0 && FirstLessAt(a[1..], b[1..], n - 1, k - 1)
  {
    forall i | 0 <= i < k - 1
      ensures ByteAt(a[1..], i) == ByteAt(b[1..], i) != 0
    {
      assert ByteAt(a, i + 1) == ByteAt(b, i + 1) != 0;
    }
  }

  function Alphasort(e1: Item, e2: Item): int {
    Strncmp(e1.pathname, e2.pathname, MAX_PATHNAME_LENGTH)
  }

  lemma {:induction false} StrncmpFlips(a: Word, b: Word, n: nat)
    ensures Strncmp(a, b, n) == -Strncmp(b, a, n)
    decreases n
  {
    if n != 0 && a != [] && b != [] {
      StrncmpFlips(a[1..], b[1..], n - 1);
    }
  }

  lemma {:induction false} StrncmpChains(a: Word, b: Word, c: Word, n: nat)
    requires Strncmp(a, b, n) < 0 && Strncmp(b, c, n) < 0
    ensures Strncmp(a, c, n) < 0
    decreases n
  {
    if n != 0 && a != [] && b != [] && c != [] && a[0] == b[0] == c[0] {
      StrncmpChains(a[1..], b[1..], c[1..], n - 1);
    }
  }

  lemma {:induction false} StrncmpReflexive(a: Word, n: nat)
    ensures Strncmp(a, a, n) == 0
    decreases n
  {
    if n != 0 && a != [] {
      StrncmpReflexive(a[1..], n - 1);
    }
  }

  // The pathnames differ within the compared length.
  ghost predicate DistinctPaths(items: seq<Item>) {
    forall i, j | 0 <= i < j < |items| :: Alphasort(items[i], items[j]) != 0
  }

  ghost predicate Ascending(items: seq<Item>) {
    forall i, j | 0 <= i < j < |items| :: Alphasort(items[i], items[j]) < 0
  }

  // qsort: an ascending arrangement of the items.
  function Arrange(items: seq<Item>): (r: seq<Item>)
    ensures |r| == |items|
    decreases |items|
  {
    if items == [] then [] else Place(Arrange(items[..|items| - 1]), items[|items| - 1])
  }

  function Place(items: seq<Item>, x: Item): (r: seq<Item>)
    ensures |r| == |items| + 1
    decreases |items|
  {
    if items == [] || Alphasort(items[|items| - 1], x) <= 0 then items + [x]
    else Place(items[..|items| - 1], x) + [items[|items| - 1]]
  }

  lemma {:induction false} PlaceKeeps(items: seq<Item>, x: Item)
    ensures multiset(Place(items, x)) == multiset(items) + multiset{x}
    decreases |items|
  {
    hide Alphasort;
    if items != [] {
      PlaceKeeps(items[..|items| - 1], x);
      assert items == items[..|items| - 1] + [items[|items| - 1]];
    }
  }

  lemma {:induction false} ArrangeKeeps(items: seq<Item>)
    ensures multiset(Arrange(items)) == multiset(items)
    ensures forall y :: y in Arrange(items) <==> y in items
    decreases |items|
  {
    hide Place, Alphasort;
    if items != [] {
      ArrangeKeeps(items[..|items| - 1]);
      PlaceKeeps(Arrange(items[..|items| - 1]), items[|items| - 1]);
      assert items == items[..|items| - 1] + [items[|items| - 1]];
    }
    SameElements(items, Arrange(items));
  }

  lemma {:induction false} PlaceAscends(items: seq<Item>, x: Item)
    requires Ascending(items) && forall y | y in items :: Alphasort(y, x) != 0
    ensures Ascending(Place(items, x))
    decreases |items|
  {
    hide Strncmp;
    if items != [] {
      var init, last := items[..|items| - 1], items[|items| - 1];
      StrncmpFlips(last.pathname, x.pathname, MAX_PATHNAME_LENGTH);
      if Alphasort(last, x) < 0 {
        forall i | 0 <= i < |items| - 1
          ensures Alphasort(items[i], x) < 0
        {
          StrncmpChains(items[i].pathname, last.pathname, x.pathname, MAX_PATHNAME_LENGTH);
        }
      } else {
        assert Alphasort(last, x) != 0 by { assert last in items; }
        assert forall y | y in init :: y in items;
        PlaceAscends(init, x);
        PlaceKeeps(init, x);
        var r := Place(init, x);
        forall i | 0 <= i < |r|
          ensures Alphasort(r[i], last) < 0
        {
          assert r[i] in multiset(r);
          assert r[i] in multiset(init) || r[i] == x;
          if r[i] != x {
            var j :| 0 <= j < |init| && init[j] == r[i];
            assert items[j] == r[i];
          }
        }
      }
    }
  }

  lemma {:induction false} ArrangeAscends(items: seq<Item>)
    requires DistinctPaths(items)
    ensures Ascending(Arrange(items))
    decreases |items|
  {
    hide Alphasort, Place;
    if items != [] {
      var init, last := items[..|items| - 1], items[|items| - 1];
      ArrangeAscends(init);
      ArrangeKeeps(init);
      forall y | y in Arrange(init)
        ensures Alphasort(y, last) != 0
      {
        assert y in init;
        var i :| 0 <= i < |init| && init[i] == y;
        assert items[i] == y;
      }
      PlaceAscends(Arrange(init), last);
    }
  }

  // --- The walk. ---

  // Items made of entries of d, with the pathnames the C code gives them.
  ghost predicate ItemsFrom(dirpath: Word, d: seq<Entry>, items: seq<Item>)
    requires dirpath != []
  {
    forall i | 0 <= i < |items| :: ItemFrom(dirpath, d, items[i])
  }

  ghost predicate ItemFrom(dirpath: Word, d: seq<Entry>, it: Item)
    requires dirpath != []
  {
    it.entry in d && it.pathname == Pathname(dirpath, it.entry.name) && it.pathname != [] && !Skipped(it.entry.name)
  }

  // The first pass of HandleDir: the array of items of a directory.
  function Items(dirpath: Word, d: seq<Entry>): (r: seq<Item>)
    requires dirpath != []
    decreases |d|
  {
    if d == [] then []
    else
      var e := d[|d| - 1];
      Items(dirpath, d[..|d| - 1]) + if Skipped(e.name) then [] else [Item(Pathname(dirpath, e.name), e)]
  }

  lemma {:induction false} ItemsAreEntries(dirpath: Word, d: seq<Entry>)
    requires dirpath != []
    ensures ItemsFrom(dirpath, d, Items(dirpath, d))
    decreases |d|
  {
    if d != [] {
      var init, e := d[..|d| - 1], d[|d| - 1];
      ItemsAreEntries(dirpath, init);
      var r := Items(dirpath, d);
      forall i | 0 <= i < |r|
        ensures ItemFrom(dirpath, d, r[i])
      {
        if i < |Items(dirpath, init)| {
          assert ItemFrom(dirpath, init, Items(dirpath, init)[i]);
          assert r[i].entry in init;
        }
      }
    }
  }

  lemma {:induction false} EntryHasItem(dirpath: Word, d: seq<Entry>, i: nat)
    requires dirpath != [] && i < |d| && !Skipped(d[i].name)
    ensures Item(Pathname(dirpath, d[i].name), d[i]) in Items(dirpath, d)
    decreases |d|
  {
    if i < |d| - 1 {
      EntryHasItem(dirpath, d[..|d| - 1], i);
    }
  }

  // The items are those of all entries but "." and "..", each with the pathname
  // that leads from the directory to it.
  ghost predicate Lists(dirpath: Word, d: seq<Entry>, items: seq<Item>) {
    && (forall it | it in items :: it.entry in d)
    && (forall e | e in d :: (exists it :: it in items && it.entry == e) <==> e.name != [46] && e.name != [46, 46])
    && forall it | it in items && PlainName(it.entry.name) ::
         Basename(it.pathname) == it.entry.name && Dirname(it.pathname) == WithoutFinalSlash(dirpath)
  }

  lemma ItemsList(dirpath: Word, d: seq<Entry>)
    requires dirpath != []
    ensures Lists(dirpath, d, Items(dirpath, d))
  {
    var items := Items(dirpath, d);
    ItemsAreEntries(dirpath, d);
    hide Items, Pathname;
    forall it | it in items
      ensures ItemFrom(dirpath, d, it)
    {
      var i :| 0 <= i < |items| && items[i] == it;
      assert ItemFrom(dirpath, d, items[i]);
    }
    forall e | e in d
      ensures (exists it :: it in items && it.entry == e) <==> e.name != [46] && e.name != [46, 46]
    {
      if !Skipped(e.name) {
        var i :| 0 <= i < |d| && d[i] == e;
        EntryHasItem(dirpath, d, i);
        assert Item(Pathname(dirpath, e.name), e) in items;
      }
    }
    forall it | it in items && PlainName(it.entry.name)
      ensures Basename(it.pathname) == it.entry.name && Dirname(it.pathname) == WithoutFinalSlash(dirpath)
    {
      PathnameLeads(dirpath, it.entry.name);
    }
  }

  // The array after qsort.
  function SortedItems(dirpath: Word, d: seq<Entry>): (r: seq<Item>)
    requires dirpath != []
    ensures ItemsFrom(dirpath, d, r)
  {
    ItemsAreEntries(dirpath, d);
    ArrangedItemsAreEntries(dirpath, d, Items(dirpath, d));
    Arrange(Items(dirpath, d))
  }

  lemma ArrangedItemsAreEntries(dirpath: Word, d: seq<Entry>, items: seq<Item>)
    requires dirpath != [] && ItemsFrom(dirpath, d, items)
    ensures ItemsFrom(dirpath, d, Arrange(items))
  {
    hide ItemFrom, Arrange;
    ArrangeKeeps(items);
    var r := Arrange(items);
    forall i | 0 <= i < |r|
      ensures ItemFrom(dirpath, d, r[i])
    {
      assert r[i] in items;
    }
  }

  // The calls of HandleFile made for a directory, in order.
  function Visits(dirpath: Word, d: seq<Entry>): seq<Visit>
    requires dirpath != []
    decreases d, 1, 0
  {
    VisitItems(dirpath, d, SortedItems(dirpath, d))
  }

  function VisitItems(dirpath: Word, d: seq<Entry>, items: seq<Item>): seq<Visit>
    requires dirpath != [] && ItemsFrom(dirpath, d, items)
    decreases d, 0, |items|
  {
    if items == [] then []
    else
      VisitItems(dirpath, d, items[..|items| - 1]) + ItemVisits(dirpath, d, items[|items| - 1])
  }

  function ItemVisits(dirpath: Word, d: seq<Entry>, it: Item): seq<Visit>
    requires dirpath != [] && ItemFrom(dirpath, d, it)
    decreases d, 0, 0
  {
    match it.entry
    case FileEntry(_, contents) => [Visit(it.pathname, contents)]
    case DirEntry(_, entries) => Visits(it.pathname, entries)
  }

  // --- Independence of the directories' own order. ---

  // The same entries, in whatever order, at every level.
  ghost predicate SameDir(d1: seq<Entry>, d2: seq<Entry>)
    decreases d1, 2
  {
    && (forall i {:trigger HasTwinEntry(d1, i, d2)} | 0 <= i < |d1| :: HasTwinEntry(d1, i, d2))
    && (forall j {:trigger IsTwinEntry(d1, d2, j)} | 0 <= j < |d2| :: IsTwinEntry(d1, d2, j))
  }

  ghost predicate HasTwinEntry(d1: seq<Entry>, i: nat, d2: seq<Entry>)
    requires i < |d1|
    decreases d1, 1
  {
    exists j :: 0 <= j < |d2| && SameEntry(d1[i], d2[j])
  }

  ghost predicate IsTwinEntry(d1: seq<Entry>, d2: seq<Entry>, j: nat)
    requires j < |d2|
    decreases d1, 1
  {
    exists i :: 0 <= i < |d1| && SameEntry(d1[i], d2[j])
  }

  ghost predicate SameEntry(e1: Entry, e2: Entry)
    decreases e1, 0
  {
    && e1.name == e2.name
    && match e1
       case FileEntry(_, contents) => e2.FileEntry? && e2.contents == contents
       case DirEntry(_, entries) => e2.DirEntry? && SameDir(entries, e2.entries)
  }

  // No two entries of a directory have the same pathname, at every level.
  ghost predicate WellNamed(dirpath: Word, d: seq<Entry>)
    requires dirpath != []
    decreases d
  {
    && DistinctPaths(Items(dirpath, d))
    && forall e | e in d && e.DirEntry? :: WellNamed(Pathname(dirpath, e.name), e.entries)
  }

  ghost predicate SameItem(x: Item, y: Item) {
    x.pathname == y.pathname && SameEntry(x.entry, y.entry)
  }

  ghost predicate SameItems(r1: seq<Item>, r2: seq<Item>) {
    && (forall i {:trigger HasTwin(r1[i], r2)} | 0 <= i < |r1| :: HasTwin(r1[i], r2))
    && (forall j {:trigger IsTwin(r1, r2[j])} | 0 <= j < |r2| :: IsTwin(r1, r2[j]))
  }

  ghost predicate HasTwin(x: Item, r2: seq<Item>) {
    exists j :: 0 <= j < |r2| && SameItem(x, r2[j])
  }

  ghost predicate IsTwin(r1: seq<Item>, y: Item) {
    exists i :: 0 <= i < |r1| && SameItem(r1[i], y)
  }

  // Ascending listings of the same items that agree before k agree at k.
  lemma NextItemsAgree(r1: seq<Item>, r2: seq<Item>, k: nat)
    requires Ascending(r1) && Ascending(r2) && SameItems(r1, r2)
    requires k < |r1| && k < |r2| && forall i | 0 <= i < k :: SameItem(r1[i], r2[i])
    ensures SameItem(r1[k], r2[k])
  {
    hide SameEntry, Strncmp;
    assert HasTwin(r1[k], r2) && IsTwin(r1, r2[k]);
    var j :| 0 <= j < |r2| && SameItem(r1[k], r2[j]);
    var i :| 0 <= i < |r1| && SameItem(r1[i], r2[k]);
    StrncmpReflexive(r1[k].pathname, MAX_PATHNAME_LENGTH);
    StrncmpReflexive(r2[k].pathname, MAX_PATHNAME_LENGTH);
    assert k <= j && k <= i;
    if k < j && k < i {
      assert Alphasort(r1[k], r1[i]) < 0 && Alphasort(r2[k], r2[j]) < 0;
      StrncmpFlips(r1[k].pathname, r2[k].pathname, MAX_PATHNAME_LENGTH);
      assert false;
    }
  }

  lemma {:induction false} ItemsAgreeUpTo(r1: seq<Item>, r2: seq<Item>, n: nat)
    requires Ascending(r1) && Ascending(r2) && SameItems(r1, r2)
    requires n <= |r1| && n <= |r2|
    ensures forall i | 0 <= i < n :: SameItem(r1[i], r2[i])
    decreases n
  {
    hide SameEntry, Ascending, SameItems, SameItem;
    if n != 0 {
      ItemsAgreeUpTo(r1, r2, n - 1);
      NextItemsAgree(r1, r2, n - 1);
    }
  }

  // Ascending listings of the same items agree item by item.
  lemma AscendingItemsAgree(r1: seq<Item>, r2: seq<Item>)
    requires Ascending(r1) && Ascending(r2) && SameItems(r1, r2)
    ensures |r1| == |r2| && forall i | 0 <= i < |r1| :: SameItem(r1[i], r2[i])
  {
    hide SameEntry, Strncmp;
    var n := if |r1| <= |r2| then |r1| else |r2|;
    ItemsAgreeUpTo(r1, r2, n);
    if n < |r1| {
      assert HasTwin(r1[n], r2);
      var j :| 0 <= j < |r2| && SameItem(r1[n], r2[j]);
      assert Alphasort(r1[j], r1[n]) < 0 && SameItem(r1[j], r2[j]);
      StrncmpReflexive(r1[n].pathname, MAX_PATHNAME_LENGTH);
    }
    if n < |r2| {
      assert IsTwin(r1, r2[n]);
      var i :| 0 <= i < |r1| && SameItem(r1[i], r2[n]);
      assert Alphasort(r2[i], r2[n]) < 0 && SameItem(r1[i], r2[i]);
      StrncmpReflexive(r2[n].pathname, MAX_PATHNAME_LENGTH);
    }
  }

  lemma TwinOfItem(dirpath: Word, d1: seq<Entry>, d2: seq<Entry>, x: Item)
    requires dirpath != [] && SameDir(d1, d2) && ItemFrom(dirpath, d1, x)
    ensures HasTwin(x, SortedItems(dirpath, d2))
  {
    hide Arrange, Items, ItemsFrom;
    var i :| 0 <= i < |d1| && d1[i] == x.entry;
    assert HasTwinEntry(d1, i, d2);
    var j :| 0 <= j < |d2| && SameEntry(d1[i], d2[j]);
    var y := Item(Pathname(dirpath, d2[j].name), d2[j]);
    var r2 := SortedItems(dirpath, d2);
    EntryHasItem(dirpath, d2, j);
    ArrangeKeeps(Items(dirpath, d2));
    assert y in r2;
    var k :| 0 <= k < |r2| && r2[k] == y;
    assert SameItem(x, r2[k]);
  }

  lemma ItemOfTwin(dirpath: Word, d1: seq<Entry>, d2: seq<Entry>, y: Item)
    requires dirpath != [] && SameDir(d1, d2) && ItemFrom(dirpath, d2, y)
    ensures IsTwin(SortedItems(dirpath, d1), y)
  {
    hide Arrange, Items, ItemsFrom;
    var j :| 0 <= j < |d2| && d2[j] == y.entry;
    assert IsTwinEntry(d1, d2, j);
    var i :| 0 <= i < |d1| && SameEntry(d1[i], d2[j]);
    var x := Item(Pathname(dirpath, d1[i].name), d1[i]);
    var r1 := SortedItems(dirpath, d1);
    EntryHasItem(dirpath, d1, i);
    ArrangeKeeps(Items(dirpath, d1));
    assert x in r1;
    var k :| 0 <= k < |r1| && r1[k] == x;
    assert SameItem(r1[k], y);
  }

  lemma ItemsOfSameDir(dirpath: Word, d1: seq<Entry>, d2: seq<Entry>)
    requires dirpath != [] && SameDir(d1, d2)
    ensures SameItems(SortedItems(dirpath, d1), SortedItems(dirpath, d2))
  {
    hide SortedItems, SameDir, HasTwin, IsTwin, ItemFrom;
    var r1, r2 := SortedItems(dirpath, d1), SortedItems(dirpath, d2);
    forall i | 0 <= i < |r1|
      ensures HasTwin(r1[i], r2)
    {
      TwinOfItem(dirpath, d1, d2, r1[i]);
    }
    forall j | 0 <= j < |r2|
      ensures IsTwin(r1, r2[j])
    {
      ItemOfTwin(dirpath, d1, d2, r2[j]);
    }
  }

  // A crawl visits the same files in the same order, however the directories
  // of the tree list their entries.
  lemma {:induction false} VisitsIgnoreOrder(dirpath: Word, d1: seq<Entry>, d2: seq<Entry>)
    requires dirpath != [] && SameDir(d1, d2) && WellNamed(dirpath, d1) && WellNamed(dirpath, d2)
    ensures Visits(dirpath, d1) == Visits(dirpath, d2)
    decreases d1, 1, 0
  {
    hide SameDir, ItemsFrom, DistinctPaths, Ascending, SameItem;
    ArrangeAscends(Items(dirpath, d1));
    ArrangeAscends(Items(dirpath, d2));
    ItemsOfSameDir(dirpath, d1, d2);
    AscendingItemsAgree(SortedItems(dirpath, d1), SortedItems(dirpath, d2));
    VisitItemsAgree(dirpath, d1, d2, SortedItems(dirpath, d1), SortedItems(dirpath, d2));
  }

  lemma {:induction false} VisitItemsAgree(dirpath: Word, d1: seq<Entry>, d2: seq<Entry>, r1: seq<Item>, r2: seq<Item>)
    requires dirpath != [] && WellNamed(dirpath, d1) && WellNamed(dirpath, d2)
    requires |r1| == |r2| && forall i | 0 <= i < |r1| :: SameItem(r1[i], r2[i])
    requires ItemsFrom(dirpath, d1, r1) && ItemsFrom(dirpath, d2, r2)
    ensures VisitItems(dirpath, d1, r1) == VisitItems(dirpath, d2, r2)
    decreases d1, 0, |r1|
  {
    hide Items, DistinctPaths, Pathname, Visits, SameDir, Skipped;
    if r1 != [] {
      var n := |r1| - 1;
      VisitItemsAgree(dirpath, d1, d2, r1[..n], r2[..n]);
      var x, y := r1[n], r2[n];
      assert ItemFrom(dirpath, d1, x) && ItemFrom(dirpath, d2, y) && SameItem(x, y);
      if x.entry.DirEntry? {
        VisitsIgnoreOrder(x.pathname, x.entry.entries, y.entry.entries);
      }
    }
  }
}
