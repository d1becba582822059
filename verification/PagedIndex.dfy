/** The page-boundary index, and a whole lookup from index to key. */
module PagedIndex {
  import opened PagedStore
  import opened PagedLookup

  /** How many leading keys are below the given one. */
  function LowerBound(s: seq<nat>, key: nat): (r: nat)
    ensures r <= |s| && (forall j :: 0 <= j < r ==> s[j] < key) && (r < |s| ==> s[r] >= key)
  {
    if s == [] || s[0] >= key then 0 else 1 + LowerBound(s[1..], key)
  }

  class BinarySearch {
    const recordPerPage: nat
    var points: seq<nat>

    constructor (recordPerPage: nat)
      ensures this.recordPerPage == recordPerPage && points == []
    {
      this.recordPerPage := recordPerPage;
      points := [];
    }

    /** Remembers the last key of every full page, and the greatest key. */
    method Build(data: seq<nat>)
      requires 0 < recordPerPage <= |data|
      modifies this`points
      ensures Boundaries(points, data, recordPerPage)
    {
      points := [];
      var i := recordPerPage - 1;
      while i < |data|
        invariant i == |points| * recordPerPage + recordPerPage - 1 && i - recordPerPage < |data|
        invariant forall r :: 0 <= r < |points| ==> Boundary(points, data, recordPerPage, r)
      {
        NextBoundary(points, data, recordPerPage, data[i]);
        points := points + [data[i]];
        i := i + recordPerPage;
      }
      PageCount(|points|, |data|, recordPerPage);
      if points[|points| - 1] != data[|data| - 1] {
        MoreBoundary(points, data, recordPerPage, data[|data| - 1]);
        points := points + [data[|data| - 1]];
      }
    }

    /** The records of the page whose boundary is the first not below the key. */
    method Lookup(key: nat) returns (range: SearchRange)
      ensures range == PageRange(LowerBound(points, key), recordPerPage)
      ensures range.stop == range.start + recordPerPage && range.start == LowerBound(points, key) * recordPerPage
    {
      var res := 0;
      while res < |points| && points[res] < key
        invariant res <= |points| && forall j :: 0 <= j < res ==> points[j] < key
      {
        res := res + 1;
      }
      range := SearchRange(res * recordPerPage, (res + 1) * recordPerPage);
    }
  }

  function PageRange(r: nat, p: nat): SearchRange {
    SearchRange(r * p, (r + 1) * p)
  }

  ghost predicate Boundary(points: seq<nat>, data: seq<nat>, p: nat, r: nat)
    requires r < |points|
  {
    r * p + p - 1 < |data| && p > 0 && points[r] == data[r * p + p - 1]
  }

  ghost predicate Boundaries(points: seq<nat>, data: seq<nat>, p: nat) {
    && p > 0 && data != [] && 0 < |data| / p <= |points| <= |data| / p + 1
    && points[|points| - 1] == data[|data| - 1]
    && forall r :: 0 <= r < |data| / p ==> Boundary(points, data, p, r)
  }

  lemma NextBoundary(points: seq<nat>, data: seq<nat>, p: nat, last: nat)
    requires p > 0 && |points| * p + p - 1 < |data| && last == data[|points| * p + p - 1]
    requires forall r :: 0 <= r < |points| ==> Boundary(points, data, p, r)
    ensures forall r :: 0 <= r < |points| + 1 ==> Boundary(points + [last], data, p, r)
    ensures (|points| + 1) * p == |points| * p + p
  {
    MoreBoundary(points, data, p, last);
  }

  lemma MoreBoundary(points: seq<nat>, data: seq<nat>, p: nat, last: nat)
    requires forall r :: 0 <= r < |points| ==> Boundary(points, data, p, r)
    ensures forall r :: 0 <= r < |points| ==> Boundary(points + [last], data, p, r)
  {
    forall r | 0 <= r < |points| ensures Boundary(points + [last], data, p, r) {
      assert Boundary(points, data, p, r);
    }
  }

  lemma PageCount(count: nat, n: nat, p: nat)
    requires 0 < p <= n && count * p - 1 < n <= count * p + p - 1
    ensures n / p == count && count > 0
  {
    PageNumber(count, n - count * p, p);
  }

  /** The first occurrence of a stored key. */
  lemma FirstOccurrence(data: seq<nat>, key: nat)
    requires Sorted(data) && key in data
    ensures LowerBound(data, key) < |data| && data[LowerBound(data, key)] == key
  {
    var i := LowerBound(data, key);
    var x :| 0 <= x < |data| && data[x] == key;
    assert i <= x;
  }

  /** A boundary below the key is before its first occurrence. */
  lemma BoundaryBelow(points: seq<nat>, data: seq<nat>, p: nat, r: nat, i: nat)
    requires r < |points| && Boundary(points, data, p, r) && Sorted(data) && i < |data| && points[r] < data[i]
    ensures (r + 1) * p <= i
  {
    assert (r + 1) * p == r * p + p;
  }

  /** A boundary not below the key is at or after its first occurrence. */
  lemma BoundaryAbove(points: seq<nat>, data: seq<nat>, p: nat, r: nat, i: nat)
    requires r < |points| && Boundary(points, data, p, r) && i < |data|
    requires data[i] <= points[r] && forall j :: 0 <= j < i ==> data[j] < data[i]
    ensures i < (r + 1) * p
  {
    assert (r + 1) * p == r * p + p;
  }

  /** A stored key lies in the range its boundary gives. */
  lemma RangeHolds(points: seq<nat>, data: seq<nat>, p: nat, key: nat)
    requires Boundaries(points, data, p) && Sorted(data) && key in data
    ensures var i, r := LowerBound(data, key), LowerBound(points, key);
      i < |data| && data[i] == key && r * p <= i < (r + 1) * p
  {
    hide Boundary, LowerBound, Sorted;
    var i, r, k := LowerBound(data, key), LowerBound(points, key), |data| / p;
    FirstOccurrence(data, key);
    BelowLast(points, data, key);
    if r > 0 {
      BoundaryBelow(points, data, p, r - 1, i);
    }
    if r < k {
      BoundaryAbove(points, data, p, r, i);
    } else {
      PastAll(|data|, p, r, i);
    }
  }

  lemma BelowLast(points: seq<nat>, data: seq<nat>, key: nat)
    requires points != [] && data != [] && points[|points| - 1] == data[|data| - 1] && Sorted(data) && key in data
    ensures LowerBound(points, key) < |points|
  {
  }

  lemma PastAll(n: nat, p: nat, r: nat, i: nat)
    requires p > 0 && r >= n / p && i < n
    ensures i < (r + 1) * p
  {
    var k := n / p;
    assert n == k * p + n % p;
    MulMonotone(k, r, p);
    assert (r + 1) * p == r * p + p;
  }

  /** The range in records, clamped to the data. */
  function GetItemRange(range: SearchRange, predGran: nat, dataSize: nat): SearchRange
    requires dataSize > 0
  {
    SearchRange(Min(range.start * predGran, dataSize - 1), Min(range.stop * predGran, dataSize))
  }

  function GetFileID(idx: nat, recordNumPerFile: nat): nat
    requires recordNumPerFile > 0
  {
    idx / recordNumPerFile
  }

  function GetInFilePageID(idx: nat, recordNumPerPage: nat, pageNumPerFile: nat): nat
    requires recordNumPerPage > 0 && pageNumPerFile > 0
  {
    (idx / recordNumPerPage) % pageNumPerFile
  }

  /** The pages a range of records lies in. */
  function GetFetchRange(lay: Layout, range: SearchRange): FetchRange
    requires lay.Ok() && range.stop > 0
  {
    FileIsSome(lay);
    FetchRange(GetFileID(range.start, lay.RecordsPerFile()),
               GetInFilePageID(range.start, lay.recordsPerPage, lay.pagesPerFile),
               GetFileID(range.stop - 1, lay.RecordsPerFile()),
               GetInFilePageID(range.stop - 1, lay.recordsPerPage, lay.pagesPerFile))
  }

  /** The file and page numbers of a record address its page among all pages. */
  lemma Address(lay: Layout, idx: nat)
    requires lay.Ok() && lay.RecordsPerFile() > 0
    ensures GetFileID(idx, lay.RecordsPerFile()) * lay.pagesPerFile
          + GetInFilePageID(idx, lay.recordsPerPage, lay.pagesPerFile) == idx / lay.recordsPerPage
    ensures GetFileID(idx, lay.RecordsPerFile()) == (idx / lay.recordsPerPage) / lay.pagesPerFile
  {
    var rpp, ppf := lay.recordsPerPage, lay.pagesPerFile;
    var g, a := idx / rpp, idx % rpp;
    var f, pid := g / ppf, g % ppf;
    assert idx == g * rpp + a;
    PageOfFile(lay, g);
    WithinFile(pid, ppf, rpp);
    PageNumber(f, pid * rpp + a, lay.RecordsPerFile());
    assert g == f * ppf + pid;
  }

  /** The file of a record within the first count files. */
  lemma FileWithin(lay: Layout, idx: nat, count: nat)
    requires lay.Ok() && lay.RecordsPerFile() > 0 && idx < count * lay.RecordsPerFile()
    ensures GetFileID(idx, lay.RecordsPerFile()) < count
  {
    var rpf := lay.RecordsPerFile();
    assert idx == (idx / rpf) * rpf + idx % rpf;
    FileOf(idx / rpf, count, rpf, idx, count * rpf);
  }

  lemma PageInFile(lay: Layout, idx: nat)
    requires lay.Ok()
    ensures GetInFilePageID(idx, lay.recordsPerPage, lay.pagesPerFile) < lay.pagesPerFile
  {
  }

  lemma RangeOfPages(lay: Layout, range: SearchRange, count: nat)
    requires lay.Ok() && range.start < range.stop <= count * lay.RecordsPerFile()
    ensures var fetch := GetFetchRange(lay, range);
      && FetchOk(fetch, lay, count)
      && FirstPage(fetch, lay) == range.start / lay.recordsPerPage
      && FinalPage(fetch, lay) == (range.stop - 1) / lay.recordsPerPage
  {
    hide GetFileID, GetInFilePageID, Layout.RecordsPerFile;
    FileIsSome(lay);
    Address(lay, range.start);
    Address(lay, range.stop - 1);
    PageInFile(lay, range.start);
    PageInFile(lay, range.stop - 1);
    FileWithin(lay, range.stop - 1, count);
    SamePageOrLater(range.start, range.stop - 1, lay.recordsPerPage);
  }

  lemma SamePageOrLater(a: nat, b: nat, rpp: nat)
    requires a <= b && rpp > 0
    ensures a / rpp <= b / rpp && (b / rpp) * rpp <= b
  {
    var x, y := a / rpp, b / rpp;
    assert a == x * rpp + a % rpp && b == y * rpp + b % rpp;
    if y < x {
      MulMonotone(y + 1, x, rpp);
    }
  }

  lemma PageAscends(data: seq<nat>, rpp: nat, g: nat)
    requires data != [] && Sorted(data)
    ensures Sorted(Page(data, rpp, g))
  {
    var page := Page(data, rpp, g);
    forall i, j | 0 <= i < j < |page| ensures page[i] <= page[j] {
      Ascends(data, g * rpp + i, g * rpp + j);
    }
  }

  lemma Ascends(data: seq<nat>, a: nat, b: nat)
    requires data != [] && Sorted(data) && a <= b
    ensures At(data, a) <= At(data, b)
  {
  }

  /** Page g is sorted and has only stored keys, among them every key whose place it covers. */
  lemma PageIsSorted(data: seq<nat>, rpp: nat, g: nat, key: nat)
    requires data != [] && Sorted(data) && rpp > 0
    ensures Sorted(Page(data, rpp, g))
    ensures key in Page(data, rpp, g) ==> key in data
    ensures forall i :: 0 <= i < |data| && i / rpp == g && data[i] == key ==> key in Page(data, rpp, g)
  {
    hide Sorted;
    var page := Page(data, rpp, g);
    PageAscends(data, rpp, g);
    if key in page {
      var t :| 0 <= t < rpp && page[t] == key;
      assert At(data, g * rpp + t) in data;
    }
    forall i | 0 <= i < |data| && i / rpp == g && data[i] == key ensures key in page {
      assert i == g * rpp + i % rpp;
      assert page[i % rpp] == At(data, g * rpp + i % rpp);
    }
  }

  /** With a page of data or more, fetching a page gives the key exactly when the page has it. */
  lemma WholePageGives(files: seq<seq<nat>>, data: seq<nat>, lay: Layout, g: nat, was: seq<nat>, key: nat)
    requires data != [] && Sorted(data) && lay.Ok() && FilesHold(files, data, lay) && |data| >= lay.recordsPerPage
    requires g * lay.recordsPerPage < |data| && |was| == lay.recordsPerPage
    ensures g / lay.pagesPerFile < |files|
    ensures FetchedAt(files, lay, g, was, key) == key <==> key in Page(data, lay.recordsPerPage, g)
  {
    hide FilesHold, Page, PageRead, LastMile;
    WholePage(files, data, lay, g, was);
    PageIsSorted(data, lay.recordsPerPage, g, key);
    LastMileFinds(Page(data, lay.recordsPerPage, g), key);
  }

  /** A page that gives the key over some buffer contents gives it over all. */
  lemma NeverMisses(files: seq<seq<nat>>, data: seq<nat>, lay: Layout, g: nat, key: nat)
    requires data != [] && Sorted(data) && lay.Ok() && FilesHold(files, data, lay) && |data| >= lay.recordsPerPage
    requires g * lay.recordsPerPage < |data| && key in Page(data, lay.recordsPerPage, g)
    ensures !Misses(files, lay, g, key)
  {
    hide FilesHold, Page, FetchedAt;
    if Misses(files, lay, g, key) {
      var was: seq<nat> :| |was| == lay.recordsPerPage && FetchedAt(files, lay, g, was, key) != key;
      WholePageGives(files, data, lay, g, was, key);
    }
  }

  /**
   * Looks a key up in the stored data. With at least one page of data the key comes back exactly when it is
   * stored, even when its range crosses files; with less, the one short page is searched together with whatever
   * the buffer held before.
   */
  method LookUp(data: seq<nat>, index: BinarySearch, files: seq<seq<nat>>, lay: Layout, key: nat, buf: array<nat>)
    returns (res: nat)
    requires data != [] && Sorted(data) && lay.Ok() && FilesHold(files, data, lay)
    requires Boundaries(index.points, data, index.recordPerPage)
    requires buf.Length == lay.recordsPerPage * lay.gap
    modifies buf
    ensures |data| >= lay.recordsPerPage ==> (res == key <==> key in data)
    ensures |data| < lay.recordsPerPage ==>
      res == Fetched(data, lay.recordsPerPage, 0, old(KeysIn(buf[..], lay.recordsPerPage, lay.gap)), key)
  {
    hide FilesHold, Boundaries, Fetched, FetchedAt, KeysIn, Misses, Page, FirstPage, FinalPage, GetFetchRange, LowerBound;
    var found := index.Lookup(key);
    var range := GetItemRange(found, 1, |data|);
    InRange(index.points, data, index.recordPerPage, key, range);
    FilesCover(files, data, lay);
    RangeOfPages(lay, range, |files|);
    ghost var at, was;
    res, at, was := OneByOneFetch(GetFetchRange(lay, range), key, files, lay, buf);
    PagesWithin(range, |data|, lay.recordsPerPage, at);
    if |data| >= lay.recordsPerPage {
      WholePageGives(files, data, lay, at, was, key);
      PageIsSorted(data, lay.recordsPerPage, at, key);
      if key in data {
        ghost var g := PageOfKey(data, lay.recordsPerPage, range, LowerBound(data, key), key);
        Reached(data, lay, range.start / lay.recordsPerPage, g, (range.stop - 1) / lay.recordsPerPage,
                at, key, files, res);
      }
    } else {
      OnlyPage(files, data, lay, was, key);
    }
  }

  /** Index, files and lookup together: a key comes back exactly when it is stored. */
  method StoreAndLookUp(data: seq<nat>, p: nat, lay: Layout, key: nat) returns (res: nat)
    requires Sorted(data) && lay.Ok() && 0 < p <= |data| && lay.recordsPerPage <= |data|
    ensures res == key <==> key in data
  {
    hide FilesHold, Boundaries, Fetched, KeysIn;
    var index := new BinarySearch(p);
    index.Build(data);
    var files := StoreData(data, lay);
    var buf := new nat[lay.recordsPerPage * lay.gap];
    res := LookUp(data, index, files, lay, key, buf);
  }

  /** The clamped range is not empty, and covers the first occurrence of a stored key. */
  lemma InRange(points: seq<nat>, data: seq<nat>, p: nat, key: nat, range: SearchRange)
    requires data != [] && Sorted(data) && Boundaries(points, data, p)
    requires range == GetItemRange(PageRange(LowerBound(points, key), p), 1, |data|)
    ensures range.start < range.stop <= |data|
    ensures key in data ==> var i := LowerBound(data, key);
      range.start <= i < range.stop && data[i] == key
  {
    hide Boundaries, LowerBound, Sorted;
    var r := LowerBound(points, key);
    assert (r + 1) * p == r * p + p;
    Positive(points, data, p);
    if key in data {
      RangeHolds(points, data, p, key);
    }
  }

  lemma Positive(points: seq<nat>, data: seq<nat>, p: nat)
    requires Boundaries(points, data, p)
    ensures p > 0
  {
  }

  lemma FilesCover(files: seq<seq<nat>>, data: seq<nat>, lay: Layout)
    requires data != [] && lay.Ok() && FilesHold(files, data, lay)
    ensures |data| <= |files| * lay.RecordsPerFile()
  {
  }

  lemma PagesWithin(range: SearchRange, n: nat, rpp: nat, at: nat)
    requires rpp > 0 && range.start < range.stop <= n
    requires range.start / rpp <= at <= (range.stop - 1) / rpp
    ensures at * rpp < n
    ensures n < rpp ==> at == 0 == range.start / rpp == (range.stop - 1) / rpp
  {
    SamePageOrLater(range.start, range.stop - 1, rpp);
    MulMonotone(at, (range.stop - 1) / rpp, rpp);
  }

  /** The page of a stored key, within the range of pages. */
  lemma PageOfKey(data: seq<nat>, rpp: nat, range: SearchRange, i: nat, key: nat) returns (g: nat)
    requires data != [] && Sorted(data) && rpp > 0 && range.start <= i < range.stop <= |data| && data[i] == key
    ensures range.start / rpp <= g <= (range.stop - 1) / rpp && g * rpp < |data| && key in Page(data, rpp, g)
  {
    g := i / rpp;
    SamePageOrLater(range.start, i, rpp);
    SamePageOrLater(i, range.stop - 1, rpp);
    PageIsSorted(data, rpp, g, key);
  }

  /** The page of the key is not passed over. */
  lemma Reached(data: seq<nat>, lay: Layout, first: nat, g: nat, final: nat, at: nat, key: nat,
                files: seq<seq<nat>>, res: nat)
    requires data != [] && Sorted(data) && lay.Ok() && FilesHold(files, data, lay) && |data| >= lay.recordsPerPage
    requires first <= g <= final && g * lay.recordsPerPage < |data| && key in Page(data, lay.recordsPerPage, g)
    requires at <= final && (res == key || at == final)
    requires forall h :: first <= h < at ==> Misses(files, lay, h, key)
    requires res == key <==> key in Page(data, lay.recordsPerPage, at)
    ensures res == key
  {
    hide FilesHold, Misses, Page, Sorted;
    NeverMisses(files, data, lay, g, key);
  }

  /** Less than a page of data is one file and one short page. */
  lemma OnlyPage(files: seq<seq<nat>>, data: seq<nat>, lay: Layout, was: seq<nat>, key: nat)
    requires data != [] && lay.Ok() && FilesHold(files, data, lay) && |data| < lay.recordsPerPage == |was|
    ensures files == [data] && FetchedAt(files, lay, 0, was, key) == Fetched(data, lay.recordsPerPage, 0, was, key)
  {
    FileIsSome(lay);
    var rpf := lay.RecordsPerFile();
    if |files| > 1 {
      MulMonotone(1, |files| - 1, rpf);
    }
    assert |data| / lay.recordsPerPage == 0;
    assert data[0..] + [] == data;
  }

  /**
   * Less than a page of data is never padded. A stored key is then found whatever the buffer held before if and
   * only if it is zero, the one key no leftover word can be below.
   */
  lemma ShortData(data: seq<nat>, rpp: nat, key: nat)
    requires Sorted(data) && 0 < |data| < rpp && key in data
    ensures (forall was: seq<nat> :: |was| == rpp ==> Fetched(data, rpp, 0, was, key) == key) <==> key == 0
  {
    if key > 0 {
      var was := Repeat(0, rpp);
      var page := PageRead(data, rpp, 0, was);
      assert page[rpp - 1] == 0;
      assert LastMile(page, key) == rpp - 1;
      assert |was| == rpp && Fetched(data, rpp, 0, was, key) == 0;
    } else {
      forall was: seq<nat> | |was| == rpp ensures Fetched(data, rpp, 0, was, key) == key {
        var page := PageRead(data, rpp, 0, was);
        ZeroFirst(page, 0, rpp);
        assert page[0] == data[0];
      }
    }
  }

  /** Searching for zero ends at the first record. */
  lemma {:induction false} ZeroFirst(page: seq<nat>, s: nat, e: nat)
    requires s <= e <= |page| && s < |page|
    ensures Narrow(page, 0, s, e) == s
    decreases e - s
  {
    if s < e {
      ZeroFirst(page, s, (s + e) / 2);
    }
  }
}
