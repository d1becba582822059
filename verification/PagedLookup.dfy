/** Looking a key up on disk: index, item range, page range, page by page fetch and last-mile search. */
module PagedLookup {
  import opened PagedStore

  datatype SearchRange = SearchRange(start: nat, stop: nat)

  datatype FetchRange = FetchRange(fidStart: nat, pidStart: nat, fidEnd: nat, pidEnd: nat)

  datatype FindStatus = EqualToKey | LessThanKey | GreaterThanKey

  /** The place the last-mile search ends at: the first key not below, or the last record. */
  function LastMile(page: seq<nat>, key: nat): (r: nat)
    requires page != []
    ensures r < |page|
  {
    if page[|page| - 1] < key then |page| - 1 else Narrow(page, key, 0, |page|)
  }

  function Narrow(page: seq<nat>, key: nat, s: nat, e: nat): (r: nat)
    requires s <= e <= |page| && s < |page| && page[|page| - 1] >= key
    ensures s <= r < |page|
    decreases e - s
  {
    if s >= e then s
    else
      var mid := (s + e) / 2;
      if page[mid] < key then Narrow(page, key, mid + 1, e) else Narrow(page, key, s, mid)
  }

  /** On a sorted page everything before the place found is below the key, and nothing after it is. */
  lemma SortedAround(page: seq<nat>, mid: nat)
    requires Sorted(page) && mid < |page|
    ensures forall j :: 0 <= j <= mid ==> page[j] <= page[mid]
    ensures forall j :: mid <= j < |page| ==> page[mid] <= page[j]
  {
  }

  lemma {:induction false} NarrowSplits(page: seq<nat>, key: nat, s: nat, e: nat)
    requires Sorted(page) && s <= e <= |page| && s < |page| && page[|page| - 1] >= key
    requires (forall j :: 0 <= j < s ==> page[j] < key) && (forall j :: e <= j < |page| ==> page[j] >= key)
    ensures var r := Narrow(page, key, s, e);
      (forall j :: 0 <= j < r ==> page[j] < key) && (forall j :: r <= j < |page| ==> page[j] >= key)
    decreases e - s
  {
    hide Sorted;
    if s < e {
      var mid := (s + e) / 2;
      SortedAround(page, mid);
      if page[mid] < key {
        NarrowSplits(page, key, mid + 1, e);
      } else {
        NarrowSplits(page, key, s, mid);
      }
    }
  }

  /** A sorted page gives back the key exactly when it has it. */
  lemma LastMileFinds(page: seq<nat>, key: nat)
    requires Sorted(page) && page != []
    ensures page[LastMile(page, key)] == key <==> key in page
  {
    if page[|page| - 1] >= key {
      NarrowSplits(page, key, 0, |page|);
    }
  }

  function Word(words: seq<nat>, i: nat): nat {
    if i < |words| then words[i] else 0
  }

  /** The keys of the first n records of a buffer of words. */
  function KeysIn(words: seq<nat>, n: nat, gap: nat): (r: seq<nat>)
    ensures |r| == n && forall t :: 0 <= t < n ==> r[t] == Word(words, t * gap)
  {
    seq<nat>(n, (t: nat) => Word(words, t * gap))
  }

  lemma InBuffer(t: nat, n: nat, gap: nat)
    requires t < n
    ensures t * gap + gap <= n * gap
  {
    assert (t + 1) * gap <= n * gap;
  }

  lemma KeyAt(words: seq<nat>, n: nat, gap: nat, t: nat)
    requires t < n && gap > 0 && n * gap <= |words|
    ensures t * gap < |words| && KeysIn(words, n, gap)[t] == words[t * gap]
  {
    InBuffer(t, n, gap);
  }

  /** Binary search over the keys of a strided buffer. */
  method LastMileSearch(data: array<nat>, recordNum: nat, gap: nat, key: nat) returns (idx: nat)
    requires recordNum > 0 && gap > 0 && recordNum * gap <= data.Length
    ensures idx == LastMile(KeysIn(data[..], recordNum, gap), key)
  {
    hide KeysIn, LastMile, Narrow;
    ghost var page := KeysIn(data[..], recordNum, gap);
    var s: nat, e: nat := 0, recordNum;
    KeyAt(data[..], recordNum, gap, recordNum - 1);
    LastMileStarts(page, key);
    if data[(e - 1) * gap] < key {
      return e - 1;
    }
    while s < e
      invariant s <= e <= recordNum && s < recordNum
      invariant LastMile(page, key) == Narrow(page, key, s, e)
    {
      var mid: nat := (s + e) / 2;
      KeyAt(data[..], recordNum, gap, mid);
      NarrowStep(page, key, s, e);
      if data[mid * gap] < key {
        s := mid + 1;
      } else {
        e := mid;
      }
    }
    NarrowEnds(page, key, s);
    return s;
  }

  lemma LastMileStarts(page: seq<nat>, key: nat)
    requires page != []
    ensures LastMile(page, key) == if page[|page| - 1] < key then |page| - 1 else Narrow(page, key, 0, |page|)
  {
  }

  lemma NarrowStep(page: seq<nat>, key: nat, s: nat, e: nat)
    requires s < e <= |page| && page[|page| - 1] >= key
    ensures var mid := (s + e) / 2;
      if page[mid] < key then mid + 1 < |page| && Narrow(page, key, s, e) == Narrow(page, key, mid + 1, e)
      else Narrow(page, key, s, e) == Narrow(page, key, s, mid)
  {
  }

  lemma NarrowEnds(page: seq<nat>, key: nat, s: nat)
    requires s < |page| && page[|page| - 1] >= key
    ensures Narrow(page, key, s, s) == s
  {
  }

  /** Reads one page of a file; a short read leaves the rest of the buffer as it was. */
  method ReadPage(file: seq<nat>, lay: Layout, pid: nat, buf: array<nat>)
    requires lay.Ok() && buf.Length == lay.recordsPerPage * lay.gap
    modifies buf
    ensures KeysIn(buf[..], lay.recordsPerPage, lay.gap)
         == PageRead(file, lay.recordsPerPage, pid, old(KeysIn(buf[..], lay.recordsPerPage, lay.gap)))
  {
    var rpp, gap := lay.recordsPerPage, lay.gap;
    ghost var was := KeysIn(buf[..], rpp, gap);
    var t := 0;
    while t < rpp && pid * rpp + t < |file|
      invariant 0 <= t <= rpp && (t > 0 ==> pid * rpp + t <= |file|)
      invariant forall u :: 0 <= u < rpp ==> Word(buf[..], u * gap) == if u < t then file[pid * rpp + u] else was[u]
    {
      InBuffer(t, rpp, gap);
      ReadRecord(buf, t, rpp, gap, file[pid * rpp + t]);
      t := t + 1;
    }
  }

  /** One record: its key, and payload words the lookup never reads. */
  method ReadRecord(buf: array<nat>, t: nat, n: nat, gap: nat, key: nat)
    requires t < n && gap > 0 && n * gap == buf.Length && t * gap + gap <= buf.Length
    modifies buf
    ensures forall u :: 0 <= u < n ==> Word(buf[..], u * gap) == if u == t then key else old(Word(buf[..], u * gap))
  {
    buf[t * gap] := key;
    var w := 1;
    while w < gap
      invariant 1 <= w <= gap && buf[t * gap] == key
      invariant forall i :: 0 <= i < buf.Length && !(t * gap <= i < t * gap + gap) ==> buf[i] == old(buf[i])
    {
      buf[t * gap + w] := *;
      w := w + 1;
    }
    forall u | 0 <= u < n && u != t ensures Word(buf[..], u * gap) == old(Word(buf[..], u * gap)) {
      InBuffer(u, n, gap);
      Strides(u, t, gap);
    }
  }

  lemma Strides(u: nat, t: nat, gap: nat)
    requires u != t && gap > 0
    ensures !(t * gap <= u * gap < t * gap + gap)
  {
    if u < t {
      MulMonotone(u + 1, t, gap);
    } else {
      MulMonotone(t + 1, u, gap);
    }
  }

  /** The page as the search sees it. */
  function Fetched(file: seq<nat>, rpp: nat, pid: nat, was: seq<nat>, key: nat): nat
    requires |was| == rpp > 0
  {
    var page := PageRead(file, rpp, pid, was);
    page[LastMile(page, key)]
  }

  /** Reads one page and searches it. */
  method FetchPages(key: nat, file: seq<nat>, lay: Layout, pid: nat, buf: array<nat>) returns (status: FindStatus, res: nat)
    requires lay.Ok() && buf.Length == lay.recordsPerPage * lay.gap
    modifies buf
    ensures res == Fetched(file, lay.recordsPerPage, pid, old(KeysIn(buf[..], lay.recordsPerPage, lay.gap)), key)
    ensures (status == EqualToKey <==> res == key) && (status == LessThanKey <==> res < key)
  {
    hide KeysIn, PageRead, LastMile;
    ReadPage(file, lay, pid, buf);
    var idx := LastMileSearch(buf, lay.recordsPerPage, lay.gap, key);
    KeyAt(buf[..], lay.recordsPerPage, lay.gap, idx);
    res := buf[idx * lay.gap];
    status := if res == key then EqualToKey else if res < key then LessThanKey else GreaterThanKey;
  }

  /** Page g of all the files together, fetched over what the buffer held. */
  function FetchedAt(files: seq<seq<nat>>, lay: Layout, g: nat, was: seq<nat>, key: nat): nat
    requires lay.Ok() && |was| == lay.recordsPerPage && g / lay.pagesPerFile < |files|
  {
    Fetched(files[g / lay.pagesPerFile], lay.recordsPerPage, g % lay.pagesPerFile, was, key)
  }

  /** With some contents of the buffer the page does not give the key. */
  ghost predicate Misses(files: seq<seq<nat>>, lay: Layout, g: nat, key: nat)
    requires lay.Ok()
  {
    g / lay.pagesPerFile < |files| &&
    exists was: seq<nat> :: |was| == lay.recordsPerPage && FetchedAt(files, lay, g, was, key) != key
  }

  ghost predicate FetchOk(range: FetchRange, lay: Layout, count: nat)
    requires lay.Ok()
  {
    && range.pidStart < lay.pagesPerFile && range.pidEnd < lay.pagesPerFile && range.fidEnd < count
    && FirstPage(range, lay) <= FinalPage(range, lay)
  }

  function FirstPage(range: FetchRange, lay: Layout): nat {
    range.fidStart * lay.pagesPerFile + range.pidStart
  }

  function FinalPage(range: FetchRange, lay: Layout): nat {
    range.fidEnd * lay.pagesPerFile + range.pidEnd
  }

  lemma PageNumber(fid: nat, pid: nat, ppf: nat)
    requires pid < ppf
    ensures (fid * ppf + pid) / ppf == fid && (fid * ppf + pid) % ppf == pid
  {
    var n := fid * ppf + pid;
    var q, r := n / ppf, n % ppf;
    assert n == q * ppf + r;
    if q < fid {
      FilesInOrder(q, fid, ppf);
    } else if fid < q {
      FilesInOrder(fid, q, ppf);
    }
  }

  lemma FilesInOrder(a: nat, b: nat, ppf: nat)
    requires a <= b
    ensures a * ppf <= b * ppf && (a + 1) * ppf == a * ppf + ppf && (a < b ==> (a + 1) * ppf <= b * ppf)
  {
    if a < b {
      MulMonotone(a + 1, b, ppf);
    }
  }

  /** The pages of one file from pid to pidEnd, until one gives the key; the last one fetched is at. */
  method FetchInFile(key: nat, files: seq<seq<nat>>, lay: Layout, fid: nat, pid: nat, pidEnd: nat, buf: array<nat>)
    returns (found: bool, res: nat, ghost at: nat, ghost was: seq<nat>)
    requires lay.Ok() && buf.Length == lay.recordsPerPage * lay.gap && fid < |files| && pid <= pidEnd < lay.pagesPerFile
    modifies buf
    ensures fid * lay.pagesPerFile + pid <= at <= fid * lay.pagesPerFile + pidEnd && |was| == lay.recordsPerPage
    ensures at / lay.pagesPerFile == fid && res == FetchedAt(files, lay, at, was, key)
    ensures if found then res == key else res != key && at == fid * lay.pagesPerFile + pidEnd
    ensures forall h :: fid * lay.pagesPerFile + pid <= h < at ==> Misses(files, lay, h, key)
    ensures at == fid * lay.pagesPerFile + pid ==> was == old(KeysIn(buf[..], lay.recordsPerPage, lay.gap))
  {
    hide Fetched, KeysIn;
    ghost var base := fid * lay.pagesPerFile;
    found, res, at, was := false, 0, base, KeysIn(buf[..], lay.recordsPerPage, lay.gap);
    var p := pid;
    while p <= pidEnd
      invariant pid <= p <= pidEnd + 1 && !found
      invariant p == pid ==> buf[..] == old(buf[..])
      invariant p > pid ==>
        && at == base + p - 1 && |was| == lay.recordsPerPage && at / lay.pagesPerFile == fid
        && res == FetchedAt(files, lay, at, was, key) && res != key
        && (p == pid + 1 ==> was == old(KeysIn(buf[..], lay.recordsPerPage, lay.gap)))
      invariant forall h :: base + pid <= h < base + p ==> Misses(files, lay, h, key)
    {
      at, was := base + p, KeysIn(buf[..], lay.recordsPerPage, lay.gap);
      PageNumber(fid, p, lay.pagesPerFile);
      var status;
      status, res := FetchPages(key, files[fid], lay, p, buf);
      if status == EqualToKey {
        found := true;
        break;
      }
      p := p + 1;
    }
  }

  /** Fetches the pages of the range one by one, across files, until one gives the key; the last one fetched is at. */
  method OneByOneFetch(range: FetchRange, key: nat, files: seq<seq<nat>>, lay: Layout, buf: array<nat>)
    returns (res: nat, ghost at: nat, ghost was: seq<nat>)
    requires lay.Ok() && buf.Length == lay.recordsPerPage * lay.gap && FetchOk(range, lay, |files|)
    modifies buf
    ensures FirstPage(range, lay) <= at <= FinalPage(range, lay) && at / lay.pagesPerFile < |files|
    ensures |was| == lay.recordsPerPage && res == FetchedAt(files, lay, at, was, key)
    ensures res == key || at == FinalPage(range, lay)
    ensures forall h :: FirstPage(range, lay) <= h < at ==> Misses(files, lay, h, key)
    ensures at == FirstPage(range, lay) ==> was == old(KeysIn(buf[..], lay.recordsPerPage, lay.gap))
  {
    hide Fetched, KeysIn, Misses, FetchedAt, FirstPage, FinalPage;
    ghost var first, final := FirstPage(range, lay), FinalPage(range, lay);
    res, at, was := 0, first, KeysIn(buf[..], lay.recordsPerPage, lay.gap);
    var ppf, readPage := lay.pagesPerFile, true;
    var fid, pid := range.fidStart, range.pidStart;
    FilesWithin(range, lay, |files|);
    while readPage && fid <= range.fidEnd
      invariant range.fidStart <= fid <= range.fidEnd + 1
      invariant if fid == range.fidStart then readPage && pid == range.pidStart && buf[..] == old(buf[..]) else pid == 0
      invariant fid > range.fidStart ==>
        && first <= at <= final && at / ppf < |files| && |was| == lay.recordsPerPage
        && res == FetchedAt(files, lay, at, was, key) && (readPage <==> res != key)
        && (readPage ==> at == if fid > range.fidEnd then final else fid * ppf - 1)
        && (forall h :: first <= h < at ==> Misses(files, lay, h, key))
        && (at == first ==> was == old(KeysIn(buf[..], lay.recordsPerPage, lay.gap)))
      decreases range.fidEnd + 1 - fid
    {
      var tmpPidEnd := if fid == range.fidEnd then range.pidEnd else ppf - 1;
      FileInRange(range, lay, fid, if fid == range.fidStart then range.pidStart else 0, tmpPidEnd);
      if fid > range.fidStart {
        MissedHere(files, lay, at, was, key);
      }
      var found;
      found, res, at, was := FetchInFile(key, files, lay, fid, pid, tmpPidEnd, buf);
      readPage := !found;
      fid := fid + 1;
      pid := 0;
    }
  }

  lemma FilesWithin(range: FetchRange, lay: Layout, count: nat)
    requires lay.Ok() && FetchOk(range, lay, count)
    ensures range.fidStart <= range.fidEnd < count
  {
    if range.fidEnd < range.fidStart {
      MulMonotone(range.fidEnd + 1, range.fidStart, lay.pagesPerFile);
    }
  }

  /** The pages of one file that belong to the range. */
  lemma FileInRange(range: FetchRange, lay: Layout, fid: nat, pid: nat, pidEnd: nat)
    requires lay.Ok() && range.pidStart < lay.pagesPerFile && range.pidEnd < lay.pagesPerFile
    requires FirstPage(range, lay) <= FinalPage(range, lay) && range.fidStart <= fid <= range.fidEnd
    requires pid == if fid == range.fidStart then range.pidStart else 0
    requires pidEnd == if fid == range.fidEnd then range.pidEnd else lay.pagesPerFile - 1
    ensures pid <= pidEnd < lay.pagesPerFile
    ensures FirstPage(range, lay) <= fid * lay.pagesPerFile + pid
    ensures fid * lay.pagesPerFile + pidEnd <= FinalPage(range, lay)
    ensures fid == range.fidStart ==> FirstPage(range, lay) == fid * lay.pagesPerFile + pid
    ensures fid > range.fidStart ==> FirstPage(range, lay) < fid * lay.pagesPerFile + pid
    ensures if fid == range.fidEnd then fid * lay.pagesPerFile + pidEnd == FinalPage(range, lay)
            else fid * lay.pagesPerFile + pidEnd == (fid + 1) * lay.pagesPerFile - 1
  {
    FilesInOrder(fid, range.fidEnd, lay.pagesPerFile);
    FilesInOrder(range.fidStart, fid, lay.pagesPerFile);
  }

  lemma MissedHere(files: seq<seq<nat>>, lay: Layout, at: nat, was: seq<nat>, key: nat)
    requires lay.Ok() && |was| == lay.recordsPerPage && at / lay.pagesPerFile < |files|
    requires FetchedAt(files, lay, at, was, key) != key
    ensures Misses(files, lay, at, key)
  {
  }
}
