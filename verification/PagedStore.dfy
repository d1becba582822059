/** Sorted keys laid out in pages and files, and the fixed-size buffer a page is read into. */
module PagedStore {
  /** Records of a page, pages of a file, and words of a record, the first of which is its key. */
  datatype Layout = Layout(recordsPerPage: nat, pagesPerFile: nat, gap: nat) {
    predicate Ok() {
      recordsPerPage > 0 && pagesPerFile > 0 && gap > 0
    }

    function RecordsPerFile(): nat {
      recordsPerPage * pagesPerFile
    }
  }

  ghost predicate Sorted(s: seq<nat>) {
    forall i, j :: 0 <= i < j < |s| ==> s[i] <= s[j]
  }

  function Repeat(x: nat, n: nat): (r: seq<nat>)
    ensures |r| == n && forall i :: 0 <= i < n ==> r[i] == x
  {
    seq(n, _ => x)
  }

  /** Padding is written once there is a full page of data, whether or not the last page is incomplete. */
  predicate IsPadded(n: nat, rpp: nat)
    requires rpp > 0
  {
    n / rpp != 0
  }

  function PadCount(n: nat, rpp: nat): nat
    requires rpp > 0
  {
    rpp - n % rpp
  }

  /** The number of records in the first files. */
  function Before(files: nat, rpf: nat): nat {
    files * rpf
  }

  /** What is written after the last record: nothing when there is less than one page of data. */
  function Padding(keys: seq<nat>, rpp: nat, before: nat): seq<nat>
    requires keys != [] && rpp > 0
  {
    if IsPadded(|keys|, rpp) then Repeat(keys[|keys| - 1], PadCount(|keys|, rpp)) + Repeat(0, before) else []
  }

  /** Writes the keys file by file; the last file is mapped a second time, longer, and padded. */
  method StoreData(keys: seq<nat>, lay: Layout) returns (files: seq<seq<nat>>)
    requires lay.Ok()
    ensures if keys == [] then files == [] else FilesHold(files, keys, lay)
  {
    hide FileIs, FilesHold, IsPadded, PadCount, Before;
    var rpf := lay.RecordsPerFile();
    FileIsSome(lay);
    files := WriteFiles(keys, rpf);
    if files == [] {
      return;
    }
    var last := |files| - 1;
    LastFile(files, keys, rpf);
    var data := files[last];
    if IsPadded(|keys|, lay.recordsPerPage) {
      data := PadRecords(data, |keys|, PadCount(|keys|, lay.recordsPerPage), keys[|keys| - 1]);
    }
    ghost var written := files;
    files := files[last := data];
    SameFiles(written, files, keys, rpf);
    Padded(files, keys, lay, data);
  }

  /** The files before padding. */
  method WriteFiles(keys: seq<nat>, rpf: nat) returns (files: seq<seq<nat>>)
    requires rpf > 0
    ensures files == [] <==> keys == []
    ensures keys != [] ==> Before(|files| - 1, rpf) < |keys| <= Before(|files|, rpf)
    ensures forall f :: 0 <= f < |files| ==> FileIs(files, keys, rpf, f)
  {
    hide FileIs, Before, FileTotal;
    var fileNum := FileTotal(|keys|, rpf);
    FileCount(|keys|, rpf);
    files := [];
    while |files| < fileNum
      invariant |files| <= fileNum
      invariant forall f :: 0 <= f < |files| ==> FileIs(files, keys, rpf, f)
    {
      var idx := |files|;
      Steps(idx, fileNum, rpf);
      var data := WriteRecords(keys, Before(idx, rpf), Min(Before(idx + 1, rpf), |keys|));
      OneMoreFile(files, data, keys, rpf);
      files := files + [data];
    }
  }

  /** The number of files, rounded up. */
  function FileTotal(n: nat, rpf: nat): nat
    requires rpf > 0
  {
    (n + rpf - 1) / rpf
  }

  lemma Padded(files: seq<seq<nat>>, keys: seq<nat>, lay: Layout, data: seq<nat>)
    requires keys != [] && lay.Ok() && files != []
    requires var rpf := lay.RecordsPerFile();
      && Before(|files| - 1, rpf) < |keys| <= Before(|files|, rpf)
      && (forall f :: 0 <= f < |files| - 1 ==> FileIs(files, keys, rpf, f))
      && files[|files| - 1] == data
         == (var written := keys[Before(|files| - 1, rpf)..];
             if IsPadded(|keys|, lay.recordsPerPage) then
               written + Repeat(keys[|keys| - 1], PadCount(|keys|, lay.recordsPerPage)) + Repeat(0, |keys| - |written|)
             else written)
    ensures FilesHold(files, keys, lay)
  {
    hide FileIs, IsPadded, PadCount, Before;
    var before := Before(|files| - 1, lay.RecordsPerFile());
    var written := keys[before..];
    var a, b := Repeat(keys[|keys| - 1], PadCount(|keys|, lay.recordsPerPage)), Repeat(0, before);
    assert written + [] == written && written + a + b == written + (a + b);
  }

  /** The records of one file. */
  method WriteRecords(keys: seq<nat>, s: nat, e: nat) returns (data: seq<nat>)
    requires s <= e <= |keys|
    ensures data == keys[s..e]
  {
    data := [];
    var i := s;
    while i < e
      invariant s <= i <= e && data == keys[s..i]
    {
      data := data + [keys[i]];
      i := i + 1;
    }
  }

  /** Extends the file to e + num records, and writes the greatest key num times after the data. */
  method PadRecords(written: seq<nat>, e: nat, num: nat, maxKey: nat) returns (data: seq<nat>)
    requires |written| <= e
    ensures data == written + Repeat(maxKey, num) + Repeat(0, e - |written|)
  {
    data := written + Repeat(0, e + num - |written|);
    var i := 0;
    while i < num
      invariant 0 <= i <= num && data == written + Repeat(maxKey, i) + Repeat(0, e + num - |written| - i)
    {
      data := data[|written| + i := maxKey];
      i := i + 1;
    }
  }

  lemma OneMoreFile(files: seq<seq<nat>>, data: seq<nat>, keys: seq<nat>, rpf: nat)
    requires forall f :: 0 <= f < |files| ==> FileIs(files, keys, rpf, f)
    requires Before(|files|, rpf) <= |keys|
    requires Before(|files|, rpf) <= Before(|files| + 1, rpf)
    requires data == keys[Before(|files|, rpf)..Min(Before(|files| + 1, rpf), |keys|)]
    ensures forall f :: 0 <= f < |files| + 1 ==> FileIs(files + [data], keys, rpf, f)
  {
    forall f | 0 <= f < |files| ensures FileIs(files + [data], keys, rpf, f) {
      assert FileIs(files, keys, rpf, f);
    }
  }

  lemma LastFile(files: seq<seq<nat>>, keys: seq<nat>, rpf: nat)
    requires files != [] && FileIs(files, keys, rpf, |files| - 1) && |keys| <= Before(|files|, rpf)
    ensures Before(|files| - 1, rpf) <= |keys| && files[|files| - 1] == keys[Before(|files| - 1, rpf)..]
  {
  }

  lemma SameFiles(files: seq<seq<nat>>, files': seq<seq<nat>>, keys: seq<nat>, rpf: nat)
    requires files != [] && forall f :: 0 <= f < |files| ==> FileIs(files, keys, rpf, f)
    requires |files'| == |files| && forall f :: 0 <= f < |files| - 1 ==> files'[f] == files[f]
    ensures forall f :: 0 <= f < |files| - 1 ==> FileIs(files', keys, rpf, f)
  {
    forall f | 0 <= f < |files| - 1 ensures FileIs(files', keys, rpf, f) {
      assert FileIs(files, keys, rpf, f);
    }
  }

  function Min(a: nat, b: nat): nat {
    if a <= b then a else b
  }

  ghost predicate FileIs(files: seq<seq<nat>>, keys: seq<nat>, rpf: nat, f: nat)
    requires f < |files|
  {
    Before(f, rpf) <= |keys| && files[f] == keys[Before(f, rpf)..Min(Before(f + 1, rpf), |keys|)]
  }

  /** Full files, and a last file that is padded once there is a page of data. */
  ghost predicate FilesHold(files: seq<seq<nat>>, keys: seq<nat>, lay: Layout)
    requires keys != [] && lay.Ok()
  {
    var rpf := lay.RecordsPerFile();
    && files != [] && Before(|files| - 1, rpf) < |keys| <= Before(|files|, rpf)
    && (forall f :: 0 <= f < |files| - 1 ==> FileIs(files, keys, rpf, f))
    && files[|files| - 1]
        == keys[Before(|files| - 1, rpf)..] + Padding(keys, lay.recordsPerPage, Before(|files| - 1, rpf))
  }

  lemma FileIsSome(lay: Layout)
    requires lay.Ok()
    ensures lay.RecordsPerFile() >= lay.recordsPerPage > 0
  {
    assert lay.recordsPerPage * lay.pagesPerFile >= lay.recordsPerPage * 1;
  }

  lemma FileCount(n: nat, rpf: nat)
    requires rpf > 0
    ensures var count := FileTotal(n, rpf);
      if n == 0 then count == 0 else count > 0 && Before(count - 1, rpf) < n <= Before(count, rpf)
  {
    var count := FileTotal(n, rpf);
    var m := n + rpf - 1;
    assert m == count * rpf + m % rpf;
    assert count > 0 ==> (count - 1) * rpf == count * rpf - rpf;
  }

  lemma Steps(idx: nat, count: nat, rpf: nat)
    requires idx < count
    ensures Before(idx, rpf) <= Before(count - 1, rpf) && Before(idx, rpf) <= Before(idx + 1, rpf)
  {
    MulMonotone(idx, count - 1, rpf);
    MulMonotone(idx, idx + 1, rpf);
  }

  /** The padded sequence of keys. */
  function At(keys: seq<nat>, i: nat): nat
    requires keys != []
  {
    if i < |keys| then keys[i] else keys[|keys| - 1]
  }

  /** Page g of all the files together. */
  function Page(keys: seq<nat>, rpp: nat, g: nat): (r: seq<nat>)
    requires keys != []
    ensures |r| == rpp
  {
    seq<nat>(rpp, (t: nat) requires t < rpp => At(keys, g * rpp + t))
  }

  /** What the buffer holds after a page is read: records past the end of the file leave what was there. */
  function PageRead(file: seq<nat>, rpp: nat, pid: nat, was: seq<nat>): (r: seq<nat>)
    requires |was| == rpp
    ensures |r| == rpp
  {
    seq<nat>(rpp, (t: nat) requires t < rpp => if pid * rpp + t < |file| then file[pid * rpp + t] else was[t])
  }

  /** With at least one page of data, every page that holds a key is read in full. */
  lemma WholePage(files: seq<seq<nat>>, keys: seq<nat>, lay: Layout, g: nat, was: seq<nat>)
    requires keys != [] && lay.Ok() && FilesHold(files, keys, lay) && |keys| >= lay.recordsPerPage
    requires g * lay.recordsPerPage < |keys| && |was| == lay.recordsPerPage
    ensures g / lay.pagesPerFile < |files|
    ensures PageRead(files[g / lay.pagesPerFile], lay.recordsPerPage, g % lay.pagesPerFile, was)
         == Page(keys, lay.recordsPerPage, g)
  {
    hide FilesHold, Page, PageRead, At;
    var rpp, f, pid := lay.recordsPerPage, g / lay.pagesPerFile, g % lay.pagesPerFile;
    PageOfFile(lay, g);
    InFile(files, keys, lay, g * rpp, f);
    if f < |files| - 1 {
      InFullFile(files, keys, lay, f, pid);
    } else {
      InLastFile(files, keys, lay, g, pid);
    }
    SamePage(files[f], keys, rpp, pid, g, Before(f, lay.RecordsPerFile()), was);
  }

  /** The file that holds a record exists. */
  lemma InFile(files: seq<seq<nat>>, keys: seq<nat>, lay: Layout, at: nat, f: nat)
    requires keys != [] && lay.Ok() && FilesHold(files, keys, lay)
    requires f * lay.RecordsPerFile() <= at < |keys|
    ensures f < |files|
  {
    hide FileIs;
    FileOf(f, |files|, lay.RecordsPerFile(), at, |keys|);
  }

  /** The file holds the padded keys from before on, as far as upTo. */
  ghost predicate Holds(file: seq<nat>, keys: seq<nat>, before: nat, upTo: nat)
    requires keys != []
  {
    upTo <= |file| && forall j :: 0 <= j < upTo ==> file[j] == At(keys, before + j)
  }

  lemma InFullFile(files: seq<seq<nat>>, keys: seq<nat>, lay: Layout, f: nat, pid: nat)
    requires keys != [] && lay.Ok() && FilesHold(files, keys, lay)
    requires f < |files| - 1 && pid < lay.pagesPerFile
    ensures Holds(files[f], keys, Before(f, lay.RecordsPerFile()), pid * lay.recordsPerPage + lay.recordsPerPage)
  {
    hide FileIs, Before;
    var rpf := lay.RecordsPerFile();
    FullFile(files, keys, rpf, f);
    WithinFile(pid, lay.pagesPerFile, lay.recordsPerPage);
  }

  lemma InLastFile(files: seq<seq<nat>>, keys: seq<nat>, lay: Layout, g: nat, pid: nat)
    requires keys != [] && lay.Ok() && FilesHold(files, keys, lay) && |keys| >= lay.recordsPerPage
    requires g * lay.recordsPerPage < |keys|
    requires g * lay.recordsPerPage == Before(|files| - 1, lay.RecordsPerFile()) + pid * lay.recordsPerPage
    ensures files != []
    ensures Holds(files[|files| - 1], keys, Before(|files| - 1, lay.RecordsPerFile()),
                  pid * lay.recordsPerPage + lay.recordsPerPage)
  {
    hide FileIs, Before;
    var rpp, before := lay.recordsPerPage, Before(|files| - 1, lay.RecordsPerFile());
    LastPage(|keys|, rpp, g);
    LastFileHolds(files[|files| - 1], keys, before, PadCount(|keys|, rpp));
    EnoughPadding(|keys|, rpp, g);
  }

  lemma EnoughPadding(n: nat, rpp: nat, g: nat)
    requires rpp > 0 && n >= rpp && g * rpp < n
    ensures IsPadded(n, rpp) && g * rpp + rpp <= n + PadCount(n, rpp)
  {
    LastPage(n, rpp, g);
  }

  lemma LastFileHolds(file: seq<nat>, keys: seq<nat>, before: nat, num: nat)
    requires keys != [] && before <= |keys|
    requires file == keys[before..] + (Repeat(keys[|keys| - 1], num) + Repeat(0, before))
    ensures Holds(file, keys, before, |keys| - before + num)
  {
  }

  lemma SamePage(file: seq<nat>, keys: seq<nat>, rpp: nat, pid: nat, g: nat, before: nat, was: seq<nat>)
    requires keys != [] && |was| == rpp && g * rpp == before + pid * rpp
    requires Holds(file, keys, before, pid * rpp + rpp)
    ensures PageRead(file, rpp, pid, was) == Page(keys, rpp, g)
  {
    hide At;
    forall t: nat | t < rpp ensures PageRead(file, rpp, pid, was)[t] == Page(keys, rpp, g)[t] {
      assert file[pid * rpp + t] == At(keys, before + (pid * rpp + t));
    }
  }

  /** Where a page is, in records. */
  lemma PageOfFile(lay: Layout, g: nat)
    requires lay.Ok()
    ensures g * lay.recordsPerPage
         == (g / lay.pagesPerFile) * lay.RecordsPerFile() + (g % lay.pagesPerFile) * lay.recordsPerPage
  {
    var f, pid := g / lay.pagesPerFile, g % lay.pagesPerFile;
    assert g == f * lay.pagesPerFile + pid;
    assert g * lay.recordsPerPage == (f * lay.pagesPerFile) * lay.recordsPerPage + pid * lay.recordsPerPage;
    assert (f * lay.pagesPerFile) * lay.recordsPerPage == f * (lay.recordsPerPage * lay.pagesPerFile);
  }

  lemma FileOf(f: nat, count: nat, rpf: nat, at: nat, n: nat)
    requires f * rpf <= at < n <= count * rpf
    ensures f < count
  {
    if f >= count {
      MulMonotone(count, f, rpf);
    }
  }

  lemma FullFile(files: seq<seq<nat>>, keys: seq<nat>, rpf: nat, f: nat)
    requires keys != [] && f < |files| - 1 && FileIs(files, keys, rpf, f) && Before(|files| - 1, rpf) < |keys|
    ensures Holds(files[f], keys, Before(f, rpf), rpf)
  {
    MulMonotone(f + 1, |files| - 1, rpf);
    assert Before(f + 1, rpf) == Before(f, rpf) + rpf;
  }

  lemma WithinFile(pid: nat, ppf: nat, rpp: nat)
    requires pid < ppf
    ensures pid * rpp + rpp <= rpp * ppf
  {
    assert (pid + 1) * rpp <= ppf * rpp;
  }

  /** The padding completes the last page. */
  lemma LastPage(n: nat, rpp: nat, g: nat)
    requires rpp > 0 && g * rpp < n
    ensures g * rpp + rpp <= n + (rpp - n % rpp) && n / rpp >= g
  {
    var q := n / rpp;
    assert n == q * rpp + n % rpp;
    assert (q + 1) * rpp == q * rpp + rpp;
    if g > q {
      MulMonotone(q + 1, g, rpp);
    }
    MulMonotone(g, q, rpp);
  }

  lemma MulMonotone(a: nat, b: nat, c: nat)
    requires a <= b
    ensures a * c <= b * c
  {
  }
}
