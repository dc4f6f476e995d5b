/** Extraction of the downloaded archive (unzip.go): the grand total of the
    declared sizes, the walk over the entries that stops at the first error,
    the per-entry destination file, and the running `done` counter behind the
    progress bar. Decompression and the outcome of each entry's I/O are
    inputs. */
module Unzip {
  import opened Common
  import opened Files

  /** An archive member: its name, whether it is a directory, the
      `UncompressedSize64` its header declares, and its decompressed bytes. */
  datatype ZipEntry = ZipEntry(name: string, isDir: bool, declaredSize: Uint64, data: EntryData)

  /** Decompressed contents; a file's size is an int64 in Go. */
  type EntryData = d: Bytes | |d| <= MaxInt64 witness []

  /** What `zip.OpenReader` made of the archive file. */
  datatype ArchiveResult = Unreadable(err: IoError) | Readable(entries: seq<ZipEntry>)

  /** How the I/O of one entry goes:
      - `OpenFailed`: `f.Open` fails; nothing is created;
      - `CreateFailed`: opening the destination fails;
      - `Copied`: the copy finishes first and succeeds;
      - `CopyFailed`: the copy finishes first with an error after `written` bytes;
      - `Stopped`: the cancellation is seen first, with `written` bytes on disk.
      Counts beyond the entry's data are clamped to it. */
  datatype EntryRun =
    | OpenFailed(err: IoError)
    | CreateFailed(err: IoError)
    | Copied
    | CopyFailed(written: nat, err: IoError)
    | Stopped(written: nat)

  /** What the entry counts towards the grand total (unzip.go:19-24). */
  function Budget(e: ZipEntry): nat {
    if e.isDir then 0 else e.declaredSize
  }

  /** Sum of the declared sizes of the non-directory entries. */
  function DeclaredSum(entries: seq<ZipEntry>): nat {
    if entries == [] then 0 else DeclaredSum(entries[..|entries| - 1]) + Budget(entries[|entries| - 1])
  }

  /** The first `unzipFile` loop: a uint64 sum that skips directories. */
  method DeclaredTotal(entries: seq<ZipEntry>) returns (total: Uint64)
    ensures total == WrapUint64(DeclaredSum(entries))
    ensures DeclaredSum(entries) < TwoTo64 ==> total == DeclaredSum(entries)
  {
    total := 0;
    var i := 0;
    while i < |entries|
      invariant 0 <= i <= |entries|
      invariant total == WrapUint64(DeclaredSum(entries[..i]))
    {
      var f := entries[i];
      assert entries[..i + 1][..i] == entries[..i];
      if !f.isDir {
        WrapUint64Add(DeclaredSum(entries[..i]), f.declaredSize);
        AddUint64Wraps(total, f.declaredSize);
        total := AddUint64(total, f.declaredSize);
      }
      i := i + 1;
    }
    assert entries[..|entries|] == entries;
  }

  /** Directories never count, whatever size their header declares. */
  lemma {:induction false} DirectoriesAddNothing(entries: seq<ZipEntry>, d: ZipEntry)
    requires d.isDir
    ensures DeclaredSum(entries + [d]) == DeclaredSum(entries)
  {
    assert (entries + [d])[..|entries|] == entries;
  }

  /** The grand total of two archives' entries is the sum of their totals. */
  lemma {:induction false} DeclaredSumAppend(a: seq<ZipEntry>, b: seq<ZipEntry>)
    ensures DeclaredSum(a + b) == DeclaredSum(a) + DeclaredSum(b)
    decreases |b|
  {
    if b == [] {
      assert a + b == a;
    } else {
      var b0 := b[..|b| - 1];
      assert (a + b)[..|a + b| - 1] == a + b0;
      DeclaredSumAppend(a, b0);
    }
  }

  /** Bytes that reach the destination file. */
  function Written(e: ZipEntry, run: EntryRun): (n: nat)
    ensures n <= |e.data|
  {
    match run
    case Copied => |e.data|
    case CopyFailed(w, _) => Min(w, |e.data|)
    case Stopped(w) => Min(w, |e.data|)
    case _ => 0
  }

  /** Did the destination get opened (so that the final size is reported)? */
  predicate Reaches(run: EntryRun) {
    !run.OpenFailed? && !run.CreateFailed?
  }

  /** The destination of an entry: the image directory joined with the
      entry's name, exactly as stored in the archive. */
  function Destination(dir: string, e: ZipEntry): string {
    JoinPath(dir, e.name)
  }

  /** The files after one entry: unchanged when nothing was opened, otherwise
      the destination, truncated on open, holds what was written. */
  function EntryEffect(files: map<string, Bytes>, dir: string, e: ZipEntry, run: EntryRun): map<string, Bytes> {
    if Reaches(run) then files[Destination(dir, e) := e.data[..Written(e, run)]] else files
  }

  /** `unzip`'s result: the first failure, the context's error when the
      cancellation is seen first, and nil when the copy succeeds. */
  function EntryError(run: EntryRun): (err: Option<Error>)
    ensures err == None <==> run == Copied
    ensures err == Some(Canceled) <==> run.Stopped?
    ensures err.Some? ==> (IsCanceled(err.value) <==> run.Stopped?)
  {
    match run
    case OpenFailed(e) => Some(e)
    case CreateFailed(e) => Some(e)
    case Copied => None
    case CopyFailed(_, e) => Some(e)
    case Stopped(_) => Some(Canceled)
  }

  /** The size the deferred final report sends, if the destination was opened. */
  function FinalReport(e: ZipEntry, run: EntryRun): (r: Option<nat>)
    ensures r.Some? <==> Reaches(run)
    ensures r.Some? ==> r.value <= |e.data|
  {
    if Reaches(run) then Some(Written(e, run)) else None
  }

  /** `unzip` for one entry: open it, create or truncate the destination,
      copy, and report the destination's final size on the way out. */
  method ExtractEntry(disk: Disk, dir: string, e: ZipEntry, run: EntryRun)
      returns (err: Option<Error>, reported: Option<nat>)
    modifies disk
    ensures disk.files == EntryEffect(old(disk.files), dir, e, run)
    ensures err == EntryError(run) && reported == FinalReport(e, run)
  {
    if run.OpenFailed? {
      return Some(run.err), None;
    }
    var path := JoinPath(dir, e.name);
    if run.CreateFailed? {
      return Some(run.err), None;
    }
    disk.Create(path);
    var n := Written(e, run);
    disk.Append(path, e.data[..n]);
    assert [] + e.data[..n] == e.data[..n];
    match run {
      case Stopped(_) => err := Some(Canceled);
      case CopyFailed(_, copyErr) => err := Some(copyErr);
      case Copied => err := None;
    }
    reported := Some(|disk.files[path]|);
  }

  /** Whatever the destination held before is replaced: its new contents
      depend only on the entry and on how much was written, and no other
      path changes. */
  lemma EntryReplacesDestination(f1: map<string, Bytes>, f2: map<string, Bytes>, dir: string, e: ZipEntry, run: EntryRun)
    requires Reaches(run)
    ensures var p := Destination(dir, e);
      && EntryEffect(f1, dir, e, run)[p] == EntryEffect(f2, dir, e, run)[p]
      && EntryEffect(f1, dir, e, run)[p] <= e.data
      && (run == Copied ==> EntryEffect(f1, dir, e, run)[p] == e.data)
      && forall q :: q != p ==> (q in EntryEffect(f1, dir, e, run) <==> q in f1)
  {
  }

  /** The state of the walk: the files, the error that ended it (if any),
      the uint64 `done` counter and the counts `done + add` sent to the
      progress bar by the final reports. */
  datatype Extraction = Extraction(files: map<string, Bytes>, err: Option<Error>, done: Uint64, samples: seq<Uint64>)

  /** One entry's turn in the walk (unzip.go:27-39). */
  function Step(x: Extraction, dir: string, e: ZipEntry, run: EntryRun): Extraction {
    var report := FinalReport(e, run);
    var count := AddUint64(x.done, report.GetOr(0));
    Extraction(EntryEffect(x.files, dir, e, run), EntryError(run), count,
               x.samples + (if report.Some? then [count] else []))
  }

  /** The walk over the first `k` entries, skipping everything after the
      first error. */
  function Extract(files: map<string, Bytes>, dir: string, entries: seq<ZipEntry>, runOf: nat -> EntryRun, k: nat): (x: Extraction)
    requires k <= |entries|
    ensures |x.samples| <= k
    ensures x.err == None ==> |x.samples| == k
  {
    if k == 0 then Extraction(files, None, 0, [])
    else
      var x := Extract(files, dir, entries, runOf, k - 1);
      if x.err.Some? then x else Step(x, dir, entries[k - 1], runOf(k - 1))
  }

  /** The second `unzipFile` loop: each entry in archive order, returning
      the first error. */
  method ExtractEntries(disk: Disk, dir: string, entries: seq<ZipEntry>, runOf: nat -> EntryRun)
      returns (err: Option<Error>, samples: seq<Uint64>)
    modifies disk
    ensures var x := Extract(old(disk.files), dir, entries, runOf, |entries|);
      disk.files == x.files && err == x.err && samples == x.samples
  {
    ghost var files0 := disk.files;
    var done: Uint64 := 0;
    samples := [];
    var i := 0;
    while i < |entries|
      invariant 0 <= i <= |entries|
      invariant Extract(files0, dir, entries, runOf, i) == Extraction(disk.files, None, done, samples)
    {
      ghost var x := Extraction(disk.files, None, done, samples);
      var e, reported := ExtractEntry(disk, dir, entries[i], runOf(i));
      if reported.Some? {
        done := AddUint64(done, reported.value);
        samples := samples + [done];
      }
      ExtractNext(files0, dir, entries, runOf, i);
      assert Step(x, dir, entries[i], runOf(i)) == Extraction(disk.files, e, done, samples);
      if e.Some? {
        ExtractStopsAtError(files0, dir, entries, runOf, i + 1, |entries|);
        return e, samples;
      }
      i := i + 1;
    }
    return None, samples;
  }

  /** `unzipFile`: read the archive, total its declared sizes, and extract
      its entries in order until the first error. */
  method UnzipFile(disk: Disk, dir: string, zipfile: string, parse: Bytes -> ArchiveResult, runOf: nat -> EntryRun)
      returns (err: Option<Error>, total: Uint64, samples: seq<Uint64>)
    modifies disk
    ensures zipfile !in old(disk.files) ==>
      err == Some(NotFound(zipfile)) && disk.files == old(disk.files) && samples == []
    ensures zipfile in old(disk.files) ==>
      match parse(old(disk.files)[zipfile])
      case Unreadable(e) => err.Some? && err.value == e && disk.files == old(disk.files) && samples == []
      case Readable(entries) =>
        var x := Extract(old(disk.files), dir, entries, runOf, |entries|);
        && total == WrapUint64(DeclaredSum(entries))
        && disk.files == x.files && err == x.err && samples == x.samples
  {
    total := 0;
    if zipfile !in disk.files {
      return Some(NotFound(zipfile)), total, [];
    }
    var archive := parse(disk.files[zipfile]);
    if archive.Unreadable? {
      return Some(archive.err), total, [];
    }
    total := DeclaredTotal(archive.entries);
    err, samples := ExtractEntries(disk, dir, archive.entries, runOf);
  }

  /** Once an entry fails, later entries are never opened or written: the
      walk over any longer prefix is the walk up to the failing entry. */
  lemma {:induction false} ExtractStopsAtError(files: map<string, Bytes>, dir: string, entries: seq<ZipEntry>, runOf: nat -> EntryRun, j: nat, k: nat)
    requires j <= k <= |entries|
    requires Extract(files, dir, entries, runOf, j).err.Some?
    ensures Extract(files, dir, entries, runOf, k) == Extract(files, dir, entries, runOf, j)
    decreases k
  {
    if k > j {
      ExtractStopsAtError(files, dir, entries, runOf, j, k - 1);
    }
  }

  /** The walk's error is the first failing entry's own error. */
  lemma {:induction false} ExtractReturnsFirstError(files: map<string, Bytes>, dir: string, entries: seq<ZipEntry>, runOf: nat -> EntryRun, j: nat)
    requires j < |entries|
    requires forall i :: 0 <= i < j ==> runOf(i) == Copied
    requires runOf(j) != Copied
    ensures Extract(files, dir, entries, runOf, |entries|).err == EntryError(runOf(j))
  {
    NoErrorBefore(files, dir, entries, runOf, j);
    var x := Extract(files, dir, entries, runOf, j);
    assert Extract(files, dir, entries, runOf, j + 1) == Step(x, dir, entries[j], runOf(j));
    ExtractStopsAtError(files, dir, entries, runOf, j + 1, |entries|);
  }

  lemma {:induction false} NoErrorBefore(files: map<string, Bytes>, dir: string, entries: seq<ZipEntry>, runOf: nat -> EntryRun, k: nat)
    requires k <= |entries|
    requires forall i :: 0 <= i < k ==> runOf(i) == Copied
    ensures Extract(files, dir, entries, runOf, k).err == None
    decreases k
  {
    if k > 0 {
      NoErrorBefore(files, dir, entries, runOf, k - 1);
    }
  }

  /** Sum of the final sizes of the first `k` entries. */
  function FinalSum(entries: seq<ZipEntry>, runOf: nat -> EntryRun, k: nat): nat
    requires k <= |entries|
  {
    if k == 0 then 0 else FinalSum(entries, runOf, k - 1) + FinalReport(entries[k - 1], runOf(k - 1)).GetOr(0)
  }

  /** Before entry `k`, `done` is the sum of the final sizes of the entries
      before it, and each entry's final report shows the sum up to and
      including it (while that sum fits in a uint64). */
  lemma {:induction false} ExtractCountsFinalSizes(files: map<string, Bytes>, dir: string, entries: seq<ZipEntry>, runOf: nat -> EntryRun, k: nat)
    requires k <= |entries|
    requires forall i :: 0 <= i < k ==> runOf(i) == Copied
    requires FinalSum(entries, runOf, k) < TwoTo64
    ensures var x := Extract(files, dir, entries, runOf, k);
      && x.done == FinalSum(entries, runOf, k)
      && |x.samples| == k
      && forall i :: 0 <= i < k ==> x.samples[i] == FinalSum(entries, runOf, i + 1)
    decreases k
  {
    if k > 0 {
      ExtractCountsFinalSizes(files, dir, entries, runOf, k - 1);
      NoErrorBefore(files, dir, entries, runOf, k - 1);
      ExtractNext(files, dir, entries, runOf, k - 1);
      var x, y := Extract(files, dir, entries, runOf, k - 1), Extract(files, dir, entries, runOf, k);
      CopiedStepCounts(x, dir, entries[k - 1]);
      assert y.samples == x.samples + [FinalSum(entries, runOf, k)];
      forall i | 0 <= i < k
        ensures y.samples[i] == FinalSum(entries, runOf, i + 1)
      {
        if i < k - 1 {
          assert y.samples[i] == x.samples[i];
        }
      }
    }
  }

  /** A copied entry adds its whole size to `done` and shows the new sum,
      when that sum fits in a uint64. */
  lemma CopiedStepCounts(x: Extraction, dir: string, e: ZipEntry)
    requires x.done + |e.data| < TwoTo64
    ensures var y := Step(x, dir, e, Copied);
      y.done == x.done + |e.data| && y.samples == x.samples + [x.done + |e.data|]
  {
  }

  /** The entry writes no more than its header declares (and nothing for a
      directory). */
  predicate WithinDeclared(e: ZipEntry, run: EntryRun) {
    Written(e, run) <= Budget(e)
  }

  lemma {:induction false} DeclaredSumOfPrefix(entries: seq<ZipEntry>, k: nat)
    requires k <= |entries|
    ensures DeclaredSum(entries[..k]) <= DeclaredSum(entries)
  {
    DeclaredSumAppend(entries[..k], entries[k..]);
    assert entries[..k] + entries[k..] == entries;
  }

  /** When every entry keeps within its declared size and the grand total
      fits in a uint64, neither `done` nor any count shown passes the
      declared sum of the entries walked so far. */
  lemma {:induction false} ExtractCountsWithinTotal(files: map<string, Bytes>, dir: string, entries: seq<ZipEntry>, runOf: nat -> EntryRun, k: nat)
    requires k <= |entries|
    requires DeclaredSum(entries) < TwoTo64
    requires forall i :: 0 <= i < |entries| ==> WithinDeclared(entries[i], runOf(i))
    ensures CountsWithin(Extract(files, dir, entries, runOf, k), DeclaredSum(entries[..k]))
    decreases k
  {
    if k > 0 {
      ExtractCountsWithinTotal(files, dir, entries, runOf, k - 1);
      var x := Extract(files, dir, entries, runOf, k - 1);
      DeclaredSumStep(entries, k);
      DeclaredSumOfPrefix(entries, k);
      assert WithinDeclared(entries[k - 1], runOf(k - 1));
      if x.err == None {
        ExtractNext(files, dir, entries, runOf, k - 1);
        StepWithinTotal(x, dir, entries[k - 1], runOf(k - 1), DeclaredSum(entries[..k - 1]));
      } else {
        ExtractStopsAtError(files, dir, entries, runOf, k - 1, k);
      }
    }
  }

  /** Neither the counter nor any count shown passes `bound`. */
  predicate CountsWithin(x: Extraction, bound: nat) {
    x.done <= bound && forall i :: 0 <= i < |x.samples| ==> x.samples[i] <= bound
  }

  lemma DeclaredSumStep(entries: seq<ZipEntry>, k: nat)
    requires 0 < k <= |entries|
    ensures DeclaredSum(entries[..k]) == DeclaredSum(entries[..k - 1]) + Budget(entries[k - 1])
  {
    assert entries[..k][..k - 1] == entries[..k - 1];
  }

  /** One step keeps the counter and the samples within the running bound
      plus the entry's declared size. */
  lemma StepWithinTotal(x: Extraction, dir: string, e: ZipEntry, run: EntryRun, bound: nat)
    requires CountsWithin(x, bound)
    requires WithinDeclared(e, run) && bound + Budget(e) < TwoTo64
    ensures CountsWithin(Step(x, dir, e, run), bound + Budget(e))
  {
  }

  /** A successful walk whose entries have distinct, non-empty names leaves
      every entry's data at its destination. */
  lemma {:induction false} ExtractWritesEveryEntry(files: map<string, Bytes>, dir: string, entries: seq<ZipEntry>, runOf: nat -> EntryRun, k: nat)
    requires k <= |entries| && dir != ""
    requires forall i :: 0 <= i < |entries| ==> entries[i].name != []
    requires forall i :: 0 <= i < |entries| ==> runOf(i) == Copied
    requires forall i, j :: 0 <= i < j < |entries| ==> entries[i].name != entries[j].name
    ensures HoldsEntries(Extract(files, dir, entries, runOf, k).files, dir, entries, k)
    decreases k
  {
    if k > 0 {
      ExtractWritesEveryEntry(files, dir, entries, runOf, k - 1);
      NoErrorBefore(files, dir, entries, runOf, k - 1);
      var x := Extract(files, dir, entries, runOf, k - 1);
      ExtractNext(files, dir, entries, runOf, k - 1);
      CopiedEntryWritten(x, dir, entries[k - 1]);
      var y := x.files[Destination(dir, entries[k - 1]) := entries[k - 1].data];
      assert Extract(files, dir, entries, runOf, k).files == y;
      WriteKeepsEntries(x.files, dir, entries, k);
    }
  }

  /** Every one of the first `k` entries' destinations holds its data. */
  predicate HoldsEntries(files: map<string, Bytes>, dir: string, entries: seq<ZipEntry>, k: nat)
    requires k <= |entries|
  {
    forall i :: 0 <= i < k ==> Destination(dir, entries[i]) in files && files[Destination(dir, entries[i])] == entries[i].data
  }

  /** A copied entry leaves its whole data at its destination. */
  lemma CopiedEntryWritten(x: Extraction, dir: string, e: ZipEntry)
    ensures Step(x, dir, e, Copied).files == x.files[Destination(dir, e) := e.data]
  {
    assert e.data[..|e.data|] == e.data;
  }

  /** Writing entry `k - 1` keeps the earlier entries, whose names differ
      from it and so whose destinations do too. */
  lemma WriteKeepsEntries(files: map<string, Bytes>, dir: string, entries: seq<ZipEntry>, k: nat)
    requires 0 < k <= |entries| && dir != ""
    requires forall i :: 0 <= i < |entries| ==> entries[i].name != []
    requires forall i, j :: 0 <= i < j < |entries| ==> entries[i].name != entries[j].name
    requires HoldsEntries(files, dir, entries, k - 1)
    ensures HoldsEntries(files[Destination(dir, entries[k - 1]) := entries[k - 1].data], dir, entries, k)
  {
    var last := entries[k - 1];
    var y := files[Destination(dir, last) := last.data];
    forall i | 0 <= i < k
      ensures Destination(dir, entries[i]) in y && y[Destination(dir, entries[i])] == entries[i].data
    {
      if i < k - 1 && Destination(dir, entries[i]) == Destination(dir, last) {
        JoinPathInjective(dir, entries[i].name, last.name);
      }
    }
  }

  /** One more entry of a walk that has not failed yet is one more step. */
  lemma ExtractNext(files: map<string, Bytes>, dir: string, entries: seq<ZipEntry>, runOf: nat -> EntryRun, k: nat)
    requires k < |entries| && Extract(files, dir, entries, runOf, k).err == None
    ensures Extract(files, dir, entries, runOf, k + 1) == Step(Extract(files, dir, entries, runOf, k), dir, entries[k], runOf(k))
  {
  }

  /** The progress value of unzip.go:32 AS WRITTEN, in uint64 arithmetic
      then converted to int; `None` is Go's run-time panic on division by
      zero. `count` is `done + add`. */
  function ExtractValueAsWritten(count: Uint64, total: Uint64): (v: Option<int>)
    ensures v == None <==> total == 0
  {
    if total == 0 then None else Some(WrapInt64(WrapUint64(count * 10000) / total))
  }

  /** The same scaling with an archive of empty files counted as complete. */
  function ExtractValue(count: Uint64, total: Uint64): (v: int)
    ensures total != 0 ==> ExtractValueAsWritten(count, total) == Some(v)
    ensures total == 0 ==> v == 10000
  {
    if total == 0 then 10000 else WrapInt64(WrapUint64(count * 10000) / total)
  }

  /** The bar stays within 0..10000 for counts up to a non-zero total. When
      the scaled count wraps, its remainder is below 2^64, which is at most
      the scaled total, so the quotient is still at most 10000. */
  lemma ExtractValueInRange(count: Uint64, total: Uint64)
    requires count <= total
    ensures 0 <= ExtractValue(count, total) <= 10000
  {
    if total > 0 {
      var a := count * 10000;
      var w := WrapUint64(a);
      MulMonotone(count, total, 10000);
      if a < TwoTo64 {
        assert w == a;
      } else {
        assert w < TwoTo64 <= a;
      }
      assert w <= total * 10000;
      DivAtMost(w, total, 10000);
      DivNonNegative(w, total);
      assert WrapInt64(w / total) == w / total;
    }
  }

  /** The input that shows the division by zero: an archive holding one
      empty file. The walk succeeds, its final report shows the count 0, and
      the source's scaling of it against the total 0 panics. */
  lemma EmptyFileArchivePanics(files: map<string, Bytes>, dir: string, runOf: nat -> EntryRun)
    requires runOf(0) == Copied
    ensures var entries := [ZipEntry("empty.txt", false, 0, [])];
      var x := Extract(files, dir, entries, runOf, 1);
      && DeclaredSum(entries) == 0 && x.err == None && x.samples == [0]
      && ExtractValueAsWritten(x.samples[0], 0) == None
      && ExtractValue(x.samples[0], 0) == 10000
  {
  }

  /** Two entries, of 1000 and 0 bytes, both copied: the counts shown are
      1000 and 1000 against a total of 1000, a full bar both times. */
  lemma TwoEntryScenario(files: map<string, Bytes>, dir: string, a: Bytes, runOf: nat -> EntryRun)
    requires |a| == 1000 && runOf(0) == Copied && runOf(1) == Copied
    ensures var entries := [ZipEntry("a.img", false, 1000, a), ZipEntry("b.img", false, 0, [])];
      var x := Extract(files, dir, entries, runOf, 2);
      && DeclaredSum(entries) == 1000 && x.err == None && x.samples == [1000, 1000]
      && ExtractValue(1000, 1000) == 10000
  {
    var entries := [ZipEntry("a.img", false, 1000, a), ZipEntry("b.img", false, 0, [])];
    assert entries[..1] == [entries[0]];
    assert entries[..1][..0] == [];
    assert DeclaredSum(entries[..1]) == 1000;
    assert Extract(files, dir, entries, runOf, 1).samples == [1000];
    ExtractValueInRange(1000, 1000);
    assert 1000 * 10000 / 1000 == 10000;
  }
}
