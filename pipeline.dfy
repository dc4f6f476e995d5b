/** The DOWNLOAD/STOP button of download.go (`download`): a toggle over the
    global cancel handle, and the background run that downloads, extracts
    and then disposes of the temporary file according to the outcome.

    Runs are numbered in the order they start. Besides the source's own
    state (the cancel handle and the button text), the model records which
    runs are still going and which have been cancelled; these stand for the
    goroutines and their contexts. */
module Pipeline {
  import opened Common
  import opened Files
  import Download
  import Unzip

  /** The toggle's state: the handle held in `cancelDownload` (the run it
      cancels), the number the next run gets, the runs still going, the runs
      whose context has been cancelled, and the button text. */
  datatype Toggle = Toggle(handle: Option<nat>, next: nat, live: set<nat>, cancelled: set<nat>, button: string)

  const Initial: Toggle := Toggle(None, 0, {}, {}, "DOWNLOAD")

  /** What the toggle promises: the handle belongs to a run still going,
      every live run that was not cancelled is the one the handle stops (so
      at most one download is ever unstoppable), and the button offers STOP
      exactly while a handle is held. */
  ghost predicate Consistent(s: Toggle) {
    && (forall r :: r in s.live ==> r < s.next)
    && (s.handle.Some? ==> s.handle.value in s.live)
    && (forall r :: r in s.live && r !in s.cancelled ==> s.handle == Some(r))
    && s.button == (if s.handle.Some? then "STOP" else "DOWNLOAD")
  }

  /** A click on the button (download.go:159-178): cancel the held run and
      start nothing, or start a fresh run and hold its handle. */
  function Pressed(s: Toggle): Toggle {
    if s.handle.Some? then
      s.(handle := None, cancelled := s.cancelled + {s.handle.value}, button := "DOWNLOAD")
    else
      s.(handle := Some(s.next), next := s.next + 1, live := s.live + {s.next}, button := "STOP")
  }

  /** The dialog is closed (download.go:154-156): the held run is cancelled,
      but the handle is kept. */
  function Closed(s: Toggle): Toggle {
    if s.handle.Some? then s.(cancelled := s.cancelled + {s.handle.value}) else s
  }

  /** Run `r` ends, AS WRITTEN (download.go:191-192): whatever run the handle
      belongs to, it is dropped and the button reset. */
  function FinishedAsWritten(s: Toggle, r: nat): Toggle
    requires r in s.live
  {
    s.(handle := None, live := s.live - {r}, button := "DOWNLOAD")
  }

  /** Run `r` ends, as intended: the handle and the button are reset only
      when they still belong to `r`. */
  function Finished(s: Toggle, r: nat): Toggle
    requires r in s.live
  {
    if s.handle == Some(r) then s.(handle := None, live := s.live - {r}, button := "DOWNLOAD")
    else s.(live := s.live - {r})
  }

  lemma InitialConsistent()
    ensures Consistent(Initial)
  {
  }

  /** A click either stops the run in progress and starts nothing, or starts
      exactly one run, which the handle then stops. */
  lemma PressedKeepsConsistent(s: Toggle)
    requires Consistent(s)
    ensures Consistent(Pressed(s))
    ensures s.handle.Some? ==> Pressed(s).live == s.live && s.handle.value in Pressed(s).cancelled && Pressed(s).handle == None
    ensures s.handle.None? ==> s.next !in s.live && Pressed(s).live == s.live + {s.next} && Pressed(s).handle == Some(s.next)
  {
  }

  lemma ClosedKeepsConsistent(s: Toggle)
    requires Consistent(s)
    ensures Consistent(Closed(s))
    ensures forall r :: r in Closed(s).live ==> r in Closed(s).cancelled
  {
  }

  lemma FinishedKeepsConsistent(s: Toggle, r: nat)
    requires Consistent(s) && r in s.live
    ensures Consistent(Finished(s, r))
    ensures Finished(s, r).live == s.live - {r}
  {
  }

  /** The point of the invariant: two live, uncancelled runs are one run. */
  lemma AtMostOneUnstoppableRun(s: Toggle, a: nat, b: nat)
    requires Consistent(s)
    requires a in s.live && a !in s.cancelled
    requires b in s.live && b !in s.cancelled
    ensures a == b
  {
  }

  /** The input that shows the lost handle: click (run 0 starts), click
      (run 0 is cancelled), click (run 1 starts), then run 0 ends. As
      written, the handle of run 1 is dropped while it is still going, so
      it can no longer be stopped and the next click starts run 2 beside
      it, on the same temporary file. With the intended `Finished`, the
      handle of run 1 survives. */
  lemma LostHandleAsWritten()
    ensures var s3 := Pressed(Pressed(Pressed(Initial)));
      var s4 := FinishedAsWritten(s3, 0);
      && 0 in s3.live && Consistent(s3)
      && !Consistent(s4) && s4.handle == None && 1 in s4.live && 1 !in s4.cancelled
      && (var s5 := Pressed(s4); 1 in s5.live && 2 in s5.live && 1 !in s5.cancelled && 2 !in s5.cancelled)
      && Finished(s3, 0).handle == Some(1) && Consistent(Finished(s3, 0))
  {
    var s3 := Pressed(Pressed(Pressed(Initial)));
    assert s3.handle == Some(1) && s3.live == {0, 1} && s3.cancelled == {0};
  }

  /** The toggle as the program keeps it: `cancelDownload` and the button
      text, plus the runs going and cancelled. */
  class Downloader {
    var cancelDownload: Option<nat>
    var buttonText: string
    var nextRun: nat
    var running: set<nat>
    var cancelled: set<nat>

    function State(): Toggle
      reads this
    {
      Toggle(cancelDownload, nextRun, running, cancelled, buttonText)
    }

    ghost predicate Valid()
      reads this
    {
      Consistent(State())
    }

    constructor ()
      ensures State() == Initial && Valid()
    {
      cancelDownload := None;
      buttonText := "DOWNLOAD";
      nextRun := 0;
      running := {};
      cancelled := {};
    }

    /** `download`, run when the button is clicked. Returns the run it
        starts, if any. */
    method Press() returns (started: Option<nat>)
      modifies this
      ensures State() == Pressed(old(State()))
      ensures old(Valid()) ==> Valid()
      ensures started.Some? <==> old(cancelDownload).None?
      ensures started.Some? ==> started.value == old(nextRun) && cancelDownload == started
    {
      if Valid() {
        PressedKeepsConsistent(State());
      }
      if cancelDownload.Some? {
        cancelled := cancelled + {cancelDownload.value};
        cancelDownload := None;
        buttonText := "DOWNLOAD";
        return None;
      }
      var run := nextRun;
      nextRun := nextRun + 1;
      running := running + {run};
      cancelDownload := Some(run);
      buttonText := "STOP";
      return Some(run);
    }

    /** The end of `showDownloader`: cancel the held run, if any. */
    method CloseDialog()
      modifies this
      ensures State() == Closed(old(State()))
      ensures old(Valid()) ==> Valid()
    {
      if Valid() {
        ClosedKeepsConsistent(State());
      }
      if cancelDownload.Some? {
        cancelled := cancelled + {cancelDownload.value};
      }
    }

    /** The last two statements of the background run AS WRITTEN. */
    method FinishAsWritten(run: nat)
      requires run in running
      modifies this
      ensures State() == FinishedAsWritten(old(State()), run)
    {
      running := running - {run};
      cancelDownload := None;
      buttonText := "DOWNLOAD";
    }

    /** The last two statements of the background run, resetting the
        handle only when it is still this run's. */
    method Finish(run: nat)
      requires Valid() && run in running
      modifies this
      ensures State() == Finished(old(State()), run) && Valid()
    {
      FinishedKeepsConsistent(State(), run);
      running := running - {run};
      if cancelDownload == Some(run) {
        cancelDownload := None;
        buttonText := "DOWNLOAD";
      }
    }
  }

  /** The lost handle on the program's own state: three clicks, run 0 ends
      through the run end as written, and the fourth click then starts run 2
      while run 1 is still going and uncancelled. Closing the dialog cancels
      run 2 but leaves run 1 running. */
  method LostHandleOnDownloader() returns (d: Downloader)
    ensures fresh(d)
    ensures !d.Valid()
    ensures d.running == {1, 2} && d.cancelled == {0, 2} && d.cancelDownload == Some(2)
  {
    d := new Downloader();
    var r0 := d.Press();
    var none := d.Press();
    var r1 := d.Press();
    d.FinishAsWritten(0);
    assert !d.Valid();
    var r2 := d.Press();
    assert r2 == Some(2);
    d.CloseDialog();
  }

  /** How a run ends for the user: "Done", an error box, or quietly (a
      cancelled run, whose partial file is kept for resuming). */
  datatype Outcome = Done | Failed(err: Error) | Kept

  /** download.go:183-190 AS WRITTEN: the bare value `context.Canceled` is
      the one error that keeps the temporary file and shows nothing; a
      cancellation wrapped by net/http compares unequal to it. */
  function Conclude(err: Option<Error>): (o: Outcome)
    ensures o == Done <==> err == None
    ensures o == Kept <==> err == Some(Canceled)
    ensures o.Failed? ==> err == Some(o.err) && o.err != Canceled
  {
    match err
    case None => Done
    case Some(Canceled) => Kept
    case Some(e) => Failed(e)
  }

  /** The evident intent, `errors.Is(err, context.Canceled)`: every
      cancellation keeps the file silently, wherever it interrupted the run. */
  function ConcludeIntended(err: Option<Error>): (o: Outcome)
    ensures o == Done <==> err == None
    ensures o == Kept <==> err.Some? && IsCanceled(err.value)
    ensures o.Failed? ==> err == Some(o.err) && !IsCanceled(o.err)
  {
    match err
    case None => Done
    case Some(e) => if IsCanceled(e) then Kept else Failed(e)
  }

  /** The two readings part ways exactly on a wrapped cancellation. */
  lemma ConcludeIntendedDiffers(err: Option<Error>)
    ensures ConcludeIntended(err) != Conclude(err) <==> err.Some? && IsCanceled(err.value) && err.value != Canceled
  {
  }

  /** The input that shows the lost partial file: 4000 bytes are on disk, the
      ranged GET is sent, and STOP is clicked before its response headers
      arrive. `client.Do` returns the cancellation wrapped in a `*url.Error`,
      the file still holds its 4000 bytes, and the written test does not
      keep it (so `RunPipeline` deletes it and shows an error box); the
      intended test keeps it. */
  lemma CancelBeforeBodyDeletesFile(existing: Bytes, url: string, total: int, acceptRanges: string,
                                    server: Download.GetRequest -> Download.GetResult)
    requires 0 < |existing| < total && Download.AcceptsBytes(acceptRanges)
    requires server(Download.GetRequest(url, Some(Download.RangeValue(|existing|)))) == Download.GetFailed(UrlError("Get", url, Canceled))
    ensures var d := Download.Fetch(existing, url, Download.HeadOk(total, acceptRanges), server);
      && d.content == existing && d.err == Some(UrlError("Get", url, Canceled))
      && IsCanceled(d.err.value) && Conclude(d.err) != Kept && ConcludeIntended(d.err) == Kept
  {
    assert existing[..|existing|] == existing;
  }

  /** Name of the temporary download file inside the image directory. */
  const TempName: string := "tmp"

  /** The background run of `download`: fetch into `<imageDir>\tmp`,
      extract only after a clean download, then remove the temporary file
      unless the run ended with `context.Canceled`. */
  method RunPipeline(disk: Disk, imageDir: string, url: string, head: Download.HeadResult,
                     server: Download.GetRequest -> Download.GetResult,
                     parse: Bytes -> Unzip.ArchiveResult, runOf: nat -> Unzip.EntryRun)
      returns (err: Option<Error>, extracted: bool, outcome: Outcome)
    modifies disk
    ensures var file := JoinPath(imageDir, TempName);
      var d := Download.Fetch(Download.Existing(old(disk.files), file), url, head, server);
      var downloaded := old(disk.files)[file := d.content];
      && (extracted <==> d.err == None)
      && outcome == Conclude(err)
      && (file in disk.files <==> outcome == Kept)
      && (!extracted ==> err == d.err && disk.files == if outcome == Kept then downloaded else downloaded - {file})
      && (extracted ==>
            match parse(d.content)
            case Unreadable(e) => err.Some? && err.value == e && disk.files == downloaded - {file}
            case Readable(entries) =>
              var x := Unzip.Extract(downloaded, imageDir, entries, runOf, |entries|);
              && err == x.err
              && disk.files == if outcome == Kept then x.files else x.files - {file})
  {
    var file := JoinPath(imageDir, TempName);
    var sent, last;
    err, sent, last := Download.DownloadFile(disk, file, url, head, server);
    extracted := false;
    if err == None {
      ghost var before := disk.files;
      var total, samples;
      err, total, samples := Unzip.UnzipFile(disk, imageDir, file, parse, runOf);
      ExtractionKeepsFiles(before, imageDir, parse, runOf, file);
      extracted := true;
    }
    if err.Some? && err != Some(Canceled) {
      disk.Remove(file);
    }
    if err == None {
      disk.Remove(file);
    }
    outcome := Conclude(err);
  }

  /** Extraction never deletes: a file present before is present after. */
  lemma ExtractionKeepsFiles(files: map<string, Bytes>, dir: string, parse: Bytes -> Unzip.ArchiveResult, runOf: nat -> Unzip.EntryRun, path: string)
    requires path in files
    ensures forall zipfile :: zipfile in files && parse(files[zipfile]).Readable? ==>
      var entries := parse(files[zipfile]).entries;
      path in Unzip.Extract(files, dir, entries, runOf, |entries|).files
  {
    forall zipfile | zipfile in files && parse(files[zipfile]).Readable?
      ensures var entries := parse(files[zipfile]).entries;
        path in Unzip.Extract(files, dir, entries, runOf, |entries|).files
    {
      var entries := parse(files[zipfile]).entries;
      ExtractKeepsPath(files, dir, entries, runOf, |entries|, path);
    }
  }

  lemma {:induction false} ExtractKeepsPath(files: map<string, Bytes>, dir: string, entries: seq<Unzip.ZipEntry>, runOf: nat -> Unzip.EntryRun, k: nat, path: string)
    requires k <= |entries| && path in files
    ensures path in Unzip.Extract(files, dir, entries, runOf, k).files
    decreases k
  {
    if k > 0 {
      ExtractKeepsPath(files, dir, entries, runOf, k - 1, path);
    }
  }

  /** Stopping and resuming loses nothing: a run cut short by any error
      leaves a prefix of the remote content, and the next run against an
      honest server completes it exactly. */
  lemma StopThenResume(existing: Bytes, remote: Bytes, url: string, acceptRanges: string,
                       first: Download.GetRequest -> Download.GetResult, second: Download.GetRequest -> Download.GetResult)
    requires existing <= remote && Download.AcceptsBytes(acceptRanges)
    requires Download.ServesPrefixes(first, url, remote) && Download.Serves(second, url, remote)
    ensures var head := Download.HeadOk(|remote|, acceptRanges);
      var kept := Download.Fetch(existing, url, head, first).content;
      Download.Fetch(kept, url, head, second).content == remote
  {
    var head := Download.HeadOk(|remote|, acceptRanges);
    var kept := Download.Fetch(existing, url, head, first).content;
    Download.InterruptedFetchKeepsPrefix(existing, remote, url, acceptRanges, first);
    Download.ResumeCompletesFile(kept, remote, url, acceptRanges, second);
  }
}
