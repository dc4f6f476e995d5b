# adbinstall — a Dafny model of its download, extraction and command planning

adbinstall is a small Windows GUI, written in Go, that drives `adb` and
`fastboot`. It has four jobs:
- download a firmware image archive, resuming an interrupted transfer with
  an HTTP `Range: bytes=<n>-` request (section 14.1.2 of RFC 9110);
- unpack the archive into the image directory;
- flash the image;
- install and uninstall APKs on a device.

This project models the deterministic logic behind those actions and proves
what that logic promises. Each I/O result is an input to the model:
- the HEAD response;
- the server's answer to each GET;
- the parsed archive;
- each entry's copy outcome;
- each command's exit status;
- the text of the address box.

Modules, one per part of the program:

- `Common`: Go's `int64`/`uint64` wrap-around and truncating division, and
  an `Option` and an `Error` type (`Canceled` stands for `context.Canceled`).
- `Text`: the parts of Go's `strings`, `unicode` and `fmt` the program uses:
  - `Contains`, `TrimSpace`, `Fields`, `Split`, `Join`;
  - the `%d` rendering of numbers.
- `Files`: `filepath.Join` and `filepath.Base` with Windows separators, and a
  `Disk` class whose file map the open, truncate, append and remove methods
  update.
- `Download` (download.go):
  - the resume decision and the `Range` header;
  - the append-mode effect of `downloadFile` on the file;
  - the progress-bar scaling;
  - `formatSize`'s unit choice;
  - `truncatePath`.
- `Pipeline` (download.go): `download`, modelled in two parts:
  - the DOWNLOAD/STOP toggle over the global `cancelDownload`, as a
    `Downloader` class;
  - the background run: download, extract, then dispose of the temporary
    file according to the outcome.
- `Unzip` (unzip.go):
  - the grand total of declared sizes;
  - the entry walk, which stops at the first error;
  - the running `done` counter;
  - the destination files;
  - the cancel-versus-copy result of `unzip`.
- `Commands` (main.go):
  - `connect` as a state machine on `lastAdbAddress`;
  - the short-circuit step runner;
  - the step plans of VIEW, FLASH, INSTALL and UNINSTALL;
  - the SELECT... label;
  - the parsing of the package list.

  The window's state is an `App` class.

Where the code and its intent part ways, the model does what the code does.
It also carries a corrected definition, listed under "## Findings", with the
intended property proved of it. The lemmas about the progress bar state
the corrected scalings, which the code leaves undefined for a total of 0. The
DOWNLOAD/STOP toggle and the background run keep the written behaviour, and
the corrected reset and error test sit beside them.

## Model

| member | source | states |
|---|---|---|
| Common.WrapInt64 | download.go:171 | int64 arithmetic wraps: an in-range value is unchanged, and the result is congruent to the exact value |
| Common.AddUint64Wraps | unzip.go:23 | adding two uint64 values is the exact sum reduced modulo 2^64 |
| Common.WrapUint64Add | unzip.go:23 | wrapping an intermediate sum and then adding gives the same as wrapping once at the end, so a running uint64 total equals the wrapped exact total |
| Common.Quo | download.go:171 | Go's integer division truncates toward zero: the remainder has the dividend's sign and is smaller than the divisor in magnitude |
| Text.Contains | download.go:239 | `strings.Contains` holds exactly when the pattern occurs at some position |
| Text.TrimSpaceTrims | main.go:318 | `strings.TrimSpace` returns a slice of its input with only white space cut from either side |
| Text.TrimSpaceIdempotent | main.go:318 | trimming an already trimmed address changes nothing |
| Text.FieldsOfWord | main.go:458 | a word followed by white space is the first field of `strings.Fields` |
| Text.FieldsSkipsSpace | main.go:458 | leading white space yields no field |
| Text.ParseFormatNat | download.go:257 | the `%d` rendering of a number reads back as that number |
| Text.FormatNatInjective | download.go:257 | distinct numbers render differently |
| Text.Utf8Width | download.go:295 | a character takes 1 to 4 bytes of UTF-8, and exactly 1 when it is ASCII |
| Text.ByteLength | download.go:295 | Go's `len` of a string, in bytes, lies between its length in characters and four times that |
| Text.ByteLengthAppend | download.go:300-307 | the bytes of a concatenation are the bytes of its parts |
| Text.JoinSplit | download.go:299-307 | joining the pieces of `strings.Split` with the same separator restores the path |
| Text.SplitJoin | download.go:299-307 | splitting a join of separator-free parts gives the parts back |
| Files.JoinPathShape | unzip.go:51 | a joined path is the directory, one separator and the name, and ends with the name |
| Files.JoinPathInjective | unzip.go:51 | under one directory, different entry names give different destinations |
| Files.BaseOfJoin | main.go:409 | `filepath.Base` of a joined path is the name joined last |
| Files.Base | main.go:409 | the base of a path is "." for the empty path and a lone separator for a path made only of separators; otherwise, with trailing separators dropped, it is the path's last element: a non-empty, separator-free suffix preceded by a separator or by nothing |
| Files.Disk.OpenAppend | download.go:204 | opening with O_APPEND|O_CREATE creates a missing file empty and never shortens an existing one |
| Files.Disk.Create | unzip.go:51 | opening with O_CREATE|O_TRUNC leaves the file empty whatever it held |
| Files.Disk.Truncate | download.go:247 | `os.Truncate(file, 0)` empties the file and changes nothing else |
| Files.Disk.Append | download.go:277 | writes to an append-mode file add the bytes at its end |
| Files.Disk.Remove | download.go:184-188 | `os.Remove` deletes exactly that path |
| Download.PlanFor | download.go:237-245 | the download is already complete exactly when a non-empty file matches the total and ranges are accepted; it resumes at the file size exactly when a non-empty file is shorter than the total and ranges are accepted; every other case starts from 0 |
| Download.RangeFor | download.go:256-258 | a Range header is sent exactly when the start is positive, and it names that start |
| Download.RangeValueRoundTrip | download.go:257 | the header `bytes=<start>-` reads back as the offset it was built from |
| Download.Fetch | download.go:196-279 | a failed HEAD returns its error, sends no GET and leaves the file as it was; a call returns nil only after a HEAD that answered; a final progress sample exists exactly when the HEAD answered, and it pairs the file's size with the HEAD's Content-Length; a GET, when sent, is for the given URL |
| Download.DownloadFile | download.go:196-279 | after a `downloadFile` call, the file holds the bytes the model of the call gives; the returned error, the GET sent and the final progress sample are its too |
| Download.RangeSentExactlyWhenResuming | download.go:237-258 | no GET is sent exactly when the already-complete case holds; a Range header is sent exactly when resuming, naming the file size |
| Download.RestartDiscardsFile | download.go:246-251 | without ranges, with an empty file or with a file longer than the total, the file is truncated and then holds just the fresh body |
| Download.FetchKeepsRetainedPrefix | download.go:204-251 | whatever happens, the file keeps the retained prefix of its old contents and grows only at the end |
| Download.ResumeCompletesFile | download.go:237-277 | if the file is a prefix of the remote content and the server honours ranges, one call leaves exactly the remote content, reported complete |
| Download.InterruptedFetchKeepsPrefix | download.go:237-277 | an interrupted call leaves a prefix of the remote content, if the file held one before |
| Download.ResumeAfterStopAt4000 | download.go:237-258 | after a stop at 4000 of 10000 bytes, the resume sends `bytes=4000-` and completes the file |
| Download.IgnoredRangeDuplicatesPrefix | download.go:256-277 | a server that ignores the Range header leaves the old prefix followed by the whole body, longer than the resource |
| Download.ProgressValueAsWritten | download.go:171 | the written scaling `downloaded*10000/total` has no value exactly when the total is 0 |
| Download.ProgressValue | download.go:171 | the corrected scaling agrees with the written one whenever the total is not 0, and shows a full bar when it is |
| Download.ProgressValueInRange | download.go:171 | for a total of at most MaxScalable and a downloaded count within it, the bar value lies in 0..10000 |
| Download.ProgressValueFullWhenComplete | download.go:171 | a complete download shows exactly 10000 |
| Download.MaxScalableIsLargest | download.go:171 | MaxScalable is the largest total for which `downloaded*10000` stays within int64 |
| Download.ZeroLengthResourcePanics | download.go:171 | a resource with Content-Length 0 downloads cleanly, and its final sample has total 0, for which the written scaling is undefined |
| Download.FormatSize | download.go:281-291 | below 1024 the size reads `<b> B`; otherwise the chosen divisor is 1024^(exp+1) with divisor <= b < 1024*divisor, exp at most 5 and the unit letter `"KMGTPE"[exp]` |
| Download.SizeUnitUnique | download.go:281-291 | only one exponent satisfies the divisor bounds, so the unit is determined by the size |
| Download.Pow1024Monotone | download.go:286-290 | larger exponents give larger divisors |
| Download.TruncatePath | download.go:294-310 | with lengths in UTF-8 bytes, as Go's `len` counts them: a path that fits is returned unchanged; otherwise the result is the first elision at least `size` bytes long, or the whole path when every elision is shorter; a size of 0 or less gives the empty string |
| Download.ElisionGrows | download.go:300-307 | each further elision keeps more components and is strictly longer in bytes |
| Download.ElideLength | download.go:300-307 | an elision's bytes are those of its kept components, three for "..." and one per separator |
| Download.ElisionBytesGrow | download.go:300-307 | keeping one more component at each end adds at least two separators' bytes |
| Download.JoinLength | download.go:307 | a joined path is as long in bytes as its parts plus one separator between each pair |
| Unzip.DeclaredTotal | unzip.go:18-24 | the total is the uint64 sum of the declared sizes of the non-directory entries |
| Unzip.DirectoriesAddNothing | unzip.go:20-22 | a directory entry adds nothing to the total |
| Unzip.DeclaredSumAppend | unzip.go:18-24 | the total of two runs of entries is the sum of their totals |
| Unzip.EntryError | unzip.go:44-87 | `unzip` returns nil exactly when the copy finishes first and succeeds; it returns `context.Canceled` exactly when the cancellation is seen first, and no other outcome gives a cancellation |
| Unzip.FinalReport | unzip.go:56-61 | an entry reports a final size exactly when its destination was opened, and the size never exceeds the entry's data |
| Unzip.ExtractEntry | unzip.go:44-87 | one entry's effect on the disk, its error and its final report are those of the entry model |
| Unzip.EntryReplacesDestination | unzip.go:51 | once opened, the destination holds only what this entry wrote: its former contents are gone, and nothing else appears or disappears |
| Unzip.Extract | unzip.go:25-41 | the walk over the first k entries gives at most k progress samples, and exactly k when no entry failed |
| Unzip.ExtractEntries | unzip.go:25-41 | the entry loop leaves the disk, the error and the progress samples that the walk over all entries gives |
| Unzip.UnzipFile | unzip.go:12-42 | a missing or unreadable archive returns its error and changes nothing; a readable one yields the wrapped declared total and the walk's effect |
| Unzip.ExtractStopsAtError | unzip.go:37-39 | once an entry fails, later entries change nothing: they are never opened or written |
| Unzip.ExtractReturnsFirstError | unzip.go:26-40 | the walk returns the error of the first entry that does not copy cleanly |
| Unzip.NoErrorBefore | unzip.go:26-40 | a walk whose entries all copy cleanly returns no error |
| Unzip.ExtractCountsFinalSizes | unzip.go:29-35 | before entry k, `done` is the sum of the final sizes of the entries before it, and each sample is such a prefix sum |
| Unzip.DeclaredSumOfPrefix | unzip.go:18-24 | the total of the first k entries never exceeds the grand total |
| Unzip.ExtractCountsWithinTotal | unzip.go:32 | when no entry writes more than it declares, the counter and every sample stay within the declared total |
| Unzip.ExtractWritesEveryEntry | unzip.go:26-37 | when all entries copy and their names differ, each destination holds its own entry's data; directories are walked too |
| Unzip.ExtractNext | unzip.go:26-39 | after a clean prefix, one more entry is one more step of the walk |
| Unzip.ExtractValueAsWritten | unzip.go:32 | the written scaling `(done+add)*10000/total` has no value exactly when the total is 0 |
| Unzip.ExtractValue | unzip.go:32 | the corrected scaling agrees with the written one whenever the total is not 0, and shows a full bar when it is |
| Unzip.ExtractValueInRange | unzip.go:32 | with a count within the total, the bar value lies in 0..10000, even when the uint64 product `count * 10000` wraps |
| Unzip.EmptyFileArchivePanics | unzip.go:32 | an archive holding one empty file has total 0, and its one sample hits the undefined written scaling |
| Unzip.TwoEntryScenario | unzip.go:26-35 | the second entry's count starts where the first one's ended |
| Pipeline.InitialConsistent | download.go:159-165 | at start no handle is held, no run goes, and the button reads DOWNLOAD |
| Pipeline.PressedKeepsConsistent | download.go:159-177 | a click either cancels the held run and starts nothing, or starts exactly one run and holds its handle; the toggle stays consistent |
| Pipeline.ClosedKeepsConsistent | download.go:154-156 | closing the dialog cancels every run still going |
| Pipeline.FinishedKeepsConsistent | download.go:191-192 | a run that ends, with the corrected reset, keeps the toggle consistent |
| Pipeline.AtMostOneUnstoppableRun | download.go:159-192 | at most one run is going that the button can still stop |
| Pipeline.LostHandleAsWritten | download.go:191 | with the written reset, a run that ends drops the handle of a later run, which the button can then no longer stop |
| Pipeline.Downloader.Press | download.go:159-177 | in every state, including one the written reset left inconsistent, the click updates `cancelDownload`, the button and the runs as the toggle model does, and it keeps a consistent toggle consistent |
| Pipeline.Downloader.CloseDialog | download.go:154-156 | in every state, closing cancels the held run but keeps the handle, and it keeps a consistent toggle consistent |
| Pipeline.LostHandleOnDownloader | download.go:154-192 | on the class itself: three clicks, run 0 ending through the written reset, a fourth click and closing the dialog leave run 1 going and uncancelled beside run 2 |
| Pipeline.Downloader.FinishAsWritten | download.go:191-192 | the written reset clears the handle and the button whatever run ends |
| Pipeline.Downloader.Finish | download.go:191-192 | the corrected reset clears them only when the handle is the ending run's |
| Pipeline.Conclude | download.go:183-190 | success is "Done", `context.Canceled` keeps the file silently, and any other error is shown |
| Pipeline.RunPipeline | download.go:166-193 | extraction runs exactly when the download returned nil, and the run's error is the download's or else the extraction's; the temporary file remains exactly when that error is bare `context.Canceled`; a rejected archive is removed with everything else as downloaded; a readable one leaves the files the entry walk gives, minus the temporary file unless the run was cancelled. So a cancellation during the body copy or the extraction keeps the file |
| Pipeline.ConcludeIntended | download.go:183 | with `errors.Is`: success is "Done", any error that wraps `context.Canceled` keeps the file, and every other error is shown |
| Pipeline.ConcludeIntendedDiffers | download.go:183 | the written and the intended test differ exactly on a cancellation wrapped in another error |
| Pipeline.CancelBeforeBodyDeletesFile | download.go:183-188 | a STOP before the ranged GET's headers arrive returns the cancellation wrapped in `*url.Error`, which the written test treats as a failure, deleting a partial download that the intended test keeps |
| Pipeline.ExtractionKeepsFiles | unzip.go:44-87 | extraction never deletes a file |
| Pipeline.StopThenResume | download.go:237-277 | a run cut short by any error, followed by a run against an honest server, leaves exactly the remote content |
| Commands.FirstFailure | main.go:349-353 | the runner's stopping point: every earlier step returned true, and the step there returned false |
| Commands.NoStepAfterFailure | main.go:349-353 | steps after a failing step are never called |
| Commands.CalledStepsSucceeded | main.go:349-353 | every step called before the last one called returned true |
| Commands.RememberedAfterNoRemember | main.go:329-332 | only the recording step changes `lastAdbAddress` |
| Commands.ConnectRemembersOnSuccess | main.go:317-335 | a new address is recorded exactly when `adb disconnect` and `adb connect` both succeed, so the next `connect` with it is skipped exactly then |
| Commands.CompletedRunIsConnected | main.go:317-335 | after a completed run, `connect` has nothing to do for the same address |
| Commands.FlashSteps | main.go:369-382 | FLASH is `adb reboot bootloader`, then a `fastboot flash` of each of the ten partitions in order, each from its own image file in the image directory with that directory's fastboot and with the exact argument list, where only `system` gets the sparse option `-S 500M`, then `fastboot reboot` |
| Commands.FlashNeedsBootloader | main.go:369-390 | no partition is flashed unless connecting and `adb reboot bootloader` both succeeded |
| Commands.InstallSteps | main.go:423-431 | the loop builds the INSTALL plan of the selected paths |
| Commands.InstallPlanPairs | main.go:423-431 | the INSTALL plan is one log line and one `adb install -r` for each non-blank trimmed path, in order, the line directly before its install |
| Commands.NonBlankSound | main.go:423-431 | every installed name is a trimmed selected path and is never blank |
| Commands.NonBlankComplete | main.go:423-431 | every selected path that is not blank is installed |
| Commands.InstallPlanNoRemember | main.go:423-431 | the INSTALL steps never change `lastAdbAddress` |
| Commands.UninstallPlan | main.go:468-474 | UNINSTALL queues nothing for a blank package, otherwise a log line and `adb uninstall` of the trimmed name |
| Commands.UninstallPlanTrimmed | main.go:468-474 | the UNINSTALL plan never changes the remembered address, passes `adb uninstall` a trimmed non-blank package name, and is the same for pre-trimmed text |
| Commands.SelectionLabel | main.go:400-414 | the loop builds the label: "No file selected", one or two links, and for more files " and <n-2> file(s)" |
| Commands.LabelCountsTheRest | main.go:400-414 | the label starts with the links of the first two files and reads back the number of files it does not name; with fewer than three files it states no count |
| Commands.CountReadsBack | main.go:404 | the count written into the label reads back as the number written |
| Commands.ParsePackages | main.go:458 | every package name parsed is non-empty and has no white space |
| Commands.ParseListing | main.go:457-458 | a listing of `package:<name>` lines, ending in "\n" or "\r\n", parses back to the names in order |
| Commands.StripListingLines | main.go:458 | removing "package:" at each line start leaves each name with its line ending |
| Commands.App.Connect | main.go:317-335 | the same address gives no steps and no change; an empty one clears `lastAdbAddress` with no steps; a new one gives disconnect, connect and record |
| Commands.App.Run | main.go:349-353 | the runner calls steps in order, up to and including the first that fails, and reports whether all returned true |
| Commands.App.Session | main.go:337-355 | a button's run: `connect`, its own steps, the runner, then the deferred `enable` |
| Commands.App.Start | main.go:337-355 | VIEW performs the connect steps, `adb devices` and scrcpy, stopping at the first failure |
| Commands.App.Flash | main.go:357-392 | without confirmation nothing happens; with it, the FLASH plan runs until the first failure |
| Commands.App.OpenFile | main.go:394-416 | the chosen files become the selection, the label shows them, and INSTALL is enabled exactly when there is one |
| Commands.App.Reload | main.go:444-461 | the connect steps run up to the first failure; exactly when they all succeed, `adb shell cmd package list packages -3` runs and the package list is replaced by its parsed output |
| Commands.App.Install | main.go:418-442 | the INSTALL plan runs until the first failure, and the package list is reloaded exactly when it completes |
| Commands.App.Uninstall | main.go:463-485 | the UNINSTALL plan runs until the first failure, and the package list is reloaded exactly when it completes |

## Left out

- HTTP is not modelled: requests, the 2-second HEAD timeout and status codes. The HEAD result and the server's answer to each GET are inputs. The program never checks the status code, and the model passes on whatever body the server returns.
- `archive/zip` decoding and DEFLATE are not modelled. An archive is given as a sequence of entries that carry their decompressed bytes.
- Goroutines, channels and the 100 ms tickers are not modelled. Progress is the sequence of final samples, one per entry or per download. The intermediate ticker samples and the unsynchronised `done += add` across entries (unzip.go:35) are not modelled.
- Download.FormatSize: the `%.2f` float rendering of the scaled size is left out. Only the divisor, exponent and unit letter are modelled.
- Go's `filepath.Join` also cleans the joined path (for example `..` elements and doubled separators). Nothing here is cleaned, and volume names are not modelled. `Base` treats both slashes as separators.
- File permission modes are not modelled.
- Errors of `os.MkdirAll`, `OpenFile`, `Stat` and `Truncate` for the download file are not modelled; these calls always succeed here. Opening an archive entry and creating its destination can fail, and those failures are modelled.
- The final progress sample of `downloadFile` is always produced. The program skips it when its `Stat` fails.
- The archive is read once, before extraction starts. An entry named `tmp` that overwrites the archive while it is still being read is not modelled.
- Unzip.ExtractCountsFinalSizes: states the running counter only while the sum of final sizes stays below 2^64. The counter itself wraps as in Go (`Unzip.Step` uses `AddUint64`).
- Download.ProgressValueInRange: stated only for totals of at most MaxScalable. Above it `downloaded*10000` overflows int64, and the written value can leave 0..10000.
- All UI construction is left out: widget layout, the DPI arithmetic of `updateDialog`, message boxes and the enabling of buttons other than INSTALL. A reopened downloader dialog is also left out.
- What a `Say` step prints goes to the log pipe. Who reads that log is not modelled.
- Process execution is not modelled: `exec.Command`, `output`, `logReader`, `findADBProcess` with `existingAdbPid`, the single-instance mutex and the kill on exit. Each command's exit status is an input `ok(i)`, and the output of `cmd package list packages -3` is the input `listing`.
- Commands.App.Install: reads the address text once for both its run and the RELOAD that follows. The program's RELOAD, called at main.go:440, reads the box again through its own `connect()` (main.go:448), on a goroutine of its own. Install's deferred `enable()` runs as soon as `reload()` returns, which may run before that goroutine reads the box, so a user who edits the address in that moment is not modelled. Nor is the race between that goroutine's `disable()` and install's `enable()`.
- Commands.App.Uninstall: the same single read of the address for its run and the RELOAD that follows (main.go:483), for the same reason.
- Which error each I/O step returns is an input. The HEAD and the GET can fail only with a `*url.Error` (`UrlError`), as net/http's `client.Do` returns, and that wrapper also covers a cancellation. A cancellation during the body copy is a bare `context.Canceled`. Pipeline.RunPipeline applies the program's `err != context.Canceled` test as written, and Pipeline.ConcludeIntended states the `errors.Is` test that the code evidently intends (see "## Findings").
- Files.JoinPathInjective: paths are compared as exact, case-sensitive strings, and nothing is cleaned. On Windows, names that differ only in case are one file. `filepath.Join` also cleans `.` and `..`, so `a\..\b` and `b` meet at one path. Such archive names are outside this lemma.
- Unzip.ExtractWritesEveryEntry: its distinct-names premise compares names as exact strings, as Files.JoinPathInjective does. On Windows, two entries whose names differ only in case, or that clean to the same path, write one file, and the later entry wins.
- Unzip.ExtractWritesEveryEntry: the disk is a flat map from paths to contents, with no directories. The program at unzip.go:52 never creates parent directories, and it opens a directory entry as a file like any other, so on a fresh image directory an entry `d/` becomes an empty file and a later `d/x` cannot be created. The model leaves whether a create fails to the input `runOf`, so it does not show this.
- The LAN scan of scan.go is not modelled: it is network probing and concurrency.

## Findings

| source | as written | input that shows it | evidently intended | confidence | as-written member | corrected member |
|---|---|---|---|---|---|---|
| download.go:171 | the bar value is `downloaded*10000/total` with no guard, an integer division by zero when the total is 0 | a server whose HEAD gives Content-Length 0 for an empty resource | a full bar when there is nothing to download | not executed | Download.ZeroLengthResourcePanics | Download.ProgressValue |
| unzip.go:32 | the bar value is `(done+add)*10000/total`, and the total sums only declared sizes, so it is 0 for an archive of empty files or of directories only | an archive holding one empty file | a full bar when there is nothing to extract | not executed | Unzip.EmptyFileArchivePanics | Unzip.ExtractValue |
| download.go:183 | `err != context.Canceled` compares the error for identity, but `client.Do` wraps a cancellation in `*url.Error`; a STOP during the HEAD or before the GET's headers arrive therefore deletes the partial file and shows an error box | 4000 bytes on disk, the ranged GET sent, STOP clicked before the response headers arrive | `errors.Is(err, context.Canceled)`, keeping the partial file for the next resume | not executed | Pipeline.CancelBeforeBodyDeletesFile | Pipeline.ConcludeIntended |
| download.go:191 | the run that ends sets `cancelDownload = nil` whether or not the handle is still its own | click (start run 0), click (stop it), click (start run 1), then run 0 ends: run 1 loses its handle, and the next click starts a second unstoppable run beside it | reset the handle and the button only when the handle belongs to the ending run | not executed | Pipeline.LostHandleAsWritten | Pipeline.FinishedKeepsConsistent |
