/** The resumable downloader of download.go: how `downloadFile` decides
    between resuming, reporting an already complete file and restarting,
    what it does to the file, the progress-bar scaling of its samples, and the
    two text helpers `formatSize` and `truncatePath`. The HEAD response and
    the server's answer to the GET are inputs. */
module Download {
  import opened Common
  import opened Text
  import opened Files

  /** The `progress` struct: bytes on disk and the HEAD's Content-Length
      (-1 when the server did not send one). */
  datatype Progress = Progress(downloaded: int, total: int)

  /** What the HEAD request produced (its 2 s timeout and a cancellation
      end in `HeadFailed`, wrapped in a `*url.Error`). `acceptRanges` is the first Accept-Ranges value, ""
      when absent. */
  datatype HeadResult = HeadFailed(err: HttpError) | HeadOk(contentLength: int, acceptRanges: string)

  /** The GET request: the URL and the value of its Range header, if any. */
  datatype GetRequest = GetRequest(url: string, range: Option<string>)

  /** What the GET produced: a failed request (net/http's wrapped error, a
      cancellation before the response headers included), or a body of which
      `bytes` reached the file before `io.Copy` returned `copyErr` (a
      cancellation during the copy surfaces as `context.Canceled` itself). */
  datatype GetResult = GetFailed(err: HttpError) | Body(bytes: Bytes, copyErr: Option<Error>)

  /** Where a download starts: nothing to fetch, or a GET from `start`. */
  datatype Plan = AlreadyComplete | FetchFrom(start: nat)

  /** The decision of download.go:237-245 from the size of the file on disk,
      the Content-Length and whether the server accepts byte ranges. */
  function PlanFor(fileSize: nat, total: int, acceptsRanges: bool): (p: Plan)
    ensures p == AlreadyComplete <==> fileSize > 0 && acceptsRanges && fileSize == total
    ensures (p.FetchFrom? && p.start > 0) <==> fileSize > 0 && acceptsRanges && fileSize < total
    ensures p.FetchFrom? && p.start > 0 ==> p.start == fileSize
  {
    if fileSize > 0 && acceptsRanges then
      if fileSize < total then FetchFrom(fileSize)
      else if fileSize == total then AlreadyComplete
      else FetchFrom(0)
    else FetchFrom(0)
  }

  /** Does the Accept-Ranges value announce byte ranges? */
  predicate AcceptsBytes(acceptRanges: string) {
    Contains(acceptRanges, "bytes")
  }

  /** The Range header value `bytes=<start>-` (section 14.1.2 of RFC 9110:
      from `start` to the end). */
  function RangeValue(start: nat): string {
    "bytes=" + FormatNat(start) + "-"
  }

  /** A server's reading of an open-ended range `bytes=<first>-`. */
  function ParseOpenRange(h: string): Option<nat> {
    if |h| >= 8 && h[..6] == "bytes=" && h[|h| - 1] == '-' && IsDigits(h[6..|h| - 1])
    then Some(ParseNat(h[6..|h| - 1]))
    else None
  }

  /** The header names exactly the offset it was built from. */
  lemma RangeValueRoundTrip(start: nat)
    ensures ParseOpenRange(RangeValue(start)) == Some(start)
  {
    var h := RangeValue(start);
    assert h[..6] == "bytes=";
    assert h[6..|h| - 1] == FormatNat(start);
    ParseFormatNat(start);
  }

  /** The range header a GET from `start` carries: one exactly when resuming. */
  function RangeFor(start: nat): (r: Option<string>)
    ensures r.Some? <==> start > 0
    ensures r.Some? ==> ParseOpenRange(r.value) == Some(start)
  {
    if start > 0 then RangeValueRoundTrip(start); Some(RangeValue(start)) else None
  }

  /** The contents of `path`, or nothing when it does not exist yet. */
  function Existing(files: map<string, Bytes>, path: string): Bytes {
    if path in files then files[path] else []
  }

  /** The effect of one `downloadFile` call: its error, the file's new
      contents, the GET it sent and its final progress sample. */
  datatype Fetched = Fetched(err: Option<Error>, content: Bytes, request: Option<GetRequest>, last: Option<Progress>)

  /** `downloadFile` on a file that holds `existing` (download.go:196-279).
      The file is opened for appending, so the only shortening is the
      explicit truncation before a restart. */
  function Fetch(existing: Bytes, url: string, head: HeadResult, server: GetRequest -> GetResult): (r: Fetched)
    ensures head.HeadFailed? ==> var e: Error := head.err; r.err == Some(e) && r.content == existing && r.request == None && r.last == None
    ensures r.err == None ==> head.HeadOk?
    ensures r.last.Some? <==> head.HeadOk?
    ensures r.last.Some? ==> r.last.value == Progress(|r.content|, head.contentLength)
    ensures r.request.Some? ==> r.request.value.url == url
  {
    match head
    case HeadFailed(e) => Fetched(Some(e), existing, None, None)
    case HeadOk(total, acceptRanges) =>
      match PlanFor(|existing|, total, AcceptsBytes(acceptRanges))
      case AlreadyComplete => Fetched(None, existing, None, Some(Progress(|existing|, total)))
      case FetchFrom(start) =>
        var kept := existing[..start];
        var request := GetRequest(url, RangeFor(start));
        match server(request)
        case GetFailed(e) => Fetched(Some(e), kept, Some(request), Some(Progress(|kept|, total)))
        case Body(bytes, copyErr) => Fetched(copyErr, kept + bytes, Some(request), Some(Progress(|kept| + |bytes|, total)))
  }

  /** `downloadFile`: fetch `url` into `file` on `disk`, resuming where the
      file leaves off when the server allows it. */
  method DownloadFile(disk: Disk, file: string, url: string, head: HeadResult, server: GetRequest -> GetResult)
      returns (err: Option<Error>, sent: Option<GetRequest>, last: Option<Progress>)
    modifies disk
    ensures var d := Fetch(Existing(old(disk.files), file), url, head, server);
      && disk.files == old(disk.files)[file := d.content]
      && err == d.err && sent == d.request && last == d.last
  {
    ghost var before := Existing(disk.files, file);
    disk.OpenAppend(file);
    var fileSize := |disk.files[file]|;
    if head.HeadFailed? {
      return Some(head.err), None, None;
    }
    var total := head.contentLength;
    var start := 0;
    if fileSize > 0 && AcceptsBytes(head.acceptRanges) {
      if fileSize < total {
        start := fileSize;
      } else if fileSize == total {
        return None, None, Some(Progress(fileSize, total));
      }
    }
    if start == 0 {
      disk.Truncate(file);
    }
    assert disk.files[file] == before[..start];
    var range := None;
    if start > 0 {
      range := Some(RangeValue(start));
    }
    var request := GetRequest(url, range);
    sent := Some(request);
    var response := server(request);
    if response.GetFailed? {
      return Some(response.err), sent, Some(Progress(|disk.files[file]|, total));
    }
    disk.Append(file, response.bytes);
    err := response.copyErr;
    last := Some(Progress(|disk.files[file]|, total));
  }

  /** The server holds `remote` at `url` and honours the Range header. */
  ghost predicate Serves(server: GetRequest -> GetResult, url: string, remote: Bytes) {
    && server(GetRequest(url, None)) == Body(remote, None)
    && forall start: nat :: 0 < start < |remote| ==>
         server(GetRequest(url, Some(RangeValue(start)))) == Body(remote[start..], None)
  }

  /** Resuming is sound: when the file on disk is a prefix of the remote
      content and the server honours ranges, one call leaves exactly the
      remote content on disk, and the last sample reports it complete. */
  lemma ResumeCompletesFile(existing: Bytes, remote: Bytes, url: string, acceptRanges: string, server: GetRequest -> GetResult)
    requires existing <= remote
    requires AcceptsBytes(acceptRanges)
    requires Serves(server, url, remote)
    ensures var d := Fetch(existing, url, HeadOk(|remote|, acceptRanges), server);
      d.err == None && d.content == remote && d.last == Some(Progress(|remote|, |remote|))
  {
    var n := |existing|;
    if n == |remote| {
      assert existing == remote;
    } else if n > 0 {
      assert existing + remote[n..] == remote;
    }
  }

  /** The server holds `remote` at `url`, honours the Range header, and may
      cut any transfer short: every body it sends is a prefix of what it
      owes. */
  ghost predicate ServesPrefixes(server: GetRequest -> GetResult, url: string, remote: Bytes) {
    && (server(GetRequest(url, None)).Body? ==> server(GetRequest(url, None)).bytes <= remote)
    && forall start: nat :: 0 < start < |remote| && server(GetRequest(url, Some(RangeValue(start)))).Body? ==>
         server(GetRequest(url, Some(RangeValue(start)))).bytes <= remote[start..]
  }

  /** An interrupted download never corrupts the file: if it held a prefix
      of the remote content, it still does afterwards, whatever the error. */
  lemma InterruptedFetchKeepsPrefix(existing: Bytes, remote: Bytes, url: string, acceptRanges: string, server: GetRequest -> GetResult)
    requires existing <= remote
    requires AcceptsBytes(acceptRanges)
    requires ServesPrefixes(server, url, remote)
    ensures Fetch(existing, url, HeadOk(|remote|, acceptRanges), server).content <= remote
  {
    var n := |existing|;
    if 0 < n < |remote| {
      var r := server(GetRequest(url, Some(RangeValue(n))));
      if r.Body? {
        assert remote == existing + remote[n..];
        assert existing + r.bytes == remote[..n + |r.bytes|];
      }
    } else if n == 0 {
      assert existing[..0] == [];
    }
  }

  /** A Range header is sent if and only if the download resumes, and it
      names the size of the file on disk; no GET at all is sent when the
      file is already complete. */
  lemma RangeSentExactlyWhenResuming(existing: Bytes, url: string, total: int, acceptRanges: string, server: GetRequest -> GetResult)
    ensures var d := Fetch(existing, url, HeadOk(total, acceptRanges), server);
      var resume := |existing| > 0 && AcceptsBytes(acceptRanges);
      && (d.request == None <==> resume && |existing| == total)
      && (d.request.Some? ==> d.request.value.url == url)
      && (d.request.Some? && d.request.value.range.Some? <==> resume && |existing| < total)
      && (d.request.Some? && d.request.value.range.Some? ==> ParseOpenRange(d.request.value.range.value) == Some(|existing|))
  {
  }

  /** Without byte-range support, or when the file is longer than the
      resource, the old contents are dropped and the file holds only what
      the plain GET delivered. */
  lemma RestartDiscardsFile(existing: Bytes, url: string, total: int, acceptRanges: string, server: GetRequest -> GetResult)
    requires !AcceptsBytes(acceptRanges) || |existing| > total || |existing| == 0
    ensures var d := Fetch(existing, url, HeadOk(total, acceptRanges), server);
      && d.request == Some(GetRequest(url, None))
      && d.content == match server(GetRequest(url, None)) case GetFailed(_) => [] case Body(bytes, _) => bytes
  {
    assert existing[..0] == [];
  }

  /** What download.go:237-251 retains of the old file before the GET. */
  function Retained(existing: Bytes, head: HeadResult): nat {
    match head
    case HeadFailed(_) => |existing|
    case HeadOk(total, acceptRanges) =>
      match PlanFor(|existing|, total, AcceptsBytes(acceptRanges))
      case AlreadyComplete => |existing|
      case FetchFrom(start) => start
  }

  /** Append semantics: whatever happens, the file keeps the retained prefix
      of its old contents and grows only at the end. */
  lemma FetchKeepsRetainedPrefix(existing: Bytes, url: string, head: HeadResult, server: GetRequest -> GetResult)
    ensures var d := Fetch(existing, url, head, server); var k := Retained(existing, head);
      k <= |existing| && k <= |d.content| && d.content[..k] == existing[..k]
  {
  }

  /** The scenario of a 10,000-byte resource whose first download was
      stopped after 4,000 bytes: the next run asks for `bytes=4000-` and
      ends with the whole resource on disk. */
  lemma ResumeAfterStopAt4000(remote: Bytes, url: string, server: GetRequest -> GetResult)
    requires |remote| == 10000 && Serves(server, url, remote)
    ensures var d := Fetch(remote[..4000], url, HeadOk(10000, "bytes"), server);
      && d.request == Some(GetRequest(url, Some("bytes=4000-")))
      && d.content == remote && d.err == None
  {
    assert OccursAt("bytes", "bytes", 0);
    RangeFrom4000();
    ResumeCompletesFile(remote[..4000], remote, url, "bytes", server);
  }

  /** The Range header asking for everything from byte 4000 on. */
  lemma RangeFrom4000()
    ensures RangeValue(4000) == "bytes=4000-"
  {
    assert DigitChar(0) == '0' && DigitChar(4) == '4';
    assert FormatNat(4) == "4";
    assert FormatNat(40) == FormatNat(4) + [DigitChar(0)] == "40";
    assert FormatNat(400) == FormatNat(40) + [DigitChar(0)] == "400";
    assert FormatNat(4000) == FormatNat(400) + [DigitChar(0)] == "4000";
  }

  /** The documented risk: a server that answers a ranged request with the
      whole body leaves the old prefix followed by the full resource. */
  lemma IgnoredRangeDuplicatesPrefix(existing: Bytes, remote: Bytes, url: string, server: GetRequest -> GetResult)
    requires 0 < |existing| < |remote|
    requires server(GetRequest(url, Some(RangeValue(|existing|)))) == Body(remote, None)
    ensures var d := Fetch(existing, url, HeadOk(|remote|, "bytes"), server);
      d.content == existing + remote && |d.content| > |remote|
  {
    assert OccursAt("bytes", "bytes", 0);
  }

  /** The progress-bar value of download.go:171 AS WRITTEN, in int64
      arithmetic; `None` is Go's run-time panic on division by zero. */
  function ProgressValueAsWritten(p: Progress): (v: Option<int>)
    ensures v == None <==> p.total == 0
  {
    if p.total == 0 then None
    else Some(WrapInt64(Quo(WrapInt64(p.downloaded * 10000), p.total)))
  }

  /** The scaling with the zero-length resource counted as complete, as the
      0..10000 bar evidently intends; otherwise identical to the source. */
  function ProgressValue(p: Progress): (v: int)
    ensures p.total != 0 ==> ProgressValueAsWritten(p) == Some(v)
    ensures p.total == 0 ==> v == 10000
  {
    if p.total == 0 then 10000
    else WrapInt64(Quo(WrapInt64(p.downloaded * 10000), p.total))
  }

  /** For a resource of known size the bar stays within 0..10000 while the
      file is no longer than the resource (and the product fits in int64). */
  lemma ProgressValueInRange(p: Progress)
    requires 0 <= p.downloaded <= p.total <= MaxScalable
    ensures 0 <= ProgressValue(p) <= 10000
  {
    if p.total > 0 {
      ScaledWithin(p.downloaded, p.total);
      ScaledValue(p.downloaded * 10000, p.total);
    }
  }

  /** Neither int64 conversion nor Go's truncating division moves a
      scaled count that fits in int64 out of the bar's range. */
  lemma ScaledValue(a: int, t: int)
    requires 0 <= a <= MaxInt64 && t > 0 && 0 <= a / t <= 10000
    ensures 0 <= WrapInt64(Quo(WrapInt64(a), t)) <= 10000
  {
    assert WrapInt64(a) == a;
    var q := a / t;
    assert Quo(a, t) == q;
    assert WrapInt64(q) == q;
  }

  /** Scaling a count no larger than its total stays within int64 and
      within 10000 of the total. */
  lemma ScaledWithin(d: int, t: int)
    requires 0 <= d <= t <= MaxScalable && t > 0
    ensures 0 <= d * 10000 <= MaxInt64 && 0 <= (d * 10000) / t <= 10000
  {
    MulMonotone(d, t, 10000);
    MulMonotone(t, MaxScalable, 10000);
    DivAtMost(d * 10000, t, 10000);
    DivNonNegative(d * 10000, t);
  }

  /** A complete file fills the bar. */
  lemma ProgressValueFullWhenComplete(p: Progress)
    requires 0 <= p.downloaded == p.total <= MaxScalable
    ensures ProgressValue(p) == 10000
  {
    if p.total > 0 {
      var a := p.downloaded * 10000;
      MulMonotone(p.total, MaxScalable, 10000);
      assert a <= MaxInt64;
      assert WrapInt64(a) == a;
      assert Quo(a, p.total) == a / p.total;
      DivUnique(a, p.total, 10000, 0);
    }
  }

  /** The largest count whose product with 10000 fits in an int64. */
  const MaxScalable: int := 922_337_203_685_477

  lemma MaxScalableIsLargest()
    ensures MaxScalable * 10000 <= MaxInt64 < (MaxScalable + 1) * 10000
  {
  }

  /** The input that shows the division by zero: a resource whose HEAD
      reports Content-Length 0. Every plan fetches it from byte 0, the final
      sample is {0, 0}, and the source's scaling of that sample panics. */
  lemma ZeroLengthResourcePanics(existing: Bytes, url: string, acceptRanges: string, server: GetRequest -> GetResult)
    requires server(GetRequest(url, None)) == Body([], None)
    ensures var d := Fetch(existing, url, HeadOk(0, acceptRanges), server);
      && d.err == None && d.last == Some(Progress(0, 0))
      && ProgressValueAsWritten(d.last.value) == None
      && ProgressValue(d.last.value) == 10000
  {
    assert existing[..0] == [];
  }

  /** 1024 to the power `k`. */
  function Pow1024(k: nat): (p: nat)
    ensures p >= 1
  {
    if k == 0 then 1 else 1024 * Pow1024(k - 1)
  }

  lemma Pow1024Monotone(j: nat, k: nat)
    requires j <= k
    ensures Pow1024(j) <= Pow1024(k)
    decreases k
  {
    if j < k {
      Pow1024Monotone(j, k - 1);
    }
  }

  /** `formatSize`'s choice: the byte count itself below 1 KiB, otherwise a
      divisor 1024^(exp+1) and the unit letter `"KMGTPE"[exp]` (the
      `%.2f` rendering of the quotient is not modelled). */
  datatype SizeText = Plain(text: string) | Scaled(div: nat, exp: nat, unit: char)

  /** A quotient is determined by any exact remainder decomposition. */
  lemma DivUnique(b: int, m: int, q: int, r: int)
    requires m > 0 && 0 <= r < m && b == m * q + r
    ensures b / m == q
  {
    var q0, r0 := b / m, b % m;
    assert m * (q - q0) == r0 - r;
    if q > q0 {
      MulAtLeast(m, q - q0);
    } else if q < q0 {
      MulAtLeast(m, q0 - q);
    }
  }

  lemma MulAtLeast(m: int, k: int)
    requires m > 0 && k >= 1
    ensures m * k >= m
  {
  }

  lemma DivDiv(b: nat, d: nat, k: nat)
    requires d > 0 && k > 0
    ensures b / d / k == b / (d * k)
  {
    var q, r := b / d, b % d;
    var q2, r2 := q / k, q % k;
    MulSplit(d, q, k, q2, r2);
    MulBelow(d, r2, k);
    DivUnique(b, d * k, q2, d * r2 + r);
  }

  lemma MulSplit(d: int, q: int, k: int, q2: int, r2: int)
    requires q == k * q2 + r2
    ensures d * q == (d * k) * q2 + d * r2
  {
  }

  lemma MulBelow(d: nat, r2: nat, k: nat)
    requires d > 0 && r2 < k
    ensures d * r2 + d <= d * k
  {
    assert d * r2 + d == d * (r2 + 1);
  }

  /** `formatSize`: plain bytes below 1024, otherwise the largest power of
      1024 not above `b`; for int64 input the unit never passes E. */
  method FormatSize(b: Int64) returns (r: SizeText)
    ensures b < 1024 ==> r == Plain(FormatInt(b) + " B")
    ensures b >= 1024 ==>
      && r.Scaled? && r.exp <= 5 && r.unit == "KMGTPE"[r.exp]
      && r.div == Pow1024(r.exp + 1) && r.div <= b < 1024 * r.div
  {
    if b < 1024 {
      return Plain(FormatInt(b) + " B");
    }
    var div, exp := 1024, 0;
    var n := b / 1024;
    while n >= 1024
      invariant exp <= 5 && div == Pow1024(exp + 1) && div <= b && n == b / div
      decreases n
    {
      DivDiv(b, div, 1024);
      AtLeastNextPower(b, div);
      if exp == 5 {
        assert false;
      }
      div := div * 1024;
      exp := exp + 1;
      n := n / 1024;
    }
    BelowNextPower(b, div);
    return Scaled(div, exp, "KMGTPE"[exp]);
  }

  /** A quotient of at least 1024 puts `b` at or above 1024 divisors. */
  lemma AtLeastNextPower(b: nat, div: nat)
    requires div > 0 && b / div >= 1024
    ensures 1024 * div <= b
  {
    var n := b / div;
    assert b == div * n + b % div;
    MulMonotone(1024, n, div);
  }

  /** A quotient below 1024 puts `b` below 1024 divisors. */
  lemma BelowNextPower(b: nat, div: nat)
    requires div > 0 && b / div < 1024
    ensures b < 1024 * div
  {
    var n := b / div;
    assert b == div * n + b % div;
    MulMonotone(n, 1023, div);
  }

  /** The bracket `1024^(exp+1) <= b < 1024^(exp+2)` fixes the unit: no two
      exponents satisfy it for the same size. */
  lemma SizeUnitUnique(b: int, e1: nat, e2: nat)
    requires Pow1024(e1 + 1) <= b < 1024 * Pow1024(e1 + 1)
    requires Pow1024(e2 + 1) <= b < 1024 * Pow1024(e2 + 1)
    ensures e1 == e2
  {
    if e1 < e2 {
      Pow1024Monotone(e1 + 2, e2 + 1);
    } else if e2 < e1 {
      Pow1024Monotone(e2 + 2, e1 + 1);
    }
  }

  /** `i + 1` leading and `i + 1` trailing components leave something to
      elide in between. */
  predicate Elidable(parts: seq<string>, i: int) {
    0 <= i && i + 1 < |parts| - 1 - i
  }

  /** The first `i + 1` components, "...", the last `i + 1` components. */
  function Elide(parts: seq<string>, i: int): string
    requires Elidable(parts, i)
  {
    Join(parts[..i + 1] + ["..."] + parts[|parts| - 1 - i..], Separator)
  }

  /** `t` is the elision keeping fewest components that is at least `size`
      bytes long. */
  predicate FirstLongEnough(parts: seq<string>, size: int, t: string) {
    exists i :: 0 <= i < |parts| && Elidable(parts, i) && t == Elide(parts, i) && size <= ByteLength(t)
                && forall j :: 0 <= j < i ==> ByteLength(Elide(parts, j)) < size
  }

  /** Every elision of `parts` is shorter than `size` bytes. */
  predicate AllTooShort(parts: seq<string>, size: int) {
    forall j :: 0 <= j < |parts| && Elidable(parts, j) ==> ByteLength(Elide(parts, j)) < size
  }

  /** `truncatePath`: a path that fits is kept; otherwise the result is the
      first elision (fewest components kept) that is at least `size` long,
      or the whole path when every elision is shorter than `size`. Lengths
      are Go's `len`, in bytes of UTF-8. */
  method TruncatePath(path: string, size: int) returns (truncated: string)
    ensures ByteLength(path) <= size ==> truncated == path
    ensures size < ByteLength(path) && size <= 0 ==> truncated == ""
    ensures size < ByteLength(path) && 0 < size ==>
      || FirstLongEnough(Split(path, Separator), size, truncated)
      || (truncated == path && AllTooShort(Split(path, Separator), size))
  {
    if ByteLength(path) <= size {
      return path;
    }
    var parts := Split(path, Separator);
    truncated := "";
    var i := 0;
    ghost var exhausted := false;
    while ByteLength(truncated) < size
      invariant 0 <= i && (size <= 0 ==> i == 0)
      invariant i == 0 ==> truncated == ""
      invariant i > 0 ==> Elidable(parts, i - 1) && truncated == Elide(parts, i - 1)
      invariant forall j :: 0 <= j < i - 1 ==> ByteLength(Elide(parts, j)) < size
      decreases |parts| - i
    {
      var a, b := i + 1, |parts| - 1 - i;
      if a >= b {
        forall j | Elidable(parts, j)
          ensures ByteLength(Elide(parts, j)) < size
        {
          assert j < i;
          if j == i - 1 {
            assert truncated == Elide(parts, j);
          }
        }
        truncated := path;
        exhausted := true;
        break;
      }
      truncated := Join(parts[..a] + ["..."] + parts[b..], Separator);
      i := i + 1;
    }
    if 0 < size && !exhausted {
      assert Elidable(parts, i - 1) && size <= ByteLength(truncated);
    }
  }

  /** Total bytes of the parts. */
  function TotalLength(parts: seq<string>): nat {
    if parts == [] then 0 else ByteLength(parts[0]) + TotalLength(parts[1..])
  }

  lemma {:induction false} TotalLengthAppend(a: seq<string>, b: seq<string>)
    ensures TotalLength(a + b) == TotalLength(a) + TotalLength(b)
    decreases |a|
  {
    if a != [] {
      assert (a + b)[1..] == a[1..] + b;
      TotalLengthAppend(a[1..], b);
    } else {
      assert a + b == b;
    }
  }

  /** A joined path is as long as its parts plus one byte per separator. */
  lemma {:induction false} JoinLength(parts: seq<string>)
    requires parts != []
    ensures ByteLength(Join(parts, Separator)) == TotalLength(parts) + |parts| - 1
    decreases |parts|
  {
    if |parts| > 1 {
      JoinLength(parts[1..]);
      var rest := Join(parts[1..], Separator);
      ByteLengthAppend(parts[0] + [Separator], rest);
      ByteLengthAppend(parts[0], [Separator]);
    }
  }

  /** The bytes of an elision: its kept components, "..." and one
      separator between each pair. */
  function ElisionBytes(parts: seq<string>, i: nat): nat
    requires Elidable(parts, i)
  {
    TotalLength(parts[..i + 1]) + TotalLength(parts[|parts| - 1 - i..]) + 3 + 2 * i + 2
  }

  lemma ElideLength(parts: seq<string>, i: nat)
    requires Elidable(parts, i)
    ensures ByteLength(Elide(parts, i)) == ElisionBytes(parts, i)
  {
    var head, tail := parts[..i + 1], parts[|parts| - 1 - i..];
    var kept := head + ["..."] + tail;
    JoinLength(kept);
    TotalLengthAppend(head + ["..."], tail);
    TotalLengthAppend(head, ["..."]);
    assert TotalLength(["..."]) == 3;
  }

  /** Each further step keeps two more components, so the elisions grow
      strictly: the one `truncatePath` returns is the shortest that is at
      least `size` long. */
  lemma ElisionGrows(parts: seq<string>, i: nat)
    requires Elidable(parts, i + 1)
    ensures ByteLength(Elide(parts, i)) < ByteLength(Elide(parts, i + 1))
  {
    ElideLength(parts, i);
    ElideLength(parts, i + 1);
    ElisionBytesGrow(parts, i);
  }

  /** Keeping one more component at each end adds its bytes and two
      separators. */
  lemma ElisionBytesGrow(parts: seq<string>, i: nat)
    requires Elidable(parts, i + 1)
    ensures ElisionBytes(parts, i) < ElisionBytes(parts, i + 1)
  {
    var n := |parts|;
    assert parts[..i + 1 + 1] == parts[..i + 1] + [parts[i + 1]];
    TotalLengthAppend(parts[..i + 1], [parts[i + 1]]);
    assert parts[n - 1 - (i + 1)..] == [parts[n - 1 - (i + 1)]] + parts[n - 1 - i..];
    TotalLengthAppend([parts[n - 1 - (i + 1)]], parts[n - 1 - i..]);
  }
}
