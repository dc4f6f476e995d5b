/** The command planning of main.go: `connect`, the short-circuit step
    runner shared by VIEW, FLASH, INSTALL, RELOAD and UNINSTALL, the label
    built by SELECT..., and the parsing of the installed-package list.

    A step is what main.go keeps as a `func() bool`: launching a command
    (`run`), writing a log line (`println`) or recording the connected
    address (the closure at the end of `connect`). Whether a launched
    command succeeds is an input: `ok(i)` is the outcome of the `i`-th step
    of a run. */
module Commands {
  import opened Common
  import opened Text
  import opened Files

  datatype Step = Exec(argv: seq<string>) | Say(line: string) | Remember(addr: string)

  /** `run("cmd", "/c", `lib\adb.exe`, args...)`. */
  function Adb(args: seq<string>): Step {
    Exec(["cmd", "/c", "lib\\adb.exe"] + args)
  }

  /** `run("cmd", "/c", filepath.Join(imageDir, "fastboot.exe"), args...)`. */
  function Fastboot(imageDir: string, args: seq<string>): Step {
    Exec(["cmd", "/c", JoinPath(imageDir, "fastboot.exe")] + args)
  }

  /** `fastboot flash <partition> <image>` with the image under `imageDir`. */
  function FlashImage(imageDir: string, partition: string, image: string): (s: Step)
    ensures FlashesFrom(s, imageDir, [], partition, image)
  {
    Fastboot(imageDir, ["flash", partition, JoinPath(imageDir, image)])
  }

  /** The same flash sent in chunks of `chunk` bytes (`-S`). */
  function FlashSparse(imageDir: string, chunk: string, partition: string, image: string): (s: Step)
    ensures FlashesFrom(s, imageDir, ["-S", chunk], partition, image)
  {
    Fastboot(imageDir, ["flash", "-S", chunk, partition, JoinPath(imageDir, image)])
  }

  /** What a step returns: a command reports its own exit status, logging
      and recording always return true. */
  predicate Succeeds(s: Step, exitOk: bool) {
    if s.Exec? then exitOk else true
  }

  predicate NoRemember(steps: seq<Step>) {
    forall k :: 0 <= k < |steps| ==> !steps[k].Remember?
  }

  // ----- the step runner (main.go:349-353 and its copies) -----

  /** The position of the first step that returns false, or `|steps|` when
      every step returns true. */
  function FirstFailure(steps: seq<Step>, ok: nat -> bool): (i: nat)
    ensures i <= |steps|
    ensures forall j :: 0 <= j < i ==> Succeeds(steps[j], ok(j))
    ensures i < |steps| ==> !Succeeds(steps[i], ok(i))
  {
    if steps == [] then 0
    else
      var f := FirstFailure(steps[..|steps| - 1], ok);
      if f < |steps| - 1 then f
      else if Succeeds(steps[|steps| - 1], ok(|steps| - 1)) then |steps|
      else |steps| - 1
  }

  /** How many steps the runner calls: all of them, or up to and including
      the first that fails. */
  function Invoked(steps: seq<Step>, ok: nat -> bool): (n: nat)
    ensures n <= |steps|
  {
    var f := FirstFailure(steps, ok);
    if f < |steps| then f + 1 else |steps|
  }

  /** `lastAdbAddress` after the given steps were performed in order. */
  function RememberedAfter(last: string, steps: seq<Step>): string {
    if steps == [] then last
    else if steps[|steps| - 1].Remember? then steps[|steps| - 1].addr
    else RememberedAfter(last, steps[..|steps| - 1])
  }

  /** Once a step fails, what follows it is never called: appending steps
      after a failing sequence changes nothing about the run. */
  lemma NoStepAfterFailure(a: seq<Step>, b: seq<Step>, ok: nat -> bool)
    requires FirstFailure(a, ok) < |a|
    ensures FirstFailure(a + b, ok) == FirstFailure(a, ok)
    ensures Invoked(a + b, ok) == Invoked(a, ok)
    ensures (a + b)[..Invoked(a + b, ok)] == a[..Invoked(a, ok)]
  {
    var f := FirstFailure(a, ok);
    var g := FirstFailure(a + b, ok);
    assert (a + b)[f] == a[f];
  }

  /** Every step called before the last one called returned true. */
  lemma CalledStepsSucceeded(steps: seq<Step>, ok: nat -> bool, j: nat)
    requires j + 1 < Invoked(steps, ok)
    ensures Succeeds(steps[j], ok(j))
  {
  }

  /** Steps that do not record an address leave `lastAdbAddress` alone. */
  lemma {:induction false} RememberedAfterNoRemember(last: string, a: seq<Step>, b: seq<Step>)
    requires NoRemember(b)
    ensures RememberedAfter(last, a + b) == RememberedAfter(last, a)
    decreases |b|
  {
    if b == [] {
      assert a + b == a;
    } else {
      var c := b[..|b| - 1];
      assert (a + b)[..|a + b| - 1] == a + c;
      assert (a + b)[|a + b| - 1] == b[|b| - 1];
      RememberedAfterNoRemember(last, a, c);
    }
  }

  // ----- connect (main.go:317-335) -----

  /** The steps `connect` returns for the trimmed address `addr`. */
  function ConnectSteps(last: string, addr: string): seq<Step> {
    if addr == last || addr == "" then []
    else [Adb(["disconnect"]), Adb(["connect", addr]), Remember(addr)]
  }

  /** `lastAdbAddress` right after `connect` itself returned: an empty
      address clears it, anything else leaves it for the steps to set. */
  function Connected(last: string, addr: string): string {
    if addr == "" then "" else last
  }

  /** A new address is recorded only when both `adb disconnect` and
      `adb connect` succeeded, whatever steps follow; and so the next
      `connect` with the same address is skipped exactly when this one
      succeeded. */
  lemma ConnectRemembersOnSuccess(last: string, addr: string, rest: seq<Step>, ok: nat -> bool)
    requires addr != last && addr != ""
    requires NoRemember(rest)
    ensures var steps := ConnectSteps(last, addr) + rest;
      var after := RememberedAfter(Connected(last, addr), steps[..Invoked(steps, ok)]);
      && (after == if ok(0) && ok(1) then addr else last)
      && (ConnectSteps(after, addr) == [] <==> ok(0) && ok(1))
  {
    var conn := ConnectSteps(last, addr);
    var steps := conn + rest;
    assert steps[0] == conn[0] && steps[1] == conn[1] && steps[2] == conn[2];
    var n := Invoked(steps, ok);
    if !ok(0) {
      assert FirstFailure(steps, ok) == 0;
      assert steps[..n] == [conn[0]];
      assert RememberedAfter(last, steps[..n]) == RememberedAfter(last, []);
    } else if !ok(1) {
      assert FirstFailure(steps, ok) == 1;
      assert steps[..n] == [conn[0], conn[1]];
      assert steps[..n][..1] == [conn[0]];
      assert RememberedAfter(last, steps[..n]) == RememberedAfter(last, [conn[0]]) == RememberedAfter(last, []);
    } else {
      assert FirstFailure(steps, ok) >= 3;
      var tail := rest[..n - 3];
      assert steps[..n] == conn + tail;
      assert forall k :: 0 <= k < |tail| ==> tail[k] == rest[k];
      RememberedAfterNoRemember(last, conn, tail);
      assert RememberedAfter(last, conn) == addr;
    }
  }

  /** After a run that completed, `connect` has nothing left to do for the
      same address: it succeeded, or was skipped or cleared. */
  lemma CompletedRunIsConnected(last: string, text: string, extra: seq<Step>, ok: nat -> bool)
    requires NoRemember(extra)
    requires var steps := ConnectSteps(last, TrimSpace(text)) + extra; FirstFailure(steps, ok) == |steps|
    ensures var addr := TrimSpace(text);
      var steps := ConnectSteps(last, addr) + extra;
      ConnectSteps(RememberedAfter(Connected(last, addr), steps), addr) == []
  {
    var addr := TrimSpace(text);
    var conn := ConnectSteps(last, addr);
    var steps := conn + extra;
    if conn == [] {
      RememberedAfterNoRemember(Connected(last, addr), [], extra);
      assert steps == [] + extra;
    } else {
      ConnectRemembersOnSuccess(last, addr, extra, ok);
      assert steps[0] == conn[0] && steps[1] == conn[1];
      assert steps[..Invoked(steps, ok)] == steps;
    }
  }

  // ----- the fixed plans of VIEW and FLASH -----

  /** VIEW (main.go:342-345): list the devices, then start scrcpy. */
  const ViewSteps: seq<Step> := [Adb(["devices"]), Exec(["cmd", "/c", "lib\\scrcpy.exe"])]

  /** The partitions FLASH writes, in order, and the image file each one
      takes from the image directory. */
  const FlashPartitions: seq<string> := ["devcfg", "devcfgbak", "dsp", "cache", "aboot", "boot", "persist", "recovery", "system", "userdata"]
  const FlashImages: seq<string> := ["devcfg.mbn", "devcfg.mbn", "adspso.bin", "cache.img", "emmc_appsboot.mbn", "boot.img", "persist.img", "recovery.img", "system.img", "userdata.img"]

  /** The options each flash passes before the partition: only `system` is
      flashed in sparse chunks of 500M. */
  const FlashOptions: seq<seq<string>> := [[], [], [], [], [], [], [], [], ["-S", "500M"], []]

  /** `s` runs `fastboot flash <options> <partition> <image>` with the
      fastboot of `imageDir` and an image file inside it. */
  predicate FlashesFrom(s: Step, imageDir: string, options: seq<string>, partition: string, image: string) {
    s == Exec(["cmd", "/c", JoinPath(imageDir, "fastboot.exe"), "flash"] + options + [partition, JoinPath(imageDir, image)])
  }

  /** FLASH (main.go:369-382): reboot into the bootloader, flash every
      partition from the image directory, reboot. */
  function FlashSteps(imageDir: string): (steps: seq<Step>)
    ensures |steps| == 2 + |FlashPartitions|
    ensures steps[0] == Adb(["reboot", "bootloader"])
    ensures steps[|steps| - 1] == Fastboot(imageDir, ["reboot"])
    ensures forall k :: 0 <= k < |FlashPartitions| ==>
      FlashesFrom(steps[k + 1], imageDir, FlashOptions[k], FlashPartitions[k], FlashImages[k])
  {
    [ Adb(["reboot", "bootloader"]),
      FlashImage(imageDir, "devcfg", "devcfg.mbn"),
      FlashImage(imageDir, "devcfgbak", "devcfg.mbn"),
      FlashImage(imageDir, "dsp", "adspso.bin"),
      FlashImage(imageDir, "cache", "cache.img"),
      FlashImage(imageDir, "aboot", "emmc_appsboot.mbn"),
      FlashImage(imageDir, "boot", "boot.img"),
      FlashImage(imageDir, "persist", "persist.img"),
      FlashImage(imageDir, "recovery", "recovery.img"),
      FlashSparse(imageDir, "500M", "system", "system.img"),
      FlashImage(imageDir, "userdata", "userdata.img"),
      Fastboot(imageDir, ["reboot"]) ]
  }

  /** No partition is written unless the connect steps and the reboot into
      the bootloader all succeeded; the flashes happen in the listed order
      and each stops the rest when it fails. */
  lemma FlashNeedsBootloader(conn: seq<Step>, imageDir: string, ok: nat -> bool, j: nat)
    requires var steps := conn + FlashSteps(imageDir); |conn| < j < Invoked(steps, ok)
    ensures forall k :: 0 <= k < |conn| ==> Succeeds(conn[k], ok(k))
    ensures ok(|conn|)
  {
    var steps := conn + FlashSteps(imageDir);
    forall k | 0 <= k < |conn|
      ensures Succeeds(conn[k], ok(k))
    {
      assert steps[k] == conn[k];
    }
    assert steps[|conn|] == Adb(["reboot", "bootloader"]);
  }

  // ----- INSTALL and UNINSTALL (main.go:423-431, 468-474) -----

  /** The trimmed selected paths that are not blank, in order. */
  function NonBlank(paths: seq<string>): seq<string> {
    if paths == [] then []
    else
      var apk := TrimSpace(paths[|paths| - 1]);
      NonBlank(paths[..|paths| - 1]) + (if apk != "" then [apk] else [])
  }

  /** The pair of steps queued for one selected path. */
  function InstallPair(path: string): seq<Step> {
    var apk := TrimSpace(path);
    if apk != "" then [Say("Installing " + apk), Adb(["install", "-r", apk])] else []
  }

  /** The steps `install` appends to those of `connect`. */
  function InstallPlan(paths: seq<string>): seq<Step> {
    if paths == [] then [] else InstallPlan(paths[..|paths| - 1]) + InstallPair(paths[|paths| - 1])
  }

  /** The loop of main.go:423-431. */
  method InstallSteps(paths: seq<string>) returns (steps: seq<Step>)
    ensures steps == InstallPlan(paths)
  {
    steps := [];
    for i := 0 to |paths|
      invariant steps == InstallPlan(paths[..i])
    {
      var apk := TrimSpace(paths[i]);
      if apk != "" {
        steps := steps + [Say("Installing " + apk), Adb(["install", "-r", apk])];
      }
      assert paths[..i + 1][..i] == paths[..i];
    }
    assert paths[..|paths|] == paths;
  }

  /** `plan` is one log line and one `adb install -r` for each of `apks`,
      in order, the line directly before the install it announces. */
  predicate PairedWith(plan: seq<Step>, apks: seq<string>) {
    && |plan| == 2 * |apks|
    && forall k :: 0 <= k < |apks| ==>
         plan[2 * k] == Say("Installing " + apks[k]) && plan[2 * k + 1] == Adb(["install", "-r", apks[k]])
  }

  lemma PairedWithAppend(plan: seq<Step>, apks: seq<string>, apk: string)
    requires PairedWith(plan, apks)
    ensures PairedWith(plan + [Say("Installing " + apk), Adb(["install", "-r", apk])], apks + [apk])
  {
  }

  /** Exactly the non-blank paths are installed, trimmed: every one of them
      and nothing else, each announced by a log line directly before it. */
  lemma {:induction false} InstallPlanPairs(paths: seq<string>)
    ensures PairedWith(InstallPlan(paths), NonBlank(paths))
    decreases |paths|
  {
    if paths != [] {
      var init := paths[..|paths| - 1];
      InstallPlanPairs(init);
      var apk := TrimSpace(paths[|paths| - 1]);
      if apk != "" {
        PairedWithAppend(InstallPlan(init), NonBlank(init), apk);
      } else {
        assert InstallPlan(paths) == InstallPlan(init) + [];
        assert NonBlank(paths) == NonBlank(init) + [];
      }
    }
  }

  /** Every installed name is the trim of a selected path, never blank. */
  lemma {:induction false} NonBlankSound(paths: seq<string>)
    ensures forall k :: 0 <= k < |NonBlank(paths)| ==>
      NonBlank(paths)[k] != "" && exists i :: 0 <= i < |paths| && TrimSpace(paths[i]) == NonBlank(paths)[k]
    decreases |paths|
  {
    if paths != [] {
      var init := paths[..|paths| - 1];
      NonBlankSound(init);
      var apks, before := NonBlank(paths), NonBlank(init);
      forall k | 0 <= k < |apks|
        ensures apks[k] != "" && exists i :: 0 <= i < |paths| && TrimSpace(paths[i]) == apks[k]
      {
        if k < |before| {
          assert apks[k] == before[k];
          var i :| 0 <= i < |init| && TrimSpace(init[i]) == before[k];
          assert paths[i] == init[i];
        } else {
          assert TrimSpace(paths[|paths| - 1]) == apks[k];
        }
      }
    }
  }

  /** Every selected path that is not blank is installed. */
  lemma {:induction false} NonBlankComplete(paths: seq<string>)
    ensures forall i :: 0 <= i < |paths| && TrimSpace(paths[i]) != "" ==> TrimSpace(paths[i]) in NonBlank(paths)
    decreases |paths|
  {
    if paths != [] {
      var init := paths[..|paths| - 1];
      NonBlankComplete(init);
      var apk := TrimSpace(paths[|paths| - 1]);
      var apks := NonBlank(init) + (if apk != "" then [apk] else []);
      assert NonBlank(paths) == apks;
      forall i | 0 <= i < |paths| && TrimSpace(paths[i]) != ""
        ensures TrimSpace(paths[i]) in apks
      {
        if i < |init| {
          assert paths[i] == init[i];
          assert TrimSpace(init[i]) in NonBlank(init);
        }
      }
    }
  }

  /** The steps `uninstall` appends: nothing for a blank package name. */
  function UninstallPlan(text: string): (steps: seq<Step>)
    ensures steps == [] <==> TrimSpace(text) == ""
    ensures steps != [] ==> steps == [Say("Uninstalling " + TrimSpace(text)), Adb(["uninstall", TrimSpace(text)])]
  {
    var pkg := TrimSpace(text);
    if pkg != "" then [Say("Uninstalling " + pkg), Adb(["uninstall", pkg])] else []
  }

  /** UNINSTALL's plan never changes the remembered address; the package
      it passes to `adb uninstall` is trimmed and non-blank; and trimming
      the box's text beforehand gives the same plan. */
  lemma UninstallPlanTrimmed(text: string)
    ensures NoRemember(UninstallPlan(text))
    ensures UninstallPlan(TrimSpace(text)) == UninstallPlan(text)
    ensures var steps := UninstallPlan(text);
      steps != [] ==>
        && steps[1].Exec? && |steps[1].argv| == 5
        && steps[1].argv[4] != "" && TrimSpace(steps[1].argv[4]) == steps[1].argv[4]
  {
    TrimSpaceIdempotent(text);
  }

  lemma {:induction false} InstallPlanNoRemember(paths: seq<string>)
    ensures NoRemember(InstallPlan(paths))
    decreases |paths|
  {
    if paths != [] {
      InstallPlanNoRemember(paths[..|paths| - 1]);
    }
  }

  // ----- the SELECT... label (main.go:400-414) -----

  /** One selected file: a link to its path showing its base name. */
  function Link(p: string): string {
    "<a href=\"" + p + "\">" + Base(p) + "</a>"
  }

  const FilesSuffix := " file(s)"

  /** The label for the selection: the first two files as links, then how
      many more there are. */
  function Label(paths: seq<string>): string {
    if |paths| == 0 then "No file selected"
    else if |paths| == 1 then Link(paths[0])
    else if |paths| == 2 then Link(paths[0]) + ", " + Link(paths[1])
    else Link(paths[0]) + ", " + Link(paths[1]) + " and " + FormatNat(|paths| - 2) + FilesSuffix
  }

  /** The links of the first `i` files, for `i` up to 2. */
  function Links(paths: seq<string>, i: nat): string
    requires i <= 2 && i <= |paths|
  {
    if i == 0 then "" else if i == 1 then Link(paths[0]) else Link(paths[0]) + ", " + Link(paths[1])
  }

  /** The loop of main.go:400-414, which stops at the third file. */
  method SelectionLabel(paths: seq<string>) returns (text: string)
    ensures text == Label(paths)
  {
    if |paths| > 0 {
      text := "";
      var i := 0;
      while i < |paths|
        invariant 0 <= i <= 2 && i <= |paths|
        invariant text == Links(paths, i)
      {
        if i > 1 {
          text := text + " and " + FormatInt(|paths| - i) + FilesSuffix;
          return;
        } else if i > 0 {
          text := text + ", ";
        }
        text := text + Link(paths[i]);
        i := i + 1;
      }
    } else {
      text := "No file selected";
    }
  }

  /** Number of decimal digits at the end of `s`. */
  function TrailingDigits(s: string): (n: nat)
    ensures n <= |s|
    ensures forall k :: |s| - n <= k < |s| ==> '0' <= s[k] <= '9'
  {
    if s == [] || !('0' <= s[|s| - 1] <= '9') then 0 else 1 + TrailingDigits(s[..|s| - 1])
  }

  lemma {:induction false} TrailingDigitsIs(s: string, k: nat)
    requires k < |s| && IsDigits(s[|s| - k..]) && !('0' <= s[|s| - 1 - k] <= '9')
    ensures TrailingDigits(s) == k
    decreases k
  {
    if k > 0 {
      assert s[|s| - 1] == s[|s| - k..][k - 1];
      var t := s[..|s| - 1];
      var u, v := t[|t| - (k - 1)..], s[|s| - k..];
      forall j | 0 <= j < |u|
        ensures '0' <= u[j] <= '9'
      {
        assert u[j] == v[j];
      }
      assert t[|t| - 1 - (k - 1)] == s[|s| - 1 - k];
      TrailingDigitsIs(t, k - 1);
    }
  }

  /** The count a reader takes from a label: the number just before
      " file(s)", if the label ends so. */
  function CountInLabel(t: string): Option<nat> {
    if |t| >= |FilesSuffix| && t[|t| - |FilesSuffix|..] == FilesSuffix then TrailingCount(t[..|t| - |FilesSuffix|])
    else None
  }

  /** The number written at the end of `body`, if any. */
  function TrailingCount(body: string): Option<nat> {
    var n := TrailingDigits(body);
    if n == 0 then None
    else
      var digits := body[|body| - n..];
      assert forall k :: 0 <= k < n ==> digits[k] == body[|body| - n + k];
      Some(ParseNat(digits))
  }

  /** A text ending in something other than " file(s)" states no count. */
  lemma NoCountUnlessSuffixed(t: string)
    requires t != [] && t[|t| - 1] != ')'
    ensures CountInLabel(t) == None
  {
  }

  /** What precedes " file(s)" is where the count is read from. */
  lemma CountBeforeSuffix(body: string)
    ensures CountInLabel(body + FilesSuffix) == TrailingCount(body)
  {
    SplitAtSuffix(body, FilesSuffix);
  }

  lemma SplitAtSuffix(body: string, suffix: string)
    ensures var t := body + suffix; t[|t| - |suffix|..] == suffix && t[..|t| - |suffix|] == body
  {
  }

  /** A count written as " <n> file(s)" reads back as `n`. */
  lemma CountReadsBack(head: string, n: nat)
    requires head != [] && head[|head| - 1] == ' '
    ensures CountInLabel(head + FormatNat(n) + FilesSuffix) == Some(n)
  {
    var d := FormatNat(n);
    var body := head + d;
    assert body[|body| - |d|..] == d;
    assert body[|body| - 1 - |d|] == ' ';
    TrailingDigitsIs(body, |d|);
    CountBeforeSuffix(body);
    ParseFormatNat(n);
  }

  /** The label names the first two files and states how many of the
      selection it does not name; with fewer than three files it states no
      count. */
  lemma LabelCountsTheRest(paths: seq<string>)
    ensures CountInLabel(Label(paths)) == if |paths| >= 3 then Some(|paths| - 2) else None
    ensures |paths| >= 2 ==> Label(paths)[..|Links(paths, 2)|] == Links(paths, 2)
  {
    if |paths| < 3 {
      LabelOfFewHasNoCount(paths);
    } else {
      LabelOfManyCounts(paths);
    }
  }

  /** No count for none, one or two files: the label ends in a link's '>'
      or in "selected". */
  lemma LabelOfFewHasNoCount(paths: seq<string>)
    requires |paths| < 3
    ensures CountInLabel(Label(paths)) == None
    ensures |paths| == 2 ==> Label(paths) == Links(paths, 2)
  {
    var t := Label(paths);
    if |paths| == 0 {
      NoCountUnlessSuffixed(t);
    } else {
      var l := Link(paths[|paths| - 1]);
      assert l[|l| - 1] == '>';
      assert t[|t| - 1] == l[|l| - 1];
      NoCountUnlessSuffixed(t);
    }
  }

  /** From three files on, the count after " and " is the number not named. */
  lemma LabelOfManyCounts(paths: seq<string>)
    requires |paths| >= 3
    ensures CountInLabel(Label(paths)) == Some(|paths| - 2)
    ensures Label(paths)[..|Links(paths, 2)|] == Links(paths, 2)
  {
    var links, head := Links(paths, 2), Links(paths, 2) + " and ";
    assert Label(paths) == head + FormatNat(|paths| - 2) + FilesSuffix;
    CountReadsBack(head, |paths| - 2);
    LeadingPart(links, " and ", FormatNat(|paths| - 2), FilesSuffix);
  }

  lemma LeadingPart(a: string, b: string, c: string, d: string)
    ensures (a + b + c + d)[..|a|] == a
  {
  }

  // ----- the installed-package list (main.go:457-458) -----

  /** The command whose output RELOAD reads (main.go:457). */
  const ListPackages: Step := Adb(["shell", "cmd", "package", "list", "packages", "-3"])

  const PackagePrefix := "package:"

  /** One line with a leading "package:" removed. */
  function StripPackagePrefix(line: string): string {
    if |line| >= |PackagePrefix| && line[..|PackagePrefix|] == PackagePrefix then line[|PackagePrefix|..] else line
  }

  function StripLines(lines: seq<string>): (r: seq<string>)
    ensures |r| == |lines|
    ensures forall k :: 0 <= k < |r| ==> r[k] == StripPackagePrefix(lines[k])
  {
    if lines == [] then [] else [StripPackagePrefix(lines[0])] + StripLines(lines[1..])
  }

  /** The names shown after RELOAD: "package:" removed at the start of every
      line, then the words of what remains. */
  function ParsePackages(out: string): (names: seq<string>)
    ensures forall k :: 0 <= k < |names| ==> names[k] != "" && NoSpace(names[k])
  {
    Fields(Join(StripLines(Split(out, '\n')), '\n'))
  }

  /** The listing `cmd package list packages` prints: one "package:<name>" line for
      each package, each ending with `eol` and a newline. */
  function Listing(names: seq<string>, eol: string): string {
    Join(ListingLines(names, eol) + [""], '\n')
  }

  function ListingLines(names: seq<string>, eol: string): (lines: seq<string>)
    ensures |lines| == |names|
    ensures forall k :: 0 <= k < |lines| ==> lines[k] == PackagePrefix + names[k] + eol
  {
    if names == [] then [] else [PackagePrefix + names[0] + eol] + ListingLines(names[1..], eol)
  }

  lemma {:induction false} FieldsOfLines(names: seq<string>, eol: string)
    requires forall k :: 0 <= k < |names| ==> names[k] != "" && NoSpace(names[k])
    requires AllSpace(eol)
    ensures Fields(Join(WithEol(names, eol) + [""], '\n')) == names
    decreases |names|
  {
    if names != [] {
      var tail := names[1..];
      var j := Join(WithEol(tail, eol) + [""], '\n');
      var sp := eol + "\n";
      JoinFirstLine(names, eol);
      assert AllSpace(sp) by {
        assert forall k :: 0 <= k < |eol| ==> sp[k] == eol[k];
      }
      FieldsOfWordThenSpace(names[0], sp, j);
      FieldsOfLines(tail, eol);
    }
  }

  lemma JoinFirstLine(names: seq<string>, eol: string)
    requires names != []
    ensures Join(WithEol(names, eol) + [""], '\n') == names[0] + (eol + "\n" + Join(WithEol(names[1..], eol) + [""], '\n'))
  {
    var parts := WithEol(names, eol) + [""];
    var rest := WithEol(names[1..], eol) + [""];
    assert parts == [names[0] + eol] + rest;
    assert parts[1..] == rest;
    assert Join(parts, '\n') == names[0] + eol + "\n" + Join(rest, '\n');
    Regroup(names[0], eol, "\n", Join(rest, '\n'));
  }

  lemma Regroup(a: string, b: string, c: string, d: string)
    ensures a + b + c + d == a + (b + c + d)
  {
  }

  function WithEol(names: seq<string>, eol: string): (lines: seq<string>)
    ensures |lines| == |names|
    ensures forall k :: 0 <= k < |lines| ==> lines[k] == names[k] + eol
  {
    if names == [] then [] else [names[0] + eol] + WithEol(names[1..], eol)
  }

  /** Reading back a listing gives the packages listed, in order, whether
      its lines end in "\n" or "\r\n". */
  lemma ParseListing(names: seq<string>, eol: string)
    requires forall k :: 0 <= k < |names| ==> names[k] != "" && NoSpace(names[k])
    requires AllSpace(eol)
    requires '\n' !in eol
    ensures ParsePackages(Listing(names, eol)) == names
  {
    var lines := ListingLines(names, eol) + [""];
    ListingLinesSplit(names, eol);
    SplitJoin(lines, '\n');
    StripListingLines(names, eol);
    FieldsOfLines(names, eol);
  }

  /** No listing line holds a newline of its own. */
  lemma ListingLinesSplit(names: seq<string>, eol: string)
    requires forall k :: 0 <= k < |names| ==> NoSpace(names[k])
    requires '\n' !in eol
    ensures var lines := ListingLines(names, eol) + [""];
      forall k :: 0 <= k < |lines| ==> '\n' !in lines[k]
  {
    var lines := ListingLines(names, eol) + [""];
    forall k | 0 <= k < |names|
      ensures '\n' !in lines[k]
    {
      assert lines[k] == PackagePrefix + names[k] + eol;
    }
  }

  lemma StripPrefixed(rest: string)
    ensures StripPackagePrefix(PackagePrefix + rest) == rest
  {
    var line := PackagePrefix + rest;
    assert line[..|PackagePrefix|] == PackagePrefix;
    assert line[|PackagePrefix|..] == rest;
  }

  /** Removing the prefixes leaves each name with its line ending. */
  lemma StripListingLines(names: seq<string>, eol: string)
    ensures StripLines(ListingLines(names, eol) + [""]) == WithEol(names, eol) + [""]
  {
    var lines := ListingLines(names, eol) + [""];
    var stripped := StripLines(lines);
    forall k | 0 <= k < |names|
      ensures stripped[k] == names[k] + eol
    {
      assert lines[k] == PackagePrefix + (names[k] + eol);
      StripPrefixed(names[k] + eol);
    }
  }

  // ----- the main window -----

  /** The state main.go keeps between button clicks: `lastAdbAddress`, the
      selected APKs with the label and INSTALL button that show them, the
      installed packages offered for UNINSTALL, and the steps performed so
      far (commands launched, the package listing read and lines logged). */
  class App {
    var lastAdbAddress: string
    var apkFilePaths: seq<string>
    var linkText: string
    var installEnabled: bool
    var packages: seq<string>
    var performed: seq<Step>

    /** Between runs, INSTALL is enabled exactly when an APK is selected
        (main.go:311, 415) and the label shows the selection. */
    predicate Valid()
      reads this
    {
      installEnabled == (|apkFilePaths| > 0) && linkText == Label(apkFilePaths)
    }

    constructor ()
      ensures Valid()
      ensures lastAdbAddress == "" && apkFilePaths == [] && packages == [] && performed == []
    {
      lastAdbAddress := "";
      apkFilePaths := [];
      linkText := "No file selected";
      installEnabled := false;
      packages := [];
      performed := [];
    }

    /** `connect` on the text of the address box. */
    method Connect(text: string) returns (steps: seq<Step>)
      modifies this
      ensures steps == ConnectSteps(old(lastAdbAddress), TrimSpace(text))
      ensures lastAdbAddress == Connected(old(lastAdbAddress), TrimSpace(text))
      ensures apkFilePaths == old(apkFilePaths) && linkText == old(linkText) && installEnabled == old(installEnabled)
      ensures packages == old(packages) && performed == old(performed)
    {
      var addr := TrimSpace(text);
      if addr == lastAdbAddress {
        return [];
      }
      if addr == "" {
        lastAdbAddress := "";
        return [];
      }
      steps := [Adb(["disconnect"]), Adb(["connect", addr]), Remember(addr)];
    }

    /** The runner loop: call each step in order and return at the first
        that returns false. */
    method Run(steps: seq<Step>, ok: nat -> bool) returns (completed: bool)
      modifies this
      ensures completed <==> FirstFailure(steps, ok) == |steps|
      ensures performed == old(performed) + steps[..Invoked(steps, ok)]
      ensures lastAdbAddress == RememberedAfter(old(lastAdbAddress), steps[..Invoked(steps, ok)])
      ensures apkFilePaths == old(apkFilePaths) && linkText == old(linkText) && installEnabled == old(installEnabled)
      ensures packages == old(packages)
    {
      var i := 0;
      while i < |steps|
        invariant 0 <= i <= |steps|
        invariant forall j :: 0 <= j < i ==> Succeeds(steps[j], ok(j))
        invariant performed == old(performed) + steps[..i]
        invariant lastAdbAddress == RememberedAfter(old(lastAdbAddress), steps[..i])
        invariant apkFilePaths == old(apkFilePaths) && linkText == old(linkText) && installEnabled == old(installEnabled)
        invariant packages == old(packages)
      {
        var s := steps[i];
        performed := performed + [s];
        assert steps[..i + 1] == steps[..i] + [s];
        var success := true;
        match s {
          case Exec(_) => success := ok(i);
          case Say(_) =>
          case Remember(a) => lastAdbAddress := a;
        }
        if !success {
          return false;
        }
        i := i + 1;
      }
      assert steps[..|steps|] == steps;
      return true;
    }

    /** One button's background run: `connect`, the button's own steps, the
        runner, and the deferred `enable`. */
    method Session(text: string, extra: seq<Step>, ok: nat -> bool) returns (completed: bool)
      requires Valid()
      modifies this
      ensures Valid()
      ensures var steps := ConnectSteps(old(lastAdbAddress), TrimSpace(text)) + extra;
        var called := steps[..Invoked(steps, ok)];
        && (completed <==> FirstFailure(steps, ok) == |steps|)
        && performed == old(performed) + called
        && lastAdbAddress == RememberedAfter(Connected(old(lastAdbAddress), TrimSpace(text)), called)
      ensures apkFilePaths == old(apkFilePaths) && linkText == old(linkText) && packages == old(packages)
    {
      var conn := Connect(text);
      completed := Run(conn + extra, ok);
      installEnabled := |apkFilePaths| > 0;
    }

    /** VIEW (main.go:337-355). */
    method Start(text: string, ok: nat -> bool)
      requires Valid()
      modifies this
      ensures Valid()
      ensures var steps := ConnectSteps(old(lastAdbAddress), TrimSpace(text)) + ViewSteps;
        var called := steps[..Invoked(steps, ok)];
        && performed == old(performed) + called
        && lastAdbAddress == RememberedAfter(Connected(old(lastAdbAddress), TrimSpace(text)), called)
      ensures apkFilePaths == old(apkFilePaths) && linkText == old(linkText) && packages == old(packages)
    {
      var _ := Session(text, ViewSteps, ok);
    }

    /** FLASH (main.go:357-392): nothing at all unless the warning is
        confirmed. */
    method Flash(confirmed: bool, text: string, imageDir: string, ok: nat -> bool)
      requires Valid()
      modifies this
      ensures Valid()
      ensures !confirmed ==> lastAdbAddress == old(lastAdbAddress) && performed == old(performed)
      ensures confirmed ==>
        var steps := ConnectSteps(old(lastAdbAddress), TrimSpace(text)) + FlashSteps(imageDir);
        var called := steps[..Invoked(steps, ok)];
        && performed == old(performed) + called
        && lastAdbAddress == RememberedAfter(Connected(old(lastAdbAddress), TrimSpace(text)), called)
      ensures apkFilePaths == old(apkFilePaths) && linkText == old(linkText) && packages == old(packages)
      ensures installEnabled == old(installEnabled)
    {
      if !confirmed {
        return;
      }
      var _ := Session(text, FlashSteps(imageDir), ok);
    }

    /** SELECT... (main.go:394-416): the chosen files replace the selection. */
    method OpenFile(chosen: seq<string>)
      modifies this
      ensures Valid()
      ensures apkFilePaths == chosen
      ensures lastAdbAddress == old(lastAdbAddress) && packages == old(packages) && performed == old(performed)
    {
      apkFilePaths := chosen;
      linkText := SelectionLabel(chosen);
      installEnabled := |apkFilePaths| > 0;
    }

    /** RELOAD (main.go:444-461): after the connect steps succeed, the
        listing command runs and the packages it prints become the package
        choice. */
    method Reload(text: string, ok: nat -> bool, listing: string)
      requires Valid()
      modifies this
      ensures Valid()
      ensures var steps := ConnectSteps(old(lastAdbAddress), TrimSpace(text));
        var called := steps[..Invoked(steps, ok)];
        var listed := if FirstFailure(steps, ok) == |steps| then [ListPackages] else [];
        && performed == old(performed) + called + listed
        && lastAdbAddress == RememberedAfter(Connected(old(lastAdbAddress), TrimSpace(text)), called)
        && packages == if FirstFailure(steps, ok) == |steps| then ParsePackages(listing) else old(packages)
      ensures apkFilePaths == old(apkFilePaths) && linkText == old(linkText)
    {
      var completed := Session(text, [], ok);
      assert ConnectSteps(old(lastAdbAddress), TrimSpace(text)) + [] == ConnectSteps(old(lastAdbAddress), TrimSpace(text));
      if completed {
        performed := performed + [ListPackages];
        packages := ParsePackages(listing);
      }
    }

    /** The RELOAD a completed INSTALL or UNINSTALL ends with: its connect
        has nothing left to do, so only the listing is read. */
    method ReloadAfter(text: string, extra: seq<Step>, ok: nat -> bool, listing: string)
      requires Valid()
      requires NoRemember(extra)
      modifies this
      ensures Valid()
      ensures var steps := ConnectSteps(old(lastAdbAddress), TrimSpace(text)) + extra;
        var called := steps[..Invoked(steps, ok)];
        var listed := if FirstFailure(steps, ok) == |steps| then [ListPackages] else [];
        && performed == old(performed) + called + listed
        && lastAdbAddress == RememberedAfter(Connected(old(lastAdbAddress), TrimSpace(text)), called)
        && packages == if FirstFailure(steps, ok) == |steps| then ParsePackages(listing) else old(packages)
      ensures apkFilePaths == old(apkFilePaths) && linkText == old(linkText)
    {
      ghost var last0 := lastAdbAddress;
      var completed := Session(text, extra, ok);
      if completed {
        CompletedRunIsConnected(last0, text, extra, ok);
        ghost var steps := ConnectSteps(last0, TrimSpace(text)) + extra;
        assert steps[..Invoked(steps, ok)] == steps;
        if TrimSpace(text) == "" {
          assert steps == [] + extra;
          RememberedAfterNoRemember("", [], extra);
        }
        assert Connected(lastAdbAddress, TrimSpace(text)) == lastAdbAddress;
        ghost var mid := performed;
        Reload(text, ok, listing);
        assert performed == mid + [ListPackages];
      }
    }

    /** INSTALL (main.go:418-442): the selected non-blank APKs in order, then
        a RELOAD when all of them succeeded. */
    method Install(text: string, ok: nat -> bool, listing: string)
      requires Valid()
      modifies this
      ensures Valid()
      ensures var steps := ConnectSteps(old(lastAdbAddress), TrimSpace(text)) + InstallPlan(apkFilePaths);
        var called := steps[..Invoked(steps, ok)];
        var listed := if FirstFailure(steps, ok) == |steps| then [ListPackages] else [];
        && performed == old(performed) + called + listed
        && lastAdbAddress == RememberedAfter(Connected(old(lastAdbAddress), TrimSpace(text)), called)
        && packages == if FirstFailure(steps, ok) == |steps| then ParsePackages(listing) else old(packages)
      ensures apkFilePaths == old(apkFilePaths) && linkText == old(linkText)
    {
      var plan := InstallSteps(apkFilePaths);
      InstallPlanNoRemember(apkFilePaths);
      ReloadAfter(text, plan, ok, listing);
    }

    /** UNINSTALL (main.go:463-485): the chosen package, when it is not
        blank, then a RELOAD when the run succeeded. */
    method Uninstall(text: string, pkgText: string, ok: nat -> bool, listing: string)
      requires Valid()
      modifies this
      ensures Valid()
      ensures var steps := ConnectSteps(old(lastAdbAddress), TrimSpace(text)) + UninstallPlan(pkgText);
        var called := steps[..Invoked(steps, ok)];
        var listed := if FirstFailure(steps, ok) == |steps| then [ListPackages] else [];
        && performed == old(performed) + called + listed
        && lastAdbAddress == RememberedAfter(Connected(old(lastAdbAddress), TrimSpace(text)), called)
        && packages == if FirstFailure(steps, ok) == |steps| then ParsePackages(listing) else old(packages)
      ensures apkFilePaths == old(apkFilePaths) && linkText == old(linkText)
    {
      ReloadAfter(text, UninstallPlan(pkgText), ok, listing);
    }
  }
}
