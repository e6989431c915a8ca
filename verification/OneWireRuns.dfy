/** Scans of the 1-Wire bus with failing passes: what they print, and exactly when they end. */
module OneWireRuns {
  import opened Bytes
  import opened OneWire
  import opened OneWireScan

  const MAX_RETRY := 10

  /** What the environment does to one pass: presence pulse, inverted reads, and whether the sensor found reads. */
  datatype Pass = Pass(presence: bool, glitches: set<nat>, readable: bool)

  /** The variables of ScanForSensor, with what has been printed. */
  datatype Scan = Scan(id: uint64, last: int, retry: nat, printed: seq<uint64>, done: bool)

  datatype Outcome = Running | AllFound | GaveUp

  predicate Clean(p: Pass) {
    p.presence && p.glitches == {}
  }

  // ----- Runs -----

  /** The loop body of ScanForSensor, given what the search returned. */
  function Advance(s: Scan, scanOnly: bool, readable: bool, a: Attempt): Scan {
    if a.code == 1 then
      if CrcOk(a.id) then
        if scanOnly then Scan(a.id, a.last, s.retry, s.printed + [a.id], false)
        else if readable then Scan(a.id, a.last, 0, s.printed + [a.id], false)
        else s.(retry := 0)
      else s.(retry := s.retry + 1)
    else if a.code == 0 then s.(done := true)
    else s.(retry := s.retry + 1)
  }

  /** What a search returns in such a pass, and what is known of that. */
  ghost predicate Attempted(devices: set<uint64>, p: Pass, s: Scan, a: Attempt) {
    && a == Search(devices, p.presence, p.glitches, s.id, s.last)
    && a.code in {1, 0, -1, -2} && (a.code == 0 <==> s.last < 0)
    && (a.code == 1 ==> -1 <= a.last < 64)
    && (s.last >= 0 && !(p.presence && devices != {}) ==> a.code == -1)
    && (s.last >= 0 && Clean(p) && devices != {} && Searching(devices, s.id, s.last) ==>
          a.code == 1 && Next(devices, s.id, s.last, a.id) && Searching(devices, a.id, a.last))
  }

  /** The state after the attempts of a run. */
  function After(scanOnly: bool, env: seq<Pass>, run: seq<Attempt>): Scan
    requires |run| <= |env|
    decreases |run|
  {
    if run == [] then Scan(0, 64, 0, [], false)
    else
      var k := |run| - 1;
      Advance(After(scanOnly, env, run[..k]), scanOnly, env[k].readable, run[k])
  }

  /** A run of ScanForSensor over the passes of `env`: it goes on only while the loop does. */
  ghost predicate Ran(devices: set<uint64>, scanOnly: bool, env: seq<Pass>, run: seq<Attempt>)
    ensures Ran(devices, scanOnly, env, run) ==> |run| <= |env|
    decreases |run|
  {
    |run| <= |env| && (run == [] || (
      var k := |run| - 1;
      var s := After(scanOnly, env, run[..k]);
      Ran(devices, scanOnly, env, run[..k]) && !s.done && s.retry < MAX_RETRY && Attempted(devices, env[k], s, run[k])))
  }

  function Result(s: Scan): Outcome {
    if s.done then AllFound else if s.retry >= MAX_RETRY then GaveUp else Running
  }

  /** No pass that went wrong delivered a code with a matching checksum. */
  ghost predicate Trusted(env: seq<Pass>, run: seq<Attempt>)
    requires |run| <= |env|
  {
    forall i :: 0 <= i < |run| && !Clean(env[i]) && run[i].code == 1 ==> !CrcOk(run[i].id)
  }

  ghost predicate Sound(devices: set<uint64>) {
    devices != {} && forall d :: d in devices ==> CrcOk(d)
  }

  /** ScanForSensor, printing codes only or reading each sensor first, for as long as the environment is given. */
  method ScanForSensor(bus: Bus, scanOnly: bool, env: seq<Pass>)
    returns (printed: seq<uint64>, outcome: Outcome, ghost run: seq<Attempt>)
    modifies bus`presence, bus`glitches, bus`active, bus`at, bus`complement, bus`slot
    ensures Ran(bus.devices, scanOnly, env, run)
    ensures printed == After(scanOnly, env, run).printed && outcome == Result(After(scanOnly, env, run))
    ensures outcome == Running ==> |run| == |env|
  {
    hide Searching, Next, Less, Octets, Octet, Crc8, Search;
    var id, nextBit, retry, passes := 0, 64, 0, 0;
    printed, outcome, run := [], Running, [];
    while retry < MAX_RETRY && passes < |env|
      invariant passes == |run| <= |env| && 0 <= retry && Ran(bus.devices, scanOnly, env, run)
      invariant After(scanOnly, env, run) == Scan(id, nextBit, retry, printed, false)
      decreases |env| - passes
    {
      bus.presence, bus.glitches := env[passes].presence, env[passes].glitches;
      var code, newId, newBit := SearchSensor(bus, id, nextBit);
      ghost var a := Attempt(code, newId, newBit);
      assert (run + [a])[..|run|] == run;
      run := run + [a];
      if code == 1 {
        var crc := CalcCrc(Octets(newId, 7));
        if Octet(newId / 0x100_0000_0000_0000) == crc {
          if !scanOnly {
            if env[passes].readable {
              id, nextBit := newId, newBit;
              printed := printed + [newId];
            }
            retry := 0;
          } else {
            id, nextBit := newId, newBit;
            printed := printed + [newId];
          }
        } else {
          retry := retry + 1;
        }
      } else if code == 0 {
        outcome := AllFound;
        return;
      } else {
        retry := retry + 1;
      }
      passes := passes + 1;
    }
    if retry >= MAX_RETRY {
      outcome := GaveUp;
    }
  }

  // ----- Trust -----

  /** On a clean bus every run is trusted, and so it is when passes only ever lack the presence pulse. */
  lemma {:induction false} PresenceOnlyTrusted(devices: set<uint64>, scanOnly: bool, env: seq<Pass>, run: seq<Attempt>)
    requires Ran(devices, scanOnly, env, run)
    requires forall i :: 0 <= i < |env| && !Clean(env[i]) ==> !env[i].presence
    ensures Trusted(env, run)
    decreases |run|
  {
    hide CrcOk, Next, Searching, Search;
    if run != [] {
      PresenceOnlyTrusted(devices, scanOnly, env, run[..|run| - 1]);
    }
  }

  // ----- What is printed -----

  ghost predicate Sane(devices: set<uint64>, s: Scan) {
    Progress(devices, s.printed, s.id, s.last)
  }

  /** A search that can go on has not found everything, and one that cannot has. */
  lemma PrintedOrLeft(devices: set<uint64>, s: Scan)
    requires Sane(devices, s) && devices != {}
    ensures s.last < 0 ==> |s.printed| == |devices| && Complete(s.printed, devices)
    ensures s.last >= 0 ==> |s.printed| < |devices|
  {
    hide Less;
    if s.last < 0 {
      NothingAfter(devices, s.id);
      ProgressEnds(devices, s.printed, s.id, s.last);
      CompleteSize(s.printed, devices);
    } else if s.last < 64 {
      ForkLeft(devices, s);
    }
  }

  lemma ForkLeft(devices: set<uint64>, s: Scan)
    requires Sane(devices, s) && 0 <= s.last < 64
    ensures |s.printed| < |devices|
  {
    hide Bit;
    assert ZeroFork(devices, s.id, s.last);
    var d :| d in devices && Differs(s.id, d, s.last);
    assert Less(s.id, d);
    hide Less;
    var n := |s.printed| - 1;
    forall i | 0 <= i <= n ensures s.printed[i] != d {
      LessIrreflexive(s.id);
      if i < n && s.printed[i] == d {
        LessTransitive(d, s.id, d);
        LessIrreflexive(d);
      }
    }
    IncreasingSize(s.printed, devices - {d});
  }

  lemma {:induction false} CompleteSize(codes: seq<uint64>, devices: set<uint64>)
    requires Complete(codes, devices)
    ensures |codes| == |devices|
  {
    hide Less;
    if codes != [] {
      var n := |codes| - 1;
      var front := codes[..n];
      assert codes == front + [codes[n]];
      forall i | 0 <= i < n ensures codes[i] != codes[n] {
        assert Less(codes[i], codes[n]);
        LessIrreflexive(codes[n]);
      }
      forall d ensures d in devices - {codes[n]} <==> d in front {
      }
      CompleteSize(front, devices - {codes[n]});
    } else {
      assert devices == {};
    }
  }

  /** One pass of a trusted run. */
  lemma PassKeeps(devices: set<uint64>, scanOnly: bool, p: Pass, s: Scan, a: Attempt)
    requires Sane(devices, s) && !s.done && Attempted(devices, p, s, a)
    requires !Clean(p) && a.code == 1 ==> !CrcOk(a.id)
    ensures Sane(devices, Advance(s, scanOnly, p.readable, a))
  {
    hide Progress, Searching, Next, CrcOk, Complete, Search;
    ProgressIs(devices, s.printed, s.id, s.last);
    if a.code == 1 && CrcOk(a.id) && (scanOnly || p.readable) {
      ProgressStep(devices, s.printed, s.id, s.last, a.id, a.last);
    }
  }

  /**
   * With arbitrary failing passes, the codes printed are the first of the sorted devices, none skipped and none
   * repeated; all of them once the search has ended.
   */
  lemma {:induction false} PrintsPrefix(devices: set<uint64>, scanOnly: bool, env: seq<Pass>, run: seq<Attempt>)
    requires Ran(devices, scanOnly, env, run) && Trusted(env, run)
    ensures var s := After(scanOnly, env, run);
            && Sane(devices, s) && IsPrefix(s.printed, devices)
            && (s.done ==> s.last < 0 && Complete(s.printed, devices))
    decreases |run|
  {
    hide Searching, Next, Less, CrcOk, Progress, IsPrefix, Complete, Search;
    if run == [] {
      ProgressStarts(devices);
    } else {
      var k := |run| - 1;
      PrintsPrefix(devices, scanOnly, env, run[..k]);
      PassKeeps(devices, scanOnly, env[k], After(scanOnly, env, run[..k]), run[k]);
    }
    var s := After(scanOnly, env, run);
    ProgressIs(devices, s.printed, s.id, s.last);
    if s.done {
      NothingAfter(devices, s.id);
      ProgressEnds(devices, s.printed, s.id, s.last);
    }
  }

  /** A scan that only prints ends within n + 10 passes. */
  lemma PrintingEnds(devices: set<uint64>, env: seq<Pass>, run: seq<Attempt>)
    requires Ran(devices, true, env, run) && Trusted(env, run)
    ensures |run| <= |devices| + 10
  {
    hide Progress, IsPrefix, Complete;
    PassesCounted(devices, env, run);
    PrintsPrefix(devices, true, env, run);
    var s := After(true, env, run);
    ProgressIs(devices, s.printed, s.id, s.last);
  }

  lemma {:induction false} PassesCounted(devices: set<uint64>, env: seq<Pass>, run: seq<Attempt>)
    requires Ran(devices, true, env, run)
    ensures var s := After(true, env, run);
            |run| == |s.printed| + s.retry + (if s.done then 1 else 0)
                && s.retry + (if s.done then 1 else 0) <= MAX_RETRY
    decreases |run|
  {
    hide Searching, Next, CrcOk, Search;
    if run != [] {
      PassesCounted(devices, env, run[..|run| - 1]);
    }
  }

  // ----- When a scan ends, read off the passes -----

  /** The devices found, or found and read, in the passes of `p` as long as any are left. */
  function Finds(scanOnly: bool, p: seq<Pass>): (n: nat)
    ensures n <= |p|
    decreases |p|
  {
    if p == [] then 0
    else
      var k := |p| - 1;
      Finds(scanOnly, p[..k]) + (if Clean(p[k]) && (scanOnly || p[k].readable) then 1 else 0)
  }

  /** The retry counter over passes that go wrong exactly when they are not clean: only a reading scan resets it. */
  function Retries(scanOnly: bool, p: seq<Pass>): nat
    decreases |p|
  {
    if p == [] then 0
    else
      var k := |p| - 1;
      if !Clean(p[k]) then Retries(scanOnly, p[..k]) + 1
      else if scanOnly then Retries(scanOnly, p[..k])
      else 0
  }

  /** The retry counter of a reading scan is the length of the last stretch of passes that went wrong. */
  lemma {:induction false} RetriesInARow(p: seq<Pass>, n: nat)
    ensures Retries(false, p) >= n <==> n <= |p| && forall i :: |p| - n <= i < |p| ==> !Clean(p[i])
    decreases |p|
  {
    hide Clean;
    if p != [] && n > 0 {
      var k := |p| - 1;
      RetriesInARow(p[..k], n - 1);
      if !Clean(p[k]) && n <= |p| && forall i :: k - (n - 1) <= i < k ==> !Clean(p[..k][i]) {
        forall i | |p| - n <= i < |p| ensures !Clean(p[i]) {
          assert i < k ==> p[..k][i] == p[i];
        }
      }
    }
  }

  lemma {:induction false} FindsGrow(scanOnly: bool, p: seq<Pass>, i: nat, j: nat)
    requires i <= j <= |p|
    ensures Finds(scanOnly, p[..i]) <= Finds(scanOnly, p[..j])
    decreases j
  {
    if i < j {
      FindsGrow(scanOnly, p, i, j - 1);
      assert p[..j][..j - 1] == p[..j - 1];
    }
  }

  /** A trusted run on sound devices does in each pass what the pass says. */
  lemma {:induction false} RunFollows(devices: set<uint64>, scanOnly: bool, env: seq<Pass>, run: seq<Attempt>)
    requires Ran(devices, scanOnly, env, run) && Trusted(env, run) && Sound(devices)
    ensures var s, n := After(scanOnly, env, run), |run|;
            if s.done then n > 0 && Finds(scanOnly, env[..n - 1]) == |devices|
            else
              && s.retry == Retries(scanOnly, env[..n]) && |s.printed| == Finds(scanOnly, env[..n])
              && (s.retry >= MAX_RETRY ==> s.last >= 0)
    decreases |run|
  {
    hide Searching, Next, Less, CrcOk, Sane, IsPrefix, Complete, Search;
    if run != [] {
      var k := |run| - 1;
      var front := run[..k];
      RunFollows(devices, scanOnly, env, front);
      PrintsPrefix(devices, scanOnly, env, front);
      var s := After(scanOnly, env, front);
      PrintedOrLeft(devices, s);
      if Clean(env[k]) {
        CleanFinds(devices, env[k], s, run[k]);
      }
      assert env[..k + 1][..k] == env[..k];
    }
  }

  /** A clean pass over sound devices finds a code that passes its checksum, unless the search is over. */
  lemma CleanFinds(devices: set<uint64>, p: Pass, s: Scan, a: Attempt)
    requires Sane(devices, s) && Sound(devices) && Clean(p) && Attempted(devices, p, s, a)
    ensures s.last >= 0 ==> a.code == 1 && CrcOk(a.id)
  {
    hide CrcOk, Searching, Less, Search;
  }

  /** The loop of ScanForSensor has come to its end, or the environment has. */
  ghost predicate Ended(scanOnly: bool, env: seq<Pass>, run: seq<Attempt>)
    requires |run| <= |env|
  {
    Result(After(scanOnly, env, run)) == Running ==> |run| == |env|
  }

  /** The retries reach ten at some point before all devices have been found. */
  ghost predicate RunsOut(scanOnly: bool, env: seq<Pass>, n: nat) {
    exists i :: 0 <= i <= |env| && OutAt(scanOnly, env, n, i)
  }

  ghost predicate OutAt(scanOnly: bool, env: seq<Pass>, n: nat, i: int) {
    0 <= i <= |env| && Retries(scanOnly, env[..i]) >= 10 && Finds(scanOnly, env[..i]) < n
  }

  lemma {:induction false} RanFront(devices: set<uint64>, scanOnly: bool, env: seq<Pass>, run: seq<Attempt>, i: nat)
    requires Ran(devices, scanOnly, env, run) && Trusted(env, run) && i <= |run|
    ensures Ran(devices, scanOnly, env, run[..i]) && Trusted(env, run[..i])
    ensures i < |run| ==> Result(After(scanOnly, env, run[..i])) == Running
    decreases |run|
  {
    hide Attempted, Advance, CrcOk;
    if i < |run| {
      var k := |run| - 1;
      RanFront(devices, scanOnly, env, run[..k], i);
      assert run[..k][..i] == run[..i];
    } else {
      assert run[..i] == run;
    }
  }

  /** A scan gives up exactly when ten retries have added up before everything was found. */
  lemma GivesUp(devices: set<uint64>, scanOnly: bool, env: seq<Pass>, run: seq<Attempt>)
    requires Ran(devices, scanOnly, env, run) && Trusted(env, run) && Sound(devices) && Ended(scanOnly, env, run)
    ensures Result(After(scanOnly, env, run)) == GaveUp <==> RunsOut(scanOnly, env, |devices|)
  {
    hide Ran, Trusted, Sound, After, Retries, Finds, Sane, Complete, IsPrefix;
    var n, s := |run|, After(scanOnly, env, run);
    RunFollows(devices, scanOnly, env, run);
    PrintsPrefix(devices, scanOnly, env, run);
    SoundDevices(devices);
    PrintedOrLeft(devices, s);
    if Result(s) == GaveUp {
      assert OutAt(scanOnly, env, |devices|, n);
    } else if RunsOut(scanOnly, env, |devices|) {
      var i :| 0 <= i <= |env| && OutAt(scanOnly, env, |devices|, i);
      NotOutBefore(devices, scanOnly, env, run, i);
    }
  }

  lemma SoundDevices(devices: set<uint64>)
    requires Sound(devices)
    ensures devices != {} && |devices| > 0
  {
    hide CrcOk;
  }

  lemma NotOutBefore(devices: set<uint64>, scanOnly: bool, env: seq<Pass>, run: seq<Attempt>, i: nat)
    requires Ran(devices, scanOnly, env, run) && Trusted(env, run) && Sound(devices) && Ended(scanOnly, env, run)
    requires i <= |env| && Result(After(scanOnly, env, run)) != GaveUp
    ensures !OutAt(scanOnly, env, |devices|, i)
  {
    hide Ran, Trusted, Sound, After, Retries, Finds;
    var n := |run|;
    RunFollows(devices, scanOnly, env, run);
    if i < n {
      RanFront(devices, scanOnly, env, run, i);
      RunFollows(devices, scanOnly, env, run[..i]);
    } else if After(scanOnly, env, run).done {
      FindsGrow(scanOnly, env, n - 1, i);
    }
  }

  /**
   * A scan finds everything exactly when it does not give up and as many finds as there are devices come before
   * the last pass: the search needs one more call to see that nothing is left.
   */
  lemma FindsAll(devices: set<uint64>, scanOnly: bool, env: seq<Pass>, run: seq<Attempt>)
    requires Ran(devices, scanOnly, env, run) && Trusted(env, run) && Sound(devices) && Ended(scanOnly, env, run)
    ensures Result(After(scanOnly, env, run)) == AllFound <==>
      !RunsOut(scanOnly, env, |devices|) && |env| > 0 && Finds(scanOnly, env[..|env| - 1]) >= |devices|
  {
    hide Ran, Trusted, Sound, After, Retries, Finds, RunsOut;
    var n := |run|;
    GivesUp(devices, scanOnly, env, run);
    RunFollows(devices, scanOnly, env, run);
    if Result(After(scanOnly, env, run)) == AllFound {
      FindsGrow(scanOnly, env, n - 1, |env| - 1);
    } else if Result(After(scanOnly, env, run)) == Running && |env| > 0 {
      LastPassSearches(devices, scanOnly, env, run);
    }
  }

  /** A run still going after its last pass had not found everything before it. */
  lemma LastPassSearches(devices: set<uint64>, scanOnly: bool, env: seq<Pass>, run: seq<Attempt>)
    requires Ran(devices, scanOnly, env, run) && Trusted(env, run) && Sound(devices)
    requires run != [] && !After(scanOnly, env, run).done
    ensures Finds(scanOnly, env[..|run| - 1]) < |devices|
  {
    hide Trusted, Sound, Retries, Finds, Sane, Complete, IsPrefix, Searching, Next, CrcOk, Search;
    var k := |run| - 1;
    RanFront(devices, scanOnly, env, run, k);
    RunFollows(devices, scanOnly, env, run[..k]);
    PrintsPrefix(devices, scanOnly, env, run[..k]);
    SoundDevices(devices);
    PrintedOrLeft(devices, After(scanOnly, env, run[..k]));
  }

  /**
   * A reading scan over clean passes ends exactly when as many passes read as there are devices, and one more
   * follows; until then it goes on, however long a sensor does not read.
   */
  lemma CleanReadingScan(devices: set<uint64>, env: seq<Pass>, run: seq<Attempt>)
    requires Ran(devices, false, env, run) && Sound(devices) && Ended(false, env, run)
    requires forall i :: 0 <= i < |env| ==> Clean(env[i])
    ensures Result(After(false, env, run)) == AllFound <==> |env| > 0 && Finds(false, env[..|env| - 1]) >= |devices|
    ensures Result(After(false, env, run)) != GaveUp
  {
    hide Ran, Sound, After, Finds, Retries;
    PresenceOnlyTrusted(devices, false, env, run);
    FindsAll(devices, false, env, run);
    GivesUp(devices, false, env, run);
    forall i | 0 <= i <= |env| ensures !OutAt(false, env, |devices|, i) {
      RetriesInARow(env[..i], 1);
      if i > 0 {
        assert Clean(env[..i][i - 1]);
      }
    }
  }

  /** Devices and passes determine the run, however far it goes. */
  lemma {:induction false} RunDetermined(
      devices: set<uint64>, scanOnly: bool, env: seq<Pass>, a: seq<Attempt>, b: seq<Attempt>)
    requires Ran(devices, scanOnly, env, a) && Ran(devices, scanOnly, env, b) && |a| == |b|
    ensures a == b
    decreases |a|
  {
    hide Search, Advance, After, Searching, Next;
    if a != [] {
      RunDetermined(devices, scanOnly, env, a[..|a| - 1], b[..|b| - 1]);
      assert a == a[..|a| - 1] + [a[|a| - 1]] && b == b[..|b| - 1] + [b[|b| - 1]];
    }
  }

  // ----- A disturbance that is taken for a device -----

  /** The devices whose first `k` bits are 0. */
  function Zeros(devices: set<uint64>, k: nat): set<uint64> {
    if k == 0 then devices else Staying(Zeros(devices, k - 1), k - 1, false)
  }

  /** The slots to disturb so that every bit is read as 0 and its complement as 1. */
  function Disturbance(devices: set<uint64>): set<nat> {
    set slot | 0 <= slot < 128 && Line(Zeros(devices, slot / 2), slot / 2, slot % 2 == 1) == (slot % 2 == 0)
  }

  lemma {:induction false} ClearZero(i: nat)
    ensures SetBit(0, i, false) == 0
  {
    if i > 0 {
      ClearZero(i - 1);
    }
  }

  lemma ReadsZero(devices: set<uint64>, k: nat)
    requires k < 64
    ensures !Heard(Zeros(devices, k), Disturbance(devices), k, 2 * k, false)
    ensures Heard(Zeros(devices, k), Disturbance(devices), k, 2 * k + 1, true)
    ensures ChosenCode(0, k, false, true) == 0
  {
    hide Line, Zeros;
    assert 2 * k / 2 == k && 2 * k % 2 == 0 && (2 * k + 1) / 2 == k && (2 * k + 1) % 2 == 1;
    ClearZero(k);
  }

  lemma {:induction false} ZeroFound(devices: set<uint64>, k: nat)
    requires k <= 64
    ensures SearchFrom(Zeros(devices, k), Disturbance(devices), 0, k, -1) == Attempt(1, 0, -1)
    decreases 64 - k
  {
    hide Heard, Disturbance, ChosenCode, Staying;
    if k < 64 {
      ReadsZero(devices, k);
      ZeroFound(devices, k + 1);
    }
  }

  lemma {:induction false} ZerosAre(devices: set<uint64>, k: nat)
    ensures forall d :: d in Zeros(devices, k) ==> d in devices && forall j :: 0 <= j < k ==> !Bit(d, j)
  {
    hide Bit;
    if k > 0 {
      ZerosAre(devices, k - 1);
    }
  }

  /** Undisturbed, only a device 0 is read so. */
  lemma {:induction false} UndisturbedZeros(devices: set<uint64>, k: nat)
    requires devices != {} && Disturbance(devices) == {} && k <= 64
    ensures Zeros(devices, k) != {}
  {
    hide Bit;
    if k > 0 {
      var zeros := Zeros(devices, k - 1);
      UndisturbedZeros(devices, k - 1);
      assert 2 * (k - 1) / 2 == k - 1 && 2 * (k - 1) % 2 == 0 && 2 * (k - 1) !in Disturbance(devices);
      assert !Line(zeros, k - 1, false);
      var d :| d in zeros && !Bit(d, k - 1);
      assert d in Zeros(devices, k);
    }
  }

  lemma DisturbanceNeeded(devices: set<uint64>)
    requires devices != {} && 0 !in devices
    ensures Disturbance(devices) != {}
  {
    hide Bit, Disturbance, Zeros;
    if Disturbance(devices) == {} {
      UndisturbedZeros(devices, 64);
      ZerosAre(devices, 64);
      var d :| d in Zeros(devices, 64);
      forall j | 0 <= j < 64 ensures Bit(d, j) == Bit(0, j) {
        ZeroBits(j);
      }
      Pow64();
      SameBits(d, 0, 64);
      assert false;
    }
  }

  /**
   * Whatever the devices, some disturbance of a single pass makes the scan print a code none of them has, with a
   * matching checksum: the trust in what is said of printed codes is needed.
   */
  lemma DisturbedPassPrinted(devices: set<uint64>, scanOnly: bool)
    requires devices != {} && 0 !in devices
    ensures var env, run := [Pass(true, Disturbance(devices), true)], [Attempt(1, 0, -1)];
            && Ran(devices, scanOnly, env, run) && !Trusted(env, run)
            && After(scanOnly, env, run).printed == [0] && !IsPrefix([0], devices)
  {
    hide Disturbance, Zeros, SearchFrom, Searching, Next, Bit;
    var env, run := [Pass(true, Disturbance(devices), true)], [Attempt(1, 0, -1)];
    DisturbanceNeeded(devices);
    ZeroFound(devices, 0);
    NoZeros(devices);
    ZeroCrc();
    assert run[..0] == [];
    assert Ran(devices, scanOnly, env, []);
    assert Prepared(0, 64) == 0;
    assert [0 as uint64][0] !in devices;
  }

  lemma NoZeros(devices: set<uint64>)
    ensures Zeros(devices, 0) == devices
  {
  }

  lemma {:induction false} ZeroShifts(n: nat)
    ensures ShiftBits(0, 0, n) == 0
  {
    if n > 0 {
      ZeroShifts(n - 1);
    }
  }

  lemma {:induction false} ZeroOctets(n: nat)
    ensures |Octets(0, n)| == n && forall i :: 0 <= i < n ==> Octets(0, n)[i] == 0
  {
    if n > 0 {
      ZeroOctets(n - 1);
    }
  }

  lemma {:induction false} ZerosCrc(data: seq<bv8>)
    requires forall i :: 0 <= i < |data| ==> data[i] == 0
    ensures Crc8(data) == 0
  {
    if data != [] {
      ZerosCrc(data[..|data| - 1]);
      ZeroShifts(8);
    }
  }

  lemma ZeroCrc()
    ensures CrcOk(0)
  {
    hide Crc8, Octets;
    ZeroOctets(7);
    ZerosCrc(Octets(0, 7));
  }
}
