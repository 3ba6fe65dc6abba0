/**
 * The part of the updater that touches the machine: version.txt (the
 * marker that records the installed version), the Riivolution folder the
 * update packages are extracted into, the temporary zip files, and the
 * labels shown in the progress window. Downloads and extractions are not
 * run: each DownloadAndApplyUpdate call is told how it goes.
 */
module Installation {
  import opened Wrappers
  import opened Text
  import opened Versions
  import opened Catalog
  import opened Planner

  /** What CurrentRRVersion reports when version.txt does not exist. */
  const NotInstalled := "Not Installed"

  /** The oldest version incremental updates start from, and what CompareVersions parses from it. */
  const Floor := "3.2.6"
  const FloorComponents: seq<int> := [3, 2, 6]

  /** How one DownloadAndApplyUpdate call goes: the download or the extraction may throw. */
  datatype StepOutcome = Applied | DownloadFailed | ExtractFailed

  /** What the progress window shows: "Update {index}/{total}: {description}", then "Extracting update...". */
  datatype Progress = Downloading(index: int, total: int, description: string) | Extracting

  /** What UpdateRR and ApplyUpdates return, or that an exception left them. */
  datatype Outcome = Returned(value: bool) | Faulted

  /**
   * The state the updater reads and writes: the marker (None when
   * version.txt is absent), the packages extracted so far, the temporary
   * files it created that still exist, the next fresh temporary name, the
   * progress labels shown, and how many full installs went ahead.
   */
  datatype World = World(
    versionFile: Option<string>,
    extracted: seq<Entry>,
    tempFiles: set<nat>,
    nextTemp: nat,
    progress: seq<Progress>,
    fullInstalls: nat)

  /** Path.GetTempFileName hands out a name that no existing temporary file has. */
  predicate TempNamesFresh(w: World) { forall t :: t in w.tempFiles ==> t < w.nextTemp }

  /** What CurrentRRVersion reads: the marker's text, or "Not Installed" without one. */
  function VersionOf(versionFile: Option<string>): string
  {
    match versionFile
    case Some(text) => text
    case None => NotInstalled
  }

  /** The progress labels of one DownloadAndApplyUpdate call. */
  function StepProgress(update: Entry, total: int, index: int, outcome: StepOutcome): seq<Progress>
  {
    [Downloading(index, total, update.description)] + (if outcome == DownloadFailed then [] else [Extracting])
  }

  /**
   * DownloadAndApplyUpdate: a fresh temporary zip is created, the label is
   * shown, the download and then the extraction run, and the zip is
   * deleted on every exit path. The call reports success exactly when
   * neither step threw, and only then is the package extracted.
   */
  function Step(w: World, update: Entry, total: int, index: int, outcome: StepOutcome): (r: (World, bool))
    ensures r.1 <==> outcome == Applied
    ensures r.0.extracted == if r.1 then w.extracted + [update] else w.extracted
    ensures r.0.versionFile == w.versionFile && r.0.fullInstalls == w.fullInstalls
    ensures r.0.nextTemp == w.nextTemp + 1
    ensures TempNamesFresh(w) ==> r.0.tempFiles == w.tempFiles && TempNamesFresh(r.0)
    ensures r.0.progress == w.progress + StepProgress(update, total, index, outcome)
  {
    var zip := w.nextTemp;
    var created := w.(tempFiles := w.tempFiles + {zip}, nextTemp := zip + 1);
    var shown := created.(progress := created.progress + StepProgress(update, total, index, outcome));
    var done := if outcome == Applied then shown.(extracted := shown.extracted + [update]) else shown;
    (done.(tempFiles := done.tempFiles - {zip}), outcome == Applied)
  }

  /**
   * The apply loop from entry `i` on: entry `i` is applied with label
   * index `i + 1`; a failure ends the loop with false, a success writes
   * the entry's version to the marker and goes on.
   */
  function ChainFrom(w: World, updates: seq<Entry>, attempt: nat -> StepOutcome, i: nat): (World, bool)
    requires i <= |updates|
    decreases |updates| - i
  {
    if i == |updates| then (w, true)
    else
      var step := Step(w, updates[i], |updates|, i + 1, attempt(i));
      if !step.1 then step
      else ChainFrom(step.0.(versionFile := Some(updates[i].version)), updates, attempt, i + 1)
  }

  /** The whole apply loop over a plan; `attempt(i)` is how entry `i` goes. */
  function Chain(w: World, updates: seq<Entry>, attempt: nat -> StepOutcome): (World, bool)
  {
    ChainFrom(w, updates, attempt, 0)
  }

  /** The index of the first entry that fails among the first `n`, or `n` when none does. */
  function FirstFailure(attempt: nat -> StepOutcome, n: nat): (k: nat)
    ensures k <= n
    ensures forall j :: 0 <= j < k ==> attempt(j) == Applied
    ensures k < n ==> attempt(k) != Applied
  {
    if n == 0 then 0
    else
      var k := FirstFailure(attempt, n - 1);
      if k < n - 1 then k
      else if attempt(n - 1) == Applied then n
      else n - 1
  }

  /** How many DownloadAndApplyUpdate calls the loop makes when entry `k` is the first to fail. */
  function Attempted(k: nat, n: nat): nat { if k < n then k + 1 else n }

  /**
   * The apply loop's guarantees: it succeeds exactly when every entry
   * applies; the packages extracted are the plan up to the first failure,
   * in plan order; the marker holds the last applied version, or is left
   * alone when the first entry fails; every temporary zip is gone again.
   */
  lemma ChainOutcome(w: World, updates: seq<Entry>, attempt: nat -> StepOutcome)
    ensures var k := FirstFailure(attempt, |updates|);
      var r := Chain(w, updates, attempt);
      && (r.1 <==> k == |updates|)
      && r.0.extracted == w.extracted + updates[..k]
      && r.0.versionFile == (if k == 0 then w.versionFile else Some(updates[k - 1].version))
      && r.0.fullInstalls == w.fullInstalls
      && r.0.nextTemp == w.nextTemp + Attempted(k, |updates|)
      && (TempNamesFresh(w) ==> r.0.tempFiles == w.tempFiles)
  {
    ChainFromSucceeds(w, updates, attempt, 0);
    ChainFromExtracted(w, updates, attempt, 0);
    ChainFromMarker(w, updates, attempt, 0);
    ChainFromCleansUp(w, updates, attempt, 0);
  }

  /** From entry `i` on, the loop succeeds exactly when no entry fails. */
  lemma {:induction false} ChainFromSucceeds(w: World, updates: seq<Entry>, attempt: nat -> StepOutcome, i: nat)
    requires i <= FirstFailure(attempt, |updates|)
    decreases |updates| - i
    ensures ChainFrom(w, updates, attempt, i).1 <==> FirstFailure(attempt, |updates|) == |updates|
  {
    if i < FirstFailure(attempt, |updates|) {
      ChainFromSucceeds(ChainNext(w, updates, attempt, i), updates, attempt, i + 1);
    }
  }

  /** From entry `i` on, the loop extracts the entries up to the first failure, in plan order. */
  lemma {:induction false} ChainFromExtracted(w: World, updates: seq<Entry>, attempt: nat -> StepOutcome, i: nat)
    requires i <= FirstFailure(attempt, |updates|)
    decreases |updates| - i
    ensures ChainFrom(w, updates, attempt, i).0.extracted == w.extracted + updates[i..FirstFailure(attempt, |updates|)]
  {
    var k := FirstFailure(attempt, |updates|);
    if i < k {
      ChainFromExtracted(ChainNext(w, updates, attempt, i), updates, attempt, i + 1);
      assert updates[i..k] == [updates[i]] + updates[i + 1..k];
      ConcatAssociates(w.extracted, [updates[i]], updates[i + 1..k]);
    } else {
      assert updates[i..k] == [];
    }
  }

  /** From entry `i` on, the marker ends up holding the last entry applied. */
  lemma {:induction false} ChainFromMarker(w: World, updates: seq<Entry>, attempt: nat -> StepOutcome, i: nat)
    requires i <= FirstFailure(attempt, |updates|)
    decreases |updates| - i
    ensures var k := FirstFailure(attempt, |updates|);
      ChainFrom(w, updates, attempt, i).0.versionFile == (if k == i then w.versionFile else Some(updates[k - 1].version))
  {
    if i < FirstFailure(attempt, |updates|) {
      ChainFromMarker(ChainNext(w, updates, attempt, i), updates, attempt, i + 1);
    }
  }

  /** From entry `i` on, the loop leaves no temporary file behind and starts no full install. */
  lemma {:induction false} ChainFromCleansUp(w: World, updates: seq<Entry>, attempt: nat -> StepOutcome, i: nat)
    requires i <= FirstFailure(attempt, |updates|)
    decreases |updates| - i
    ensures var r := ChainFrom(w, updates, attempt, i);
      && r.0.fullInstalls == w.fullInstalls
      && r.0.nextTemp == w.nextTemp + Attempted(FirstFailure(attempt, |updates|), |updates|) - i
      && (TempNamesFresh(w) ==> r.0.tempFiles == w.tempFiles)
  {
    var k := FirstFailure(attempt, |updates|);
    if i < |updates| {
      var step := Step(w, updates[i], |updates|, i + 1, attempt(i));
      if i < k {
        var next := step.0.(versionFile := Some(updates[i].version));
        assert TempNamesFresh(w) ==> TempNamesFresh(next);
        ChainFromCleansUp(next, updates, attempt, i + 1);
      } else {
        assert Attempted(k, |updates|) - i == 1;
      }
    }
  }

  /** The "Update i/n" labels the progress window shows, in order. */
  function Labels(ps: seq<Progress>): seq<(int, int)>
  {
    if ps == [] then [] else Label(ps[0]) + Labels(ps[1..])
  }

  /** The label one progress report shows: a Downloading report names its update. */
  function Label(p: Progress): seq<(int, int)>
  {
    if p.Downloading? then [(p.index, p.total)] else []
  }

  lemma {:induction false} LabelsConcat(a: seq<Progress>, b: seq<Progress>)
    ensures Labels(a + b) == Labels(a) + Labels(b)
  {
    if a == [] {
      assert a + b == b;
    } else {
      var ab := a + b;
      assert ab[0] == a[0] && ab[1..] == a[1..] + b;
      LabelsConcat(a[1..], b);
      ConcatAssociates(Label(a[0]), Labels(a[1..]), Labels(b));
    }
  }

  /** The labels "Update {lo + 1}/{n}" up to "Update {hi}/{n}". */
  function Counting(lo: nat, hi: nat, n: int): seq<(int, int)>
    decreases hi - lo
  {
    if lo >= hi then [] else [(lo + 1, n)] + Counting(lo + 1, hi, n)
  }

  /** Counting(lo, hi, n) holds hi - lo labels, the j-th of which is "Update {lo + j + 1}/{n}". */
  lemma {:induction false} CountingLabels(lo: nat, hi: nat, n: int)
    requires lo <= hi
    decreases hi - lo
    ensures |Counting(lo, hi, n)| == hi - lo
    ensures forall j :: 0 <= j < hi - lo ==> Counting(lo, hi, n)[j] == (lo + j + 1, n)
  {
    if lo < hi {
      CountingLabels(lo + 1, hi, n);
    }
  }

  /** The progress labels of the steps from entry `i` up to (not including) entry `m`. */
  function Shown(updates: seq<Entry>, attempt: nat -> StepOutcome, i: nat, m: nat): seq<Progress>
    requires m <= |updates|
    decreases m - i
  {
    if i >= m then [] else StepProgress(updates[i], |updates|, i + 1, attempt(i)) + Shown(updates, attempt, i + 1, m)
  }

  /**
   * The labels count up: the entry at plan index `j` is announced as
   * "Update {j + 1}/{n}", one label per attempted entry (CountingLabels
   * spells the labels out), so every index lies between 1 and the plan's
   * length.
   */
  lemma ChainLabels(w: World, updates: seq<Entry>, attempt: nat -> StepOutcome)
    ensures Labels(Chain(w, updates, attempt).0.progress)
      == Labels(w.progress) + Counting(0, Attempted(FirstFailure(attempt, |updates|), |updates|), |updates|)
  {
    var m := Attempted(FirstFailure(attempt, |updates|), |updates|);
    ChainFromShown(w, updates, attempt, 0);
    ShownLabels(updates, attempt, 0, m);
    LabelsConcat(w.progress, Shown(updates, attempt, 0, m));
  }

  /** From entry `i` on, the loop shows the labels of every entry it attempts. */
  lemma {:induction false} ChainFromShown(w: World, updates: seq<Entry>, attempt: nat -> StepOutcome, i: nat)
    requires i <= FirstFailure(attempt, |updates|)
    decreases |updates| - i
    ensures ChainFrom(w, updates, attempt, i).0.progress
      == w.progress + Shown(updates, attempt, i, Attempted(FirstFailure(attempt, |updates|), |updates|))
  {
    var n := |updates|;
    var m := Attempted(FirstFailure(attempt, n), n);
    if i < n {
      var shown := StepProgress(updates[i], n, i + 1, attempt(i));
      assert Shown(updates, attempt, i, m) == shown + Shown(updates, attempt, i + 1, m);
      if attempt(i) == Applied {
        var next := ChainNext(w, updates, attempt, i);
        ChainFromShown(next, updates, attempt, i + 1);
        ConcatAssociates(w.progress, shown, Shown(updates, attempt, i + 1, m));
      } else {
        assert Shown(updates, attempt, i + 1, m) == [];
      }
    }
  }

  lemma {:induction false} ShownLabels(updates: seq<Entry>, attempt: nat -> StepOutcome, i: nat, m: nat)
    requires m <= |updates|
    decreases m - i
    ensures Labels(Shown(updates, attempt, i, m)) == Counting(i, m, |updates|)
  {
    if i < m {
      ShownFirstLabel(updates, attempt, i, m);
      ShownLabels(updates, attempt, i + 1, m);
    }
  }

  /** The first attempted entry of a stretch contributes its own label ahead of the rest. */
  lemma ShownFirstLabel(updates: seq<Entry>, attempt: nat -> StepOutcome, i: nat, m: nat)
    requires i < m <= |updates|
    ensures Labels(Shown(updates, attempt, i, m)) == [(i + 1, |updates|)] + Labels(Shown(updates, attempt, i + 1, m))
  {
    var shown := StepProgress(updates[i], |updates|, i + 1, attempt(i));
    var rest := Shown(updates, attempt, i + 1, m);
    assert Shown(updates, attempt, i, m) == shown + rest;
    LabelsConcat(shown, rest);
    StepShowsOneLabel(updates[i], |updates|, i + 1, attempt(i));
  }

  /** A successful step hands the loop on to the next entry with the marker written. */
  function ChainNext(w: World, updates: seq<Entry>, attempt: nat -> StepOutcome, i: nat): (next: World)
    requires i < |updates| && attempt(i) == Applied
    ensures ChainFrom(w, updates, attempt, i) == ChainFrom(next, updates, attempt, i + 1)
    ensures next.progress == w.progress + StepProgress(updates[i], |updates|, i + 1, attempt(i))
    ensures next.extracted == w.extracted + [updates[i]] && next.versionFile == Some(updates[i].version)
  {
    Step(w, updates[i], |updates|, i + 1, attempt(i)).0.(versionFile := Some(updates[i].version))
  }

  /** One DownloadAndApplyUpdate call shows exactly one label, its own. */
  lemma StepShowsOneLabel(update: Entry, total: int, index: int, outcome: StepOutcome)
    ensures Labels(StepProgress(update, total, index, outcome)) == [(index, total)]
  {
    var shown := StepProgress(update, total, index, outcome);
    assert shown[0] == Downloading(index, total, update.description);
    assert Labels(shown[1..]) == [];
  }

  /** One DownloadAndApplyUpdate call adds exactly its own label. */
  lemma StepLabels(ps: seq<Progress>, update: Entry, total: int, index: int, outcome: StepOutcome)
    ensures Labels(ps + StepProgress(update, total, index, outcome)) == Labels(ps) + [(index, total)]
  {
    LabelsConcat(ps, StepProgress(update, total, index, outcome));
    StepShowsOneLabel(update, total, index, outcome);
  }

  /** The machine as the updater sees it. */
  class Host {
    var versionFile: Option<string>
    var extracted: seq<Entry>
    var tempFiles: set<nat>
    var nextTemp: nat
    var progress: seq<Progress>
    var fullInstalls: nat

    function State(): World
      reads this
    {
      World(versionFile, extracted, tempFiles, nextTemp, progress, fullInstalls)
    }

    predicate Valid()
      reads this
    {
      TempNamesFresh(State())
    }

    /** A machine whose marker is `versionFile`, before the updater ran. */
    constructor (versionFile: Option<string>)
      ensures State() == World(versionFile, [], {}, 0, [], 0)
      ensures Valid()
    {
      this.versionFile := versionFile;
      extracted := [];
      tempFiles := {};
      nextTemp := 0;
      progress := [];
      fullInstalls := 0;
    }

    /** CurrentRRVersion: the text of version.txt, or "Not Installed" when it does not exist. */
    function CurrentRRVersion(): string
      reads this
    {
      VersionOf(versionFile)
    }

    /** UpdateVersionFile: overwrites the marker; CurrentRRVersion reads the new version back. */
    method UpdateVersionFile(newVersion: string)
      modifies this
      ensures State() == old(State()).(versionFile := Some(newVersion))
      ensures CurrentRRVersion() == newVersion
    {
      versionFile := Some(newVersion);
    }

    /**
     * InstallRetroRewind. Over an existing install a YesNo prompt, answered
     * by `confirmReinstall`, asks first; on No nothing happens. On Yes the
     * RetroRewind6 folder, marker included, is deleted. The full package is
     * then downloaded to a temporary zip, extracted over Riivolution, and the
     * zip deleted; `packageMarker` is the version.txt the package brings.
     */
    method InstallRetroRewind(confirmReinstall: bool, packageMarker: Option<string>)
      modifies this
      ensures State() == Reinstalled(old(State()), confirmReinstall, packageMarker)
    {
      if versionFile.Some? {
        if !confirmReinstall {
          return;
        }
        versionFile := None;
      }
      versionFile := packageMarker;
      fullInstalls := fullInstalls + 1;
    }

    /** A YesNo prompt offering a full install: InstallRetroRewind runs only when the user answers Yes. */
    method OfferInstall(answerYes: bool, confirmReinstall: bool, packageMarker: Option<string>)
      requires Valid()
      modifies this
      ensures State() == Installed(old(State()), answerYes, confirmReinstall, packageMarker)
      ensures Valid()
    {
      if answerYes {
        InstallRetroRewind(confirmReinstall, packageMarker);
      }
    }

    /** DownloadAndApplyUpdate, as Step describes it. */
    method DownloadAndApplyUpdate(update: Entry, totalUpdates: int, currentUpdateIndex: int, outcome: StepOutcome)
      returns (success: bool)
      requires Valid()
      modifies this
      ensures (State(), success) == Step(old(State()), update, totalUpdates, currentUpdateIndex, outcome)
      ensures Valid()
    {
      ghost var before := progress;
      var tempZipPath := nextTemp;
      nextTemp := nextTemp + 1;
      tempFiles := tempFiles + {tempZipPath};
      progress := progress + [Downloading(currentUpdateIndex, totalUpdates, update.description)];
      if outcome == DownloadFailed {
        success := false;
      } else {
        progress := progress + [Extracting];
        if outcome == ExtractFailed {
          success := false;
        } else {
          extracted := extracted + [update];
          success := true;
        }
      }
      assert progress == before + StepProgress(update, totalUpdates, currentUpdateIndex, outcome);
      // finally: the temporary zip is deleted whichever way the try block left
      if tempZipPath in tempFiles {
        tempFiles := tempFiles - {tempZipPath};
      }
    }

    /**
     * The apply loop: entries in plan order, entry `i` with label index
     * `i + 1`, the marker written after each success, false at the first
     * failure. Its effect is Chain's, whose guarantees ChainOutcome and
     * ChainLabels state.
     */
    method ApplyChain(updatesToApply: seq<Entry>, attempt: nat -> StepOutcome) returns (success: bool)
      requires Valid()
      modifies this
      ensures (State(), success) == Chain(old(State()), updatesToApply, attempt)
      ensures Valid()
    {
      ghost var result := Chain(State(), updatesToApply, attempt);
      var i := 0;
      while i < |updatesToApply|
        invariant i <= |updatesToApply| && Valid()
        invariant ChainFrom(State(), updatesToApply, attempt, i) == result
      {
        var update := updatesToApply[i];
        success := DownloadAndApplyUpdate(update, |updatesToApply|, i + 1, attempt(i));
        if !success {
          return;
        }
        UpdateVersionFile(update.version);
        i := i + 1;
      }
      success := true;
    }
  }

  /** Which branch of UpdateRR an installed version takes. */
  datatype Route = UpToDate | Missing | Unparsable | TooOld | Incremental

  /**
   * UpdateRR's gates: "Not Installed", then up to date, then below "3.2.6"
   * (where CompareVersions throws on a version it cannot parse), and only
   * then the incremental chain. The source tests up to date first;
   * GateInSourceOrder shows the two orders agree, because "Not Installed"
   * is never up to date.
   */
  function Gate(currentVersion: string, latestFetch: Option<string>): Route
  {
    if currentVersion == NotInstalled then Missing
    else if IsRRUpToDate(currentVersion, latestFetch) then UpToDate
    else if !IsVersion(currentVersion) then Unparsable
    else if ComparePadded(Components(currentVersion).value, FloorComponents) < 0 then TooOld
    else Incremental
  }

  /** Gate routes every installed version as the source's order of tests does. */
  lemma GateInSourceOrder(currentVersion: string, latestFetch: Option<string>)
    ensures Gate(currentVersion, latestFetch)
      == if IsRRUpToDate(currentVersion, latestFetch) then UpToDate
         else if currentVersion == NotInstalled then Missing
         else if !IsVersion(currentVersion) then Unparsable
         else if ComparePadded(Components(currentVersion).value, FloorComponents) < 0 then TooOld
         else Incremental
  {
    NotInstalledNeverUpToDate(currentVersion, latestFetch);
  }

  /** The call CompareVersions(currentVersion, "3.2.6"): None where int.Parse throws on the installed version. */
  method CompareWithFloor(currentVersion: string) returns (c: Option<int>)
    ensures c.Some? <==> IsVersion(currentVersion)
    ensures c.Some? ==> c.value == ComparePadded(Components(currentVersion).value, FloorComponents)
  {
    ComponentsOfFloor();
    c := CompareVersions(currentVersion, Floor);
  }

  /**
   * What InstallRetroRewind leaves behind: the machine as it was when the
   * user declines to overwrite an existing install, otherwise the package's
   * marker in place of the old one and one more full install. Either way
   * the updates extracted, the temporary files and the labels stay, and a
   * machine without a marker is always installed.
   */
  function Reinstalled(w: World, confirmReinstall: bool, packageMarker: Option<string>): (r: World)
    ensures r.extracted == w.extracted && r.tempFiles == w.tempFiles
    ensures r.nextTemp == w.nextTemp && r.progress == w.progress
    ensures r == w || (r.versionFile == packageMarker && r.fullInstalls == w.fullInstalls + 1)
    ensures w.versionFile.None? ==> r.versionFile == packageMarker && r.fullInstalls == w.fullInstalls + 1
    ensures TempNamesFresh(w) ==> TempNamesFresh(r)
  {
    if w.versionFile.Some? && !confirmReinstall then w
    else w.(versionFile := packageMarker, fullInstalls := w.fullInstalls + 1)
  }

  /** What a full install offered by a YesNo prompt leaves behind, by the user's answers. */
  function Installed(w: World, agreed: bool, confirmReinstall: bool, packageMarker: Option<string>): World
  {
    if agreed then Reinstalled(w, confirmReinstall, packageMarker) else w
  }

  /**
   * After a full install whose package carries a version at or above
   * "3.2.6", the next UpdateRR finds Retro Rewind up to date or updates it
   * incrementally: no second full install is offered.
   */
  lemma ReinstallThenIncremental(w: World, confirmReinstall: bool, v: string, latestFetch: Option<string>)
    requires w.versionFile.None? || confirmReinstall
    requires IsVersion(v) && ComparePadded(Components(v).value, FloorComponents) >= 0
    ensures var g := Gate(VersionOf(Reinstalled(w, confirmReinstall, Some(v)).versionFile), latestFetch);
      g == UpToDate || g == Incremental
  {
    VersionIsNotNotInstalled(v);
  }

  /**
   * The effect of fetching the catalog, planning and running the chain:
   * an exception (fetch failure, or a catalog version CompareVersions
   * cannot parse) changes nothing; otherwise `plan` is a plan for the
   * catalog and the machine and result are the chain's.
   */
  ghost predicate IncrementalResult(before: World, current: seq<int>, catalogFetch: Option<string>, attempt: nat -> StepOutcome,
                                    plan: seq<Entry>, outcome: Outcome, after: World)
  {
    match catalogFetch
    case None => outcome == Faulted && after == before
    case Some(text) =>
      if !AllValid(ParseCatalog(text)) then outcome == Faulted && after == before
      else
        && IsPlanFor(plan, ParseCatalog(text), VersionKey, current)
        && var r := Chain(before, plan, attempt);
        && outcome == Returned(r.1)
        && after == r.0
  }

  /**
   * ApplyUpdates: fetch and parse the catalog, plan, and run the chain.
   * List.Sort compares every entry once the catalog has two or more, and
   * with one entry the scan compares it with the installed version, so
   * CompareVersions throws exactly when some catalog version does not parse.
   */
  method ApplyUpdates(host: Host, currentVersion: string, catalogFetch: Option<string>, attempt: nat -> StepOutcome)
    returns (outcome: Outcome, ghost plan: seq<Entry>)
    requires host.Valid() && IsVersion(currentVersion)
    modifies host
    ensures host.Valid()
    ensures IncrementalResult(old(host.State()), Components(currentVersion).value, catalogFetch, attempt, plan, outcome, host.State())
  {
    plan := [];
    var allVersions := GetAllVersionData(catalogFetch);
    if allVersions.None? {
      return Faulted, plan;
    }
    var catalog := allVersions.value;
    if !AllValid(catalog) {
      return Faulted, plan;
    }
    var list := new Entry[|catalog|];
    forall i | 0 <= i < |catalog| {
      list[i] := catalog[i];
    }
    assert list[..] == catalog;
    var updatesToApply := GetUpdatesToApply(currentVersion, list);
    plan := updatesToApply;
    var success := host.ApplyChain(updatesToApply, attempt);
    outcome := Returned(success);
  }

  /** No version CompareVersions can parse reads "Not Installed": that text starts with a letter. */
  lemma VersionIsNotNotInstalled(v: string)
    requires IsVersion(v)
    ensures v != NotInstalled
  {
    VersionChars(v);
    assert v == [] || v[0] != 'N';
    assert NotInstalled[0] == 'N';
  }

  /**
   * A missing marker is never up to date: the latest version is a single
   * space-free token or the failure text, and "Not Installed" is neither.
   */
  lemma NotInstalledNeverUpToDate(currentVersion: string, latestFetch: Option<string>)
    ensures currentVersion == NotInstalled ==> !IsRRUpToDate(currentVersion, latestFetch)
  {
    if currentVersion == NotInstalled {
      if latestFetch.None? {
        NotInstalledIsNotFailure(currentVersion, latestFetch);
      } else {
        NotInstalledIsNotToken(currentVersion, latestFetch);
      }
    }
  }

  lemma NotInstalledIsNotToken(currentVersion: string, latestFetch: Option<string>)
    requires currentVersion == NotInstalled && latestFetch.Some?
    ensures !IsRRUpToDate(currentVersion, latestFetch)
  {
    var latest := LatestVersionString(latestFetch);
    assert ' ' !in latest;
    NotInstalledIsTrimmed(currentVersion);
    SpaceSeparates(currentVersion, latest);
  }

  lemma NotInstalledIsNotFailure(currentVersion: string, latestFetch: Option<string>)
    requires currentVersion == NotInstalled && latestFetch.None?
    ensures !IsRRUpToDate(currentVersion, latestFetch)
  {
    assert Trim(currentVersion) == currentVersion && currentVersion != [] && currentVersion[0] != 'F' by {
      NotInstalledIsTrimmed(currentVersion);
    }
    FailureTextSeparates(currentVersion, latestFetch);
  }

  lemma NotInstalledIsTrimmed(currentVersion: string)
    requires currentVersion == NotInstalled
    ensures Trim(currentVersion) == currentVersion
    ensures currentVersion[0] == 'N' && ' ' in currentVersion
  {
    assert currentVersion[3] == ' ' && currentVersion[12] == 'd';
    TrimClean(currentVersion);
  }

  /** Text with an inner space never trims to the same as a single token. */
  lemma SpaceSeparates(spaced: string, token: string)
    requires Trim(spaced) == spaced && ' ' in spaced && ' ' !in token
    ensures Trim(spaced) != Trim(token)
  {
    TrimAddsNothing(token, ' ');
  }

  /** Without a catalog text, a parseable installed version is never reported up to date. */
  lemma FailedFetchIsNotUpToDate(currentVersion: string)
    requires IsVersion(currentVersion)
    ensures Gate(currentVersion, None) != UpToDate
  {
    FetchFailureNeverUpToDate(currentVersion, None);
  }

  /** The chain never applies an update at or below "3.2.6". */
  lemma ChainStaysAboveFloor(currentVersion: string, latestFetch: Option<string>, catalog: seq<Entry>, plan: seq<Entry>)
    requires Gate(currentVersion, latestFetch) == Incremental
    requires IsPlanFor(plan, catalog, VersionKey, Components(currentVersion).value)
    ensures forall i :: 0 <= i < |plan| ==> ComparePadded(VersionKey(plan[i]), FloorComponents) > 0
  {
    IncrementalIsAboveFloor(currentVersion, latestFetch);
    PlanAboveFloor(plan, catalog, VersionKey, Components(currentVersion).value, FloorComponents);
  }

  /** The chain is reached only from a parseable version at or above "3.2.6". */
  lemma IncrementalIsAboveFloor(currentVersion: string, latestFetch: Option<string>)
    requires Gate(currentVersion, latestFetch) == Incremental
    ensures IsVersion(currentVersion) && ComparePadded(Components(currentVersion).value, FloorComponents) >= 0
  {
  }

  /**
   * After a chain stopped before entry `k`, running UpdateRR again
   * reaches the chain (or finds the installation up to date) and plans
   * exactly the entries that were not applied, when no two planned
   * versions tie.
   */
  lemma RerunResumes(currentVersion: string, latestFetch: Option<string>, catalog: seq<Entry>, plan: seq<Entry>, k: nat,
                     replan: seq<Entry>)
    requires Gate(currentVersion, latestFetch) == Incremental && AllValid(catalog)
    requires IsPlanFor(plan, catalog, VersionKey, Components(currentVersion).value)
    requires StrictlyAscending(plan, VersionKey)
    requires 0 < k <= |plan|
    ensures var marker := plan[k - 1].version;
      && Components(marker) == Some(VersionKey(plan[k - 1]))
      && (Gate(marker, latestFetch) == UpToDate || Gate(marker, latestFetch) == Incremental)
      && (IsPlanFor(replan, catalog, VersionKey, VersionKey(plan[k - 1])) ==> replan == plan[k..])
  {
    var last := plan[k - 1];
    PlanOnlyNewer(plan, catalog, VersionKey, Components(currentVersion).value);
    assert ValidEntry(last);
    ChainStaysAboveFloor(currentVersion, latestFetch, catalog, plan);
    VersionIsNotNotInstalled(last.version);
    CompareAntisymmetric(VersionKey(last), FloorComponents, 0);
    if IsPlanFor(replan, catalog, VersionKey, VersionKey(last)) {
      ResumeAfterFailure(plan, replan, catalog, VersionKey, Components(currentVersion).value, k);
    }
  }
}
