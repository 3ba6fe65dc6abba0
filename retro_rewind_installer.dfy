/**
 * RetroRewindInstaller.UpdateRR: the gates in source order, the YesNo
 * prompts answered by parameters, and the incremental chain, which the
 * source writes out inline, run by Installation.ApplyUpdates.
 */
module RetroRewindInstaller {
  import opened Wrappers
  import opened Versions
  import opened Catalog
  import opened Planner
  import opened Installation

  /**
   * UpdateRR. Up to date: true, nothing written. "Not Installed": a full
   * install when the user agrees (`answerYes`), true either way. Below
   * "3.2.6": false when the user declines, otherwise true and a full
   * install, which asks once more (`confirmReinstall`) before it deletes
   * the old folder; `packageMarker` is the marker the package brings. Otherwise
   * the catalog is fetched, planned and applied, and the chain's result is
   * returned; `plan` is the list of updates it applied from.
   */
  method UpdateRR(host: Host, latestFetch: Option<string>, catalogFetch: Option<string>, answerYes: bool,
                  confirmReinstall: bool, packageMarker: Option<string>, attempt: nat -> StepOutcome)
    returns (outcome: Outcome, ghost route: Route, ghost plan: seq<Entry>)
    requires host.Valid()
    modifies host
    ensures host.Valid()
    ensures route == Gate(old(host.CurrentRRVersion()), latestFetch)
    ensures var before := old(host.State());
      match route
      case UpToDate => outcome == Returned(true) && host.State() == before
      case Missing => outcome == Returned(true) && host.State() == Installed(before, answerYes, confirmReinstall, packageMarker)
      case Unparsable => outcome == Faulted && host.State() == before
      case TooOld => outcome == Returned(answerYes) && host.State() == Installed(before, answerYes, confirmReinstall, packageMarker)
      case Incremental =>
        IncrementalResult(before, Components(old(host.CurrentRRVersion())).value, catalogFetch, attempt, plan, outcome, host.State())
  {
    plan := [];
    var currentVersion := host.CurrentRRVersion();
    route := Gate(currentVersion, latestFetch);
    if IsRRUpToDate(currentVersion, latestFetch) {
      NotInstalledNeverUpToDate(currentVersion, latestFetch);
      return Returned(true), route, plan;
    }
    if currentVersion == NotInstalled {
      assert route == Missing;
      host.OfferInstall(answerYes, confirmReinstall, packageMarker);
      return Returned(true), route, plan;
    }
    var c := CompareWithFloor(currentVersion);
    if c.None? {
      assert route == Unparsable;
      return Faulted, route, plan;
    }
    if c.value < 0 {
      assert route == TooOld;
      host.OfferInstall(answerYes, confirmReinstall, packageMarker);
      return Returned(answerYes), route, plan;
    }
    assert route == Incremental;
    outcome, plan := ApplyUpdates(host, currentVersion, catalogFetch, attempt);
  }
}
