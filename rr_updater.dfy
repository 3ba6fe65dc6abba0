/**
 * RRUpdater.UpdateRR: the same gates as RetroRewindInstaller.UpdateRR,
 * but the "Not Installed" and too-old branches hand over to
 * HandleNotInstalled and HandleOldVersion, which are not part of this
 * model: what each did is a parameter here, and the chain runs in
 * ApplyUpdates.
 */
module RRUpdater {
  import opened Wrappers
  import opened Versions
  import opened Catalog
  import opened Planner
  import opened Installation

  /**
   * What a handler did: the result it returned, whether it ran a full
   * install (the too-old branch is commented as needing one), and the
   * marker that install left.
   */
  datatype Handler = Handler(result: bool, reinstalled: bool, marker: Option<string>)

  /**
   * UpdateRR. Up to date: true, nothing written. "Not Installed" and
   * below "3.2.6": the handler's result, and the handler's full install
   * if it ran one. Otherwise ApplyUpdates' result;
   * `plan` is the list of updates it applied from.
   */
  method UpdateRR(host: Host, latestFetch: Option<string>, catalogFetch: Option<string>,
                  handleNotInstalled: Handler, handleOldVersion: Handler, attempt: nat -> StepOutcome)
    returns (outcome: Outcome, ghost route: Route, ghost plan: seq<Entry>)
    requires host.Valid()
    modifies host
    ensures host.Valid()
    ensures route == Gate(old(host.CurrentRRVersion()), latestFetch)
    ensures var before := old(host.State());
      match route
      case UpToDate => outcome == Returned(true) && host.State() == before
      case Missing => outcome == Returned(handleNotInstalled.result)
        && host.State() == Installed(before, handleNotInstalled.reinstalled, true, handleNotInstalled.marker)
      case Unparsable => outcome == Faulted && host.State() == before
      case TooOld => outcome == Returned(handleOldVersion.result)
        && host.State() == Installed(before, handleOldVersion.reinstalled, true, handleOldVersion.marker)
      case Incremental =>
        IncrementalResult(before, Components(old(host.CurrentRRVersion())).value, catalogFetch, attempt, plan, outcome, host.State())
  {
    plan := [];
    var currentVersion := host.CurrentRRVersion();
    route := Gate(currentVersion, latestFetch);
    if IsRRUpToDate(currentVersion, latestFetch) {
      NotInstalledNeverUpToDate(currentVersion, latestFetch);
      return Returned(true), route, plan;
    }
    if currentVersion == NotInstalled {
      assert route == Missing;
      host.OfferInstall(handleNotInstalled.reinstalled, true, handleNotInstalled.marker);
      return Returned(handleNotInstalled.result), route, plan;
    }
    var c := CompareWithFloor(currentVersion);
    if c.None? {
      assert route == Unparsable;
      return Faulted, route, plan;
    }
    if c.value < 0 {
      assert route == TooOld;
      host.OfferInstall(handleOldVersion.reinstalled, true, handleOldVersion.marker);
      return Returned(handleOldVersion.result), route, plan;
    }
    assert route == Incremental;
    outcome, plan := ApplyUpdates(host, currentVersion, catalogFetch, attempt);
  }
}
