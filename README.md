# Retro Rewind updater

This project models how WheelWizard keeps the Retro Rewind mod up to date.
The model is written in Dafny and its properties are proved.
Two classes implement the updater: `RetroRewindInstaller` and `RRUpdater`.
Their version logic is line for line the same, so it is modelled once and
both files are cited. The shared logic is:

- `CompareVersions` splits both versions on `.` and parses each part with
  `int.Parse`. It compares the parts one by one, and a missing part counts as 0.
- `GetLatestVersionString` takes the last `\n`-line of the published version
  catalog and returns its first `' '`-token. When the fetch throws, it returns
  the text "Failed to check for updates".
- `IsRRUpToDate` compares the trimmed installed version with the trimmed
  latest version, as text.
- `CurrentRRVersion` returns the text of `version.txt`, or "Not Installed"
  when that file does not exist.
- `GetAllVersionData` parses each non-empty catalog line into
  `(Version, Url, Path, Description)`. It cuts the line at its first three
  spaces into at most four parts, skips a line with fewer parts and trims
  every part.
- `GetUpdatesToApply` sorts the catalog newest first, in place. It keeps
  entries while they are newer than the installed version, stops at the
  first one that is not, and reverses what it kept.
- `UpdateRR` runs its tests in order: up to date, then "Not Installed",
  then older than 3.2.6 (a full reinstall is offered), and otherwise the
  incremental chain.
- The chain applies each planned update with `DownloadAndApplyUpdate`, in
  order. After each success it writes that version to `version.txt`. It stops
  at the first failure.
- `DownloadAndApplyUpdate` downloads the zip to a fresh temporary file and
  extracts it into the Riivolution folder. It deletes the temporary file on
  every exit path.

Modules:

- `Wrappers`: `Option`.
- `Text`: the .NET string operations the source uses: `Trim`, `Split`, and
  `Split` with a part limit. It also holds their round-trip lemmas.
- `Versions`: `int.Parse` as a partial function (32-bit range, leading and
  trailing white space, one sign) and `Components`, a version's parsed parts.
  It also has `ComparePadded` as the specification of `CompareVersions`, the
  method with its loop, and the ordering laws.
- `Catalog`: the catalog parse, `GetAllVersionData`,
  `GetLatestVersionString` and `IsRRUpToDate`.
- `Planner`: the ordering entries are sorted by and `Plan`, the specification
  of `GetUpdatesToApply`. It also has `IsPlanFor`, what any plan for a catalog
  must be, and the in-place selection sort behind `List.Sort`.
- `Installation`: the machine state `World` and the class `Host`, which holds
  the marker, the extracted packages, the temporary files, the progress labels
  and the full-install count. It also has the apply loop, the gate and
  `ApplyUpdates`.
- `RetroRewindInstaller` and `RRUpdater`: each file's `UpdateRR`.

Some inputs are not computed by the model and are passed in instead:

- Network fetches are `Option<string>` inputs, where `None` means the fetch
  threw.
- The answers to Yes/No prompts are `bool` inputs.
- What `RRUpdater`'s calls to `HandleNotInstalled` and `HandleOldVersion` did
  is a `Handler` input: the result returned, whether a full install ran, and
  the marker that install left.
- The marker a full install's package brings is the input `packageMarker`.
- How each download or extraction goes is a function `attempt` from the
  update's index to a `StepOutcome`.
- An exception the model tracks (a failed fetch, a version `int.Parse`
  rejects) is the outcome `Faulted`. Exceptions thrown by the full install's
  download or extraction are not tracked (see the `Installation.Host.InstallRetroRewind`
  line under "Left out").

## Model

| member | source | states |
|---|---|---|
| Text.Trim | WheelWizard/Services/Installation/RetroRewindInstaller.cs:36-38 | `String.Trim` leaves no white space at either end (also used by RRUpdater.cs:25) |
| Text.TrimClean | WheelWizard/Services/Installation/RetroRewindInstaller.cs:36-38 | trimming text whose ends are not white space changes nothing |
| Text.TrimAddsNothing | WheelWizard/Services/Installation/RetroRewindInstaller.cs:36-38 | trimming never introduces a character the text did not contain |
| Text.TrimStartDropsWhiteSpace | WheelWizard/Services/Installation/RetroRewindInstaller.cs:36-38 | every character trimmed from the front is white space |
| Text.TrimEndDropsWhiteSpace | WheelWizard/Services/Installation/RetroRewindInstaller.cs:36-38 | every character trimmed from the back is white space |
| Text.Split | WheelWizard/Services/Installation/RetroRewindInstaller.cs:49-51 | `Split(char)` yields at least one part, and no part contains the separator |
| Text.SplitCount | WheelWizard/Services/Installation/RetroRewindInstaller.cs:49 | `Split` yields one part more than the number of separators |
| Text.JoinSplit | WheelWizard/Services/Installation/RetroRewindInstaller.cs:49 | joining the parts of a split with the separator gives back the text |
| Text.SplitJoin | WheelWizard/Services/Installation/RetroRewindInstaller.cs:49 | splitting joined separator-free parts gives back the parts |
| Text.SplitConcat | WheelWizard/Services/Installation/RetroRewindInstaller.cs:49 | splitting `a + sep + b` gives the parts of `a` followed by those of `b` |
| Text.SplitAtMost | WheelWizard/Services/Installation/RetroRewindInstaller.cs:132 | `Split(new[]{' '}, 4)` yields 1 to 4 parts; only the last may contain a space, and only when there are 4 parts |
| Text.SplitAtMostCount | WheelWizard/Services/Installation/RetroRewindInstaller.cs:132 | the number of parts is the smaller of the limit and the separator count plus one |
| Text.JoinSplitAtMost | WheelWizard/Services/Installation/RetroRewindInstaller.cs:132 | the limited split loses nothing: joining its parts gives back the line |
| Text.SplitAtMostFirst | WheelWizard/Services/Installation/RetroRewindInstaller.cs:132 | the first part ends at the first separator, and the rest is split with one part fewer |
| Text.NonEmpty | WheelWizard/Services/Installation/RetroRewindInstaller.cs:128 | `RemoveEmptyEntries` keeps exactly the non-empty parts (RRUpdater.cs:112 is the same) |
| Text.NonEmptyConcat | WheelWizard/Services/Installation/RetroRewindInstaller.cs:128 | dropping empty parts distributes over concatenation |
| Versions.StripParseWhite | WheelWizard/Services/Installation/RetroRewindInstaller.cs:156 | `int.Parse` ignores only leading and trailing white space, and text without any is unchanged |
| Versions.ParseInt32 | WheelWizard/Services/Installation/RetroRewindInstaller.cs:156-157 | a parse that succeeds lies within the 32-bit range, and its text holds only digits, signs and white space; trailing NUL characters, which `int.Parse` also accepts, are rejected (see Left out) (RRUpdater.cs:143-144) |
| Versions.ParseDigits | WheelWizard/Services/Installation/RetroRewindInstaller.cs:156 | a run of decimal digits within range parses to its value |
| Versions.ParseAll | WheelWizard/Services/Installation/RetroRewindInstaller.cs:156-157 | `Select(int.Parse).ToArray()` succeeds exactly when every part parses, and keeps their order and count |
| Versions.Components | WheelWizard/Services/Installation/RetroRewindInstaller.cs:156-157 | a version that parses has at least one component |
| Versions.CompareFrom | WheelWizard/Services/Installation/RetroRewindInstaller.cs:158-164 | the comparison from a component on is -1, 0 or 1 (`CompareTo`'s sign) |
| Versions.CompareVersions | WheelWizard/Services/Installation/RetroRewindInstaller.cs:154-165 | its loop returns a result exactly when both versions parse, and the result is `ComparePadded` of their components, which pads missing parts with 0; otherwise `int.Parse` throws (RRUpdater.cs:141-153 is the same) |
| Versions.CompareStep | WheelWizard/Services/Installation/RetroRewindInstaller.cs:158-164 | one loop iteration, at any index (past both ends the padded parts are 0 and equal): a difference returns its sign, otherwise the loop goes on |
| Versions.CompareReflexive | WheelWizard/Services/Installation/RetroRewindInstaller.cs:154-165 | every version compares equal to itself |
| Versions.CompareAntisymmetric | WheelWizard/Services/Installation/RetroRewindInstaller.cs:154-165 | swapping the arguments negates the result, so the sort's comparer is consistent |
| Versions.CompareTransitive | WheelWizard/Services/Installation/RetroRewindInstaller.cs:154-165 | the order is transitive, including its strict forms |
| Versions.CompareZeroIff | WheelWizard/Services/Installation/RetroRewindInstaller.cs:154-165 | two versions compare equal exactly when their zero-padded components agree everywhere |
| Versions.CompareFirstDifference | WheelWizard/Services/Installation/RetroRewindInstaller.cs:158-162 | the first differing padded component decides the result |
| Versions.CompareZeroPadding | WheelWizard/Services/Installation/RetroRewindInstaller.cs:160-161 | trailing zero components do not change a version: "3.2" equals "3.2.0" |
| Versions.ComponentsOfDigitRuns | WheelWizard/Services/Installation/RetroRewindInstaller.cs:156 | digit runs joined with '.' parse to their values, in order |
| Versions.ComponentsOfTwoDigits | WheelWizard/Services/Installation/RetroRewindInstaller.cs:156 | a two-part single-digit version parses to its digits |
| Versions.ComponentsOfThreeDigits | WheelWizard/Services/Installation/RetroRewindInstaller.cs:156 | a three-part single-digit version parses to its digits |
| Versions.ComponentsOfFloor | WheelWizard/Services/Installation/RetroRewindInstaller.cs:83 | the floor "3.2.6" parses to [3, 2, 6] (RRUpdater.cs:60 uses the same floor) |
| Versions.JoinedNumberChars | WheelWizard/Services/Installation/RetroRewindInstaller.cs:156 | a parsable version holds only digits, signs, white space and dots |
| Versions.VersionChars | WheelWizard/Services/Installation/RetroRewindInstaller.cs:156 | every character of a parsable version is a number character or '.' |
| Catalog.ParseLineSurvives | WheelWizard/Services/Installation/RetroRewindInstaller.cs:132-133 | a line yields an entry exactly when it holds at least three spaces (RRUpdater.cs:116-117) |
| Catalog.ParseLineFields | WheelWizard/Services/Installation/RetroRewindInstaller.cs:132-134 | a line `version url path description` with space-free first fields becomes the entry of the four trimmed fields; the description keeps its spaces |
| Catalog.ParseLineShape | WheelWizard/Services/Installation/RetroRewindInstaller.cs:132-134 | every surviving line is its four parts joined by single spaces, and the entry is those parts trimmed |
| Catalog.ParseLines | WheelWizard/Services/Installation/RetroRewindInstaller.cs:130-135 | the loop yields at most one entry per line |
| Catalog.GetAllVersionData | WheelWizard/Services/Installation/RetroRewindInstaller.cs:121-138 | a failed fetch throws out of the method; otherwise its loop returns `ParseCatalog` of the text (RRUpdater.cs:105-122 is the same) |
| Catalog.ParseLinesConcat | WheelWizard/Services/Installation/RetroRewindInstaller.cs:130-135 | entries keep the catalog's line order: parsing two blocks of lines gives the first block's entries followed by the second's |
| Catalog.CatalogConcat | WheelWizard/Services/Installation/RetroRewindInstaller.cs:127-135 | the entries of `a + "\n" + b` are those of `a` followed by those of `b` |
| Catalog.CatalogSingleLine | WheelWizard/Services/Installation/RetroRewindInstaller.cs:128-134 | a text without '\n' yields that line's entry, if any |
| Catalog.CatalogEmptyLine | WheelWizard/Services/Installation/RetroRewindInstaller.cs:128 | blank lines are ignored (`RemoveEmptyEntries`) |
| Catalog.CatalogBound | WheelWizard/Services/Installation/RetroRewindInstaller.cs:128-135 | there are no more entries than non-empty lines, and each line is non-empty and free of '\n' |
| Catalog.LatestVersionString | WheelWizard/Services/Installation/RetroRewindInstaller.cs:42-59 | a failed fetch gives the failure text; otherwise the result has no space or newline (RRUpdater.cs:28-42 is the same) |
| Catalog.LatestIsOnLastLine | WheelWizard/Services/Installation/RetroRewindInstaller.cs:49-51 | only the last line decides the latest version (RRUpdater.cs:35) |
| Catalog.LatestIsFirstToken | WheelWizard/Services/Installation/RetroRewindInstaller.cs:51 | on the last line, the text before the first space is the latest version |
| Catalog.LatestAfterTrailingNewline | WheelWizard/Services/Installation/RetroRewindInstaller.cs:49-51 | a catalog ending in '\n' has an empty last line, so the latest version reads as "" (unlike `GetAllVersionData`, this split keeps empty entries) |
| Catalog.UpToDateIsTextual | WheelWizard/Services/Installation/RetroRewindInstaller.cs:33-40 | the up-to-date test compares text, not versions: "3.2" is not up to date against "3.2.0", although `CompareVersions` finds them equal (RRUpdater.cs:22-26) |
| Catalog.LatestOfSample | WheelWizard/Services/Installation/RetroRewindInstaller.cs:49-52 | the sample catalog line "3.2.0 u p d" publishes "3.2.0" |
| Catalog.DifferentCleanTexts | WheelWizard/Services/Installation/RetroRewindInstaller.cs:36-39 | "3.2" and "3.2.0" differ after trimming |
| Catalog.ComponentsOfThreeTwo | WheelWizard/Services/Installation/RetroRewindInstaller.cs:156 | "3.2" parses to [3, 2] and "3.2.0" to [3, 2, 0] |
| Catalog.FetchFailureNeverUpToDate | WheelWizard/Services/Installation/RetroRewindInstaller.cs:33-58 | when the latest-version fetch fails, no parsable installed version is up to date |
| Catalog.VersionIsNotFailureText | WheelWizard/Services/Installation/RetroRewindInstaller.cs:54-58 | no trimmed parsable version equals the failure text |
| Catalog.FailureTextSeparates | WheelWizard/Services/Installation/RetroRewindInstaller.cs:54-58 | trimmed text that does not start with 'F' never matches the failure text |
| Catalog.FailureTextIsTrimmed | WheelWizard/Services/Installation/RetroRewindInstaller.cs:57 | the failure text is already trimmed |
| Planner.VersionKey | WheelWizard/Services/Installation/RetroRewindInstaller.cs:143 | the sort key of a parsable entry is its version's components |
| Planner.AtLeastAsNewTotal | WheelWizard/Services/Installation/RetroRewindInstaller.cs:143 | any two entries are ordered one way or the other, so the comparer is total |
| Planner.AtLeastAsNewTransitive | WheelWizard/Services/Installation/RetroRewindInstaller.cs:143 | the comparer's order is transitive |
| Planner.NewerThroughOrder | WheelWizard/Services/Installation/RetroRewindInstaller.cs:143-148 | an entry at least as new as one newer than the installed version is newer too |
| Planner.TakeWhileNewer | WheelWizard/Services/Installation/RetroRewindInstaller.cs:144-149 | the loop keeps the longest prefix of entries newer than the installed version and stops at the first one that is not (RRUpdater.cs:130-135) |
| Planner.FilterNewer | WheelWizard/Services/Installation/RetroRewindInstaller.cs:146 | the reference selection: exactly the catalog entries newer than the installed version |
| Planner.FilterNewerCount | WheelWizard/Services/Installation/RetroRewindInstaller.cs:146 | the selection keeps every copy of a newer entry and no copy of any other |
| Planner.FilterNewerNone | WheelWizard/Services/Installation/RetroRewindInstaller.cs:146 | with nothing newer, nothing is selected |
| Planner.BreakLosesNothing | WheelWizard/Services/Installation/RetroRewindInstaller.cs:143-149 | on a catalog sorted newest first, stopping at the first older entry selects exactly the newer entries |
| Planner.Reverse | WheelWizard/Services/Installation/RetroRewindInstaller.cs:150 | `List.Reverse` puts element `i` at position `n-1-i` |
| Planner.ReverseMultiset | WheelWizard/Services/Installation/RetroRewindInstaller.cs:150 | reversing keeps the same entries |
| Planner.ReverseOfDescending | WheelWizard/Services/Installation/RetroRewindInstaller.cs:150 | reversing a newest-first list gives an oldest-first list |
| Planner.PlanIsPlanFor | WheelWizard/Services/Installation/RetroRewindInstaller.cs:140-152 | the take-while-then-reverse result on a sorted catalog is a plan: oldest first, and exactly the newer entries |
| Planner.PlanForPermutation | WheelWizard/Services/Installation/RetroRewindInstaller.cs:143 | being a plan depends only on the catalog's entries, not on their order before sorting |
| Planner.PlanOnlyNewer | WheelWizard/Services/Installation/RetroRewindInstaller.cs:146 | every planned update comes from the catalog and is newer than the installed version |
| Planner.PlanEmptyIffNothingNewer | WheelWizard/Services/Installation/RetroRewindInstaller.cs:144-151 | the plan is empty exactly when no catalog entry is newer |
| Planner.PlanEndsAtNewest | WheelWizard/Services/Installation/RetroRewindInstaller.cs:150-151 | a non-empty plan ends with the newest version in the catalog |
| Planner.PlanAboveFloor | WheelWizard/Services/Installation/RetroRewindInstaller.cs:146 | when the installed version is at or above a floor, every planned update is strictly above it |
| Planner.SameOldest | WheelWizard/Services/Installation/RetroRewindInstaller.cs:150 | two oldest-first orderings of the same entries, one strictly increasing, start with the same entry |
| Planner.AscendingUnique | WheelWizard/Services/Installation/RetroRewindInstaller.cs:143-151 | if the catalog's versions are distinct, the plan is unique whatever order the sort leaves equal keys in |
| Planner.SuffixCount | WheelWizard/Services/Installation/RetroRewindInstaller.cs:146 | the part of a strictly increasing plan after entry `k-1` is what is newer than that entry |
| Planner.ResumeAfterFailure | WheelWizard/Services/Installation/RetroRewindInstaller.cs:97-108 | when the plan's versions are strictly increasing (distinct catalog versions), replanning from the last written marker gives exactly the rest of the plan |
| Planner.NewestStep | WheelWizard/Services/Installation/RetroRewindInstaller.cs:143 | one step of the scan for the newest remaining entry keeps the newest one found |
| Planner.NewestFrom | WheelWizard/Services/Installation/RetroRewindInstaller.cs:143 | returns an index of the newest entry in the unsorted rest of the list |
| Planner.SortDescending | WheelWizard/Services/Installation/RetroRewindInstaller.cs:143 | stands in for `allVersions.Sort` with the reversed comparer: a selection sort, not a model of `List.Sort`'s algorithm, that promises what `List.Sort` does: the list in place, newest first, with the same entries (a permutation) |
| Planner.SelectionStep | WheelWizard/Services/Installation/RetroRewindInstaller.cs:143 | swapping the newest remaining entry into place extends the sorted prefix |
| Planner.SwapKeepsEntries | WheelWizard/Services/Installation/RetroRewindInstaller.cs:143 | a swap keeps the list's entries and their validity |
| Planner.TakeWhileOfPrefix | WheelWizard/Services/Installation/RetroRewindInstaller.cs:144-149 | the loop's kept prefix is what the take-while function describes |
| Planner.GetUpdatesToApply | WheelWizard/Services/Installation/RetroRewindInstaller.cs:140-152 | the caller's list ends up sorted newest first and permuted, and the result is `Plan` of it and a plan for the original catalog (RRUpdater.cs:125-139 is the same) |
| Installation.Step | WheelWizard/Services/Installation/RetroRewindInstaller.cs:167-191 | one update succeeds exactly when neither the download nor the extraction throws, and only then is the package extracted. The marker is untouched, one fresh temporary name is used and then deleted, and the label, plus "Extracting" once the download is done, is shown (RRUpdater.cs:155-183) |
| Installation.FirstFailure | WheelWizard/Services/Installation/RetroRewindInstaller.cs:97-105 | the index of the first update that fails: all before it apply |
| Installation.ChainOutcome | WheelWizard/Services/Installation/RetroRewindInstaller.cs:97-110 | the loop succeeds exactly when every update applies. It extracts the plan up to the first failure, in order, and leaves the marker at the last applied version (or as it was). It starts no full install and leaves no temporary file behind (RRUpdater.cs:76-95) |
| Installation.ChainFromSucceeds | WheelWizard/Services/Installation/RetroRewindInstaller.cs:97-105 | from any step before the first failure, the loop reports success exactly when no update fails |
| Installation.ChainFromExtracted | WheelWizard/Services/Installation/RetroRewindInstaller.cs:99 | from step `i`, the packages extracted are the updates from `i` up to the first failure |
| Installation.ChainFromMarker | WheelWizard/Services/Installation/RetroRewindInstaller.cs:107 | the marker is written after each success and ends at the last applied version |
| Installation.ChainFromCleansUp | WheelWizard/Services/Installation/RetroRewindInstaller.cs:185-189 | each attempted update uses one temporary name and deletes it again |
| Installation.LabelsConcat | WheelWizard/Services/Installation/RetroRewindInstaller.cs:173 | the `Update i/n` labels of two progress runs are those of each, in order |
| Installation.CountingLabels | WheelWizard/Services/Installation/RetroRewindInstaller.cs:93-106 | the counter runs `lo+1 .. hi`, each label with the same total |
| Installation.ChainLabels | WheelWizard/Services/Installation/RetroRewindInstaller.cs:93-106 | the progress window shows `Update 1/n`, `Update 2/n`, … up to the failing update or `n`, where `n` is the plan's length (RRUpdater.cs:79) |
| Installation.ChainFromShown | WheelWizard/Services/Installation/RetroRewindInstaller.cs:97-108 | from step `i`, the progress shown is each attempted step's labels, in order |
| Installation.ShownLabels | WheelWizard/Services/Installation/RetroRewindInstaller.cs:173 | the attempted steps from `i` to `m` show the counters `i+1 .. m` |
| Installation.ShownFirstLabel | WheelWizard/Services/Installation/RetroRewindInstaller.cs:173 | step `i` shows the counter `i+1` of `n` first |
| Installation.ChainNext | WheelWizard/Services/Installation/RetroRewindInstaller.cs:99-107 | a successful step extracts the update, shows its labels and writes the marker before the loop goes on |
| Installation.StepShowsOneLabel | WheelWizard/Services/Installation/RetroRewindInstaller.cs:173-175 | one call shows exactly one `Update index/total` label |
| Installation.StepLabels | WheelWizard/Services/Installation/RetroRewindInstaller.cs:173-175 | a call appends its one counter label to those already shown |
| Installation.Host.UpdateVersionFile | WheelWizard/Services/Installation/RetroRewindInstaller.cs:114-119 | overwrites the marker and nothing else; `CurrentRRVersion` then reads the new version (RRUpdater.cs:98-103) |
| Installation.Host.InstallRetroRewind | WheelWizard/Services/Installation/RetroRewindInstaller.cs:193-229 | over an existing install, declining the reinstall prompt changes nothing; otherwise the old marker is deleted with its folder and replaced by the package's, and one more full install is counted (the machine afterwards is `Reinstalled`'s) |
| Installation.Reinstalled | WheelWizard/Services/Installation/RetroRewindInstaller.cs:193-229 | a full install changes only the marker and the install count: extracted updates, temporary files and the update labels stay (its own "Downloading Retro Rewind..." window is not modelled), temporary names stay fresh, and without a marker the install always goes ahead and leaves the package's marker |
| Installation.ReinstallThenIncremental | WheelWizard/Services/Installation/RetroRewindInstaller.cs:81-87 | after a full install whose package marker is a version at or above 3.2.6, the next `UpdateRR` finds it up to date or updates incrementally, so no second full install is offered |
| Installation.Host.OfferInstall | WheelWizard/Services/Installation/RetroRewindInstaller.cs:74-77 | the full install runs exactly when the user answers Yes, with the machine `InstallRetroRewind` leaves |
| Installation.Host.DownloadAndApplyUpdate | WheelWizard/Services/Installation/RetroRewindInstaller.cs:167-191 | its try/catch/finally body has the effect and result of `Step` and keeps temporary names fresh (RRUpdater.cs:155-183) |
| Installation.Host.ApplyChain | WheelWizard/Services/Installation/RetroRewindInstaller.cs:93-110 | the apply loop's state and result are `Chain`'s, whose guarantees `ChainOutcome` and `ChainLabels` state (RRUpdater.cs:76-95) |
| Installation.GateInSourceOrder | WheelWizard/Services/Installation/RetroRewindInstaller.cs:65-89 | the routing of `UpdateRR` agrees with the source's order of tests (RRUpdater.cs:48-64) |
| Installation.CompareWithFloor | WheelWizard/Services/Installation/RetroRewindInstaller.cs:83 | `CompareVersions(currentVersion, "3.2.6")` throws exactly when the installed version does not parse, and otherwise compares it with [3, 2, 6] (RRUpdater.cs:60) |
| Installation.ApplyUpdates | WheelWizard/Services/Installation/RRUpdater.cs:67-96 | a failed catalog fetch or an unparsable catalog version throws and changes nothing. Otherwise the plan applied is a plan for the catalog, and the result and machine are the chain's (the same steps are inline at RetroRewindInstaller.cs:90-110) |
| Installation.VersionIsNotNotInstalled | WheelWizard/Services/Installation/RetroRewindInstaller.cs:30 | no parsable version reads "Not Installed" |
| Installation.NotInstalledNeverUpToDate | WheelWizard/Services/Installation/RetroRewindInstaller.cs:65-71 | "Not Installed" is never up to date, so the missing-install branch is reachable |
| Installation.NotInstalledIsNotToken | WheelWizard/Services/Installation/RetroRewindInstaller.cs:36-51 | "Not Installed" never equals a fetched latest version, which has no space |
| Installation.NotInstalledIsNotFailure | WheelWizard/Services/Installation/RetroRewindInstaller.cs:36-57 | "Not Installed" never equals the failure text |
| Installation.NotInstalledIsTrimmed | WheelWizard/Services/Installation/RetroRewindInstaller.cs:30 | "Not Installed" is already trimmed, starts with 'N' and contains a space |
| Installation.SpaceSeparates | WheelWizard/Services/Installation/RetroRewindInstaller.cs:36-39 | trimmed text containing a space never equals a space-free token after trimming |
| Installation.FailedFetchIsNotUpToDate | WheelWizard/Services/Installation/RetroRewindInstaller.cs:54-68 | when the latest-version fetch fails, a parsable installed version is never reported up to date |
| Installation.IncrementalIsAboveFloor | WheelWizard/Services/Installation/RetroRewindInstaller.cs:83-90 | the incremental path is reached only with a parsable version at or above 3.2.6 |
| Installation.ChainStaysAboveFloor | WheelWizard/Services/Installation/RetroRewindInstaller.cs:83-91 | every incremental update is strictly newer than 3.2.6 |
| Installation.RerunResumes | WheelWizard/Services/Installation/RetroRewindInstaller.cs:97-108 | when the plan's versions are strictly increasing (distinct catalog versions): after a failure following `k` successes, the marker parses, and a rerun is up to date or incremental and replans exactly the remaining updates |
| Catalog.IsRRUpToDate | WheelWizard/Services/Installation/RetroRewindInstaller.cs:33-40 | definition: the trimmed installed version equals the trimmed latest version, as text (RRUpdater.cs:22-26); `UpToDateIsTextual`, `FetchFailureNeverUpToDate` and `NotInstalledNeverUpToDate` state its consequences |
| Catalog.ParseLine | WheelWizard/Services/Installation/RetroRewindInstaller.cs:132-134 | definition: the line cut at its first three spaces into at most four parts; fewer than four parts gives no entry, otherwise the four trimmed parts; `ParseLineSurvives`, `ParseLineFields` and `ParseLineShape` state what survives and what the fields are |
| Catalog.Lines | WheelWizard/Services/Installation/RetroRewindInstaller.cs:127-128 | definition: the catalog text split on `\n` with empty lines removed; `CatalogEmptyLine` and `CatalogBound` state its consequences |
| Catalog.ParseCatalog | WheelWizard/Services/Installation/RetroRewindInstaller.cs:121-138 | definition: the entries of the surviving lines, in order; `GetAllVersionData` is proved to compute it, and `CatalogConcat`/`CatalogSingleLine` describe it |
| Versions.ComparePadded | WheelWizard/Services/Installation/RetroRewindInstaller.cs:158-164 | definition: the comparison from the first component, a missing component counting as 0; `CompareVersions` is proved to compute it, and `CompareReflexive`, `CompareAntisymmetric`, `CompareTransitive` and `CompareZeroIff` make it a total order |
| Planner.Plan | WheelWizard/Services/Installation/RetroRewindInstaller.cs:144-151 | definition: the entries of the sorted list kept until the first that is not newer, reversed; `PlanIsPlanFor` ties it to `IsPlanFor` |
| Planner.IsPlanFor | WheelWizard/Services/Installation/RetroRewindInstaller.cs:140-151 | definition independent of the algorithm: oldest first, and a permutation of the catalog's entries newer than the installed version |
| Installation.VersionOf | WheelWizard/Services/Installation/RetroRewindInstaller.cs:25-31 | definition: the marker's text, or "Not Installed" when `version.txt` is absent |
| Installation.Host.CurrentRRVersion | WheelWizard/Services/Installation/RetroRewindInstaller.cs:25-31 | definition: `VersionOf` the machine's marker; `UpdateVersionFile` reads it back |
| Installation.StepProgress | WheelWizard/Services/Installation/RetroRewindInstaller.cs:173-175 | definition: the `Update index/total` label, followed by the extracting label unless the download failed; `StepShowsOneLabel` states it shows one counter label |
| Installation.ChainFrom | WheelWizard/Services/Installation/RetroRewindInstaller.cs:97-108 | definition: `Step` on each update from index `i`, stopping at the first failure; `ChainFromSucceeds`, `ChainFromExtracted`, `ChainFromMarker`, `ChainFromCleansUp` and `ChainFromShown` state its effect |
| Installation.Chain | WheelWizard/Services/Installation/RetroRewindInstaller.cs:93-110 | definition: `ChainFrom` from the first update; `ChainOutcome` and `ChainLabels` state its guarantees (RRUpdater.cs:76-95) |
| Installation.Gate | WheelWizard/Services/Installation/RetroRewindInstaller.cs:65-89 | definition: the branch `UpdateRR` takes for an installed version and a latest-version fetch; `GateInSourceOrder` shows it agrees with the source's order of tests (RRUpdater.cs:48-64) |
| RetroRewindInstaller.UpdateRR | WheelWizard/Services/Installation/RetroRewindInstaller.cs:61-111 | up to date: true, nothing changes. "Not Installed": true, with a full install leaving the package's marker when the user agrees. Unparsable installed version: throws, nothing changes. Below 3.2.6: the user's answer, and on Yes the full install, which replaces the marker unless its own reinstall prompt is declined. Otherwise the incremental result |
| RRUpdater.UpdateRR | WheelWizard/Services/Installation/RRUpdater.cs:44-65 | up to date: true, nothing changes. "Not Installed" and below 3.2.6: the handler's result, and when the handler ran a full install, the marker it left and one more install counted. Unparsable: throws, nothing changes. Otherwise `ApplyUpdates`' result |

## Left out

- Network access: the catalog is fetched twice (latest version, then the full catalog). Both fetches are inputs, `None` when the request throws. The HTTP exception message is not modelled.
- Message boxes are not modelled. A Yes/No prompt is a `bool` input: `answerYes` for `UpdateRR`'s own prompt and `confirmReinstall` for the one `InstallRetroRewind` shows over an existing install.
- `HandleNotInstalled` and `HandleOldVersion` are not part of this model. `RRUpdater.UpdateRR` takes what each did as a `Handler` input: its result, and whether it ran a full install and which marker that install left. A handler is modelled as a full install or nothing; any other effect on the machine is not tracked.
- `Installation.Host.InstallRetroRewind`: the marker the downloaded package brings is the input `packageMarker`. The download, the zip's extraction beyond the marker, the copy of the `rksys.dat` save file, and exceptions thrown by the download or the extraction are not modelled.
- `Planner.ResumeAfterFailure` and `Installation.RerunResumes` hold only when the catalog's versions are distinct. With two entries of one version (say `3.2.7 u1 …` and `3.2.7 u2 …`), if the first applies and the second fails, the marker reads 3.2.7 and a rerun never applies the second entry.
- `ProgressWindow` is reduced to the labels the update chain gives it. The window `InstallRetroRewind` opens for "Downloading Retro Rewind..." is not modelled. Percentages, `Show` and `Close` are not modelled, including `RRUpdater.ApplyUpdates` closing the window twice on failure (once before `return false`, once in `finally`).
- Download and zip extraction are not modelled: each call's outcome comes from `attempt`. A failed extraction is modelled as extracting nothing, although the real `ExtractToDirectory` may leave some files behind.
- `ConfigValidator`/`PathManager` load paths, `IsRetroRewindInstalled` and file-system exceptions are not modelled. `version.txt` is an `Option<string>`, and writing it cannot fail.
- `Path.GetTempFileName` is modelled as a counter handing out fresh names.
- `Planner.SortDescending`: `List.Sort` is an unstable introsort, and the model does not model it. A selection sort stands in for it, and its contract promises only what `List.Sort` promises: some newest-first permutation. The plan is unique anyway when catalog versions are distinct (`Planner.AscendingUnique`).
- `Planner.GetUpdatesToApply`: it requires a parsable installed version and a fully parsable catalog. `UpdateRR` reaches it only after `CompareVersions(currentVersion, "3.2.6")` has parsed the installed version. `Installation.ApplyUpdates` returns `Faulted` when a catalog version does not parse, because `List.Sort` and the scan then throw.
- `Versions.ParseInt32`: `int.Parse` failure is not a precondition. It is the `None` result, and an exception out of `UpdateRR` is the outcome `Faulted`. `int.Parse` also accepts any run of NUL characters at the very end of its input (so `"7\0"` reads as 7); the model rejects such text, so a `version.txt` whose components end in NUL characters is unparsable here. Culture-specific signs (the current culture's `NumberFormatInfo`) are not modelled.
- `Installation.Gate`: this routing function tests "Not Installed" before up to date, while the source tests up to date first. `Installation.GateInSourceOrder` proves the two orders agree.
- `Text.Trim`: white space is the set `char.IsWhiteSpace` accepts (tab to carriage return, space, U+0085, U+00A0 and the Unicode space, line and paragraph separators), written out as a fixed list.
- Async/await, threading and exception wrapping (for example a comparer exception inside `List.Sort` arriving as `InvalidOperationException`) are not modelled: every exception is `Faulted`.
