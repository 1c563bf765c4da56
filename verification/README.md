# Release lines, identity rotation and the small parsers: a Dafny model

This project models four parts of the verifiable trust infrastructure repository
and proves what they are for.

- **Releases** (`scripts/*.py`). Versions fall into caret compatibility lines.
  Guards decide what main may publish, a cut gives a release branch its lines, a
  branch takes patch numbers, and a fixer raises versions until the guards pass.
  Files: `Versions`, `ReleaseGuards`, `GuardPromises`, `BumpFixer`, `FixerConvergence`, `FixerReach`,
  `Distances`, `FixerCap`, `WorkspaceReqs`, `ReleaseHistory`, `ReleaseLines`, `ReleaseTags`.
- **Community identities** (`cnm-cli`). A key is minted, confirmed at a VTC and
  rotated by a write-ahead protocol over a session store that may crash between
  any two writes. Files: `Rotation`, `RotationSafety`, `RotationOutcome`, `CommunityStore`,
  `CommunityConfig`, `Slugs`.
- **Printers and parsers** (`cnm-cli`). Shell words, base64url and answer codes,
  and the framing of a server-sent event stream. Files: `ShellWord`, `Base64Url`,
  `EventFraming`, `EventDispatch`, `EventStandard`; `ActionsWatch` follows the stream's
  reconnections.
- **Kernels.** First-use key creation, the CI dependency closure, the cache
  pruner. Files: `FingerprintKey`, `CiClosure`, `CachePruner`.

Code that changes things step by step is a method with loops, or a class with
fields, proved against a function or relation on values; the theorems are lemmas
about those. `dafny verify dfyconfig.toml` checks everything.

## What the proofs say about the code

- The fixer always ends without its cap, for every registry and every dependency
  graph. Raising a crate *drags* another along when the requirement that one then has
  moves away from its published release. If the next breaking version of every crate
  the drags reach is free, a crate is named in round k exactly when it is k drags from
  the ones named first, and the run stays below its cap of eight exactly when no crate
  is more than six drags away (`FixerReach.CapIsExact`). A stack of eight ends clean and
  is still reported as not converged (`FixerCap.CleanButNotConverged`). When the next
  lines are claimed, distances no longer count the rounds (`FixerCap.ClaimedLinesCost`).
- A crate at 0.0.z is outside the protocol: its next patch leaves its line
  (`Versions.NextPatchStays`), and the requirement the fixer writes for it does not
  accept it (`Versions.ReqAcceptsItsVersion`, `WorkspaceReqs.RaiseKeepsAgreement`).
- A branch can patch for ever exactly when what was cut is the newest patch of its
  minor version (`ReleaseLines.CutMustBeNewest`). Until its manifest is on main, a
  cut closes nothing (`ReleaseLines.UnrecordedCutClosesNothing`); which cuts and
  releases then do harm is exact (`ReleaseLines.SparingIsExact`).
- Rule 2 keeps a line uniform for a release above some live version of the line, or
  into a line with none, exactly when the release neither adds a tracked dependency
  to the line nor drops one (`ReleaseHistory.DependencySetIsExact`). A release below
  every live version of its line is compared with another line and always accepted;
  it keeps the line uniform exactly when it asks for what the line asks for
  (`ReleaseHistory.UnanchoredReleaseBreaks`).
- A rotation loses the accepted key exactly when a swap commits and its answer is
  an error. A recovery after a crash loses it exactly when the VTC asked does not
  answer or does not accept the waiting key, so also when `--vtc-did` names another
  VTC. No command on another community takes away an accepted identity, or an accepted
  side key that nobody else holds, whatever the network answers. A side key that is also
  another's identity is the one thing a swap there can take
  (`RotationSafety.SwapTakesSharedSide`).
- A raw slug that ends in `.rotating` is the side slot of another community
  (`Slugs.KeysCollide`). Slugs made by `slugify` never are. `Rotation` keeps
  identities and side slots apart by construction, which is what that gives.
- The event framing is independent of how the stream is cut exactly when no CR
  stands directly before a CRLF. It delivers what the standard dispatches, on streams
  with LF or CRLF line ends and no byte order mark, exactly when no finished block has a
  bare `data` line, or white space other than one space after `data:`
  (`EventStandard.FramingIsStandard`). Lines ended by a lone CR, and a leading mark,
  are read differently.
- A release name of one letter is accepted by the cut and its tag is then
  unreadable to every later preparation (`ReleaseTags.TagRoundTrip`).

## Hypotheses on runs

- *Sparing* (`ReleaseLines`): a release on main overtakes no branch whose manifest is
  not recorded yet, a cut shares no line with such a branch and takes the newest patch
  of each crate's minor version and no crate at 0.0.z. *Clear* asks also that main
  publishes nothing new into the line of such a branch. *Disciplined* implies both: every
  cut is recorded before main releases or is cut again. Refused steps change nothing.
- *Allowed* (`ReleaseHistory`): a release is one rule 2 accepts, is above a live version
  of its line or in a line with none, and has the dependencies its line has.
- *Unclaimed successors* (`FixerReach`): of every crate the drags reach, the next
  breaking version is not published and no release owns its line.
- *Answered* (`Rotation`): a swap that answers with an error did not commit, and the VTC
  answers a recovery. Asked only of commands on the community spoken of. A minted key
  is new. A crash may fall between any two writes.

## Model

| member | source | states |
|---|---|---|
| Versions.CaretIsSameLine | scripts/check-workspace-version-reqs.py:64-78 | the caret test on padded component lists accepts exactly the versions at or above the requirement in its compatibility class |
| Versions.LineConvex | scripts/check-release-bump-sizes.py:102-110 | a compatibility class is an interval of the version order |
| Versions.NextBreakingIsLeast | scripts/fix-release-bump-sizes.py:52-58 | the next breaking version is the least one above outside the class, and the floor of its own class |
| Versions.NextPatchStays | scripts/prepare-release-branch.py:71-73 | a patch is the next version of its line, and stays in it exactly when the version is not 0.0.z |
| Versions.ReqAcceptsItsVersion | scripts/fix-release-bump-sizes.py:61-64 | the requirement form accepts the version it is made from, and has its class, exactly when that is not 0.0.z with z above 0 |
| Versions.ReqAcceptsItsLine | scripts/fix-release-bump-sizes.py:61-64 | apart from 0.0.z it accepts exactly the versions of that class, those below included |
| ReleaseGuards.MovedReqs | scripts/check-release-bump-sizes.py:150-171 | the loop reports exactly the tracked normal and build dependencies whose caret class differs from the published one's |
| ReleaseGuards.FindBaseline | scripts/check-release-bump-sizes.py:242-245 | the newest older version that is not yanked, or none |
| ReleaseGuards.DevProblem | scripts/check-release-bump-sizes.py:193-212 | rule 1 for a crate: some sibling that is only a dev-dependency carries a version |
| ReleaseGuards.DevEntryReported | scripts/check-release-bump-sizes.py:201-206 | a versioned path dev entry on a member that is no ordinary dependency makes its crate reported |
| ReleaseGuards.OtherEntryNotReported | scripts/check-release-bump-sizes.py:202-205 | an entry that is not for tests, has no path, names no member, carries no version or names an ordinary dependency adds no report |
| ReleaseGuards.DroppedVersionsAreSilent | scripts/check-release-bump-sizes.py:79-79 | dropping the versions of the dev entries silences rule 1 |
| ReleaseGuards.UnpublishedIsSilent | scripts/check-release-bump-sizes.py:186-194 | a member with `publish = false` is not looked at |
| ReleaseGuards.CheckCrate | scripts/check-release-bump-sizes.py:215-256 | rules 2 and 3 for one crate, and whether it makes this a release |
| ReleaseGuards.CheckBumpSizes | scripts/check-release-bump-sizes.py:189-259 | the guard names exactly the crates rule 2 reports, those rule 3 reports when something is about to publish, and rule 1's |
| ReleaseGuards.OwnedLines | scripts/check-release-line-ownership.py:77-85 | the dictionary lists exactly the lines, releases and cut versions the manifests record |
| ReleaseGuards.CheckLineOwnership | scripts/check-release-line-ownership.py:110-127 | the guard names exactly the unpublished versions in a line another release owns |
| GuardPromises.AgreementHasNotMoved | scripts/check-release-bump-sizes.py:150-171 | nothing moved when no ordinary entry asks for another class of a tracked crate than a published entry does |
| GuardPromises.DisagreementHasMoved | scripts/check-release-bump-sizes.py:150-171 | something moved when an ordinary entry on a tracked crate asks for another class than every published entry on it |
| GuardPromises.FeatureBranchIsSilent | scripts/check-release-bump-sizes.py:41-43 | a tree whose published crates are all at published versions is no release and has nothing too small |
| GuardPromises.ReleasesByPublishedCrates | scripts/check-release-bump-sizes.py:218-224 | it is a release exactly when a crate already published is at a version that is not |
| GuardPromises.FirstReleaseIsSilent | scripts/check-release-bump-sizes.py:218-224 | a crate never published is reported by neither rule |
| GuardPromises.BreakingBumpIsSilent | scripts/check-release-bump-sizes.py:246-247 | a version with no live older version in its class may move anything |
| GuardPromises.SmallBumpIsNamed | scripts/check-release-bump-sizes.py:242-255 | a new version in the class of the newest live older one whose floors disagree with it is named |
| GuardPromises.SmallBumpWithSameFloors | scripts/check-release-bump-sizes.py:242-255 | with no disagreement it is not |
| GuardPromises.StaleByDisagreement | scripts/check-release-bump-sizes.py:226-238 | a published version, yanked or not, whose manifest disagrees with the release is stale |
| GuardPromises.NotStaleByAgreement | scripts/check-release-bump-sizes.py:226-238 | with no disagreement it is not |
| GuardPromises.OneRuleEach | scripts/check-release-bump-sizes.py:215-240 | a crate falls under at most one of rules 2 and 3, an unpublishable one under neither |
| GuardPromises.OwnedLineIsNamed | scripts/check-release-line-ownership.py:110-127 | a new version in the class of what another release was cut with is named |
| GuardPromises.OwnLineIsFree | scripts/check-release-line-ownership.py:110-127 | one that no other release was cut with is not, so a branch patches its own lines |
| GuardPromises.PublishedIsFree | scripts/check-release-line-ownership.py:110-127 | nor is what is published already or never published |
| GuardPromises.TrackedCrates | scripts/check-release-bump-sizes.py:139-147 | the members and `trust-tasks-rs` are tracked, nothing else |
| BumpFixer.MoveRequirements | scripts/fix-release-bump-sizes.py:99-107 | every versioned requirement on the crate, and no other, is set to the new version's form |
| BumpFixer.Checkout.Bump | scripts/fix-release-bump-sizes.py:91-107 | the in-place bump of one crate is the simultaneous raise of that crate alone |
| BumpFixer.Checkout.BumpEach | scripts/fix-release-bump-sizes.py:170-171 | bumping the named crates one after another, in any order, is raising them all at once |
| BumpFixer.RunGuards | scripts/fix-release-bump-sizes.py:155-164 | one run of both guards yields the named crates, and passes exactly when nothing is named and rule 1 is silent |
| BumpFixer.Checkout.Fix | scripts/fix-release-bump-sizes.py:154-174 | at most eight rounds, each raising something, ended by nothing named or by the cap; the checkout is that many rounds on; code 0 exactly when a round found nothing named and rule 1 is silent |
| FixerConvergence.NamedLosesWeight | scripts/fix-release-bump-sizes.py:52-58 | raising a named crate strictly lowers (1 if not its class floor) + (published versions at or above) + (owned lines at or above) |
| FixerConvergence.FixerTerminates | scripts/fix-release-bump-sizes.py:154-174 | without the cap, at most the checkout's weight in rounds leaves nothing named, whatever the registry, manifests and graph |
| FixerConvergence.ReleasingOnlyEnds | scripts/check-release-bump-sizes.py:218-259 | a round never turns a tree that proposes nothing new into one that does |
| FixerConvergence.NewlyNamed | scripts/check-release-bump-sizes.py:225-255 | a crate named only after a round depends on a crate raised in it |
| FixerConvergence.RoundsWithinChains | scripts/fix-release-bump-sizes.py:154-174 | if no crate is named twice, as many rounds as the longest dependency chain has crates leave nothing named |
| FixerReach.RoundsRaiseTheReach | scripts/fix-release-bump-sizes.py:154-174 | with unclaimed successors, k + 1 rounds turn the checkout into the first one with everything within k drags raised, and the guards then name exactly what is one drag further |
| FixerReach.NamedAtItsDistance | scripts/check-release-bump-sizes.py:225-259 | a crate is named in round k if and only if its shortest path of drags from a crate named at the start has k drags |
| FixerReach.RaiseSettles | scripts/fix-release-bump-sizes.py:91-107 | a crate that was named and raised is never named again |
| FixerReach.RoundsNeeded | scripts/fix-release-bump-sizes.py:154-174 | k + 1 rounds leave nothing named if and only if every crate a drag path reaches is at most k drags away |
| FixerReach.CapIsExact | scripts/fix-release-bump-sizes.py:49-49 | the run stays below its cap if and only if every reached crate is at most six drags away; rule 1 reports what it reported before |
| FixerReach.CapSuffices | scripts/fix-release-bump-sizes.py:49-49 | so it does when no dependency chain has eight crates |
| FixerCap.StackNeedsItsHeight | scripts/fix-release-bump-sizes.py:154-174 | a stack of n crates takes n rounds, no fewer and no more: the bound is met |
| FixerCap.CleanButNotConverged | scripts/fix-release-bump-sizes.py:154-174 | a stack of eight is clean after the eighth round, and the run still ends at the cap |
| FixerCap.ClaimedLinesCost | scripts/fix-release-bump-sizes.py:154-174 | a crate without dependencies whose next n lines are owned takes n rounds, though every distance is 0: free successors are needed for the exact count |
| WorkspaceReqs.CheckWorkspace | scripts/check-workspace-version-reqs.py:92-142 | the nested loops accept exactly the workspaces where every versioned path requirement accepts its sibling |
| WorkspaceReqs.EntryDecides | scripts/check-workspace-version-reqs.py:97-111 | adding one entry keeps agreement if and only if it has no path to a member, no version, or a caret form with the sibling in its class and not below it; any other form refuses |
| WorkspaceReqs.RaiseKeepsAgreement | scripts/fix-release-bump-sizes.py:91-107 | raising keeps the workspace resolvable exactly when no raised crate that a sibling pins is at 0.0.z |
| WorkspaceReqs.RoundResolves | scripts/fix-release-bump-sizes.py:170-172 | from a resolvable tree, the tree after a round resolves if and only if no crate named in it is pinned and at 0.0.z |
| WorkspaceReqs.RoundsResolve | scripts/fix-release-bump-sizes.py:170-172 | a workspace that resolves and pins nothing at 0.0.z resolves after every round |
| ReleaseHistory.AcceptedIsRule2 | scripts/check-release-bump-sizes.py:241-255 | the history's acceptance condition is a proposed version that rule 2 does not report |
| ReleaseHistory.FixedTreeIsAccepted | scripts/fix-release-bump-sizes.py:159-162 | in a checkout with nothing named, every proposed release meets it |
| ReleaseHistory.PublishKeepsUniform | scripts/check-release-bump-sizes.py:225-255 | one allowed release keeps every line asking for one line of a tracked dependency |
| ReleaseHistory.HistoryIsUniform | scripts/check-release-bump-sizes.py:24-39 | so does every history of allowed releases and of yanks |
| ReleaseHistory.ResolveMeetsOneSibling | scripts/check-release-bump-sizes.py:24-39 | after every such history any two live versions one caret requirement accepts ask for the same line of the dependency |
| ReleaseHistory.DependencySetIsExact | scripts/check-release-bump-sizes.py:165-170 | an accepted release that is not below its line keeps uniformity if and only if it neither adds nor drops a requirement on the dependency |
| ReleaseHistory.UnanchoredReleaseBreaks | scripts/check-release-bump-sizes.py:242-247 | a release below every live version of its line is accepted with any dependencies, and keeps uniformity if and only if it asks for the line of the dependency that each of those versions asks for |
| ReleaseLines.MainAllowedIsTheGuard | scripts/check-release-line-ownership.py:110-127 | main's step is allowed exactly when the ownership guard names nothing |
| ReleaseLines.MainIsExact | scripts/check-release-line-ownership.py:110-127 | a release the guard allows keeps every branch patchable if and only if no new version overtakes the head of an unrecorded branch in its major and minor |
| ReleaseLines.CutIsExact | scripts/cut-release.py:214-236 | a cut that is allowed keeps the lines disjoint if and only if it shares none with an unrecorded cut |
| ReleaseLines.SparingIsExact | scripts/cut-release.py:214-284 | a step keeps lines disjoint and branch versions newest if and only if it is sparing |
| ReleaseLines.MainOwnsNothing | scripts/check-release-line-ownership.py:110-127 | a release the guard allows publishes into no owned line if and only if no new version is in the line of an unrecorded cut |
| ReleaseLines.ClearIsExact | scripts/check-release-line-ownership.py:2-17 | a step keeps lines disjoint and branch versions newest, and publishes into an owned line only as its owner, if and only if it is clear |
| ReleaseLines.StepKeepsInv | scripts/cut-release.py:214-284 | so does every disciplined step |
| ReleaseLines.DisciplinedRuns | scripts/cut-release.py:265-284 | a disciplined run is sparing and clear throughout |
| ReleaseLines.BranchesCanPatch | scripts/prepare-release-branch.py:141-149 | after any sparing run no two branches own a line, every branch can be prepared, and its next patch of each crate is in its own line and unpublished |
| ReleaseLines.LinesStayClosed | scripts/check-release-line-ownership.py:2-17 | over any clear run, whatever is published into an owned line comes from its owner, and nothing is replaced |
| ReleaseLines.CutMustBeNewest | scripts/cut-release.py:197-219 | for a cut of crates not at 0.0.z whose others are newest, every later patch number of a crate is free exactly when its cut version is the newest patch of its minor |
| ReleaseLines.UnrecordedCutClosesNothing | scripts/cut-release.py:20-22 | before its manifest is on main, a cut's lines can be cut again under another name and released into by main |
| ReleaseLines.RecordClosesMain | scripts/check-release-line-ownership.py:110-127 | from any world, once a cut's manifest is on main, a release with a new version in one of its lines is refused and changes nothing |
| ReleaseLines.RecordClosesCuts | scripts/cut-release.py:174-236 | and no other release can be cut in the line, nor the name be used again |
| ReleaseLines.UsedNameIsRefused | scripts/cut-release.py:174-180 | a name that a branch or a manifest has is refused |
| ReleaseLines.RecordClosesOnlyItsLines | scripts/cut-release.py:265-284 | a record closes nothing but the lines of its cut, and changes neither branches nor what is published |
| ReleaseLines.CutAndRecord | scripts/cut-release.py:265-284 | a cut followed by its record leaves every cut recorded where every cut was |
| ReleaseLines.PatchMovesTheChanged | scripts/prepare-release-branch.py:140-181 | a preparation gives the changed crates the next patch number, leaves other crates and branches as they were, and what is then on the branch is published |
| ReleaseLines.ReleasePublishes | scripts/check-release-line-ownership.py:2-17 | a release that is allowed publishes its versions; those there before keep their publisher |
| ReleaseLines.CutStartsBranch | scripts/cut-release.py:243-263 | a cut starts a branch at what it was cut with, ready for a preparation |
| ReleaseLines.OwnedOnMain | scripts/cut-release.py:86-96 | the dictionary lists exactly what the manifests on main record |
| ReleaseLines.SharedCrates | scripts/cut-release.py:220-224 | exactly the crates whose line a recorded manifest owns |
| ReleaseLines.Repository.ReleaseMain | scripts/check-release-line-ownership.py:110-127 | refused exactly when the guard refuses; otherwise the unpublished versions are published, as the protocol's step |
| ReleaseLines.Repository.CutRelease | scripts/cut-release.py:174-263 | refused exactly for a taken name, an unpublished version or a shared line; otherwise the branch exists with its manifest |
| ReleaseLines.Repository.MergeManifest | scripts/cut-release.py:265-284 | the manifest joins main's records and nothing else changes |
| ReleaseLines.Repository.PrepareBranch | scripts/prepare-release-branch.py:139-181 | refused exactly when there is no such branch or a crate version on it is not published; otherwise each changed crate takes its next patch and is published |
| ReleaseTags.TagRoundTrip | scripts/prepare-release-branch.py:46-57 | a printed tag reads back as its name and stage exactly when the name has two letters or more |
| ReleaseTags.NextReleaseIsAdvance | scripts/prepare-release-branch.py:53-68 | on tags, a preparation refuses or prints exactly as the stage does |
| ReleaseTags.TagsInOrder | scripts/prepare-release-branch.py:20-22 | in text: -RC-n is followed by -RC-(n+1) or by the bare name, the bare name by -R1, -Rn by -R(n+1) |
| ReleaseTags.RefusedKinds | scripts/prepare-release-branch.py:58-68 | a patch is refused exactly for a candidate, the other kinds exactly for what is generally available |
| ReleaseTags.LettersAndDigits | scripts/prepare-release-branch.py:46-46 | the letters and digits of the tag pattern are those of ASCII |
| ReleaseTags.TagsOnlyMoveForward | scripts/prepare-release-branch.py:20-22 | from a branch's first tag, stages move strictly forward through candidates, the general release and patches; no tag twice |
| ShellWord.ShellWord | cnm-cli/src/git.rs:499-540 | the loop with its pending run prints the word the recursive definition gives |
| ShellWord.WordRoundTrip | cnm-cli/src/git.rs:488-499 | a POSIX-family reader and a fish reader each read the printed word as exactly one word equal to the value, if and only if it has no NUL |
| ShellWord.PrintedAsItStands | cnm-cli/src/git.rs:499-515 | a value is printed unquoted if and only if it is not empty, has only the listed ASCII characters and does not start with `-`, `=` or `%` |
| ShellWord.ReadInDouble | cnm-cli/src/git.rs:488-499 | what each reader makes of any character between double quotes |
| ShellWord.ReadEscapedInDouble | cnm-cli/src/git.rs:488-499 | and after a backslash there |
| ShellWord.ReadEscapedInSingle | cnm-cli/src/git.rs:488-499 | and after a backslash between single quotes, where fish escapes and the POSIX family does not |
| ShellWord.ReadEscaped | cnm-cli/src/git.rs:488-499 | and after a backslash outside quotes |
| ShellWord.ReadBare | cnm-cli/src/git.rs:488-499 | and alone: separators, and the characters each shell interprets |
| ShellWord.CommandRoundTrip | cnm-cli/src/git.rs:488-499 | a space-joined command line of such words, plain words and `--flag=` words reads back as its list |
| ShellWord.RatifyPastes | cnm-cli/src/git.rs:1348-1364 | by quoting and word splitting, the ratify command is read as seven words carrying the binary and the four values unchanged |
| EventFraming.ReplaceCrLf | cnm-cli/src/actions_watch.rs:230-231 | one pass replacing CRLF by LF |
| EventFraming.Drain | cnm-cli/src/actions_watch.rs:232-233 | the loop takes off every complete block, first blank line first |
| EventFraming.Receive | cnm-cli/src/actions_watch.rs:215-233 | the loop over chunks yields the blocks and buffer of feeding them in turn |
| EventFraming.ChunkingDoesNotMatter | cnm-cli/src/actions_watch.rs:214-238 | however a stream without CR before CRLF is cut, blocks and buffer are those of the whole normalised stream |
| EventDispatch.ChunkingMattersExactly | cnm-cli/src/actions_watch.rs:229-233 | every cutting of a stream gives the same blocks and buffer if and only if no CR precedes a CRLF; for a stream ending in a blank line the blocks alone differ otherwise |
| EventDispatch.FramingDispatchesTheEvents | cnm-cli/src/actions_watch.rs:232-240 | the data the blocks carry is what reading the whole normalised text line by line gives, with the code's own reading of a line |
| EventStandard.PlainIsExact | cnm-cli/src/actions_watch.rs:234-237 | the code and section 9.2.6 of WHATWG HTML take the same data from a line if and only if it is not a bare `data` and has at most one white-space character, a space, after `data:` |
| EventDispatch.WhiteSpaceListed | cnm-cli/src/actions_watch.rs:236-236 | what `trim_start` strips is the 25 white-space characters of Unicode |
| EventStandard.FramingIsStandard | cnm-cli/src/actions_watch.rs:214-240 | on a stream without byte order mark whose every CR is followed by LF, cut anyhow, the code delivers what the standard's reader dispatches from the raw stream if and only if every line of its finished blocks is such a line |
| EventStandard.LoneCrMatters | cnm-cli/src/actions_watch.rs:230-232 | any data line ended by lone CRs is an event for the standard and nothing for the code |
| EventStandard.MarkMatters | cnm-cli/src/actions_watch.rs:229-237 | any data line after a leading byte order mark is an event for the standard and nothing for the code |
| EventStandard.ConditionsAreNeeded | cnm-cli/src/actions_watch.rs:229-237 | the line `data:` in either stream is a failing input |
| ActionsWatch.Once | cnm-cli/src/actions_watch.rs:247-288 | a stream that went live leaves the last token its response or events brought before the first fault, none if none did; any other leaves the token as it was |
| ActionsWatch.PassedIsDistance | cnm-cli/src/actions_watch.rs:117-120 | the attempts counted are those since the latest live stream, and there are none exactly after a live stream or at the first attempt |
| ActionsWatch.ResponseSets | cnm-cli/src/actions_watch.rs:250-257 | the opening response sets the token to what it carries, be it none |
| ActionsWatch.NextDocument | cnm-cli/src/actions_watch.rs:282-288 | a later event with a token sets it; an event without one, and any other document, keeps it |
| ActionsWatch.FaultEnds | cnm-cli/src/actions_watch.rs:241-248 | nothing after a fault counts |
| ActionsWatch.LiveByResponse | cnm-cli/src/actions_watch.rs:250-254 | a stream is live exactly when its first document is the response |
| ActionsWatch.SendsRecurs | cnm-cli/src/actions_watch.rs:101-120 | no token at first; after an attempt the one its live stream leaves, or the one before |
| ActionsWatch.WaitDoubles | cnm-cli/src/actions_watch.rs:122-122 | the longest wait is 1 s at first and doubles up to 60 s |
| ActionsWatch.Watch | cnm-cli/src/actions_watch.rs:101-141 | over every run, each subscribe sends the last token brought by the latest attempt that went live; the wait is 0.5 to 1 s right after a live stream or the first attempt, then 1 to 2, 2 to 4, 4 to 8, 8 to 16, 16 to 32 s, and 30 to 60 s from the seventh attempt without one |
| Base64Url.Base64Url | cnm-cli/src/git.rs:1018-1035 | the chunk and letter loops print the encoding |
| Base64Url.DecodeEncode | cnm-cli/src/git.rs:1018-1035 | an RFC 4648 section 5 decoder reads every byte sequence back from its encoding |
| Base64Url.EncodeDecode | cnm-cli/src/git.rs:1018-1035 | and accepts nothing but encodings |
| Base64Url.EncodeShape | cnm-cli/src/git.rs:1018-1035 | four letters for three bytes rounded up, all in the alphabet |
| Base64Url.AnswerCodeRoundTrip | cnm-cli/src/git.rs:1163-1198 | a code is read as an assertion exactly when the assertion's four or five parts are non-empty base64url and the code is their printed form |
| Base64Url.EncodedPartsAreAccepted | cnm-cli/src/git.rs:1163-1198 | non-empty byte strings encoded and joined are always accepted and read back |
| RotationSafety.RotateKeepsOwn | cnm-cli/src/onboard.rs:687-704 | for a pending or confirmed community, at every write of a rotation the VTC accepts the identity or the side slot, when an error reply means no commit, and at its end the identity |
| RotationSafety.ContinueKeepsOwn | cnm-cli/src/onboard.rs:504-619 | so at every write of the first rotation, which runs while the community is still pending |
| RotationSafety.StepsKeepHeld | cnm-cli/src/onboard.rs:447-779 | every world a command passes through keeps the key one VTC accepts of one community: its own commands that ask that VTC and are answered, and any command on another under any answers |
| RotationSafety.NoRunStrands | cnm-cli/src/onboard.rs:447-779 | so does every run of them, each command cut short by a crash anywhere or not |
| RotationSafety.GrantedIsNeverStranded | cnm-cli/src/onboard.rs:447-779 | from any store, once the VTC grants the stored identity of a pending or confirmed community, every such run leaves the identity or a private side key accepted there |
| RotationSafety.ConfirmedStaysSafe | cnm-cli/src/onboard.rs:447-779 | over every run, additions and deletions of the community included, whatever the network answers to other communities' commands, a confirmed community with a stored identity is held at its VTC |
| RotationSafety.RecoveryCompletes | cnm-cli/src/onboard.rs:706-731 | wherever the VTC accepts the identity or the side slot, one completed recovery makes the accepted key the identity and empties the slot |
| RotationSafety.RotationTouchesNoOther | cnm-cli/src/onboard.rs:736-779 | from any world, whatever the network does and wherever it crashes, rotating one community leaves every other's keys and config entry as they were, and an identity or a private side key that a VTC accepted is still accepted |
| RotationSafety.ContinueTouchesNoOther | cnm-cli/src/onboard.rs:504-619 | the same for confirming one |
| RotationSafety.OthersTouchNothing | cnm-cli/src/onboard.rs:447-779 | the same for every command on another community, deletion and reuse of its identity included |
| RotationSafety.SwapTakesSharedSide | cnm-cli/src/onboard.rs:643-672 | an unblocked swap of one community leaves another held if and only if the other's identity is accepted or its side key is not the key swapped away |
| RotationSafety.LostReplyStrands | cnm-cli/src/onboard.rs:697-700 | a completed rotation keeps an accepted key exactly when it is not the case that the swap committed and its answer was an error |
| RotationSafety.RecoveryNeedsItsVtc | cnm-cli/src/onboard.rs:718-729 | recovering a crashed rotation keeps the accepted key exactly when the VTC asked answers and accepts it |
| RotationOutcome.UnboundRotates | cnm-cli/src/onboard.rs:736-779 | an unbound identity no other community holds is rotated: the VTC's entry moves onto the new key, which becomes the identity |
| RotationOutcome.BoundStays | cnm-cli/src/onboard.rs:650-655 | one bound to a community VTA is never swapped |
| RotationOutcome.SharedStays | cnm-cli/src/onboard.rs:656-671 | nor one that another pending or confirmed community holds |
| RotationOutcome.RefusedSwapLeaves | cnm-cli/src/onboard.rs:697-700 | a refused swap leaves everything as it was |
| RotationOutcome.UnboundConfirms | cnm-cli/src/onboard.rs:562-613 | a pending unbound community whose identity the VTC accepts is confirmed at that VTC and rotated |
| RotationOutcome.BoundConfirms | cnm-cli/src/onboard.rs:562-613 | a bound one is confirmed with the key it has |
| RotationOutcome.NotGrantedStaysPending | cnm-cli/src/onboard.rs:537-569 | without a VTC, an answer or an accepted key nothing is written |
| RotationOutcome.FreshAdds | cnm-cli/src/onboard.rs:447-495 | a new community waits with the minted key |
| RotationOutcome.ReuseAdds | cnm-cli/src/onboard.rs:447-495 | with `--reuse-identity` it waits with the other community's key, which that one keeps |
| RotationOutcome.KnownIsKept | cnm-cli/src/onboard.rs:408-431 | a confirmed community is never replaced, a pending one only with overwrite |
| RotationOutcome.BadReuseRefused | cnm-cli/src/onboard.rs:447-495 | reuse of its own identity, of one that is not confirmed or has no key is refused |
| RotationOutcome.DeleteForgets | cnm-cli/src/main.rs:2037-2082 | a deleted community is unknown and without identity; its side slot, the access lists and other entries stay |
| CommunityStore.Cnm.RotateIdentity | cnm-cli/src/onboard.rs:687-704 | park, swap, promote, clear: the writes pass through exactly the modelled worlds |
| CommunityStore.Cnm.RecoverRotation | cnm-cli/src/onboard.rs:709-731 | adopt when accepted, clear in any case, through exactly the modelled worlds |
| CommunityStore.Cnm.RotationBlocker | cnm-cli/src/onboard.rs:643-672 | blocked exactly for a bound identity or one another configured or pending community holds |
| CommunityStore.Cnm.RotateCommunity | cnm-cli/src/onboard.rs:736-779 | refused for an unknown community or one without a VTC; recover, then rotate unless blocked, through exactly the modelled worlds; true exactly when the new key is the identity |
| CommunityStore.Cnm.BeginCommunity | cnm-cli/src/onboard.rs:447-495 | a refused begin changes nothing; otherwise the identity is stored before the config is saved, and its DID is the one stored and pending |
| CommunityStore.Cnm.ContinueCommunity | cnm-cli/src/onboard.rs:504-619 | recover, confirm, rotate unless blocked, the config saved last; true exactly when the community went from pending to confirmed |
| CommunityStore.Cnm.DeleteCommunity | cnm-cli/src/main.rs:2037-2082 | the key goes before the config is saved, the side slot stays; true exactly when the slug was pending or confirmed |
| CommunityConfig.FirstKey | cnm-cli/src/main.rs:2072-2072 | the least remaining slug, or none |
| CommunityConfig.Store.BeginCommunity | cnm-cli/src/onboard.rs:408-431 | refused for an empty, configured or (without overwrite) pending slug; otherwise pending |
| CommunityConfig.Store.ConfirmCommunity | cnm-cli/src/onboard.rs:582-594 | refused exactly without a pending entry or a VTC; otherwise pending becomes configured, and the default if there was none |
| CommunityConfig.Store.InsertCommunity | cnm-cli/src/setup.rs:714-736 | configured and no longer pending, keeping a known VTC, and the default if there was none or it is the only one |
| CommunityConfig.Store.UseCommunity | cnm-cli/src/main.rs:1998-2016 | the default, if configured |
| CommunityConfig.Store.DeleteCommunity | cnm-cli/src/main.rs:2037-2082 | refused exactly for an unknown slug; otherwise gone from where it was, a deleted default passing to the least slug left, or to none |
| CommunityConfig.RunIsConsistent | cnm-cli/src/config.rs:6-21 | every run from an empty config keeps pending and configured slugs apart, and the default unset exactly when nothing is configured and otherwise configured |
| CommunityConfig.OnlyConfirmedResolve | cnm-cli/src/config.rs:116-134 | in every such config a pending slug never resolves, and the default resolves exactly when something is configured |
| CommunityConfig.UsedIsResolved | cnm-cli/src/main.rs:1998-2016 | after `use` the community is what commands without a name go to |
| CommunityConfig.ConfirmedResolves | cnm-cli/src/onboard.rs:582-594 | a confirmed community resolves by name with the VTC and VTA given last, and by default if it is the first |
| CommunityConfig.ImportedResolves | cnm-cli/src/setup.rs:714-736 | an imported one resolves by name, keeps a VTC it had, and is the default only if it is the only one |
| CommunityConfig.BegunWaits | cnm-cli/src/onboard.rs:408-431 | a begun one waits as given and does not resolve |
| CommunityConfig.DeletedIsGone | cnm-cli/src/main.rs:2037-2082 | a deleted one is gone and the rest stays; a default that was deleted passes to the least slug |
| Slugs.SlugIsRuns | cnm-cli/src/setup.rs:84-98 | a slug is the alphanumeric runs of the lower-cased name, in order, joined by single hyphens |
| Slugs.SlugifyIdempotent | cnm-cli/src/setup.rs:84-98 | slugifying again changes nothing; no hyphen at an end, none doubled; given that lower-casing is idempotent character by character |
| Slugs.KeysCollide | cnm-cli/src/onboard.rs:674-678 | identity keys are injective; an identity key is a slot key exactly when its slug is the other's followed by `.rotating` |
| Slugs.SlugsNeverCollide | cnm-cli/src/config.rs:136-139 | so a slugified slug's identity key is never a slot key, whatever the casing tables |
| FingerprintKey.FirstUsersConverge | vta-external/src/fingerprint.rs:21-41 | however first users interleave, at most one write, one key for all, never "vanished", and no failure but a stored row of the wrong length |
| FingerprintKey.KeyIsFinal | vta-external/src/fingerprint.rs:21-23 | a key once handed out is the stored one for the rest of the run |
| FingerprintKey.ActProgresses | vta-external/src/fingerprint.rs:24-41 | each step of a caller brings it nearer to its end and leaves the other callers alone |
| FingerprintKey.DeletionBreaksAgreement | vta-external/src/fingerprint.rs:36-39 | with a deletion between two first uses the keys differ: that nothing deletes the row is needed |
| CiClosure.Closure | scripts/ci-closure.py:78-89 | the worklist ends on every graph, and has seen exactly what a path of member-to-member edges reaches from the start |
| CiClosure.TagMembers | scripts/ci-closure.py:65-89 | unknown or empty sets are refused; otherwise IN is the closure, or with `--own` the start alone |
| CiClosure.OwnIsTheListed | scripts/ci-closure.py:70-77 | with `--own` IN is exactly the listed packages |
| CiClosure.OfIsTheListedClosure | scripts/ci-closure.py:70-89 | otherwise IN is what some listed package reaches, the listed ones included |
| CiClosure.ExceptIsTheOthersClosure | scripts/ci-closure.py:70-89 | with `--except` it is what some package that is not listed reaches |
| CiClosure.DependenciesAreInside | scripts/ci-closure.py:85-89 | what is IN brings the members among its direct dependencies |
| CiClosure.InsideIsNeeded | scripts/ci-closure.py:78-89 | nothing is IN but starts and direct dependencies of what is IN |
| CiClosure.NoEdgesNoMore | scripts/ci-closure.py:70-89 | without edges IN is exactly the listed packages, or with `--except` the others |
| CiClosure.RefusedExactly | scripts/ci-closure.py:65-76 | refused exactly for a listed name no member has or a walk with no start |
| CiClosure.ClosureIsUnion | scripts/ci-closure.py:20-24 | the closure of a set is the union of its members' closures |
| CiClosure.ExceptKeepsNeeded | scripts/ci-closure.py:20-24 | `--except` keeps a named member an unnamed one reaches, so it is not the complement of a closure |
| CachePruner.Superseded | scripts/prune-superseded-caches.py:66-87 | the caches selected are exactly those on main, in a known group, that are not the group's first newest |
| CachePruner.OneIsKept | scripts/prune-superseded-caches.py:66-69 | with distinct ids exactly one cache of each group stays and none was newer; other refs and unknown keys all stay |
| CachePruner.PruningAgainFindsNothing | scripts/prune-superseded-caches.py:66-69 | pruning what is left selects nothing |

## Left out

- What ends the watcher for good: a final refusal or an interrupt. A run is the attempts before it; the heartbeat's length is not modelled.
- How a block's data becomes a document: the JSON text, its issuer and its type. `ActionsWatch` starts from the documents, `EventStandard` ends at the data lines; the `event`, `id` and `retry` fields, which the code ignores, are not modelled.
- A chunk that cuts a UTF-8 character: the source decodes each chunk by itself, so such a cut changes the text. The model's text is already decoded.
- Pre-release suffixes, which every script drops before it compares, and the texts of manifests, changelogs and problem messages.
- `--raise` and `--claim` of the fixer and the cut: a raise before the first round, and a pull request.
- `ReleaseLines` takes a published version for the tag `prepare-release-branch.py` looks up, since the release job makes both.
- BumpFixer.Checkout.Fix: does not stop where `cargo update --workspace` fails after a round; `WorkspaceReqs.RoundResolves` says exactly when the tree no longer resolves.
- FixerReach.CapIsExact: no exact count when a reached crate's successor is claimed. There a raised crate can be named again and a later raise can move a requirement back, so who is named depends on the order of raises; `FixerConvergence.FixerTerminates` bounds the rounds.
- ShellWord.RatifyPastes: does not model what a word means by its place, such as an assignment or a reserved word first on the line.
- The patch compatibility test (`cargo semver-checks`) and how a changed crate is found: which crates changed is a parameter of a preparation.
- Un-yanking a version: the histories have releases and yanks only.
- The personal VTA, sealed credentials and sessions bound to a community VTA beyond what blocks a rotation.
- Import over a confirmed community in the rotation runs: it replaces the identity by one no VTC has confirmed. `CommunityConfig` has it.
- A VTC that withdraws a grant, two `cnm` processes at once, and keys as more than opaque names.
- Storage errors in `fingerprint.rs`, and the digest itself.
- Unicode tables: lower-casing and "alphanumeric" are parameters in `Slugs`.
- The regular expressions that name a cache's group, and the order of the pruner's output.
- `cnm` command parsing and rendering, and every network, git, cargo and keyring call except for its effect.
