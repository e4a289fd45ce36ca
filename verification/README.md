# The deployment's registry, experiments, archive and duels

This project models the parts of the repository that hold state or algebra worth proving, and proves what each keeps.

- **Experiments** (`ExperimentRow`, `ExperimentLifecycle`, `ExperimentVerdicts`, `ExperimentArming`,
  `ExperimentProtocol`, `ExperimentTable`).
  An admin action reads one row, decides from it, and writes the whole row back under a guard on the status and the
  audit length it read. `Decide` is every route's decision, and `ExperimentVerdicts` says in
  fields of the row when each route writes, what, and why it refuses. `ExperimentProtocol` runs any number of overlapping handlers
  over one row, each holding any version of it ever stored. `ExperimentTable` is the table the list read completes in place.
- **The registry's reach algebra** (`Registry`, `Admission`, `RowAssembly`, `RegistryAssembly`, `PublishedRows`, `TypeGroups`,
  `ContentStamp`, `AssistantNames`, `AssistantAnswers`, `ClearanceSweep`). Classifications are sets of grants; a person carries the one token whose grants are exactly the union
  of what they hold. Two other files compute the same thing for themselves, and each is proved against the registry.
- **The registry loader** (`RegistryLoader`, `LoaderEquivalence`). A set of rows with a time to live, kept while reads fail,
  shared by concurrent callers and refreshed on demand; and the trigger's own copy of it.
- **The archive** (`ArchiveKeys`, `ArchiveListing`, `ArchivePartitions`). Object keys and the partitions printed in them,
  the four-level listing made at deploy, and registration object by object.
- **Duels** (`BattleResolution`, `BattleProtocol`, `BattleOrchestrator`, `BattleMarker`). What one invocation does with the rows it read,
  and racing invocations beside sides that are still finishing and a person who ends the duel.

`Prelude` and `Sorting` hold the sequence, set and sorting facts the others share. A handler that updates a row, a table,
a directory, a module's variables or a catalog is a class whose methods state their whole new state; loops are loops; the
pure parts are functions; runs of concurrent steps are folds over events.

## What the proofs found

Where the code and its own comments disagree, the model follows the code.

- The writes off the transition table are those of a tombstone and those of a legacy row: the delete route does not consult
  the table, so deleting a tombstone again appends `deleted` after `deleted`; and a row with no status, which no edge leaves,
  is soft-deleted or made active by an edit all the same (`ExperimentLifecycle.OffTableExactly`).
- Activating past the end date is refused on the status route only: an upsert's verdict does not depend on the clock, so an
  edit may set an ended experiment active until the next list read completes it. `ExperimentLifecycle.StoresEndedActiveIff`
  says exactly when, and `ExperimentLifecycle.EditActivatesEnded` shows one.
- The comment on an edit says an armed row keeps its pins whatever its status. They are kept only for variants that stay in
  place (`ExperimentArming.PinsKeptExactlyInPlace`); swapping a paused pair leaves the row armed with no pin.
- The lock on what an experiment compares looks incoming variants up one by one, so a list that repeats one variant passes
  for a list of two (`ExperimentRow.RepeatedIdEvadesTheLock`), and a stored list whose ids repeat with different configurations
  is refused even unchanged (`ExperimentRow.StoredRefusedIff`). `ExperimentRow.LockIsExactIff` says on which lists it is exact,
  and over runs an armed row goes on comparing the same exactly while edits repeat no variant
  (`ExperimentProtocol.ComparisonHoldsSinceArming`).
- The branch that strips a draft's pins is never taken: a draft is never armed (`ExperimentArming.EditKeepsRowInv`).
- Validation accepts a grant list that names a classification twice, and then a holder may be given another
  classification's token and no longer reach their own (`Registry.OwnTokenIffRepeatFree`, `Registry.RepeatedGrantMisnames`).
  The share handler compares sorted lists instead of lengths, so on such a set it admits people to what the registry says they
  do not reach (`Admission.RepeatedGrantShares`). `Registry.TokenNamesIff` says for which holdings the token is right,
  `Admission.ShareWithinIff` for whom the share handler stays within the registry, and `Admission.ShareNeverExceedsIff` on which
  sets it does for everyone.
- One name may be both a challenger's and an assistant's: validation refuses the `alt-` prefix on a profile but not on a role,
  and a value with a dash in it may do the same with no such role (`AssistantNames.DashedNamesClash`).
  `AssistantNames.NamesClashIff` says exactly when, on any valid set.
- A membership group's check promises reach only where every token a person may carry is closed over what groups require
  (`TypeGroups.SoundIffTokensClosed`); no validation asks for that.
- A refresh's read is not the shared in-flight read, so a load may read beside it and the older set may be installed last
  (`RegistryLoader.OlderSetInstalled`). `RegistryLoader.NewestHoweverIffNoOverlap` says exactly which runs can end so; loads
  alone never do.
- An orchestrator that finds no router marks the duel complete without the claim, and the marker may then contradict a
  round another invocation hands out (`BattleProtocol.DeclineMisnamesTheEnd`). `BattleMarker.StaysTrueIff` says exactly when
  a marker stays true, and `BattleMarker.StaysTruePromptlyIff` exactly when it does so though no deadline passes.
- The archive table keys a partition by its values alone, so of two buckets the first object decides the location, and
  events of several buckets leave one table in every order only under `ArchivePartitions.OrderFreeIffOneBucketEach`.
- The published rows are assembled item by item, so that one stack's removal costs only what it named; yet removing one may
  refuse the whole set, because two of the other classifications then grant one list (`PublishedRows.RemovalRefuses`), while
  the trigger goes on installing it. `PublishedRows.PartlyRefusedIff` says exactly which of a valid set's rows are refused
  together, `PublishedRows.RemovalRefusedIff` exactly which removals do it, and `RegistryAssembly.RefusedIff` what refuses any
  rows at all.
- A set comes back from its rows only if it declares no profile name twice, which validation does not ask
  (`PublishedRows.RoundTripIff`).

## Model

| member | source | states |
|---|---|---|
| ExperimentRow.VariantModelOrCountChanged | backend/lambda/src/admin-experiments.ts:337-350 | the early-returning loop answers whether the check fails; against distinct stored ids, whether the counts differ or some incoming variant has no stored one of its id, model, profile, image model and addendum |
| ExperimentRow.PassesFieldwise | backend/lambda/src/admin-experiments.ts:324-350 | against distinct stored ids, an edit passes exactly when it has as many variants and each is tested as some stored one is, field by field |
| ExperimentRow.LockSeesOnlyTests | backend/lambda/src/admin-experiments.ts:321-332 | weight, traffic and pins never change what the check answers, on either list |
| ExperimentRow.LockedExactly | backend/lambda/src/admin-experiments.ts:324-350 | against distinct stored ids, an edit with distinct ids passes exactly when it is a permutation of the stored tested configurations |
| ExperimentRow.LockIsExactIff | backend/lambda/src/admin-experiments.ts:334-350 | on any two lists, whatever ids they repeat, the check refuses just what is not a permutation exactly when the edit is one and stored variants of one id agree, or it is none and is of another length or holds a configuration that is not the last stored of its id |
| ExperimentRow.StoredRefusedIff | backend/lambda/src/admin-experiments.ts:341-347 | the check refuses the stored list itself exactly when two stored variants share an id and differ |
| ExperimentRow.LockIsExactForDistinct | backend/lambda/src/admin-experiments.ts:334-350 | against distinct stored ids, it is exact just when the edit names each id once, has another length, or holds a configuration not stored |
| ExperimentRow.RepeatedIdEvadesTheLock | backend/lambda/src/admin-experiments.ts:341-347 | two copies of the control pass for the control and the treatment |
| ExperimentLifecycle.OneEntryPerWrite | backend/lambda/src/lib/experiment-manager.ts:1465-1489 | every accepted action on a row keeps its audit and appends one entry, from the status read to the status stored |
| ExperimentLifecycle.CreationReplays | backend/lambda/src/admin-experiments.ts:1386-1392 | a created row's audit is one creation entry ending at its status |
| ExperimentLifecycle.WriteReplays | backend/lambda/src/admin-experiments.ts:1041-1047 | every route keeps the audit linked, legal entry by entry, and ending at the stored status |
| ExperimentLifecycle.OffTableExactly | backend/lambda/src/admin-experiments.ts:1126-1166 | an accepted write takes a table edge or is an edit in place exactly when the row read has a status and is no tombstone |
| ExperimentLifecycle.TerminalStaysTerminal | backend/lambda/src/lib/experiment-manager.ts:1446-1463 | in a replaying audit nothing but deletion follows completed or deleted |
| ExperimentLifecycle.DropOnlyNeverStarted | backend/lambda/src/admin-experiments.ts:1126-1148 | a hard delete's row has an audit that never left draft |
| ExperimentLifecycle.ActiveWriteIsArmable | backend/lambda/src/admin-experiments.ts:440-474 | whatever route stores an active row, both versions are pinned, the treatment's derived for it, and both limits leave room |
| ExperimentLifecycle.CheapRefusalsComeFirst | backend/lambda/src/admin-experiments.ts:979-1008 | a refusal over a limit is the same whatever the profile writer would answer |
| ExperimentLifecycle.OnlyStatusReadsWindow | backend/lambda/src/admin-experiments.ts:956-977 | the status route never activates past the end date, and an upsert is accepted or refused alike at any hour |
| ExperimentLifecycle.StoresEndedActiveIff | backend/lambda/src/admin-experiments.ts:956-977 | an accepted action stores an active row past its end date exactly when it is an upsert to active carrying such a date |
| ExperimentLifecycle.EditActivatesEnded | backend/lambda/src/admin-experiments.ts:1430-1440 | a paused experiment past its end date is refused activation by the status route and activated by an edit |
| ExperimentVerdicts.TableEdges | backend/lambda/src/lib/experiment-manager.ts:1446-1463 | the lifecycle's edges, one by one |
| ExperimentVerdicts.EntrySays | backend/lambda/src/admin-experiments.ts:1041-1047 | whom each route's audit entry names, when, and how it is tagged |
| ExperimentVerdicts.MissingRefused | backend/lambda/src/admin-experiments.ts:832-851 | what is refused of a row that is not there: the routes' own checks come first |
| ExperimentVerdicts.PromotesIff | backend/lambda/src/admin-experiments.ts:832-887 | a promotion writes exactly when the caller manages profiles, the note is valid, the row runs or is paused with its versions, and the writer is there and answers; and what it stores |
| ExperimentVerdicts.PromotionRefusals | backend/lambda/src/admin-experiments.ts:834-879 | which of the things in a promotion's way is named |
| ExperimentVerdicts.RemovesIff | backend/lambda/src/admin-experiments.ts:1126-1166 | a removal drops exactly a draft no variant of which saw traffic, and otherwise leaves a tombstone |
| ExperimentVerdicts.SetsStatusIff | backend/lambda/src/admin-experiments.ts:940-1060 | the status route writes only along an edge, inside the window, under both limits, with its pins answered and its outcome valid; and every field it stores, the recorded outcome and note among them |
| ExperimentVerdicts.StatusRefusals | backend/lambda/src/admin-experiments.ts:922-1038 | which of the things in the status route's way is named |
| ExperimentVerdicts.ActivatesIff | backend/lambda/src/admin-experiments.ts:1003-1010 | an activation that may be made is made exactly when the pins it would store name its role's live assistant and its alt |
| ExperimentVerdicts.ActivePinsName | backend/lambda/src/admin-experiments.ts:452-543 | whatever route stores an active row, its control pins a version of its role's live assistant and its treatment one of the alt's, derived for that variant of that experiment |
| ExperimentVerdicts.ArmsIff | backend/lambda/src/admin-experiments.ts:1426-1437 | a write derives both pins anew exactly when it sets a row active that is not already running with its versions |
| ExperimentVerdicts.UpsertsIff | backend/lambda/src/admin-experiments.ts:1249-1437 | an upsert to a status other than active writes exactly when it is valid, its alt provisioned, its row live, its status an edge and its comparison the stored one; to active, then also under both limits |
| ExperimentVerdicts.UpsertRefusals | backend/lambda/src/admin-experiments.ts:1249-1366 | which of the things in an upsert's way is named |
| ExperimentVerdicts.UpsertStores | backend/lambda/src/admin-experiments.ts:1276-1392 | every field an upsert stores: the input's, and the server's record |
| ExperimentVerdicts.UpsertVariants | backend/lambda/src/admin-experiments.ts:1293-1304 | its variants are the input's but for the pins; two where the writer derived the pins anew, and otherwise all |
| ExperimentVerdicts.CreatedPins | backend/lambda/src/admin-experiments.ts:1290-1304 | a created row holds no pin but those the writer answered, and serves versions exactly when active |
| ExperimentVerdicts.AutoCompletesIff | backend/lambda/src/admin-experiments.ts:140-170 | the list read completes a running or paused row exactly when its end date has come |
| ExperimentArming.CreationKeepsRowInv | backend/lambda/src/admin-experiments.ts:1284-1304 | a created row meets the armed-row invariant, whatever pins the client sent |
| ExperimentArming.EditKeepsRowInv | backend/lambda/src/admin-experiments.ts:1355-1380 | an edit keeps the armed-row invariant, and the draft-stripping branch changes nothing |
| ExperimentArming.WriteKeepsRowInv | backend/lambda/src/admin-experiments.ts:452-474 | every accepted action keeps it: an active row serves a control pin on variant 0 and an alt pin on variant 1, an unarmed row holds none, outcomes follow ends |
| ExperimentArming.ArmedStaysArmed | backend/lambda/src/admin-experiments.ts:1003-1010 | no accepted action disarms an armed row |
| ExperimentArming.WriteKeepsComparison | backend/lambda/src/admin-experiments.ts:358-364 | an action that does not arm an armed row keeps its type, intent, classifications and variant identities |
| ExperimentArming.EditKeepsComparisonIff | backend/lambda/src/admin-experiments.ts:1347-1366 | an accepted edit of an armed row compares what the row compared exactly when it names each variant once |
| ExperimentArming.PinsKeptExactlyInPlace | backend/lambda/src/admin-experiments.ts:1293-1304 | an edit carries both pins over exactly when its first two variants name the stored first two, in place |
| ExperimentArming.PausedSwapDropsPins | backend/lambda/src/admin-experiments.ts:1284-1304 | swapping a paused pair is accepted and leaves an armed row with no pin |
| ExperimentArming.PausedRepeatEvadesLock | backend/lambda/src/admin-experiments.ts:1347-1366 | repeating the control on a paused pair is accepted and the armed row compares something else |
| ExperimentProtocol.GuardMeansUnchanged | backend/lambda/src/admin-experiments.ts:235-254 | a guard that holds for any version ever read means the whole stored row is that version |
| ExperimentProtocol.NoLostUpdate | backend/lambda/src/admin-experiments.ts:219-254 | over every interleaving with stale snapshots, audits read are prefixes of the stored one and the row is the serial run of the writes that landed, one entry each |
| ExperimentProtocol.EachWriteAppendsOne | backend/lambda/src/admin-experiments.ts:256-292 | each step leaves the row, removes it, or appends exactly one entry; a lost race changes nothing |
| ExperimentProtocol.AuditReplaysOverRuns | backend/lambda/src/admin-experiments.ts:1049-1088 | whatever handlers interleave on a created row, its audit replays to its status |
| ExperimentProtocol.EndedStaysEnded | backend/lambda/src/admin-experiments.ts:1249-1275 | on every run, a row that ever completed or was deleted is never draft, active or paused again |
| ExperimentProtocol.HardDeleteOnlyDrafts | backend/lambda/src/admin-experiments.ts:1132-1148 | on every run, a step that removes the row removes one whose stored audit is draft throughout |
| ExperimentProtocol.ActiveIsPinnedOverRuns | backend/lambda/src/admin-experiments.ts:1426-1437 | on every run of a created row, an active row serves both pins |
| ExperimentProtocol.ComparisonHoldsSinceArming | backend/lambda/src/admin-experiments.ts:352-364 | on every run, from an armed version with distinct variants to any later one before the row is armed again, the row compares the same exactly when every edit that landed between names each variant once |
| ExperimentTable.ExperimentsTable.Write | backend/lambda/src/admin-experiments.ts:235-254 | the guarded write lands exactly when the guard holds, and otherwise changes nothing |
| ExperimentTable.ExperimentsTable.Handle | backend/lambda/src/admin-experiments.ts:681-1483 | an action with nothing beside it never loses a race, and the table is its decision's |
| ExperimentTable.ExperimentsTable.ReconcileExpired | backend/lambda/src/admin-experiments.ts:140-208 | the list read completes each expired row still as it was listed, shows every expired row completed, and leaves the rest |
| ExperimentTable.ShownIs | backend/lambda/src/admin-experiments.ts:150-195 | a row past its end date is shown completed whether or not its write landed, with one entry more where it did, and otherwise every row as listed |
| ExperimentTable.ReconcileSettles | backend/lambda/src/admin-experiments.ts:128-208 | after a full listing is reconciled no stored row is expired, and each expired one gained one entry |
| ExperimentTable.CountActiveExcluding | backend/lambda/src/admin-experiments.ts:395-425 | the paged loop counts every listed id but the excluded one |
| ExperimentTable.CountIsActiveRows | backend/lambda/src/admin-experiments.ts:384-425 | over a scan that lists each active row once, that is the number of other active experiments |
| Registry.GrantsOfDeclared | backend/lib/profile-registry.ts:228-242 | a declared classification reaches exactly the grants it declares |
| Registry.GrantsInOrder | backend/lib/profile-registry.ts:237-241 | what is reached is listed in declaration order |
| Registry.ResolveIs | backend/lib/profile-registry.ts:105-112 | a classification's value, and each alias of it, resolves to it and reaches what it does |
| Registry.UnknownIs | backend/lib/profile-registry.ts:105-112 | a tag that is neither resolves to nothing and reaches nothing |
| Registry.MatchIsSetEquality | backend/lib/profile-registry.ts:360-367 | the length-plus-membership test is set equality on a list that repeats nothing |
| Registry.TokenGrantsUnionIff | backend/lib/profile-registry.ts:301-325 | a token's own grants are exactly what is held just when its list repeats nothing, and less otherwise |
| Registry.TokenNamesIff | backend/lib/profile-registry.ts:360-373 | on any valid set, a token exists exactly where a declared set is the union held, and grants it, just when no repeated list shadows that union |
| Registry.TokenAt | backend/lib/profile-registry.ts:360-373 | the token is the first declared classification whose list is as long as the union held and inside it, and there is none where no list is |
| Registry.TokenNeverExceeds | backend/lib/profile-registry.ts:360-373 | a token grants nothing beyond the union held, whatever the grant lists repeat |
| Registry.OwnTokenIffRepeatFree | backend/lib/profile-registry.ts:360-373 | every member classification is its own token exactly when no grant list repeats a value |
| Registry.ExactTokenIffRepeatFree | backend/lib/profile-registry.ts:360-373 | the token is exact for everything that may be held exactly when no grant list repeats a value |
| Registry.RepeatedGrantMisnames | backend/lib/config/profiles.ts:1133-1416 | a validated set with a repeated grant gives a holder another's token and loses them their own classification |
| Registry.HolderForgetsOrder | backend/lib/profile-registry.ts:275-283 | group order and duplicates do not change the holder |
| Registry.ClearancesInOrder | backend/lib/profile-registry.ts:275-283 | what groups clear for is listed in declaration order |
| Registry.HolderIs | backend/lib/profile-registry.ts:335-358 | a person carries the admin plane exactly where a group clears for one, the token of their member classifications where any is held, and of planes alone the first declared |
| Registry.ReachWithinHeld | backend/lib/profile-registry.ts:335-353 | no one reaches more than the union they hold and, with a plane, the planes, whatever the grant lists repeat |
| Registry.ReachFormulaIff | backend/lib/profile-registry.ts:335-353 | on any valid set, a holder reaches the named union of the members held and, with any plane, every plane, exactly when no repeated list shadows the holding |
| Registry.CoversIff | backend/lib/profile-registry.ts:382-393 | of a holding no repeated list shadows, the token covers the groups exactly when nothing is held or a token exists |
| Registry.ReachGrowsIff | backend/lib/profile-registry.ts:325-358 | of holdings no repeated list shadows, more groups reach at least as much exactly when the new holding is named or the old one reached nothing as a member |
| Admission.ShareFormula | backend/lambda/share-conversation/index.js:122-138 | on any valid set, the share handler admits the member union and the planes held, where a list that repeats nothing is that union, and nothing otherwise |
| Admission.ShareWithinIff | backend/lambda/share-conversation/index.js:122-138 | on any valid set, what it admits a person to is within the registry's reach exactly when no repeated list overtakes the name of what they hold |
| Admission.ShareNeverExceedsIff | backend/lambda/share-conversation/index.js:122-138 | it is so for every person exactly when no repeated list stands before, as long as and inside, a plain list whose set some groups clear for between them |
| Admission.RepeatedGrantShares | backend/lambda/share-conversation/index.js:122-138 | a validated set on which it admits a person to what the registry says they do not reach |
| Admission.ShareRefinesRegistry | backend/lambda/share-conversation/index.js:122-138 | of a holding no repeated list shadows, it admits a subset of the registry's reach, and all of it exactly when no plane is held, or the holding is named and every plane is held |
| RowAssembly.RowsOfValues | backend/lambda/cognito-triggers/registry-admission.js:47-67 | the loops keep the first readable row of each value in value order and report the unreadable, the duplicate and the dangling in that order |
| RowAssembly.EveryValueAccountedFor | backend/lambda/cognito-triggers/registry-admission.js:47-67 | every published value is kept, or reported once as unreadable or duplicate, and what is kept is the first published |
| RowAssembly.DanglingIsLeftOut | backend/lambda/cognito-triggers/registry-admission.js:58-65 | the dangling grants reported are, count for count, the ones the admission data leaves out |
| RowAssembly.UnlistedReportsNothing | backend/lambda/cognito-triggers/registry-admission.js:58-65 | no grant of a plane, or of a row whose grants are no list, is reported dangling |
| RowAssembly.AssembleAdmission | backend/lambda/cognito-triggers/registry-admission.js:78-93 | the assignment loops build the admission data, or none where a row's grants are not a list |
| RowAssembly.AssembledIff | backend/lambda/cognito-triggers/registry-admission.js:78-93 | rows assemble exactly unless one off the admin plane has no list for its grants |
| RowAssembly.GrantsAssembled | backend/lambda/cognito-triggers/registry-admission.js:78-93 | of distinct rows, a plane is granted itself alone and any other row those of its grants some row declares, each as often |
| RowAssembly.PlaneAssembled | backend/lambda/cognito-triggers/registry-admission.js:78-93 | the planes are the values of the rows that say so |
| RowAssembly.ClearanceAssembled | backend/lambda/cognito-triggers/registry-admission.js:78-93 | a group clears for what the last row to name it, by value, says |
| RowAssembly.AdmissionForgetsOrder | backend/lambda/cognito-triggers/registry-admission.js:78-93 | distinct rows assemble alike in any order |
| RowAssembly.TriggerMirrorsRegistry | backend/lib/classification-admission.ts:40-47 | on distinct rows the trigger's data is the registry's of the set those rows declare |
| RegistryAssembly.RefusedIff | backend/lib/config/profiles.ts:1039-1083 | the registry refuses the published rows exactly when one's grants are no list, the kept ones are flawed once what can be dropped is, or an unmodelled check fails; the trigger only in the first case; and where both install, their data is one |
| PublishedRows.RowPublishes | backend/lib/config/profiles.ts:904-935 | a row carries its classification, the groups that clear for it and require it, and the declared profiles of its primary and its roles |
| PublishedRows.PartlyRefusedIff | backend/lib/config/profiles.ts:1021-1083 | whichever rows of a valid set stand, the trigger installs them, and the registry refuses them exactly when there are none or two grant one list once dangling grants are gone |
| PublishedRows.RemovalRefusedIff | backend/lib/config/profiles.ts:1021-1083 | removing one classification's stack refuses the rest exactly when nothing is left or two others grant one list but for it |
| PublishedRows.RemovalRefuses | backend/lib/config/profiles.ts:1190-1202 | a valid set of three, one of whose stacks is removed: the registry refuses the other two and the trigger installs them |
| PublishedRows.RoundTripIff | backend/lib/config/profiles.ts:1084-1098 | a valid set and what all its rows assemble to have one canonical form exactly when it declares no profile name twice |
| PublishedRows.GrantKeyIff | backend/lib/config/profiles.ts:1194-1201 | of values without commas, two grant lists have one key exactly when they are one list in some order |
| TypeGroups.TypeGroupContradictions | backend/lib/conversation-type-grants.ts:19-43 | the loops report, type by type in order, the clearance group, the undeclared group, or each classification not reached |
| TypeGroups.ReportedIff | backend/lib/conversation-type-grants.ts:19-43 | what is reported is exactly, of each type that names a declared classification and takes its people from a group, that the group clears for something, or requires nothing, or requires what does not grant a classification the type is created at |
| TypeGroups.SoundIffTokensClosed | backend/lib/conversation-type-grants.ts:1-43 | on any valid set, with no contradiction whoever a served type's group may hold reaches every classification it is created at, for all types and people, exactly when each token a person may carry that reaches a requirement reaches what it reaches |
| TypeGroups.TransitiveIsSound | backend/lib/profile-registry.ts:729-733 | transitive grants are enough for it, whatever the grant lists repeat |
| ContentStamp.StampIsFirstFewest | backend/lib/profile-registry.ts:848-873 | the stamp is declared where fewest classifications grant it of all that hold conversations, and fewer than of any such declared before; and is absent exactly when none holds conversations |
| ContentStamp.StampIsReached | backend/lib/profile-registry.ts:858-862 | some classification still reaches the stamp |
| AssistantNames.AltAnswerIsUnique | backend/lib/profile-registry.ts:597-611 | an alt name's answer composes the name and no other declared pair does |
| AssistantNames.InvertsAltsIff | backend/lib/profile-registry.ts:591-611 | the inverse answers every alt name exactly when no two declared pairs compose one |
| AssistantNames.DashFreeInvertsAlts | backend/lib/profile-registry.ts:591-611 | dash-free values and roles declared once make it answer every alt name |
| AssistantNames.DashFreeInvertsRoles | backend/lib/profile-registry.ts:561-581 | and every role assistant's name that is not a primary's |
| AssistantNames.ResolvedNamesAreReserved | backend/lib/profile-registry.ts:631-663 | every name an inverse resolves is reserved |
| AssistantAnswers.AssignmentsIff | backend/lib/profile-registry.ts:255-260 | the assignments are exactly each declared classification with `primary` and each role it declares |
| AssistantAnswers.RoleNameIs | backend/lib/profile-registry.ts:561-564 | a primary's assistant is the classification's profile, a declared role's is composed, and no other role has one |
| AssistantAnswers.AltNameIs | backend/lib/profile-registry.ts:591-595 | a role's alt is composed from the role and the classification, by value or alias, and no other role has one |
| AssistantAnswers.RoleAnswerIff | backend/lib/profile-registry.ts:571-582 | a role's inverse answers a primary with the first classification it is the profile of, and any other name with the one place that composes it |
| AssistantAnswers.AltAnswerIff | backend/lib/profile-registry.ts:602-611 | an alt's inverse answers exactly the one place that composes the name |
| AssistantAnswers.PrimaryActs | backend/lib/profile-registry.ts:650-653 | a primary acts in the first classification it is the profile of |
| AssistantAnswers.AltActs | backend/lib/profile-registry.ts:654-655 | an alt that one place composes acts in that place's classification |
| AssistantAnswers.RoleActsIff | backend/lib/profile-registry.ts:656-662 | any other name acts in a classification exactly where the roles that compose it are all that one's, and some is |
| AssistantAnswers.OnlyComposerActs | backend/lib/profile-registry.ts:650-662 | a name one place alone composes, and no primary has, acts in that place's classification |
| AssistantAnswers.AnswerClaims | backend/lib/profile-registry.ts:650-662 | what is answered is a declared classification whose profile, role or role's alt the name is |
| AssistantAnswers.UnclaimedActsNowhere | backend/lib/profile-registry.ts:650-662 | a name that is none of any classification's is answered with nothing |
| AssistantAnswers.ReservedIff | backend/lib/profile-registry.ts:631-637 | the reserved names are exactly the empty one, alts' prefix, values, profiles and the names roles compose |
| AssistantNames.NamesClashIff | backend/lib/profile-registry.ts:561-611 | on any valid set, some name is both an alt's and an assistant's exactly when one assignment alone composes an alt's name that another alone composes as its assistant's |
| AssistantNames.DashFreeNamesClashIff | backend/lib/profile-registry.ts:561-611 | where no value has a dash, exactly when a classification declares a role and the role `alt-` of it |
| AssistantNames.DashedNamesClash | backend/lib/profile-registry.ts:561-611 | a valid set with such a name and no role named `alt-` of another |
| ClearanceSweep.User.SyncTierGroup | backend/lambda/cognito-triggers/post-confirmation.js:61-114 | the memberships after the loop of removals and the addition, whichever calls fail |
| ClearanceSweep.User.Confirm | backend/lambda/cognito-triggers/post-confirmation.js:119-159 | only a confirmed sign-up changes a user, and it unapproves them and settles their tier |
| ClearanceSweep.SyncLeavesOneIff | backend/lambda/cognito-triggers/post-confirmation.js:57-114 | exactly the tier's clearance group is left exactly when every other was listed and removed and the tier's was held or added |
| ClearanceSweep.SyncSparesOthers | backend/lambda/cognito-triggers/post-confirmation.js:88-113 | no membership outside the clearance groups changes, whatever fails |
| ClearanceSweep.ClearanceGroupIff | backend/lib/profile-registry.ts:709-717 | a clearance group is exactly a group clearing for a declared value off the admin plane |
| ClearanceSweep.ClearanceGroupsInOrder | backend/lib/profile-registry.ts:709-717 | clearance groups stand in the order their classifications are declared |
| ClearanceSweep.SyncSparesAdminPlane | backend/lambda/cognito-triggers/registry-admission.js:78-93 | on any rows, a group clearing for the admin plane is never removed or added |
| ClearanceSweep.OwnTokenIff | backend/lib/profile-registry.ts:360-373 | a classification held alone is its own token exactly when its list repeats nothing and no repeated list overtakes it |
| ClearanceSweep.SyncedHolder | backend/lambda/cognito-triggers/post-confirmation.js:57-60 | after a successful sync the person holds the one member classification their tier's group clears for, keeps their planes, and has that classification for a token exactly where it is its own |
| RegistryLoader.RegistryModule.BeginLoad | backend/lib/profile-registry.ts:1073-1078 | a load answers the fresh set, joins the read in flight, or begins one |
| RegistryLoader.RegistryModule.EndLoad | backend/lib/profile-registry.ts:1079-1114 | a load's read installs, or keeps the set and puts the next read off, or throws; none is in flight after |
| RegistryLoader.RegistryModule.EndRefresh | backend/lib/profile-registry.ts:1124-1133 | a refresh answers from its own read or throws, keeping what was installed |
| RegistryLoader.LoadServesFreshSet | backend/lib/profile-registry.ts:919-929 | on every run, what a load serves is the last successful read's set, less than its staleness old |
| RegistryLoader.LoadThrowsIff | backend/lib/profile-registry.ts:1084-1093 | a load throws exactly when its read fails with no success, or none within the staleness |
| RegistryLoader.OneLoadInFlight | backend/lib/profile-registry.ts:1078-1097 | two loads' reads are never in flight together |
| RegistryLoader.RetriesAreSpaced | backend/lib/profile-registry.ts:931-932 | no load reads within thirty seconds of a kept failure while the set is within its staleness |
| RegistryLoader.FreshForFiveMinutes | backend/lib/profile-registry.ts:1073-1077 | for five minutes from a successful read's end, and no longer, a load answers with what it read |
| RegistryLoader.KeptForHalfAMinute | backend/lib/profile-registry.ts:1084-1093 | for thirty seconds from a kept failure a load answers with what was kept, while that is less than ten minutes old |
| RegistryLoader.InstalledIsLastOk | backend/lib/profile-registry.ts:1099-1114 | a failed or malformed read never replaces the installed set |
| RegistryLoader.RefreshReadsAfterItsCall | backend/lib/profile-registry.ts:1116-1133 | a refresh is answered by its own read, begun after its call and after the load it found in flight |
| RegistryLoader.RefreshNeverLost | backend/lib/profile-registry.ts:1116-1133 | on every run, each refresh called waits still or has its own read begun |
| RegistryLoader.WaiterResumes | backend/lib/profile-registry.ts:1124-1130 | a waiting refresh may begin its own read as soon as the load's read it found has ended |
| RegistryLoader.NewestIsInstalled | backend/lib/profile-registry.ts:1099-1108 | where reads do not overlap, the installed set is the latest-begun successful read's |
| RegistryLoader.NewestHoweverIffNoOverlap | backend/lib/profile-registry.ts:1099-1130 | the newest successful read's set is installed however the reads in flight end, at every moment of a run, exactly when each read begins with none in flight |
| RegistryLoader.LoadsNeverOverlap | backend/lib/profile-registry.ts:1073-1097 | loads alone never overlap |
| RegistryLoader.OlderSetInstalled | backend/lib/profile-registry.ts:1124-1130 | a refresh overtaken by a load installs its older set over the newer |
| LoaderEquivalence.AdmissionModule.LoadAdmission | backend/lambda/cognito-triggers/registry-admission.js:123-147 | the trigger's variables and answer after one call |
| LoaderEquivalence.LoadIsRun | backend/lib/profile-registry.ts:1073-1097 | a load with nothing beside it is a run of the concurrent loader |
| LoaderEquivalence.LoadersSeeAlike | backend/lambda/cognito-triggers/registry-admission.js:119-147 | on a monotone clock with the same read answers, both loaders read, serve and throw at the same calls |
| LoaderEquivalence.SeenAlikeIffInTime | backend/lambda/cognito-triggers/registry-admission.js:123-147 | on any clock, all calls of a trace are seen alike exactly when every call after a refusal, with no success since, finds the registry's set neither fresh nor kept |
| LoaderEquivalence.ClockBackSeesApart | backend/lib/profile-registry.ts:1075-1077 | a clock set back after a refusal makes them differ |
| ArchiveKeys.ParseIff | backend/lambda/src/archive-partition-registrar.ts:27-31 | a key's partition is `v` exactly when `v` is valid and the key stands under where `v` is printed |
| ArchiveKeys.PrintedWhole | backend/lambda/src/archive-partition-registrar.ts:68-69 | a partition's path, as one string |
| ArchiveKeys.DigitsAre | backend/lambda/src/archive-partition-registrar.ts:27-31 | a field of digits is of its length and of the ten digits alone |
| ArchiveListing.ChildPrefixes | backend/lambda/src/archive-partition-registrar.ts:88-97 | the paging loop gathers every page |
| ArchiveListing.ListPartitions | backend/lambda/src/archive-partition-registrar.ts:100-104 | the level loop and the parse compute the listing |
| ArchiveListing.LevelIff | backend/lambda/src/archive-partition-registrar.ts:100-102 | a level is exactly the paths of its depth some key stands under |
| ArchiveListing.ListingIsWritten | backend/lambda/src/archive-partition-registrar.ts:99-104 | the listing finds exactly the partitions some key is written under, each once |
| ArchivePartitions.BatchesCover | backend/lambda/src/archive-partition-registrar.ts:111-112 | batches of one to a hundred cover the list exactly once, in order |
| ArchivePartitions.PartitionTable.Register | backend/lambda/src/archive-partition-registrar.ts:72-85 | a creation that finds the partition there is success and changes nothing |
| ArchivePartitions.PartitionTable.Backfill | backend/lambda/src/archive-partition-registrar.ts:107-126 | the batch loop registers batch by batch and stops at the first with a failure |
| ArchivePartitions.BackfilledIs | backend/lambda/src/archive-partition-registrar.ts:107-126 | a backfill succeeds exactly when no partition fails, and then registers every one |
| ArchivePartitions.BackfilledExtends | backend/lambda/src/archive-partition-registrar.ts:111-123 | whatever fails, what was there stays and nothing that failed is registered |
| ArchivePartitions.IdTellsApart | backend/lambda/src/archive-partition-registrar.ts:149-152 | the string an event remembers a partition by determines bucket and partition |
| ArchivePartitions.PartitionTable.OnObjects | backend/lambda/src/archive-partition-registrar.ts:140-155 | remembering partitions within an event changes neither the table nor the count |
| ArchivePartitions.BackfillIsReplay | backend/lambda/src/archive-partition-registrar.ts:106-156 | backfilling a bucket leaves the table its objects' events leave, in any order and with any repeats |
| ArchivePartitions.LocationHoldsIff | backend/lambda/src/archive-partition-registrar.ts:68-69 | a key is of a partition exactly when the object stands under the location registered for it in that bucket |
| ArchivePartitions.BackfilledFindsObjects | backend/lambda/src/archive-partition-registrar.ts:106-126 | after a bucket is backfilled into an empty table, an object stands under a partition's stored location exactly where its key is of that partition |
| ArchivePartitions.EventsHoldObjects | backend/lambda/src/archive-partition-registrar.ts:72-85 | after any events, of several buckets, every location new to the table has some object of them under it |
| ArchivePartitions.BackfillAndEventsCommute | backend/lambda/src/archive-partition-registrar.ts:18-21 | a backfill and events leave one table whichever comes first |
| ArchivePartitions.OrderFreeIffOneBucketEach | backend/lambda/src/archive-partition-registrar.ts:68-85 | every order of a list of events leaves one table exactly when, of each partition the table lacks, all the events naming it are of one bucket |
| BattleResolution.Resolve | backend/lambda/src/battle-orchestrator.ts:249-423 | the notices, the closing line or the rebuttals, and the reason recorded, in order |
| BattleResolution.ResolutionExactlyOnce | backend/lambda/src/battle-orchestrator.ts:249-291 | each side read gets exactly one of a rebuttal, a notice, or nothing for having been abandoned |
| BattleResolution.TwoSidesRebutEachOther | backend/lambda/src/battle-orchestrator.ts:291-297 | in a duel of two, each rebuttal carries the other's reply and says so when the other did not finish |
| BattleResolution.RebuttalAnswers | backend/lambda/src/battle-orchestrator.ts:291-297 | with any number of sides, a rebuttal carries the first other side read, its reply, and whether it did not finish |
| BattleResolution.ReasonIs | backend/lambda/src/battle-orchestrator.ts:418-425 | the reason recorded is that nobody finished, that everybody did, or that some did and some did not |
| BattleResolution.ProceedsIff | backend/lambda/src/battle-orchestrator.ts:160-207 | a duel goes ahead where every side finished or failed, or one running is past its deadline |
| BattleResolution.ActsInOrder | backend/lambda/src/battle-orchestrator.ts:252-297 | of two sides told, or of two handed a rebuttal, the one read first comes first |
| BattleResolution.NoticesComeFirst | backend/lambda/src/battle-orchestrator.ts:260-297 | every notice comes before any rebuttal and the closing line |
| BattleResolution.RoundTwoTriggeredAtMs | backend/lambda/src/battle-orchestrator.ts:450-459 | the latest instant of all rows, or nothing when there is none or one is unreadable |
| BattleOrchestrator.DuelTable.TryClaim | backend/lambda/src/lib/battle-state.ts:951-985 | one caller is told it won; an error tells nobody, landed or not |
| BattleOrchestrator.DuelTable.EmitComplete | backend/lambda/src/battle-orchestrator.ts:511-547 | the marker is created only where there is none |
| BattleOrchestrator.DuelTable.Handle | backend/lambda/src/battle-orchestrator.ts:129-425 | what one call does, claims and marks on each of its branches |
| BattleOrchestrator.BeginsToActIff | backend/lambda/src/battle-orchestrator.ts:129-215 | left alone, a protocol invocation acts exactly where a call does, with that call's acts |
| BattleProtocol.OneInvocationActs | backend/lambda/src/battle-orchestrator.ts:209-215 | over any interleaving every act is the claiming invocation's |
| BattleProtocol.SideAnsweredOnce | backend/lambda/src/battle-orchestrator.ts:252-291 | a side gets at most one rebuttal or notice in all, whatever races, dies or is redelivered |
| BattleProtocol.NoticesBeforeRound | backend/lambda/src/battle-orchestrator.ts:260-297 | over any interleaving, nothing is handed out and no closing line said before the last notice |
| BattleProtocol.DispatchedHasFinished | backend/lambda/src/battle-orchestrator.ts:252-252 | a side handed a rebuttal had completed, and has still |
| BattleProtocol.NoticedHadNotFinished | backend/lambda/src/battle-orchestrator.ts:260-263 | a side told it did not finish was failed or running when read, and failed for good when all had stopped |
| BattleProtocol.ResolvedAnswersEverySide | backend/lambda/src/battle-orchestrator.ts:252-416 | when the claiming invocation is done, every side it read has had exactly its one answer |
| BattleProtocol.EndedDuelIsSilent | backend/lambda/src/lib/battle-end.ts:98-120 | where ending the duel took the claim, nothing is said or handed out |
| BattleProtocol.MarkerIsFinal | backend/lambda/src/battle-orchestrator.ts:526-546 | the marker first created stands through every later step |
| BattleProtocol.ResolutionMarkIsTrue | backend/lambda/src/battle-orchestrator.ts:418-425 | a marker naming a resolution is the claiming invocation's, after every act its rows called for |
| BattleProtocol.DeclineMisnamesTheEnd | backend/lambda/src/battle-orchestrator.ts:144-158 | a decline for want of a router may stand as the end of a duel whose round was handed out |
| BattleMarker.StaysTrueIff | backend/lambda/src/battle-orchestrator.ts:511-547 | whatever follows that declines nothing more, the marker is true exactly when it names no decline, or nothing was said and the claim's holder will say nothing |
| BattleMarker.StaysTruePromptlyIff | backend/lambda/src/battle-orchestrator.ts:160-215 | if later reads answer the sides as they stand and none is past its deadline, it is true exactly when it names no decline, the duel is silenced, or an abandoned side holds the free claim back |
| BattleMarker.DeclineFreeIsTrue | backend/lambda/src/battle-orchestrator.ts:129-215 | where no invocation declines, the marker is true in every state of every run |
| BattleMarker.DeclineStaysTrueIff | backend/lambda/src/battle-orchestrator.ts:138-158 | the marker a declining invocation writes stays true exactly when the duel was silenced before it |

## Left out

Stores are maps with conditional writes and calls are oracles that succeed or fail; the AWS clients, HTTP responses, CORS,
logging, metrics and decoding of bodies, rows and object keys are not part of this model.

- `validateAndSanitizeExperiment` is one verdict per write: which edits it refuses, and how it normalises an addendum, is not modelled.
- `validateProfilesConfig` is the predicate `Registry.WellFormed`, for the fields read here; the verdict of its checks on the others (topologies, models, badges, precedences, briefings, outputs, owners) is `rest` in `RegistryAssembly.RegistryReads`. That values are nonempty is not assumed.
- Registry.CoversIff: and with it `Registry.ReachGrowsIff` and `Admission.ShareRefinesRegistry`, speaks of holdings no repeated list shadows; `Registry.ReachFormulaIff` says that is exactly where the formula they rest on holds, and `Registry.ReachWithinHeld` and `Admission.ShareWithinIff` what holds of every holding.
- ExperimentProtocol.ComparisonHoldsSinceArming: starts from an armed version that names each variant once; one stored with a repeated id is not followed over runs.
- The profile writer's derivations and promotions, the readable versions' `derivedFrom`, the cap on active experiments and the one-per-classification rule are inputs of a decision: the last two are check-then-write and hold only in serial runs.
- The unconditional Put of a create, and a hard delete followed by a create of the same id, are not in `ExperimentProtocol`: its runs are of one row once created.
- The alt assignment record is a best-effort projection, and no agreement of it with the experiment rows is claimed.
- Two equal profile references whose JSON keys come in another order are one configuration here and two to the source's string comparison.
- An experiment's end date is absent or readable; one that does not parse is read as absent by the source.
- ExperimentTable.ExperimentsTable.ReconcileExpired: rows are values, so that the source writes the listed objects in place shows only as the rows returned.
- TypeGroups.TypeGroupContradictions: the inner loop is a method of its own (`TypeGroups.AppendShortfalls`), and types' groups are already trimmed.
- An empty classification value, which the source's truth tests skip, is treated so only where a group requires it or a type names it; the test for two rows of one grant list, which an empty earlier value passes, treats it as any other.
- PublishedRows.RemovalRefusedIff: of values without commas, which the source joins grants with; `PublishedRows.PartlyRefusedIff` is of any.
- Keys of an object that read as integers, which JavaScript moves to the front, keep their place here.
- The loaders' reads are single answers; paging, the S3 copy and a page failing part-way are the oracle's. The moments between a read's end and its callers resuming are one step.
- LoaderEquivalence.LoadersSeeAlike: both loaders are given the same answer to a read; `RegistryAssembly.RefusedIff` says on which rows they are not. Profiles are their names: a row without a list of them, and copies of one that differ, are the registry's own and not modelled.
- Outside a deployed handler the loader reads nothing; that branch is not modelled.
- The archive's listing is taken of a bucket that does not change while it is listed, and the storage descriptor each partition copies from the table is not modelled.
- A duel's rows do not expire here: a claim, a marker or a side that ages out of its table is not modelled.
- The past-deadline branch is modelled as the code has it; that anything ever triggers it is not claimed.
- Rebuttal payloads carry the rival's identity, reply and whether it finished; names, variants, intents and correlation ids are left out, as is clearing the channel's pointer and the waiting affordances.
- Deployment stacks, scripts, personas, widgets, the credential exchange, the provisioner and the rollups are single-branch checks, plumbing or prose.
