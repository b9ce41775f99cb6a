# Journeyman verification

A Dafny 4.11 model of the parts of Journeyman where a mistake would be hard to see: merging
inventories, checking workflow dependencies, rotating credential keys, splitting steps across
runners, moving configuration between installations, limiting logins and costly operations,
break-glass sessions, and restricted credential templates. `dafny verify dfyconfig.toml` checks
everything. Each part is a module of its own:

| part | modules |
|---|---|
| values and text helpers | `Options`, `Values`, `Strings` |
| composite inventories | `Inventories`, `Merge`, `Hostnames`, `Normalization`, `Compose`, `CompositionLaws`, `RawComposition` |
| workflow dependencies | `StepGraph` |
| credential payloads and keys | `Envelopes`, `KeyLifecycle`, `KeyRuns` |
| execution slices | `Slices` |
| portable export and import | `Paths`, `Bundles`, `PayloadImport`, `InventoryTransfer` |
| sessions and break-glass access | `Sessions`, `SessionRuns` |
| rate limits | `LoginLimiter`, `CostlyOperations` |
| credential templates | `Templates`, `CredentialVariables` |

Code that loops or changes state in the program is a method or a class here, proved against a
function or a declarative predicate. The laws are lemmas about those functions and predicates. An
exception of the program is `None` or an `Error`. Everything that comes from outside (case folding,
digests, slugs, the directory, random keys, runner lookup, clocks) is a parameter.

## What came out differently from the documentation

The model follows the code. Where the code does less than its documentation or a natural reading
promises, the exact condition is proved:

- Composing the same sources in another order gives the same content, and the same value up to the
  order of list items exactly when every two sources agree on how often list items are repeated
  (`CompositionLaws.ComposeOrderNeverShowsIff`). A list that repeats an item keeps its repeats only
  when it comes first (`Merge.RepeatsMakeOrderVisible`); two inventories with such a list under one
  host compose differently in their two orders (`CompositionLaws.ComposeOrderShows`).
- `append_domain_to_inventory` says that collisions are rejected, not silently merged. Only
  collisions between host variables are (`Normalization.DomainRefusedIff`). A short name with
  variables and its qualified form in a group become one host (`Normalization.DomainMergesIff`,
  `Normalization.DomainMergesSilently`).
- `prepare_payload_import` strips member paths. A bundle of exported files is accepted exactly when
  no packaged script has a suffix that ends with a blank (`PayloadImport.BundleAcceptedIff`,
  `PayloadImport.BlankSuffixRefused`).
- A filtered inventory whose source id names no row is exported with no source, and its import fails
  (`InventoryTransfer.DanglingSourceRefused`); nothing else can be missing from a closed export
  (`InventoryTransfer.ClosedExportImportsIff`). Deletions and imports do not lead there: deleting an
  inventory that another one uses is refused, and imports set sources that exist
  (`InventoryTransfer.Destination.Delete`, `InventoryTransfer.ImportKeepsSourced`,
  `InventoryTransfer.SourcedLosesNone`).
- The preflight of an import looks for stripped names, the import itself for names as they are. So an
  import without replacement leaves every local inventory alone whose name is not blank and has no
  blanks around it (`InventoryTransfer.Destination.Import`); a static inventory with such blanks can
  be replaced unseen (`InventoryTransfer.PaddedNameNotSeen`).
- `set_hosts` strips and deduplicates, so stored host counts add up to the planned hosts exactly
  when stripping loses none (`Slices.StoredTotalIff`); two names that differ in a trailing blank are
  stored as one (`Slices.BlankHostLost`).
- Rows of tables without a key-id column are read with the original Fernet key only. Over every run
  all rows stay readable exactly when the active key at the start writes envelopes, is the original
  key, or cannot write at all (`KeyRuns.RunKeepsReadsIff`). That holds for every key that activation
  made active. An active Fernet key beside another original key breaks it at the next such row
  (`KeyRuns.KeylessInsertBreaks`, `KeyRuns.FernetKeyHidesRow`); migration, which tries every key,
  still recovers the row (`KeyRuns.RunKeepsSound`).
- Rendering inserts values as they are. Over given field values every valid template renders without
  a template delimiter exactly when no value holds a delimiter and none starts or ends with one of
  `{ } % #` (`Templates.TextsStayFreeIff`, `CredentialVariables.TemplatesStayFreeIff`); the output
  is then final (`CredentialVariables.CleanRenderingIsFinal`). A value that holds a placeholder, for
  one, would be expanded by a second rendering (`CredentialVariables.UnsafeValueExpandsLater`).
  Nested dictionary keys are neither validated nor rendered, so the output is free of delimiters,
  keys included, exactly when those keys are (`CredentialVariables.NestedKeyKeepsDelimiter`).
- The two sliding windows of costly operations hold whatever the clock does; a nondecreasing clock
  is not needed (`CostlyOperations.RunKeepsWindows`).
- An empty suggested path of an asset is not refused: the emptiness test of the code looks at the
  printed path, which is never empty. Such an asset is written to the directory itself
  (`PayloadImport.EmptyPathAccepted`).

## Model

| member | source | states |
|---|---|---|
| Merge.AppendUniqueLoop | app/services/composite_inventory.py:172-183 | the in-place list loop computes `AppendUnique`, whose members, repeats and associativity are proved below |
| Merge.AppendUniqueMembers | app/services/composite_inventory.py:172-183 | the old list is a prefix of the result, which holds the items of both lists and no other |
| Merge.AppendUniqueRepeats | app/services/composite_inventory.py:177-181 | an item that was present keeps its number of occurrences, a new one occurs once |
| Merge.AppendUniqueAssociative | app/services/composite_inventory.py:172-183 | appending one list and then another is appending the list that the two make together |
| Merge.AppendUniqueCommutesIff | app/services/composite_inventory.py:172-183 | both orders give the same multiset of items exactly when shared items repeat equally often and other items do not repeat |
| Merge.MergeLoop | app/services/composite_inventory.py:186-258 | the recursive loop, stopping at the first conflict, computes `MergeValues` whatever the order of the keys |
| Merge.FieldsMergedIff | app/services/composite_inventory.py:197-229 | the merge of two objects is exactly the object with the keys of both, shared keys merged and other keys unchanged |
| Merge.MergeSucceedsIff | app/services/composite_inventory.py:197-258 | a merge succeeds exactly when shapes and scalars agree on every shared path |
| Merge.MergeAssociative | app/services/composite_inventory.py:186-258 | both groupings of three values fail together and give the same value |
| Merge.MergeIdempotent | app/services/composite_inventory.py:186-258 | merging a value with itself changes nothing |
| Merge.MergeAbsorbedIff | app/services/composite_inventory.py:186-258 | a merge changes nothing exactly when the existing value already absorbs the incoming one |
| Merge.MergeIsLeastUpperBound | app/services/composite_inventory.py:186-258 | a successful merge absorbs both inputs and is absorbed by every value that absorbs both; when such a value exists the merge succeeds |
| Merge.MergeCommutesIff | app/services/composite_inventory.py:186-258 | compatible values merge in both orders, with results equal up to the order of list items exactly when their repeats agree |
| Merge.RepeatsMakeOrderVisible | app/services/composite_inventory.py:177-181 | two compatible lists whose merges differ by more than order |
| Merge.MergeKeepsCompatibility | app/services/composite_inventory.py:186-258 | the merge of two values is compatible with a third exactly when both are |
| Merge.MergeAllIsLeastUpperBound | app/services/composite_inventory.py:426-512 | merging a list of values one after the other gives their least upper bound |
| Merge.MergeSeqSucceedsIff | app/services/composite_inventory.py:426-512 | a list of values merges exactly when every two of them are compatible |
| Merge.MergeSeqOrder | app/services/composite_inventory.py:426-512 | any two orders of the same values succeed or fail alike and then absorb each other; with agreeing repeats they are rearrangements |
| Merge.OrderNeverShowsIff | app/services/composite_inventory.py:426-512 | no reordering changes more than the order of list items exactly when every two values agree on repeats |
| Hostnames.IndexRows | app/services/composite_inventory.py:92-105 | the two dictionaries of occurrences hold exactly the short and the qualified names of all sources under their keys |
| Hostnames.MatchEntry | app/services/composite_inventory.py:109-128 | an entry is matched exactly when one single qualified name shares its key and no source has both forms; the canonical name is one of the kind the mode asks for |
| Hostnames.MatchKeys | app/services/composite_inventory.py:107-132 | the loop over short names handles every key, and maps exactly the names of the matched ones |
| Hostnames.NormalizationMap | app/services/composite_inventory.py:75-132 | the result is an alias map: the mapped hosts are exactly those whose key is matched, with one canonical name per key; which names meet under a key is stated by `Normalization.NamesMeet` and `Normalization.AmbiguousStays` |
| Normalization.RenameItems | app/services/composite_inventory.py:162-167 | the renamed host list is the list of renamed items without repeats, in order of first occurrence |
| Normalization.RenameHostvars | app/services/composite_inventory.py:142-154 | it fails exactly when two hosts get one name, and otherwise moves each host's variables to its new name |
| Normalization.RenameGroups | app/services/composite_inventory.py:156-167 | every group with a host list gets it renamed, everything else is unchanged |
| Normalization.RenameInventory | app/services/composite_inventory.py:135-169 | both sections renamed, a collision error, or an untouched copy when there are no aliases |
| Normalization.RenamedHosts | app/services/composite_inventory.py:135-169 | the hosts after renaming are exactly the renamed hosts, over variables and groups together |
| Normalization.NearlyInjective | app/services/composite_inventory.py:75-132 | two hosts of one source get one name exactly when equal or mapped under one key, and then they differ in letter case only |
| Normalization.ShortKeyIs | app/services/composite_inventory.py:98-104 | the key of a host is its folded label: the text before its first dot, or all of it |
| Normalization.NamesMeet | app/services/composite_inventory.py:75-132 | a short name and the one qualified name with its label, in different sources, get one name: the short one in short mode, else the qualified one |
| Normalization.TwoSourcesMeet | app/services/composite_inventory.py:75-132 | two sources, one with a short name and one with a qualified form of it: both get the name that the mode says |
| Normalization.AmbiguousStays | app/services/composite_inventory.py:78-122 | a short name beside a qualified form in one source, or with two qualified forms, stays as it is, and so do they |
| Normalization.OtherItemsStay | app/services/composite_inventory.py:162-167 | items of a host list that are no strings stay, and no other such item comes in |
| Normalization.RenamingRefusedIff | app/services/composite_inventory.py:142-154 | the alias pass refuses a source exactly when two different hosts of it with variables are mapped under one key |
| Normalization.NothingLeftToMatch | app/services/composite_inventory.py:75-132 | after renaming no key is matched any more |
| Normalization.NormalizeEach | app/services/composite_inventory.py:365-384 | every source renamed and qualified, or an error as soon as one collides |
| Normalization.NormalizeSources | app/services/composite_inventory.py:356-384 | normalization with an alias map of its own sources |
| Normalization.NormalizationIdempotent | app/services/composite_inventory.py:356-384 | normalizing normalized sources in the same mode yields an empty alias map and changes nothing |
| Normalization.DomainNames | app/services/composite_inventory.py:344-348 | every host is qualified afterwards, and two hosts coincide exactly when one is the other with the domain |
| Normalization.DomainRefusedIff | app/services/composite_inventory.py:327-353 | appending the domain fails exactly when a short name and its qualified form both have variables |
| Normalization.DomainMergesIff | app/services/composite_inventory.py:327-353 | when it does not fail, two hosts become one exactly when a short name and its qualified form both occur |
| Normalization.DomainMergesSilently | app/services/composite_inventory.py:335-337 | an inventory in which two hosts become one without an error |
| Compose.MergeSection | app/services/composite_inventory.py:455-483 | the entries of a source merge into the combined section entry by entry; failure means a non-object entry or a conflict |
| Compose.AddSource | app/services/composite_inventory.py:426-512 | adding a source is one merge of the whole inventories, or an error for an invalid or conflicting source |
| Compose.Complete | app/services/composite_inventory.py:514-529 | every group host gets variables, and the group "all" exists |
| Compose.ComposeNormalized | app/services/composite_inventory.py:420-531 | the loops compute the sequential merge of the sources, completed |
| Compose.ComposeInventories | app/services/composite_inventory.py:387-531 | too few sources, a collision, an invalid source and a conflict are errors; otherwise the composition of the normalized sources, whose hosts meet as `Normalization.NamesMeet` says |
| CompositionLaws.ComposeSucceedsIff | app/services/composite_inventory.py:426-512 | two or more sources compose exactly when all are well formed and every two are compatible |
| CompositionLaws.ComposeOrder | app/services/composite_inventory.py:426-531 | any permutation of the sources succeeds or fails alike, with the same content, and shows in list repeats only |
| CompositionLaws.ComposeOrderNeverShowsIff | app/services/composite_inventory.py:426-531 | every permutation gives the same result up to the order of list items exactly when every two sources agree on repeats |
| CompositionLaws.ComposeOrderShows | app/services/composite_inventory.py:177-181 | two well-formed inventories whose two orders compose to values that differ by more than the order of list items |
| CompositionLaws.ComposeConserves | app/services/composite_inventory.py:414-531 | hostvars keys are exactly the hosts of the sources, hosts without variables get empty ones, a missing group "all" gets an empty list of children, each group has the union of its hosts, and every source value is still absorbed |
| CompositionLaws.ComposedIsLeast | app/services/composite_inventory.py:414-531 | nothing more comes in: every inventory that absorbs the sources and has variables for each host and the group "all" absorbs the result |
| CompositionLaws.ComposedEntries | app/services/composite_inventory.py:455-498 | in a successful composition the variables of every host and the data of every group are objects |
| CompositionLaws.AgreeingSourcesCompose | app/services/composite_inventory.py:426-512 | two sources of such entries that agree on all shared ones compose in both orders |
| RawComposition.CompositionKeepsHosts | app/services/composite_inventory.py:387-531 | with normalization included, the hosts are exactly the final names of the sources' hosts, and each group has exactly the final names of the hosts it has in some source |
| RawComposition.NormalizedAllHosts | app/services/composite_inventory.py:356-384 | a normalized source has exactly the renamed and qualified names of its hosts, group by group |
| RawComposition.NormalizedIff | app/services/composite_inventory.py:356-384 | normalizing a source succeeds exactly when no two of its hosts with variables get one final name |
| RawComposition.NormalizedVariables | app/services/composite_inventory.py:135-169 | after both renamings the variables of each host are under its final name, and nothing else is there |
| RawComposition.NormalizedGroups | app/services/composite_inventory.py:156-169 | both renamings change nothing in a group but the items of its host list |
| RawComposition.AgreeIff | app/services/composite_inventory.py:455-512 | two normalized sources are compatible exactly when the raw ones agree on hosts with one final name and on shared groups |
| RawComposition.WellFormedIff | app/services/composite_inventory.py:447-498 | a normalized source is valid exactly when the raw one is |
| RawComposition.CompositionSucceedsIff | app/services/composite_inventory.py:387-531 | the whole composition succeeds exactly when in every raw source hosts stay apart and entries are objects, and every two sources agree under the final names |
| StepGraph.Search.Visit | app/routes.py:2059-2070 | it terminates; true means a cycle exists, false means the position is finished and the order of finished positions is still topological |
| StepGraph.Search.AnyCycle | app/routes.py:2056-2073 | it reports a cycle exactly when the graph of existing positions has one; otherwise the finishing order is a topological order of all positions |
| StepGraph.OrderedHasNoCycle | app/routes.py:2056-2073 | a topological order of all positions excludes every cycle |
| StepGraph.CheckReferences | app/routes.py:2048-2054 | missing and self dependencies are reported exactly when they occur |
| StepGraph.ValidateDependencies | app/routes.py:2041-2073 | each of the three errors is reported exactly when due, and none is reported exactly for in-range acyclic dependencies |
| Envelopes.Rewrap | app/credential_crypto.py:331-389 | the branches of a rewrap, and the envelope it leaves: new key id, kept associated key id, rewrapped data key, all else unchanged |
| Envelopes.DecryptIff | app/credential_crypto.py:259-451 | a payload opens exactly with the key of its envelope or token, a supported header, untouched authenticated parts and the expected key id, and gives what was sealed; a missing key is a key error |
| Envelopes.EncryptIff | app/credential_crypto.py:226-414 | new payloads are envelopes exactly when the active key has a public half, else tokens of its Fernet key or of the original one |
| Envelopes.RewrappedIff | app/credential_crypto.py:331-389 | when a rewrap succeeds, when it changes the payload, and when the failure is a missing key |
| Envelopes.EncryptThenDecrypt | app/credential_crypto.py:398-451 | what was encrypted reads back with its stored key id exactly when the private half matches the public one |
| Envelopes.RewrapReadableIff | app/credential_crypto.py:331-389 | a rewrapped payload is readable exactly with the private half of the public half used, and reads as before |
| Envelopes.ChainKeepsContent | app/credential_crypto.py:331-389 | through any chain of rewraps ciphertext, nonce, data key and associated key id stay, also for envelopes without that field, and the envelope names the last key |
| Envelopes.ChainKeepsPair | app/credential_crypto.py:331-389 | the data key stays wrapped by the pair of the key that the envelope names |
| Envelopes.ChainReadable | app/credential_crypto.py:230-389 | after any chain the private half of the last key alone reads the original data |
| KeyLifecycle.TryFernetKeys | app/services/credential_key_lifecycle.py:338-359 | the original key and then all retained keys are tried: it succeeds exactly when one of them made the token |
| KeyLifecycle.MigrateOne | app/services/credential_key_lifecycle.py:386-401 | one legacy row: decrypted with its key id or with every key, encrypted anew, refused unless that gives an envelope |
| KeyLifecycle.CredentialStore.Generate | app/services/credential_key_lifecycle.py:116-180 | only an unused id and a sufficient size get a new decrypt-only pair; nothing else changes |
| KeyLifecycle.CredentialStore.Activate | app/services/credential_key_lifecycle.py:183-224 | only a matching pair becomes active and is marked so, the previous key with a public half is marked decrypt-only, every other file stays, and the previous id is returned |
| KeyLifecycle.CredentialStore.RewrapV2Rows | app/services/credential_key_lifecycle.py:287-320 | it succeeds exactly when the key has a public half and every row can be rewrapped; rows and counts are then those of the row rule |
| KeyLifecycle.CredentialStore.MigrateLegacyRows | app/services/credential_key_lifecycle.py:362-403 | it succeeds exactly under an active pair when every legacy row decrypts; rows and counts are then those of the row rule |
| KeyLifecycle.CredentialStore.Rotate | app/cli.py:376-412 | generate if asked to, rewrap, commit, activate: a failed generation changes nothing, a failed rewrap leaves the rows as they were and keeps a generated key, a failed activation leaves the rewrapped rows and the old active key |
| KeyRuns.RecoverWithMoreKeys | app/services/credential_key_lifecycle.py:338-390 | generating or activating a key does not change what migration recovers from a row |
| KeyRuns.RewrapRowRecovers | app/services/credential_key_lifecycle.py:298-317 | a recoverable row can be rewrapped to any key with a public half, and migration recovers the same from it |
| KeyRuns.EncryptedRowRecovers | app/services/credential_key_lifecycle.py:386-401 | what was just encrypted and stored is recovered by migration, in every table and under every key |
| KeyRuns.SoundNeverStuck | app/services/credential_key_lifecycle.py:287-403 | from a sound state no rewrap to a known key and no migration under an active pair can fail |
| KeyRuns.StepKeepsSound | app/services/credential_key_lifecycle.py:116-403 | every single operation keeps key halves matching and all rows recoverable by migration |
| KeyRuns.RunKeepsSound | app/services/credential_key_lifecycle.py:116-403 | over every run of generate, activate, rewrap, migrate, new encryptions, copies into job snapshots and cleared payloads, also one that stops before activation, migration recovers each row as it was last written, and the program reads each envelope and each row with a stored key id so |
| KeyRuns.PlainReadIff | app/credential_crypto.py:398-442 | a row without a key-id column is readable at any later time, with whatever keys were added, exactly when the key it was written under needs no stored key id |
| KeyRuns.ReadIsRecovered | app/services/credential_key_lifecycle.py:338-390 | rows that the program reads are recovered by migration with the same plaintext |
| KeyRuns.ReadWithMoreKeys | app/credential_crypto.py:417-442 | generating or activating a key does not change what the program reads from a row |
| KeyRuns.RewrapRowReads | app/services/credential_key_lifecycle.py:298-317 | a rewrapped row is read as before |
| KeyRuns.EncryptedRowReads | app/credential_crypto.py:398-442 | what was just written is read back in tables with a key-id column, and in every table under a key that needs none |
| KeyRuns.StepKeepsReads | app/services/credential_key_lifecycle.py:116-403 | under such a key every single operation keeps all rows readable, and the next active key is such a key again |
| KeyRuns.KeylessInsertBreaks | app/credential_crypto.py:398-442 | under any other key the next row of a table without a key-id column is unreadable |
| KeyRuns.RunKeepsReadsIff | app/credential_crypto.py:398-451 | over every such run the program reads every row of the listed tables as it was last written, exactly when the active key at the start needs no stored key id; an activated key never needs one |
| KeyRuns.FernetKeyHidesRow | app/models/directory.py:173-187 | a key store and a new row that the program cannot read while migration recovers it |
| KeyRuns.RunKeepsColumns | app/models/credential.py:172-207 | over every run the format and key-id columns agree with the stored payload, in copies too |
| KeyRuns.GeneratedRotationSucceeds | app/cli.py:385-390 | from a sound state a rotation that generates its key can neither fail to rewrap nor to activate |
| KeyRuns.RewrapDone | app/services/credential_key_lifecycle.py:287-320 | every v2 row names the new key, the three counts add up to the payloads, and a second run rewraps nothing |
| KeyRuns.CanRewrapIff | app/services/credential_key_lifecycle.py:287-320 | all rows can be rewrapped exactly when the new key has a public half and every payload that is not legacy is a supported envelope of its stored key that opens |
| KeyRuns.CanMigrateIff | app/services/credential_key_lifecycle.py:338-403 | all rows can be migrated exactly under an active pair when each legacy row opens with its stored key, or without one with any Fernet key |
| KeyRuns.TallyIsSize | app/services/credential_key_lifecycle.py:296-320 | a count is the number of rows that hold such a payload |
| KeyRuns.MigrateDone | app/services/credential_key_lifecycle.py:362-403 | no legacy row is left: a rewrap then skips none, a second migration changes nothing, and the two counts add up to the payloads |
| Slices.Planner.FirstPass | app/services/execution_slices.py:121-155 | it succeeds exactly when every host not left to the crew can be routed; each is then in the group of its route and the others are deferred |
| Slices.Planner.CrewPass | app/services/execution_slices.py:157-168 | all deferred hosts go to the one selected member, or the plan fails |
| Slices.SortGroups | app/services/execution_slices.py:170-188 | one slice per group in strict order of the sort key, with strictly sorted hosts |
| Slices.PlanSlices | app/services/execution_slices.py:51-188 | the two-pass planner succeeds exactly when every host has a place by its own variables, the default runner or the crew, and then gives the plan of that rule |
| Slices.RoutableIff | app/services/execution_slices.py:63-74 | a host can be routed exactly when it stays local or some runner with the required capabilities is named for it |
| Slices.PlanFollowsPrecedence | app/services/execution_slices.py:63-168 | a slice holds exactly the hosts that the precedence puts there, under the name of its runner, which has the required capabilities |
| Slices.PlanOrdered | app/services/execution_slices.py:170-188 | remote slices follow the order of lowered names, then hostnames, then ids |
| Slices.SliceHoldsRoute | app/services/execution_slices.py:63-74 | the slice of a target holds exactly the hosts routed there |
| Slices.PlanPartitions | app/services/execution_slices.py:51-188 | each host is in exactly one slice, targets are distinct, the local slice is first, and crew-routed hosts share a slice |
| Slices.PlanIsUnique | app/services/execution_slices.py:121-188 | the plan is determined by the set of hosts: order and repeats do not matter |
| Slices.JobStep.Materialize | app/services/execution_slices.py:191-211 | the rows are the slices in order, at positions 1 to n, with their stored hosts and counts |
| Slices.StoredHostsAre | app/models/job_step_execution_slice.py:82-85 | the stored hosts are sorted and are exactly the stripped names that are not blank |
| Slices.StoredCountIff | app/models/job_step_execution_slice.py:82-85 | a row stores as many hosts as planned exactly when stripping loses none |
| Slices.StoredTotalIff | app/models/job_step_execution_slice.py:82-85 | the host counts add up to the distinct hosts exactly when stripping loses none, in particular for names without surrounding blanks |
| Slices.BlankHostLost | app/models/job_step_execution_slice.py:82-85 | a plan of two hosts of which one is stored |
| Bundles.Collector.AddStep | app/services/config_portability.py:798-875 | it fails exactly for a step without a usable file; a file seen before keeps its asset, a new one gets the next, and the step is bound to it |
| Bundles.CollectPayload | app/services/config_portability.py:760-880 | the export fails exactly when a step names no file; otherwise the archive holds each named file once, under the asset of its first use, and every step is bound to its own |
| Bundles.UsesAreFirstUses | app/services/config_portability.py:787-841 | there is a packaged file for every file that some step names, with the kind and the project of the first such step |
| Bundles.ExportedStepRefers | app/services/config_portability.py:872-875 | an exported step refers to the asset with the digest and size of its file; it keeps its playbook in an internal export and runs the suggested path in a portable one |
| Bundles.AssetNamesAre | app/services/config_portability.py:840-857 | the reference, the archive path, the suggested path and the suffix of an asset |
| Bundles.NamesDiffer | app/services/config_portability.py:840-858 | file names of different assets differ, whatever their suffixes |
| PayloadImport.CheckAssets | app/services/config_portability.py:917-951 | it succeeds exactly when all assets pass their checks with distinct references and destinations; writes and references are then those of the assets |
| PayloadImport.AssetsAcceptedIff | app/services/config_portability.py:917-951 | assets pass exactly with a reference, an archive member of their digest and size, a relative path without "..", and no shared reference or destination |
| Paths.SafePathIff | app/services/config_portability.py:937-941 | a path passes the check exactly when it is relative and none of its components is ".." |
| Paths.SafePathStaysInside | app/services/config_portability.py:912-941 | followed component by component, a safe path never leads above the directory it starts in |
| PayloadImport.WriteStaysInside | app/services/config_portability.py:912-951 | every write of accepted assets stays inside the repository, with and without a prefix |
| PayloadImport.WritesAreVerified | app/services/config_portability.py:917-951 | each write stays inside, is the suggested path or its last component under the prefix, and has the digest and size of its asset |
| PayloadImport.PrepareImport | app/services/config_portability.py:902-971 | it succeeds exactly for an existing repository, a safe prefix, acceptable assets and known references; steps with a payload then run its destination, others only lose an empty payload; no write leaves the repository, and each has the digest and size of its asset |
| PayloadImport.ImportedStepRuns | app/services/config_portability.py:953-965 | a step with a payload runs, in the destination repository, what is written for the asset it names; nothing else of a step changes |
| PayloadImport.BundleAcceptedIff | app/services/config_portability.py:917-951 | an exported bundle passes every check, for every prefix, exactly when no script suffix ends with a blank; references, destinations, digests and sizes never fail |
| PayloadImport.BlankSuffixRefused | app/services/config_portability.py:920-927 | a file that is exported and whose bundle every import refuses |
| PayloadImport.EmptyPathAccepted | app/services/config_portability.py:937-950 | an asset without a suggested path passes the checks and is written to the directory itself |
| PayloadImport.MemberFoundIff | app/services/config_portability.py:920-924 | the stripped member path is found exactly when stripping leaves it alone |
| PayloadImport.NoCollisions | app/services/config_portability.py:921-951 | references and destinations of two assets of a bundle differ, with and without a prefix |
| PayloadImport.StepKeepsBytes | app/services/config_portability.py:953-965 | the file written where an imported step points holds the bytes of the file that the step named, even when steps share an asset |
| PayloadImport.ExportThenImport | app/services/config_portability.py:760-971 | the whole round trip: when it succeeds, and that every step then runs a copy of its file in the destination |
| InventoryTransfer.CollectInventories | app/services/config_portability.py:453-463 | the worklist terminates, on cyclic references too, with the least set that holds the direct inventories and is closed under sources |
| InventoryTransfer.AddSources | app/services/config_portability.py:460-463 | the sources are added to the names, and exactly the new ones become pending |
| InventoryTransfer.Destination.UpsertShell | app/services/config_portability.py:1584-1616 | an existing row gets the kind of the entry and keeps the rest, a missing one is added without sources; other rows are unchanged |
| InventoryTransfer.Destination.ConfigFor | app/services/config_portability.py:1518-1581 | it fails exactly when a named source is missing; the ids found resolve back to the names, and a static row keeps its own |
| InventoryTransfer.Destination.SetSources | app/services/config_portability.py:1970-1976 | the second pass succeeds exactly when every entry can be resolved, sets the sources of each, and leaves unlisted rows alone |
| InventoryTransfer.Destination.FindCollision | app/services/config_portability.py:1368-1418 | a collision is found exactly when an entry meets an existing row of its stripped name and not both are static |
| InventoryTransfer.Destination.Import | app/services/config_portability.py:1934-1999 | the import succeeds exactly when the rest of the document passes, nothing collides or is to be replaced, and every entry can be resolved among old and listed names; a failure changes nothing, success leaves unlisted rows alone and every entry with its kind and sources; without replacement every local row with a stripped name that is not blank is still there, unchanged |
| InventoryTransfer.NothingReplaced | app/services/config_portability.py:1387-1416 | when nothing collides, no local row with a stripped name that is not blank is replaced |
| InventoryTransfer.PaddedNameNotSeen | app/services/config_portability.py:1380-1386 | a local static inventory with a blank after its name, and a document that replaces it without a collision |
| InventoryTransfer.ImportKeepsSourced | app/services/config_portability.py:1545-1556 | after an import every filtered inventory has an existing source if it had one before |
| InventoryTransfer.Destination.Delete | app/services/inventory_configuration.py:375-406 | an inventory that a filtered or composite one uses is not deleted, so none loses a source; otherwise that row goes and no other |
| InventoryTransfer.ClosedExportImportsIff | app/services/config_portability.py:1961-1976 | a closed export, in whatever order, imports anywhere exactly when no filtered inventory had lost its source |
| InventoryTransfer.SourcedLosesNone | app/services/config_portability.py:106-120 | a table in which every filtered inventory has an existing source has lost none |
| InventoryTransfer.DanglingSourceRefused | app/services/config_portability.py:1545-1551 | a table, its export, and the refusal of that export by every destination |
| InventoryTransfer.ExportNamed | app/services/config_portability.py:506-515 | the document lists each existing inventory of the names once, and nothing else |
| InventoryTransfer.FilteredNamesItsSource | app/services/config_portability.py:106-120 | a filtered inventory is exported with the name of the source it has, whatever else its configuration holds |
| InventoryTransfer.Transfer | app/services/config_portability.py:453-463 | export by worklist or in full, then import: with the rest of the document passing it succeeds exactly when nothing collides or is to be replaced and no selected filtered inventory had lost its source; every selected inventory then arrives with its kind and sources, other rows stay, a failure changes nothing, and without replacement no local row with a stripped name is changed |
| InventoryTransfer.ExportedAgain | app/services/config_portability.py:238-253 | an imported row is exported as the same entry again |
| Sessions.SessionTables.RevokeFallbackSessions | app/services/fallback_admin.py:62-72 | every unrevoked session of the fallback user is revoked, no other row changes |
| Sessions.SessionTables.ExpireActivation | app/services/fallback_admin.py:75-103 | the activation is marked expired once, and the fallback sessions are revoked |
| Sessions.SessionTables.ExpireIfDue | app/services/fallback_admin.py:106-115 | the rows change exactly when the deadline has passed |
| Sessions.SessionTables.ActiveActivation | app/services/fallback_admin.py:118-128 | the activation is returned exactly while it runs; one past its deadline is expired |
| Sessions.SessionTables.Provision | app/services/fallback_admin.py:139-164 | the old activation is expired and a new one starts now, with or without a deadline |
| Sessions.SessionTables.LoginFallback | app/auth.py:828-856 | a session is created exactly under a running activation, a good password and a deadline still ahead when the session is stored, and expires no later than it |
| Sessions.SessionTables.LogOut | app/auth.py:933-949 | a fallback logout ends the activation and all its sessions, any other revokes one session, which is never accepted again (`SessionRuns.LoggedOutNeverAccepted`) |
| Sessions.SessionTables.Validate | app/auth.py:238-332 | the outcome of a request and the rows it leaves, over the identity, break-glass, expiry, idle, directory and stamp branches |
| SessionRuns.StepKeepsSessions | app/auth.py:238-332 | sessions are never removed, keep kind and creation time, stay revoked, and come from logins only |
| SessionRuns.AcceptedIff | app/auth.py:238-332 | a request is accepted exactly for a live session of this browser within its lifetime and idle limit, created under the open activation or not rejected by the directory |
| SessionRuns.RefusedIdleIff | app/auth.py:292-326 | when a request is refused for idleness, and when it fails closed |
| SessionRuns.RefusedIsRevoked | app/auth.py:238-332 | a live session is revoked exactly when its own request is refused; an unavailable directory leaves it, and any other request changes nothing |
| SessionRuns.FallbackLoginIff | app/auth.py:757-856 | a fallback login creates a session exactly with the password and an activation that is open at both times; the session ends with its own lifetime or the activation, whichever is first |
| SessionRuns.LdapLoginIff | app/auth.py:757-786 | a directory login creates an unrevoked session exactly with a positive lifetime, which then bounds it |
| SessionRuns.OthersKeepSession | app/services/fallback_admin.py:62-72 | break-glass events and events of other sessions leave the session of another user as it is |
| SessionRuns.EndedNeverAccepted | app/services/fallback_admin.py:75-164 | after a fallback logout, a re-provisioning, or an expiry found by the timer, a login or a request, an accepted fallback session was created by a later fallback login |
| SessionRuns.LoggedOutNeverAccepted | app/auth.py:945-946 | after the logout from it a directory session is never accepted again |
| SessionRuns.RefusedStaysRevoked | app/auth.py:238-326 | a session whose own request was refused stays revoked over every run |
| SessionRuns.AcceptedWithinLifetime | app/auth.py:286-289 | no session is accepted once its absolute lifetime has passed since its login, however active it is |
| SessionRuns.ActivationProvisioned | app/services/fallback_admin.py:139-164 | the activation of a state is that of the last provisioning, and while it is not expired nothing has ended it |
| SessionRuns.BreakGlassWithinActivation | app/auth.py:259-290 | every accepted break-glass request lies within its activation's lifetime and uses a session created under that activation, with nothing ending it in between |
| SessionRuns.StampFollows | app/auth.py:303-330 | the last-seen stamp is never ahead of the last activity and less than one interval behind it |
| SessionRuns.IdleTimeoutBounded | app/auth.py:303-330 | with idle limit L and d seconds since the last activity, a request is refused when d >= L and not refused for idleness when d <= L - 60 |
| LoginLimiter.PruneAgrees | app/auth.py:61-64 | pruning leaves exactly the failures newer than the cutoff, as many as the full history has |
| LoginLimiter.RecentOfSuffix | app/auth.py:61-64 | in a sorted history the failures newer than a cutoff are a suffix, and its length is their number |
| LoginLimiter.RecentIsSize | app/auth.py:61-78 | the count of recent failures is the number of places in the history that are newer than the cutoff |
| LoginLimiter.PruneKeepsAgreement | app/auth.py:61-64 | pruning one key keeps all deques in agreement with their histories |
| LoginLimiter.Limiter.Prune | app/auth.py:61-64 | the loop drops the old failures of one key and touches no other |
| LoginLimiter.Limiter.Limited | app/auth.py:67-78 | a login is limited exactly when the full history since the last clear is over the limit for either key |
| LoginLimiter.Limiter.RecordFailure | app/auth.py:81-90 | the failure is recorded under both keys, and no other deque grows |
| LoginLimiter.Limiter.Clear | app/auth.py:93-97 | only the key of the account is cleared, that of the source stays |
| LoginLimiter.Limiter.Attempt | app/auth.py:825-847 | over sequential logins no deque exceeds the limit, and each login is refused exactly by the full history |
| CostlyOperations.AuditLog.CheckAndRecord | app/services/costly_operation_rate_limit.py:47-111 | the answer and the log after one call: refused at either limit, recorded when it persists |
| CostlyOperations.AllowedIff | app/services/costly_operation_rate_limit.py:56-98 | a call is allowed exactly when it is persisted and fewer attempts than each limit, or none, lie in the window that ends now; the log then grows by this attempt and else stays |
| CostlyOperations.CallKeepsWindows | app/services/costly_operation_rate_limit.py:56-98 | no call breaks the limit of any closed window, wherever it lies |
| CostlyOperations.RunKeepsWindows | app/services/costly_operation_rate_limit.py:56-98 | over every run each closed window of the configured length holds at most the global limit per operation and the user limit per user |
| Templates.MatchIsPlaceholder | app/custom_credentials.py:11 | the scanner matches at a position exactly when a placeholder stands there, with that end and name |
| Templates.CutTextRenders | app/custom_credentials.py:117-131 | any text, cut at the placeholders from left to right, is valid exactly when all their names are known and what is left holds no delimiter, and renders to the plain pieces with every value in its place |
| Templates.CutExists | app/custom_credentials.py:117-131 | every text can be cut that way |
| Templates.PlaceholdersRender | app/custom_credentials.py:196-199 | p0 {{ x1 }} p1 ... {{ xn }} pn, with plain pieces without an opening brace, renders to p0 v1 p1 ... vn pn, and is valid exactly for known names and pieces that make no delimiter |
| Templates.TwoPlaceholdersRender | app/custom_credentials.py:196-199 | a text with two placeholders renders with both values |
| Templates.DelimitersAre | app/custom_credentials.py:12 | a text holds a delimiter exactly when one of the six two-character sequences starts somewhere in it |
| Templates.SubstitutionStaysClean | app/custom_credentials.py:125-126 | inserting safe values into a text that is free of delimiters without its placeholders creates no delimiter, also not at the seams |
| Templates.CleanTextIsFixed | app/custom_credentials.py:196-199 | a text without delimiters has no placeholder and is its own rendering |
| Templates.ValidTextRenders | app/custom_credentials.py:117-131 | a validated string renders; with safe values the output is free of delimiters, valid, and fixed under rendering |
| Templates.AroundRenders | app/custom_credentials.py:11 | a placeholder with one brace beside it is a valid text and renders to the value with that brace |
| Templates.UnsafeValueShows | app/custom_credentials.py:117-131 | every unsafe value meets a valid text whose rendering holds a delimiter |
| Templates.TextsStayFreeIff | app/custom_credentials.py:117-131 | every valid text renders without a delimiter exactly when every value is safe |
| CredentialVariables.ValidTemplateIsDefined | app/custom_credentials.py:98-131 | rendering a validated nested value never meets an undefined field |
| CredentialVariables.ValidTemplateIff | app/custom_credentials.py:98-142 | a nested template is valid exactly when each of its strings is |
| CredentialVariables.RenderingKeepsShape | app/custom_credentials.py:189-201 | a rendering has the same keys and lengths, the same values that are no text, and the rendered text in place of each text |
| CredentialVariables.CleanRenderingIsFinal | app/custom_credentials.py:179-201 | with safe values no string of the rendered value holds a delimiter, it is valid again, and rendering it again changes nothing; it is free of delimiters, keys included, exactly when the keys of the template are |
| CredentialVariables.TemplatesStayFreeIff | app/custom_credentials.py:98-201 | every valid nested template renders without a delimiter in its strings exactly when every value is safe, for both kinds of placeholder |
| CredentialVariables.RenderingKeepsKeys | app/custom_credentials.py:189-199 | the keys of the rendered value are free of delimiters exactly when those of the template are |
| CredentialVariables.NestedKeyKeepsDelimiter | app/custom_credentials.py:99-107 | a valid template whose rendering holds a delimiter in a nested key |
| CredentialVariables.ValidateDefinition | app/custom_credentials.py:26-95 | a definition is valid exactly with mappings as fields, named, distinct, of type string and with a boolean secret flag, and named valid templates over them |
| CredentialVariables.ValidDefinitionIff | app/custom_credentials.py:26-95 | a definition is valid exactly with fields and variables, fields of type string with distinct names and a boolean secret flag, and named variables whose texts use these fields only |
| CredentialVariables.NormaliseValues | app/custom_credentials.py:145-176 | it succeeds exactly when no value is unknown and none is blank, and then covers all fields |
| CredentialVariables.RenderCustom | app/custom_credentials.py:179-201 | it succeeds exactly for a valid definition with complete values, and renders every text of it and nothing else; safe values leave no delimiter in any string of the output, and none at all exactly when no nested key holds one |
| CredentialVariables.RenderCredential | app/credential_extra_vars.py:82-108 | it succeeds exactly for named valid templates over user and passwd, and renders every text of them and nothing else; safe values leave no delimiter in any string of the output, and none at all exactly when no nested key holds one |
| CredentialVariables.LoginRenders | app/credential_extra_vars.py:82-108 | a user and a password placeholder with plain text between them are valid and both replaced |
| CredentialVariables.UnsafeValueExpandsLater | app/custom_credentials.py:196-199 | a value that holds the placeholder of another field is inserted unchanged and would be expanded by a second rendering |

## Left out

- Aliasing: JSON trees are values, so the deep copies of the merge and of normalization have no counterpart, and a dictionary has no order.
- Malformed sources: source tuples, missing `_meta` and `hostvars` mappings, and the check of the default domain's syntax.
- Scalars: numbers and booleans are distinct values here, while Python takes 1 and True as equal.
- Hostnames.NormalizationMap: names that differ in letter case only leave a free choice of canonical name, because the tie-break of the sort follows set order.
- Ciphers: RSA-OAEP, AES-GCM and Fernet are symbolic; PEM files, base64, JSON bytes, key-id syntax, file permissions and nonce lengths are not modelled.
- Key files: each lifecycle operation is one step, and key sizes and time stamps in the metadata are dropped.
- KeyRuns.RunKeepsReadsIff: covers rows of the listed tables only; `ProjectSchedule.encrypted_package_answers` is not among them.
- Runner lookup, crew selection, capability and environment checks: fixed functions of one planning call that may fail.
- Slugs, file suffixes, digests and path normalisation of the bundle: functions and already normalised paths; timestamps, metadata and repository lists of the document are dropped.
- Pruning of unused credential requirements, upserts of projects, packages, crews, environments and repositories.
- InventoryTransfer.Transfer: the checks and upserts of the other sections of a document come in as one answer; dry runs are not modelled.
- Inventory settings other than sources: endpoints, filters, static content and the appended domain on import.
- Session identity: how user name and object id are compared, the refreshed directory details, and when a directory check is due.
- Login limiter keys: the user name is already stripped and folded; clearing after a success is one step with the check.
- Concurrency: every limiter, login and session call is atomic, as are the writes to one key file.
- Nested keys that are not strings, and blanks around outer keys and field ids, in credential definitions.
- The other checks of project steps, Flask routes, LDAP, Git, settings validation, roles and retention: settled by reading a branch.
