# config-sync operator: model and proofs

The config-sync operator copies Secrets and ConfigMaps from a source namespace into target namespaces. Four
controllers (ConfigSync, Secret, ConfigMap, Namespace) and one admission check act on the object store behind the
Kubernetes API server. This project models that behaviour in Dafny and proves what the controllers do to the store,
to each other's work and to what users do. `dafny verify dfyconfig.toml` checks everything.

## How the model is laid out

| file | contents |
|---|---|
| `Objects.dfy`, `Selectors.dfy`, `ConfigSyncs.dfy` | Secrets and ConfigMaps, label selectors, the ConfigSync resource and its targets |
| `Clusters.dfy` | the `Cluster` class: the store, the API calls on it, and the log of watch events |
| `Plans.dfy`, `Passes.dfy`, `Acts.dfy` | what a pass is to do to the store as a guarded plan, and how single calls add up to a plan |
| `ConfigSyncSteps.dfy`, `ConfigSyncController.dfy` | the main controller, loop by loop |
| `Triggers.dfy`, `ResourceController.dfy`, `NamespaceController.dfy` | the three event-driven controllers and their event filters |
| `Webhook.dfy` | the admission check |
| `PassTheorems.dfy`, `Rounds.dfy`, `Counterexamples.dfy` | theorems about passes, rounds of passes, and concrete inputs on which expectations fail |
| `Runs.dfy` | whole runs: operator passes interleaved with users and the cluster |
| `Observations.dfy` | what single steps do, told in the fields of the objects and ConfigSyncs before and after them |
| `Queues.dfy`, `Convergence.dfy` | runs of the operator alone: the work queue of the event-driven controllers, and what runs of failure-free passes converge to |

The theorems of `Observations.dfy` do not speak of plans: they spell out labels, annotations, finalizers, selectors and
flags, with the literal names the code uses.

The controllers are classes whose methods follow the loops of the source and change a `Cluster`. The contract of
every method ties the new state to a plan, that is, to a map from keys to what each key is to hold. The theorems are
about those plans and about the step relations (`ConfigSyncStep`, `ResourceStep`, `NamespaceStep`) that the
`Reconcile` methods establish.

What the model takes from the API server, whose code is not part of the repository:

- Every call may fail. A write that fails may or may not have taken effect. `Cluster.faults` counts such failures, and
  a pass is *clean* when it has none. An operator that dies in mid-pass is a pass whose remaining calls all fail
  without effect.
- A list comes in any order and names each object once.
- Create fails if the namespace does not exist. The update endpoint ignores status and the deletion mark, the status
  endpoint ignores everything else, and a ConfigSync marked for deletion goes away with its last finalizer.
- Updates and deletions of Secrets and ConfigMaps by users pass the admission check; creations do not.
- A namespace can only disappear once it is empty.

A pass is atomic with respect to other actors. The work queue of the Secret and ConfigMap controllers, which is library
code, is a set of keys worked on in any order: a pass that returns no error takes its key off, a pass that returns an
error leaves it queued, and it lives as long as the operator's process.

## Where the code and its documentation differ

The model follows the code.

- ARCHITECTURE.md of the operator (lines 215-218) says that an empty target list makes a ConfigSync react to every new
  namespace. The namespace trigger ignores such ConfigSyncs (`NamespaceTriggerAgreesExactly`,
  `EmptyTargetListIsNotTriggered`).
- README.md of the operator (line 431) lists `config-sync-system` as excluded. It is a target like any other
  (`OperatorNamespaceTargetedExactly`, `OperatorNamespaceIsWritten`).
- README.md of the operator (line 23) promises that changes of sources are synced at once. Changes of labels,
  annotations or type alone are filtered out, and so are text changes the comparison cannot see; they wait for the next
  interval (`UpdatesReachExactly`, `RelabelledSourceIsMissed`).
- README.md of the operator (line 25) promises protection against manual changes. An update that takes the
  synced-from label off a copy is admitted, and no later pass repairs it (`ProtectionExactly`, `StrippedCopyIsKept`).
- README.md of the operator (line 24) promises that copies go with their source. A copy that another ConfigSync puts in
  the source's place before the controller looks keeps the cascade away (`CascadeClearsExactly`), and errors of single
  deletions are only logged (`CascadeSafeExactly`).
- Deleting a ConfigSync can leave copies behind: errors of single deletions are only logged
  (`FinalizerSafeExactly`, `DroppedFinalizerExactly`, `LostDeletionOrphans`), and kinds, targets or sources that the
  ConfigSync no longer has are not cleaned (`FinalLeavesNothingExactly`, `RetargetingHealsExactly`,
  `FormerSourceSurvives`, `DisabledKindSurvivesFinalization`).
- main.go (line 62) disables leader election because the operator is idempotent. It is
  (`SyncIsIdempotent`, `PassRecovers`), but two ConfigSyncs that write the same key never settle
  (`ContestedNeverSettles`).

## Model

| member | source | states |
|---|---|---|
| ConfigSyncController.ConfigSyncReconciler.Reconcile | operators/config-sync-zyql/controllers/configsync_controller.go:40-202 | One pass does what its phase is for (nothing, take the finalizer, sync, finalize) as a relation on cluster states; any failures leave a partial plan, none leave exactly the plan; a pass that returns an error says at which call, and nothing at all has changed if that is the fetching or the listing of namespaces, only clean-up deletions have happened if it is the clean-up listing |
| ConfigSyncController.ConfigSyncReconciler.SyncPass | operators/config-sync-zyql/controllers/configsync_controller.go:83-202 | The clean-up and the nested loops together carry out the sync plan of the store they find; of the ConfigSync only the status changes; a pass without error has stored a status that accounts for the targets and counts no copy that is not in effect; a pass with an error stopped before the loops or in storing the status; once the clean-up is over, each copy still in a removed namespace has cost a failed call |
| ConfigSyncController.ConfigSyncReconciler.SyncObjects | operators/config-sync-zyql/controllers/configsync_controller.go:93-175 | Removed-namespace deletions followed by the target loop equal one plan computed beforehand, although sources are listed anew for every target; if the clean-up cannot list the copies, no copy is written at all; if it goes on, at most as many copies are left in removed namespaces as calls failed |
| ConfigSyncController.ConfigSyncReconciler.SyncTargets | operators/config-sync-zyql/controllers/configsync_controller.go:106-182 | For any list of targets, repeated ones included, the loop writes targets times selected sources, the totals are the sums of the per-target counts, and each count is backed by as many keys at which nothing is left to be done |
| ConfigSyncController.ConfigSyncReconciler.SyncTarget | operators/config-sync-zyql/controllers/configsync_controller.go:124-175 | Both kinds into one target; the counts never exceed the selected sources or what is in effect afterwards, and fall short by at most the number of failed calls unless the target is reported failed; without failures they are the numbers of selected sources, or zero if the target does not exist |
| ConfigSyncController.ConfigSyncReconciler.SyncKind | operators/config-sync-zyql/controllers/configsync_controller.go:130-170 | All selected sources of one kind, in any list order, reach one target; a failed listing, by an unusable selector or a failed call, counts zero and changes nothing |
| ConfigSyncController.ConfigSyncReconciler.SyncItems | operators/config-sync-zyql/controllers/configsync_controller.go:138-147 | The inner loop continues past errors; what it counts is in effect, for distinct sources; it counts none if the target does not exist, and otherwise all sources but at most one per failed call |
| ConfigSyncController.ConfigSyncReconciler.SyncObject | operators/config-sync-zyql/controllers/configsync_controller.go:307-403 | An absent or managed object becomes the source's copy and a user's object is left alone; no error means that one of the two holds afterwards, the copy field by field, and an error that a call failed or the namespace does not exist |
| ConfigSyncController.ConfigSyncReconciler.ListSources | operators/config-sync-zyql/controllers/configsync_controller.go:244-305 | The listing is exactly the set of sources, each once; read off the fields: in the source namespace, without synced-from, no service account token, and selected by secretSelector if a Secret, by configMapSelector if a ConfigMap |
| ConfigSyncController.ConfigSyncReconciler.FilterNamespaces | operators/config-sync-zyql/controllers/configsync_controller.go:224-242 | The loop keeps order and repetitions and drops the source, the three system namespaces and the excluded ones |
| ConfigSyncController.ConfigSyncReconciler.GetTargetNamespaces | operators/config-sync-zyql/controllers/configsync_controller.go:204-222 | The list has exactly the targets as elements; an explicit list keeps its order, the cluster's namespaces come once each |
| ConfigSyncController.ConfigSyncReconciler.CleanupRemovedKind | operators/config-sync-zyql/controllers/configsync_controller.go:549-573 | Deletes, of one kind, precisely this ConfigSync's copies outside targets, source and system namespaces; without an error each copy that is missed has cost a failed call |
| ConfigSyncController.ConfigSyncReconciler.CleanupRemovedNamespaces | operators/config-sync-zyql/controllers/configsync_controller.go:524-601 | Both kinds, whether enabled or not; an error means a failed listing, and what was deleted until then is part of the plan; without an error each copy that is missed has cost a failed call |
| ConfigSyncController.ConfigSyncReconciler.CleanupTarget | operators/config-sync-zyql/controllers/configsync_controller.go:446-467 | Deletes from one target precisely the objects of one kind with both labels of this ConfigSync; a failed listing costs the target, a failed deletion one copy |
| ConfigSyncController.ConfigSyncReconciler.CleanupKind | operators/config-sync-zyql/controllers/configsync_controller.go:444-469 | The same over all targets if the kind is enabled, going on after failed listings and deletions: targets skipped and copies left in the others are together at most the failed calls |
| ConfigSyncController.ConfigSyncReconciler.CleanupSyncedResources | operators/config-sync-zyql/controllers/configsync_controller.go:418-506 | Carries out the finalization plan for the enabled kinds; it reports an error exactly when the namespaces could not be listed, and then has changed nothing; otherwise targets skipped and copies left are together at most the failed calls |
| ConfigSyncController.ConfigSyncReconciler.FinalPass | operators/config-sync-zyql/controllers/configsync_controller.go:54-71 | Finalization plan, then only our finalizer is given up (see FinalizersObserved); a pass without error has given it up; unless the namespaces could not be listed, targets skipped and copies left are together at most the failed calls |
| ConfigSyncController.ConfigSyncReconciler.HoldPass | operators/config-sync-zyql/controllers/configsync_controller.go:73-81 | The finalizer is appended before any copy is made; the store is untouched |
| ConfigSyncController.ConfigSyncReconciler.ContainsString | operators/config-sync-zyql/controllers/configsync_controller.go:604-611 | Membership |
| ConfigSyncController.ConfigSyncReconciler.RemoveString | operators/config-sync-zyql/controllers/configsync_controller.go:614-622 | All occurrences of the string go, the others keep their order |
| ConfigSyncs.WithoutConcat | operators/config-sync-zyql/controllers/configsync_controller.go:614-622 | Filtering distributes over concatenation, so the order of what is kept is the original order |
| ConfigSyncs.WithoutCounts | operators/config-sync-zyql/controllers/configsync_controller.go:224-242 | Every kept string keeps its number of occurrences, every dropped one has none |
| ConfigSyncs.WithoutFilters | operators/config-sync-zyql/controllers/configsync_controller.go:614-622 | The result is the input at increasing positions, and these are exactly the positions of what is not dropped |
| Objects.IsCopyExactly | operators/config-sync-zyql/controllers/configsync_controller.go:308-330 | What is written is, field by field, the source: contents, and all labels and annotations but synced-from and source-namespace, which hold the source namespace, and synced-by, which holds the name of the ConfigSync |
| Selectors.SelectorSplits | operators/config-sync-zyql/controllers/configsync_controller.go:250-256 | A selector is the conjunction of its parts, and one pair of matchLabels asks for that very pair |
| Selectors.OperatorsMean | operators/config-sync-zyql/controllers/configsync_controller.go:250-256 | In asks for one of the values, NotIn and DoesNotExist are complements of In and Exists, and a wrong number of values or an unknown operator selects nothing |
| Selectors.UsableExactly | operators/config-sync-zyql/controllers/configsync_controller.go:250-256 | A selector is usable, and its listing no error, if and only if each of its expressions selects something |
| Passes.SelectedExactly | operators/config-sync-zyql/controllers/configsync_controller.go:131-154 | What a spec copies, read off its fields: which selector governs which kind, labels, type and namespace |
| Observations.TargetedExactly | operators/config-sync-zyql/controllers/configsync_controller.go:204-242 | What a spec targets, read off its fields |
| Observations.EnabledExactly | operators/config-sync-zyql/controllers/configsync_controller.go:112-121 | A kind is synced unless its own flag says no |
| Observations.SyncObserved | operators/config-sync-zyql/controllers/configsync_controller.go:83-202 | What a clean sync pass leaves at each key, in fields: untouched, the field by field copy, or nothing |
| Observations.StatusObserved | operators/config-sync-zyql/controllers/configsync_controller.go:123-182 | A clean sync pass stores, for every target in its order, the numbers of objects to be copied of each synced kind, and success exactly if the selectors of the synced kinds can be used |
| Observations.FinalObserved | operators/config-sync-zyql/controllers/configsync_controller.go:438-502 | What a clean finalizing pass leaves at each key, in fields |
| Observations.FinalizersObserved | operators/config-sync-zyql/controllers/configsync_controller.go:62-67 | A pass that gives our finalizer up leaves the ConfigSync stored if and only if somebody else's holds it; then all others' finalizers stay, as often and in the order they were, and nothing else of it or of other ConfigSyncs changes |
| Observations.HoldObserved | operators/config-sync-zyql/controllers/configsync_controller.go:73-81 | A clean pass without our finalizer appends it to the others and changes nothing else |
| Observations.StepKeepsForOthers | operators/config-sync-zyql/controllers/configsync_controller.go:53-81 | No operator step, whatever fails, changes name, spec, deletion mark, others' finalizers or others' annotations of a ConfigSync, or lets go of one that somebody else's finalizer holds |
| Observations.RunKeepsForOthers | operators/config-sync-zyql/controllers/configsync_controller.go:53-81 | So over any run of the operator a ConfigSync with somebody else's finalizer stays stored, with all that is not the operator's unchanged |
| Observations.ComesBackExactly | operators/config-sync-zyql/controllers/configsync_controller.go:43-81 | When a pass without errors asks to be run again, read off the fields |
| Passes.SyncedAt | operators/config-sync-zyql/controllers/configsync_controller.go:100-175 | Key by key: at a target times selected source of an enabled kind an absent or managed object becomes the projection (absent only if the namespace exists) and a user's is kept; this ConfigSync's copy outside targets, source and system namespaces becomes absent; every other key is unchanged |
| Passes.FinalizedAt | operators/config-sync-zyql/controllers/configsync_controller.go:438-502 | Key by key: exactly the enabled-kind objects in current targets with both labels of this ConfigSync go |
| Passes.CascadedAt | operators/config-sync-zyql/controllers/secret_controller.go:132-162 | Key by key: exactly the same-named objects of that kind whose synced-from is the source's namespace go |
| Passes.SyncRecovers | operators/config-sync-zyql/controllers/configsync_controller.go:100-175 | After any part of a sync pass, a clean pass leads to the store the clean pass alone leads to |
| Passes.SyncIsIdempotent | operators/config-sync-zyql/main.go:62-62 | A second clean pass changes nothing |
| Passes.FinalRecovers | operators/config-sync-zyql/controllers/configsync_controller.go:438-502 | The same for finalization |
| PassTheorems.SettledExactly | operators/config-sync-zyql/controllers/configsync_controller.go:100-175 | No key is left to change, judged key by key, if and only if a clean pass leaves the store as it is |
| PassTheorems.PassLeavesSettled | operators/config-sync-zyql/controllers/configsync_controller.go:100-175 | One clean pass settles its ConfigSync at every key |
| PassTheorems.PassesCommuteExactly | operators/config-sync-zyql/controllers/configsync_controller.go:307-403 | Clean passes of two ConfigSyncs commute if and only if no key is written by both without being blocked, even if one's target is the other's source and one deletes what the other recreates |
| PassTheorems.FinalsCommute | operators/config-sync-zyql/controllers/configsync_controller.go:438-502 | Clean finalizations commute |
| PassTheorems.SyncAndFinalCommute | operators/config-sync-zyql/controllers/configsync_controller.go:418-506 | A clean finalization commutes with every other ConfigSync's clean sync pass, contested keys or not |
| PassTheorems.FinalAndCascadeCommute | operators/config-sync-zyql/controllers/secret_controller.go:132-162 | A clean finalization commutes with every clean cascade |
| PassTheorems.SyncAndCascadeCommuteExactly | operators/config-sync-zyql/controllers/secret_controller.go:132-162 | A clean sync pass and a clean cascade commute if and only if the pass does not copy the very source, in particular once the source is gone |
| PassTheorems.ContestedNeverSettles | operators/config-sync-zyql/controllers/configsync_controller.go:343-350 | If both of two ConfigSyncs have nothing left to do, they have no contested key |
| PassTheorems.PassSettles | operators/config-sync-zyql/controllers/configsync_controller.go:332-353 | The set of keys a clean pass would change shrinks by exactly the keys a failing pass does change, and is empty after a clean pass |
| PassTheorems.SelfHealsExactly | operators/config-sync-zyql/controllers/configsync_controller.go:343-353 | From a settled store, an altered or deleted copy is restored by the next clean pass if and only if it was deleted or still carries synced-from |
| Observations.HandledExactly | operators/config-sync-zyql/controllers/webhook.go:33-73 | The answer to every request, in fields: the operator account and system:masters may do anything and anybody may create; else the new object decides on updates and the old one on deletions; both labels mean denied, undecodable means an error |
| Observations.OperatorIsAdmitted | operators/config-sync-zyql/controllers/webhook.go:34-37 | Every update and deletion of every operator step is admitted for the operator account |
| PassTheorems.ProtectionExactly | operators/config-sync-zyql/controllers/webhook.go:33-73 | A non-exempt user's update of a copy is undone by admission check and next pass together if and only if it leaves synced-from in place |
| PassTheorems.StrippedCopyIsKept | operators/config-sync-zyql/controllers/webhook.go:49-65 | Taking synced-from off any copy is admitted, and a clean pass of any ConfigSync keeps the stripped object |
| PassTheorems.CopiesCannotBeDeleted | operators/config-sync-zyql/controllers/webhook.go:43-71 | A settled ConfigSync's copies cannot be deleted by non-exempt users, whatever the request's new object |
| PassTheorems.MirrorsExactly | operators/config-sync-zyql/controllers/configsync_controller.go:100-175 | After a clean pass all copies this ConfigSync made, wherever and from whatever source, are projections of selected sources at keys it writes, if and only if each copy before was at such a key, or came from the current source and lay in a namespace the clean-up deletes from |
| PassTheorems.FormerSourceKept | operators/config-sync-zyql/controllers/configsync_controller.go:556-567 | Copies from a former source namespace survive both sync and finalization |
| PassTheorems.FinalLeavesNothingExactly | operators/config-sync-zyql/controllers/configsync_controller.go:438-502 | Clean finalization leaves no copy this ConfigSync made if and only if all of them came from its current source, lay in current targets and were of enabled kinds |
| PassTheorems.TriggerCoversSync | operators/config-sync-zyql/controllers/secret_controller.go:165-208 | Whatever a ConfigSync would copy passes the create and delete filters and is watched by that ConfigSync (for updates see UpdatesReachExactly) |
| PassTheorems.SameCopyExactly | operators/config-sync-zyql/controllers/configsync_controller.go:308-330 | Two versions of a source have the same copy if and only if their contents are equal, and their labels and annotations but for the marks of the operator |
| PassTheorems.DueExactly | operators/config-sync-zyql/controllers/configsync_controller.go:319-353 | An update of a copied source makes the next pass overwrite its settled copy if and only if it is still copied and the copy differs |
| PassTheorems.UpdatesReachExactly | operators/config-sync-zyql/controllers/secret_controller.go:232-248 | Such an update passes the update filter and is watched by the ConfigSync if and only if a Secret's data differs, or a ConfigMap's binary data, the size of its text, or an old text value from the new one with nothing for a missing key |
| Observations.WatchedExactly | operators/config-sync-zyql/controllers/secret_controller.go:94-113 | An object is watched by a spec, read off the fields: its namespace, labels, type, and the kind's own selector unless that has no matchLabels |
| Observations.AcceptedExactly | operators/config-sync-zyql/controllers/secret_controller.go:214-265 | Which creations and deletions pass the filters, in fields |
| Observations.TriggerObserved | operators/config-sync-zyql/controllers/secret_controller.go:88-128 | After a clean pass for a stored object exactly the watching ConfigSyncs carry last-trigger with kind, name and time, and nothing else has changed |
| Observations.CascadeObserved | operators/config-sync-zyql/controllers/secret_controller.go:132-162 | What a clean pass for an empty key leaves at each key, in fields |
| Observations.NamespaceObserved | operators/config-sync-zyql/controllers/namespace_controller.go:51-100 | After a clean pass for a namespace exactly the ConfigSyncs that list and do not exclude it carry last-trigger, if it exists and is no system namespace |
| Observations.NamespaceAcceptedExactly | operators/config-sync-zyql/controllers/namespace_controller.go:102-128 | Creations of namespaces other than the three system ones pass the filter, nothing else does |
| PassTheorems.TriggerExceedsSyncExactly | operators/config-sync-zyql/controllers/secret_controller.go:104-113 | A source is watched but not copied exactly when the selector has no matchLabels and some expression is invalid or unmet |
| PassTheorems.NamespaceTriggerAgreesExactly | operators/config-sync-zyql/controllers/namespace_controller.go:61-97 | For every existing namespace, event filter and trigger together agree with targeting if and only if it is a system namespace, or the source and not listed, or the targets are listed or it is excluded |
| PassTheorems.OperatorNamespaceTargetedExactly | operators/config-sync-zyql/controllers/configsync_controller.go:224-242 | The operator's own namespace is a target if and only if it is listed, or nothing is and it exists, and it is neither the source nor excluded by the user |
| PassTheorems.TotalsReported | operators/config-sync-zyql/controllers/configsync_controller.go:123-182 | Without failures an enabled kind's total is existing targets times selected sources, collisions and repetitions counted |
| PassTheorems.StatusNeverOverstates | operators/config-sync-zyql/controllers/configsync_controller.go:123-182 | Whatever calls fail, the totals of a stored status are at most the numbers of keys at which nothing is left to be done when the pass ends, as long as no target is listed twice |
| PassTheorems.ReadyDespiteFailures | operators/config-sync-zyql/controllers/configsync_controller.go:184-191 | With an unusable selector a pass without any failed call makes or refreshes no copy of that kind, reports every target failed, and the ConfigSync is ready |
| Rounds.OrderIrrelevant | operators/config-sync-zyql/controllers/configsync_controller.go:53-175 | Clean passes of any number of ConfigSyncs, live ones and ones being deleted, give the same store in every order as long as the live ones are uncontested |
| Rounds.RoundSettlesAll | operators/config-sync-zyql/controllers/configsync_controller.go:100-175 | After one such round, in any order, none of them has anything left to do |
| Convergence.RunReaches | operators/config-sync-zyql/controllers/configsync_controller.go:40-202 | Every run of clean ConfigSync passes is a sequence of such passes in its order |
| Convergence.RunsConverge | operators/config-sync-zyql/controllers/configsync_controller.go:40-202 | Runs of clean Reconcile passes over held, uncontested ConfigSyncs with the same passes in different orders end with the same objects, even as ConfigSyncs disappear on the way |
| Convergence.RunSettles | operators/config-sync-zyql/controllers/configsync_controller.go:40-202 | After such a run a further clean Reconcile pass changes no object |
| Convergence.StepsCommuteExactly | operators/config-sync-zyql/controllers/configsync_controller.go:40-202 | Two clean Reconcile passes of different held ConfigSyncs commute on the objects if and only if one of them is being deleted or they have no contested key |
| ResourceController.BytesEqual | operators/config-sync-zyql/controllers/secret_controller.go:284-291 | Byte for byte equality |
| ResourceController.BinaryDataEqual | operators/config-sync-zyql/controllers/secret_controller.go:275-294 | True exactly for equal maps (also configmap_controller.go:257-276) |
| ResourceController.DataEqual | operators/config-sync-zyql/controllers/configmap_controller.go:244-254 | True exactly if the sizes match and each left value equals the right one, a missing key reading as empty |
| ResourceController.DataEqualExactness | operators/config-sync-zyql/controllers/configmap_controller.go:244-254 | That is map equality for every right-hand side if and only if the left map has no empty value |
| ResourceController.RenamedKeyUnseen | operators/config-sync-zyql/controllers/configmap_controller.go:248-252 | For every map with an empty value there is a different map the comparison takes for equal |
| ResourceController.ResourceReconciler.MatchesAnyConfigSync | operators/config-sync-zyql/controllers/secret_controller.go:165-208 | True exactly if some ConfigSync watches the object; false after a failed listing |
| ResourceController.ResourceReconciler.AcceptsCreate | operators/config-sync-zyql/controllers/secret_controller.go:214-230 | The create filter lets an event through only if it is a watched user's object, and always if the listing succeeds |
| ResourceController.ResourceReconciler.AcceptsUpdate | operators/config-sync-zyql/controllers/configmap_controller.go:210-222 | The update filter lets an event through exactly if the new object is no copy and no token and a Secret's data differs, or a ConfigMap's binary data, the size of its text, or an old text value from the new one with nothing for a missing key |
| ResourceController.ResourceReconciler.ShouldTrigger | operators/config-sync-zyql/controllers/secret_controller.go:94-113 | The test of the trigger loop is the test of the event filter |
| ResourceController.ResourceReconciler.MarkWatchers | operators/config-sync-zyql/controllers/secret_controller.go:88-128 | Only watching ConfigSyncs are marked, each at most once, all of them if no error is returned, and an error is returned exactly if a call fails; specs, finalizers and objects stay |
| ResourceController.ResourceReconciler.TriggerConfigSyncReconciliation | operators/config-sync-zyql/controllers/configmap_controller.go:65-118 | The same for the object as it is read again; nothing is marked, and no error returned, if it is gone by then |
| ResourceController.ResourceReconciler.DeleteSyncedCopies | operators/config-sync-zyql/controllers/secret_controller.go:132-162 | The loop deletes exactly the copies of the source, whoever made them, going on after failures; an error means that they could not be listed, and then nothing has changed; without an error each copy that is missed has cost a failed call |
| ResourceController.ResourceReconciler.Reconcile | operators/config-sync-zyql/controllers/secret_controller.go:28-68 | Cascade if the key is empty, nothing for a copy or a token, marks otherwise; which failures are returned as errors and which are only logged |
| Triggers.MarkConfigSync | operators/config-sync-zyql/controllers/secret_controller.go:115-125 | One more watching ConfigSync carries the mark, nothing else about it or any other changes |
| NamespaceController.NamespaceReconciler.ShouldSync | operators/config-sync-zyql/controllers/namespace_controller.go:62-82 | Listed and not excluded, with both inner loops and their early exits |
| NamespaceController.NamespaceReconciler.TriggerConfigSyncForNamespace | operators/config-sync-zyql/controllers/namespace_controller.go:51-100 | Exactly the ConfigSyncs that list the namespace are marked, at most once each; an error is returned exactly if a call fails |
| NamespaceController.NamespaceReconciler.Reconcile | operators/config-sync-zyql/controllers/namespace_controller.go:26-49 | Nothing for a missing or a system namespace, marks otherwise |
| Runs.OperatorObjects | operators/config-sync-zyql/controllers/configsync_controller.go:262-272 | After any operator step every object was there before or is a live, held ConfigSync's projection of a source it selects; once deletion is under way no pass of that ConfigSync creates a copy |
| Runs.RunWellFormed | operators/config-sync-zyql/controllers/configsync_controller.go:53-81 | In every run objects stay in existing namespaces and a ConfigSync under deletion stays only while held |
| Runs.OperatorRunKeepsUsers | operators/config-sync-zyql/controllers/configsync_controller.go:343-353 | In any interleaving of operator passes with any failures the users' objects stay exactly as they were and every written, created or deleted object is labelled |
| Runs.NoChains | operators/config-sync-zyql/controllers/configsync_controller.go:262-272 | Every ConfigSync's source set is constant over such a run, and nothing the run added is ever a source |
| Runs.NoFeedback | operators/config-sync-zyql/controllers/secret_controller.go:213-270 | No event of such a run passes the Secret and ConfigMap filters, whatever ConfigSyncs exist |
| Queues.QueueDrains | operators/config-sync-zyql/controllers/secret_controller.go:28-68 | Under the operator alone, with any failures, the resource controllers' queue is at every moment the initial queue less the keys of passes that returned no error, each of which removes exactly one |
| Queues.TriggersBounded | operators/config-sync-zyql/controllers/secret_controller.go:115-128 | In such a run the resource passes write each ConfigSync at most once per key that has left the queue and once per pass with an error |
| Queues.TriggersBoundedByKeys | operators/config-sync-zyql/controllers/secret_controller.go:115-128 | If no pass returns an error, at most as often as there were keys to begin with |
| Runs.OnlyTheOperatorLabels | operators/config-sync-zyql/controllers/webhook.go:60-72 | With trusted creations and exempt users, the admission check keeps all users from making objects with both labels |
| Runs.Provenance | operators/config-sync-zyql/controllers/webhook.go:33-116 | In every run every object with both labels is, field by field (contents, labels, annotations, source-namespace included), the copy of a version its source had earlier in the run |
| Runs.Ownership | operators/config-sync-zyql/controllers/configsync_controller.go:53-81 | In every reachable state every object with both labels lies in a current target of the ConfigSync it names, is of an enabled kind, and that ConfigSync is stored with the finalizer |
| Runs.DeletionLeavesNothing | operators/config-sync-zyql/controllers/configsync_controller.go:53-71 | So a ConfigSync that is gone has left no copy behind |
| Runs.FinalizerSafeExactly | operators/config-sync-zyql/controllers/configsync_controller.go:456-467 | Before the pass: whatever fails, giving up the finalizer keeps all copies accounted for, if and only if there is nothing to clean up |
| Runs.DroppedFinalizerExactly | operators/config-sync-zyql/controllers/configsync_controller.go:456-467 | After the pass: a finalizing pass that gives the finalizer up keeps all copies accounted for if and only if its clean-up was complete |
| Runs.LostDeletionOrphans | operators/config-sync-zyql/controllers/configsync_controller.go:463-465 | A concrete state in which one lost deletion leaves a copy of a ConfigSync that no longer exists |
| Runs.RetargetingHealsExactly | operators/config-sync-zyql/controllers/configsync_controller.go:523-601 | After any edit of a live ConfigSync that keeps the finalizer, one clean pass restores ownership of all copies if and only if each copy it made lies at a key it now writes, or came from what is still the source and is not of a disabled kind in a current target |
| Runs.FinalizerTakenBackExactly | operators/config-sync-zyql/controllers/configsync_controller.go:73-81 | After any edit that takes the finalizer away, the next clean pass only takes it back: ownership holds if and only if the new spec answers for each copy as it is |
| Runs.StaysGone | operators/config-sync-zyql/controllers/secret_controller.go:132-162 | Once a source and its copies are gone no run brings a copy back until a user creates the source anew or forges a copy |
| Runs.CascadeClearsExactly | operators/config-sync-zyql/controllers/secret_controller.go:33-49 | The clean pass after a source's deletion leaves no copy if and only if nothing took the source's place or there were no copies |
| Runs.CascadeSafeExactly | operators/config-sync-zyql/controllers/secret_controller.go:144-161 | Before the pass: that it returns no error means that the copies are gone, if and only if there were none |
| Runs.PassRecovers | operators/config-sync-zyql/controllers/configsync_controller.go:53-202 | Whatever a failing pass left, the next clean pass ends with the objects a clean pass at once would have ended with |
| Counterexamples.OverlapDoesNotCommute | operators/config-sync-zyql/controllers/configsync_controller.go:343-350 | Two ConfigSyncs and a store on which the last pass wins |
| Counterexamples.LeftoverSurvives | operators/config-sync-zyql/controllers/configsync_controller.go:542-546 | A copy whose source is gone, in a current target, is a leftover no pass touches |
| Counterexamples.FormerSourceSurvives | operators/config-sync-zyql/controllers/configsync_controller.go:556-567 | A copy from a former source, in a current target and of an enabled kind, survives sync passes and finalization |
| Counterexamples.OperatorNamespaceIsWritten | operators/config-sync-zyql/controllers/configsync_controller.go:224-242 | A clean pass writes a copy into the operator's own namespace |
| Counterexamples.RelabelledSourceIsMissed | operators/config-sync-zyql/controllers/secret_controller.go:246-247 | A new label on a source is due for its copies and passes no event filter |
| Counterexamples.DisabledKindSurvivesFinalization | operators/config-sync-zyql/controllers/configsync_controller.go:438-444 | A copy of a kind that was switched off survives finalization |
| Counterexamples.EmptyTargetListIsNotTriggered | operators/config-sync-zyql/controllers/namespace_controller.go:64-72 | A ConfigSync for all namespaces is not triggered by a new one it targets |
| Counterexamples.CascadeIsKeptAway | operators/config-sync-zyql/controllers/secret_controller.go:46-49 | A copy in the source's place makes the deletion pass leave the orphaned copies |

## Left out

- SyncPass: once the target loop has begun, failed calls leave a subset of the pass's writes, bounded in number but not named; the theorems hold for all of them.
- FinalPass: the same for deletions; a failed call may also hide that the finalizer was given up.
- Reconcile: the same, for the passes it runs.
- StatusNeverOverstates: for lists that name a target twice the totals count its copies twice, as the code does; the bound for each entry of the list is part of SyncTargets.
- QueueDrains: back-off delays and the order of the queue are not modelled, the theorem holds for all of them; a restart of the operator, which lists everything anew, is not.
- Secret and ConfigMap code that differs in the kind only is modelled once, with the kind as a parameter; a Secret key is read as holding Secret content.
- Copying labels and annotations entry by entry is modelled as a map update.
- The clock is one reading per pass; trigger values are built from it, timestamps in the status and message texts are not modelled.
- `getSyncInterval` and `getOperatorNamespace` (a constant empty string): they would only add easy members.
- Syntax checks of label keys and values inside selectors; an unknown operator or a wrong number of values stands for every invalid selector.
- Informer caches, resource versions and interleavings inside a pass; a conflict is a failed call.
- API server rules such as immutable fields and terminating namespaces; they are failed calls.
- The remaining event filters that always answer no (generic events, namespace updates and deletions).
- Decoding, TLS and registration of the admission check; an object that cannot be decoded is a value of its own.
- Manager start-up, logging, metrics and health probes.
- Helm charts, manifests and scripts elsewhere in the repository: configuration without a property to prove.
