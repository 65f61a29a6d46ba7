# CU/DU reconfiguration: a verified model

The controller moves an OAI CU-CP to another cluster. It rewrites the CU-CP's manifests in a Git repository, commits
and pushes them, takes the function down on its old cluster, hands it to Argo CD on the new one, and then re-points the
DU and CU-UP: for every dependent entry of the `NFReconfig` spec it rewrites, pushes, deletes, and in the end syncs.
This project models the logic between the external calls and proves what a maintainer relies on.

`dafny verify dfyconfig.toml` checks everything.

## How the parts fit

| file | what it holds |
|---|---|
| `Documents.dfy` | document trees, paths, labels; the YAML and JSON codecs as function values with a round-trip law |
| `Rewrites.dfy`, `Files.dfy` | the three updaters as functions on trees and on files, with frame, composition and embedding laws |
| `HeapDocs.dfy`, `Updaters.dfy`, `Worktrees.dfy` | Go maps as heap objects without sharing; the updaters in place; the methods that match and walk a clone |
| `Repos.dfy`, `Settling.dfy` | matching, the walk over network attachment definitions (NADs), folds; when the target phase succeeds, and trees that it leaves alone |
| `Revisits.dfy`, `Truncation.dfy` | files of any number of documents: exactly when a walk succeeds, walking twice, and what a rewrite hides from later entries |
| `Api.dfy` | the spec, the address map, the host chosen for a NAD |
| `Workflow.dfy`, `Controller.dfy` | the handlers as functions on the outside world, and as methods proved to equal them |
| `Safety.dfy`, `Scripts.dfy`, `Effects.dfy`, `Touches.dfy`, `SyncPhase.dfy`, `Coupling.dfy`, `Rerun.dfy`, `Repeats.dfy`, `Returns.dfy` | theorems over all runs: what must come before a call, which calls are made and how runs end, what goes from clusters, which files change, when dependents are synced, which addresses agree, what later runs do, when nil is returned |
| `Passes.dfy` | reconciliations on top of the client singleton |
| `Deletion.dfy`, `Singleton.dfy`, `DeepCopy.dfy`, `Uncomment.dfy` | deletes through a failing API, the client singleton, deep copies, the uncommenting splice |

A run depends on an environment (`Workflow.Env`): whether the n-th external call succeeds, what a cluster's API replies,
in which order a directory is walked and a map is ranged over. The theorems hold for all environments, so they cover
every mix of failures; those that say exactly when something succeeds name the calls that the environment must serve
(`Workflow.Served`, `Rerun.ServedToPush`). Every external call leaves one event in a trace. A run returns nil, returns an
error, or panics; the panics of the source (a nil client used after a failed lookup, a nil `IPv4` pointer, a failed type
assertion, a write into a nil map, a Gitea client that is not initialised) are outcomes of the model, not preconditions.

The assumptions are the laws in `Documents.Lawful` (a printed mapping reads back as itself) and `Workflow.LawfulEnv`
(a walk lists every file once, in an order that a new file does not disturb; a map range lists every key once). The law
is stated for all trees whose scalars are in their normal printed form, as those of a decoded document are. In
`Uncomment.dfy` strings stand for byte strings, so that the scanner's token limit counts bytes; elsewhere they are
sequences of characters.

## Findings

- In a repository of single-document files, a run that pushed its target leaves a tree on which every later run stops
  at the refused commit, before any delete or sync (`SecondRunIsInert`, `LaterRunsAreInert`). If the dependent phase of
  that first run failed, no later run repairs it: a second run pushes if and only if there is work to do, the first did
  not push, and the calls up to the push are served (`SecondRunPushesExactly`). This includes a target cluster whose
  Argo application goes to the target's own repository.
- The target phase succeeds on a matched clone if and only if no IPv4 pointer is nil, the first definition that the walk
  fails on does not hold the JSON text `null`, and all matched interface lists hold maps with string names; otherwise it
  panics (`RewriteSucceedsExactly`).
- With single-document files the dependent handler returns nil if and only if every repository of an entry decodes,
  every entry with a matching Config is rewritten with an effect, has a known cluster, and has no earlier entry for the
  same Config in the same repository, and every call whose failure is not merely logged is served
  (`DependentsDoneExactly`; `TargetDoneExactly` for the target handler). So two entries for one Config keep it from ever
  returning nil, whatever its calls do, and from syncing any dependent (`TwinEntriesNeverFinish`).
- With several documents in a file a push can hide a later entry's Config: the matches of that entry survive if and only
  if no rewritten file names it behind its first document (`PushKeepsMatchesExactly`), and they are all gone, so that
  the entry is passed over without an error, if and only if all its files are rewritten and begin with another object
  (`PushHidesExactly`).
- Uncommenting a target of which some line does not fit the scanner's limit silently loses that line and all behind it; if
  it is the first line, nothing is written and no error returned (`UncommentedExactly`).
- Once its NFDeployment is gone, `DeleteConfigRefs` never returns nil again, however often it is retried
  (`RetryNeverHeals`): the Config delete tolerates not-found, the NFDeployment delete does not.
- Writing a file back keeps only its first document (`OnlyFirstDocumentSurvives`). All NAD updates of a file go to that
  document, and the last one stays; the next run undoes it when the first document is a definition that asks for another
  host. Walking twice is walking once if and only if no file is of that kind (`VisitTwiceExactly`, `WalkTwiceExactly`);
  single-document files never are (`SingleIsVisitedForGood`), and for them the whole run is a fixpoint
  (`RerunIsFixpoint`).
- A Gitea client is published whether or not its `Start` succeeded, and never replaced: in every schedule the published
  client is initialised if and only if the one Start that ends in it succeeded (`PublishedExactly`, `OneStartEnds`,
  `PublicationIsFinal`; `FailedStartIsPublished` for a schedule in which it did not). After a publication every pass
  that finds its object panics before its first call if and only if that Start failed (`PassesCrashExactly`).
- `DeepCopyInto` onto the struct itself blanks its slices: it keeps them if and only if they hold zero values only
  (`SelfCopyExactly`).
- The two address updaters are one function seen through `spec.config` exactly when all embedded interfaces are maps
  with string names; elsewhere one skips what the other panics on (`EmbeddingLaw`).
- Comment and uncomment restore a block exactly when no commented line reaches the scanner's limit or ends in a
  carriage return (`RoundTrip`).

Where comments and code differ, the model follows the code: the comment on `DeleteNFDeployment`
(reconcilers/helpers/cluster.go:53-55) speaks of matching pods, the code deletes all pods of the namespace; the comment
on `UpdateNADMaster` (reconcilers/helpers/gitea.go:309-310) says that only `master` changes, which is so within the
first document only.

## Model

| member | source | states |
|---|---|---|
| Rewrites.StrictItemsClosed | reconcilers/helpers/gitea.go:221-234 | the NFDeployment loop rewrites every interface by itself, or panics when any of them is not a map with a string name |
| Rewrites.TolerantItemsClosed | reconcilers/helpers/gitea.go:277-296 | the Config loop, with its `continue`s, rewrites exactly the same interfaces and leaves the others |
| Rewrites.EmbeddingLaw | reconcilers/helpers/gitea.go:256-296 | the Config updater equals the NFDeployment updater applied to the subtree at spec.config if and only if all embedded interfaces are maps with string names; it never fails or panics |
| Rewrites.FrameNF | reconcilers/helpers/gitea.go:212-234 | after the update the touched address and gateway fields are the new texts, and every other path of the document has the label it had: no key, order, length or value changes elsewhere |
| Rewrites.FrameConfig | reconcilers/helpers/gitea.go:257-296 | the same frame with the interface list at spec.config.spec.interfaces |
| Rewrites.FramedExactly | reconcilers/helpers/gitea.go:212-296 | the two frames leave no choice: a document satisfies one if and only if it is the result of that update |
| Rewrites.FrameNad | reconcilers/helpers/gitea.go:322-347 | decoding the new spec.config gives the old JSON object with exactly `master` set; no path outside spec.config changes |
| Rewrites.ComposeNF | reconcilers/helpers/gitea.go:221-234 | updating with map A and then B is one update with B over A, field by field where B is non-empty |
| Rewrites.ComposeConfig | reconcilers/helpers/gitea.go:277-296 | the same composition law for the Config updater |
| Rewrites.ComposeNad | reconcilers/helpers/gitea.go:329-347 | of two master updates only the second shows, also in how they fail |
| Rewrites.EditNadExactly | reconcilers/helpers/gitea.go:322-347 | an update writes if and only if `spec` is a map, `spec.config` a text and that text a JSON object, whatever keys it has; it panics if and only if the text is `null`, and errors otherwise |
| Rewrites.EditNFExactly | reconcilers/helpers/gitea.go:212-234 | an update writes if and only if `spec` is a map whose `interfaces` is a list of maps with string names; it panics on any other such list, and leaves all other documents alone |
| Rewrites.EditConfigExactly | reconcilers/helpers/gitea.go:257-296 | an update writes if and only if the path of maps leads to a list of interfaces, and leaves all other documents alone |
| Files.OnlyFirstDocumentSurvives | reconcilers/helpers/gitea.go:207-240 | a rewritten file decodes to the edited first document alone, whatever followed it before |
| Files.EditKeepsHeader | reconcilers/helpers/gitea.go:89-112 | an edit keeps kind, name and namespace as the matchers read them |
| Files.ComposeFile | reconcilers/helpers/gitea.go:201-241 | two updates of one kind leave the bytes, or end the way, the combined update does |
| Files.IdempotentFile | reconcilers/helpers/gitea.go:201-241 | updating any file twice is updating it once, byte for byte |
| Files.DisjointUpdatesCommute | reconcilers/helpers/gitea.go:221-234 | address updates without a common interface name commute on every file |
| Documents.DecodeNameExactly | reconcilers/helpers/gitea.go:89-108 | a document decodes for matching if and only if it and its metadata are maps or null and both names are texts, and then has the name whose `name` and `namespace` they are, each in its place |
| Documents.DecodeHeaderExactly | reconcilers/helpers/gitea.go:154-178 | the same for the NAD walk, which reads `kind` and `apiVersion` too |
| Documents.EqualFoldExactly | reconcilers/helpers/gitea.go:171-171 | a kind is taken for a NAD if and only if it spells it letter by letter in either case, or with the Kelvin sign for a k or the long s for an s |
| HeapDocs.AssignAt | reconcilers/helpers/gitea.go:225-231 | an assignment to the map object that a path leads to is the update of the tree at that path, and the tree stays without sharing |
| HeapDocs.AssignKeepsWay | reconcilers/helpers/gitea.go:216-231 | such an assignment does not move the slice that a loop ranges over |
| HeapDocs.Unmarshal | reconcilers/helpers/gitea.go:207-210 | decoding builds fresh map objects that denote the tree without sharing |
| HeapDocs.Marshal | reconcilers/helpers/gitea.go:236-236 | encoding reads back exactly the tree the heap denotes |
| Updaters.UpdateNFInPlace | reconcilers/helpers/gitea.go:212-234 | the in-place loop leaves a heap that denotes the pure rewrite, or returns early or panics as it does |
| Updaters.UpdateConfigInPlace | reconcilers/helpers/gitea.go:257-296 | the same for the Config loop |
| Updaters.UpdateNadInPlace | reconcilers/helpers/gitea.go:322-347 | the same for the two trees of a NAD, the document and the JSON object inside it |
| Worktrees.Worktree.UpdateInterfaceIPsNFDeployment | reconcilers/helpers/gitea.go:201-241 | exactly one file changes, to the bytes of the pure edit; read, decode and panic cases leave the disk alone |
| Worktrees.Worktree.UpdateInterfaceIPsConfigRefs | reconcilers/helpers/gitea.go:245-304 | the same for Config manifests |
| Worktrees.Worktree.UpdateNADMaster | reconcilers/helpers/gitea.go:311-356 | the same for NAD manifests |
| Worktrees.Worktree.MatchFile | reconcilers/helpers/gitea.go:86-119 | the decoding loop lists the path once per matching document, and errors when any document does not decode |
| Worktrees.Worktree.FindMatching | reconcilers/helpers/gitea.go:67-126 | the walk over the clone computes the scan |
| Worktrees.Worktree.VisitOne | reconcilers/helpers/gitea.go:147-191 | the decoding loop works on the contents read at its start while updates go to the file |
| Worktrees.Worktree.FindMatchingNADs | reconcilers/helpers/gitea.go:131-199 | the walk leaves the disk, list and error of the walk function |
| Repos.ScanSucceeds | reconcilers/helpers/gitea.go:81-101 | matching fails exactly when some YAML file does not decode to its end |
| Repos.ScanCount | reconcilers/helpers/gitea.go:102-112 | every path is listed once per matching document, no other path at all |
| Repos.ScanOrder | reconcilers/helpers/gitea.go:122-126 | the list is in walk order |
| Repos.ScanMeaning | reconcilers/helpers/gitea.go:67-126 | matching fails if and only if some file with a YAML ending does not decode to its end; otherwise it lists each such file once for every document whose `metadata.name` and `metadata.namespace` have the wanted texts, and no other file |
| Repos.YamlPathExactly | reconcilers/helpers/gitea.go:77-79 | a file counts as YAML if and only if its base name ends in `.yaml` or `.yml`, in any case |
| Repos.FoldMeaning | internal/controller/nfreconfig_controller.go:200-207 | the loop over the matches succeeds exactly when every listed file can be updated, and then has updated each once |
| Repos.DuplicatesHarmless | reconcilers/helpers/gitea.go:105-111 | a successful fold gives the same repository for any list of the same paths, in any order and with any repetition |
| Repos.WalkMeaning | reconcilers/helpers/gitea.go:131-199 | the walk over any files: those before the failing one are visited to their end, that one is left as its own visit leaves it, all later ones are unchanged |
| Repos.NadWalkMeaning | reconcilers/helpers/gitea.go:163-196 | over single-document files the walk's effect is that of its successful prefix: files before the failing one are final, it and all later ones unchanged |
| Repos.NadWalkCount | reconcilers/helpers/gitea.go:171-188 | on success each path is returned once per matching interface |
| Repos.NadWalkMaster | reconcilers/helpers/gitea.go:131-198 | on success each matched NAD has the host of the last interface naming it as `master`, its other settings kept, and all other files are untouched |
| Settling.RewriteSucceedsExactly | internal/controller/nfreconfig_controller.go:165-207 | the NAD walk, the address map and the loop over the matches succeed if and only if none of the three panics, each condition being one on the spec and the files; they never fail otherwise |
| Settling.RewriteNeverFails | internal/controller/nfreconfig_controller.go:165-207 | over any files, of any number of documents, that the scan could decode, the target phase succeeds or panics |
| Settling.TargetSettles | internal/controller/nfreconfig_controller.go:165-207 | the tree a successful target phase produces is settled: same matches, and nothing left to rewrite |
| Settling.DependentKeepsSettled | internal/controller/nfreconfig_controller.go:327-334 | rewriting dependents' Configs in the same repository keeps it settled |
| Settling.RerunIsFixpoint | internal/controller/nfreconfig_controller.go:165-207 | matching, NAD walk and address rewriting on a clone of that tree find the same list and change nothing, even where the walk ends in a logged error |
| Revisits.VisitMeaning | reconcilers/helpers/gitea.go:152-188 | a visit of any file, however many documents it has and however they decode, leaves what the update with the last host asked for makes of its first document |
| Revisits.VisitTwiceExactly | reconcilers/helpers/gitea.go:152-188 | for any file, visiting twice is visiting once if and only if that update does not write, or the first document asks for no host or for that very host |
| Revisits.SingleIsVisitedForGood | reconcilers/helpers/gitea.go:152-188 | every file of one document at most is of that kind |
| Revisits.WalkTwiceExactly | reconcilers/helpers/gitea.go:131-199 | after a successful walk over any files another walk succeeds, and changes nothing if and only if every YAML file is of that kind |
| Revisits.TwoDocumentsAreNotAFixpoint | reconcilers/helpers/gitea.go:152-188 | a file of two definitions ends with the second's host after one run and the first's after the next |
| Revisits.WalkSucceedsExactly | reconcilers/helpers/gitea.go:131-199 | a walk over any files succeeds if and only if every YAML file decodes to its end with readable headers, and each that asks for an update has a first document whose `spec.config` holds a JSON object |
| Revisits.NadGetsLastHost | reconcilers/helpers/gitea.go:171-188 | after a successful walk the definition that is alone in its file has the host of the last interface that names it, in that JSON object, which is otherwise the old one |
| Settling.SettledWithNewFile | internal/controller/nfreconfig_controller.go:165-207 | a settled tree stays settled when a file without interfaces that is no NAD joins it, wherever in the walk |
| Api.NewIPsMeaning | internal/controller/nfreconfig_controller.go:316-325 | the map exists iff no IPv4 pointer is nil; it binds a name iff some entry gives it an address or gateway, and to the last such entry |
| Api.NewIPsBinds | internal/controller/nfreconfig_controller.go:316-325 | a name is bound iff some entry gives it an address or gateway |
| Api.NewIPsLast | internal/controller/nfreconfig_controller.go:316-325 | and it is bound to the last such entry |
| Controller.Reconciler.TargetIPs | internal/controller/nfreconfig_controller.go:189-198 | the target handler's loop computes that map |
| Controller.Reconciler.DependentIPs | internal/controller/nfreconfig_controller.go:316-325 | the dependent handler's own loop computes the same map |
| Api.LastHostIsLast | reconcilers/helpers/gitea.go:172-188 | the last host applied by the interface loop is that of the last entry naming the NAD |
| Api.LastHostMeaning | reconcilers/helpers/gitea.go:172-188 | that entry is the last one with both the definition's name and its namespace |
| Workflow.TargetIsLast | internal/controller/nfreconfig_controller.go:99-108 | the target is the last entry with an NFDeployment, or the zero entry when there is none |
| Controller.Reconciler.FindTarget | internal/controller/nfreconfig_controller.go:99-108 | the overwriting loop finds that entry |
| Controller.Reconciler.CheckRepoForMatchingManifests | reconcilers/helpers/gitea.go:44-127 | a clone has the remote contents and the scan's matches, or there is none |
| Controller.Reconciler.CommitAndPush | reconcilers/helpers/gitea.go:360-405 | a clean tree is refused; success makes the remote the clone's contents, failure leaves it, and no other repository or cluster changes |
| Controller.Reconciler.GetWorkloadClusterClient | reconcilers/helpers/cluster.go:16-51 | a client exists only for a known cluster whose lookup succeeded |
| Controller.Reconciler.HandleDependentClusterPkgNF | internal/controller/nfreconfig_controller.go:278-405 | the loops over entries and applications, with their early returns, do exactly what the workflow function says |
| Controller.Reconciler.HandleTargetClusterPkgNF | internal/controller/nfreconfig_controller.go:148-276 | the same for the target handler, including which errors end the run, which are logged and where it panics |
| Controller.Reconciler.ReconcileOnce | internal/controller/nfreconfig_controller.go:76-146 | the same for a whole reconciliation, whose handler errors are only logged |
| Safety.TraceSafety | internal/controller/nfreconfig_controller.go:200-270 | in every run, failed and crashed ones included: each cluster or repository change has its event; each delete comes after a successful push to that cluster's repository in the same pass; nothing of the dependent phase comes before the target matched and then was pushed |
| Safety.NoDeleteWithoutPush | internal/controller/nfreconfig_controller.go:219-240 | if a cluster's objects changed at all, manifests describing that cluster had been pushed before in the same pass |
| Effects.RunRemovesOnly | internal/controller/nfreconfig_controller.go:219-270 | under any fate of its calls a run removes from clusters only the target's NFDeployment and the pods of its namespace, on the target's old cluster, and what the Config entries of a cluster name there; it adds nothing |
| Effects.DependentsRemoveOnly | internal/controller/nfreconfig_controller.go:366-369 | the dependent handler removes only what the Config entries name |
| Effects.TargetTakenDown | internal/controller/nfreconfig_controller.go:224-241 | a run whose target push went through, and whose next lookup is served, leaves neither the NFDeployment nor a pod of its namespace on the old cluster, if its API serves every call and the NFDeployment was there, however the run ends |
| Effects.DependentsCleared | internal/controller/nfreconfig_controller.go:295-369 | a dependent phase that returns nil leaves nothing that an entry with a match names, if the API of its cluster serves every call and the NFDeployment was there or no pod of its namespace; also when entries share a cluster or an NFDeployment |
| Effects.MatchedExactly | internal/controller/nfreconfig_controller.go:302-307 | over single-document files the entries that matched in such a phase are those whose repository had a match when it began |
| Effects.AppArrives | reconcilers/helpers/argoapp.go:29-98 | the push of the Argo application goes through if and only if it is served, its repository is known and its path new; the only new file then reads back as an Application for the target's repository |
| Touches.RunTouchesOnly | internal/controller/nfreconfig_controller.go:148-276 | under any fate of its calls and for any files a run changes a file only if it carries the name of a dependent's Config in that dependent's repository, or in the target's the NFDeployment's name or a NAD that an interface names; it is then left with its old first document, whose `spec` alone differs; the Argo application is the only new file and none is lost |
| Scripts.RunScript | internal/controller/nfreconfig_controller.go:148-276 | the calls of a run, over all runs: which repository and cluster each is for (for the dependents' syncs see SyncPhaseMeaning), their order, that none follows a failed one whose failure counts, nor a clone without a match, and that the last one tells whether the run returned nil, an error, or panicked |
| Scripts.DependentsScript | internal/controller/nfreconfig_controller.go:278-405 | the same for the dependent handler: each call follows from the one before, no entry with a Config is left out, and it ends where it may |
| SyncPhase.SyncPhaseMeaning | internal/controller/nfreconfig_controller.go:295-402 | no dependent sync unless the phase returns nil; then all syncs follow the processing of every ConfigRef entry, and each cluster name with a matching entry, and no other, gets exactly two attempts with the client of its first occurrence, for every map order |
| SyncPhase.SyncsInPairs | internal/controller/nfreconfig_controller.go:390-402 | the attempts come two in a row for one cluster after another, in the order in which the map is ranged over |
| Coupling.CouplingConsistency | internal/controller/nfreconfig_controller.go:189-222 | after a run that matched and returned nil, all target manifests and all dependent Configs, in the final repositories, have the new non-empty fields, even when entries share a repository with each other or with the target |
| Coupling.SameAddresses | internal/controller/nfreconfig_controller.go:327-334 | hence interfaces of one name agree between any target manifest and any dependent Config |
| Scripts.DoneByTrace | internal/controller/nfreconfig_controller.go:110-113 | that a run returned nil can be read off its last call |
| Rerun.RerunOnPushedTree | internal/controller/nfreconfig_controller.go:165-222 | on a clone of a pushed tree the handler only looks: no delete, Argo push, sync or dependent call, and it fails at the commit |
| Rerun.SecondRunIsInert | internal/controller/nfreconfig_controller.go:165-270 | after a run whose target push went through, however it ended, a second run under any other fate changes nothing, even where the Argo application went to the same repository |
| Rerun.RunPushesExactly | internal/controller/nfreconfig_controller.go:148-222 | a run pushes its target if and only if there are matches, the rewrite panics nowhere and has an effect, and the user, clone, secret and push calls are served |
| Rerun.SecondRunPushesExactly | internal/controller/nfreconfig_controller.go:165-222 | a second run pushes the target if and only if there was work to do, the first run did not push, and those calls are served now |
| Rerun.LaterRunsAreInert | internal/controller/nfreconfig_controller.go:219-222 | after such a first run no number of later runs, each under its own fate, changes anything |
| Repeats.RewrittenIsRefused | internal/controller/nfreconfig_controller.go:346-349 | an entry whose Config already has the new values ends the dependent handler |
| Repeats.TwinEntriesNeverFinish | internal/controller/nfreconfig_controller.go:297-349 | with two entries for one matching Config in one repository the dependent handler never returns nil |
| Truncation.RewriteKeepsScanExactly | reconcilers/helpers/gitea.go:207-240 | a rewritten file matches a name as often as before if and only if no document behind the first carries it |
| Truncation.UpdateKeepsScanExactly | internal/controller/nfreconfig_controller.go:327-334 | matching finds the same list after an entry's updates if and only if no updated file drops a manifest of the name |
| Truncation.PushKeepsMatchesExactly | internal/controller/nfreconfig_controller.go:297-349 | one entry's push leaves another entry its matches if and only if no rewritten file of a shared repository drops one of them |
| Truncation.PushHidesExactly | internal/controller/nfreconfig_controller.go:297-349 | and it leaves that entry without a match if and only if all its files are rewritten and begin with an object of another name |
| Returns.DependentsDoneExactly | internal/controller/nfreconfig_controller.go:278-405 | the dependent handler returns nil if and only if, in the state it starts from, every entry's repository decodes, and each one with matches changes under the rewrite, has a known cluster and is the first for its Config, and every user, clone, secret, push and client call of the run is served; listings and syncs may fail |
| Returns.TargetDoneExactly | internal/controller/nfreconfig_controller.go:148-276 | the target handler returns nil if and only if its repository decodes, and either nothing matches, or there is work to do, both clusters are known and the dependents are ready after the two pushes, and those calls of the run are served |
| Deletion.Client.DeleteNFDeployment | reconcilers/helpers/cluster.go:56-84 | the calls, state and result of the helper, stopping at the first error |
| Deletion.Client.DeleteConfigRefs | reconcilers/helpers/cluster.go:89-145 | the same, tolerating not-found for the Config and its pods only |
| Deletion.DeletionFrame | reconcilers/helpers/cluster.go:89-145 | over any failures and any number of attempts only the named Config, the named NFDeployment and pods of their namespaces go; a nil return leaves exactly the objects out of that scope |
| Deletion.RetryNeverHeals | reconcilers/helpers/cluster.go:69-71 | without the NFDeployment no attempt returns nil, and pods of its own namespace stay |
| Deletion.NilExactly | reconcilers/helpers/cluster.go:107-144 | with an API that serves every call the result is nil iff the NFDeployment is there |
| Deletion.CallsEndExactly | reconcilers/helpers/cluster.go:107-144 | over all replies: the calls end with the first that is not served, which of the four are made, and when the result is nil |
| Deletion.DeleteNFExactly | reconcilers/helpers/cluster.go:69-81 | the same for DeleteNFDeployment, with what it removes |
| Deletion.CallOrder | reconcilers/helpers/cluster.go:107-144 | the calls are a prefix of the four, in order; all four only if the NFDeployment was there |
| Singleton.StepKeepsInv | reconcilers/gitaclient/giteaclient.go:64-78 | every atomic step keeps the protocol invariant and never takes back a publication |
| Singleton.StartOnceBeforePublication | reconcilers/gitaclient/giteaclient.go:64-75 | for any number of goroutines and any schedule: one Start at most, finished before publication, and one lock holder |
| Singleton.PublicationIsFinal | reconcilers/gitaclient/giteaclient.go:73-78 | a published instance stays, with the outcome of its Start |
| Singleton.PublishedExactly | reconcilers/gitaclient/giteaclient.go:64-78 | in every schedule the published client is initialised if and only if a Start of that schedule ended with success |
| Singleton.RejectedExactly | reconcilers/gitaclient/giteaclient.go:55-61 | in every schedule a call ends with an error if and only if an argument was nil when it checked them |
| Singleton.ServedWithoutLock | reconcilers/gitaclient/giteaclient.go:64-78 | a call that began after the publication never waits for the lock nor takes it, and returns the published instance |
| Singleton.OneStartEnds | reconcilers/gitaclient/giteaclient.go:64-75 | at most one turn of a schedule ends a Start |
| Singleton.FailedStartIsPublished | reconcilers/gitaclient/giteaclient.go:73-74 | there is a schedule on which the published instance is one whose Start failed, and it stays in every continuation |
| Passes.PassesCrashExactly | internal/controller/nfreconfig_controller.go:92-110 | after a publication a pass that returns from GetClient and finds its object panics before its first call if and only if that Start failed |
| Passes.ClientOfPass | internal/controller/nfreconfig_controller.go:407-430 | such a pass has a nil client without an error exactly when that Start failed; otherwise it only depends on the user query |
| Passes.RejectedPass | internal/controller/nfreconfig_controller.go:92-96 | a pass whose GetClient found a nil argument ends in nil before its first call |
| Passes.PassHandlesTarget | internal/controller/nfreconfig_controller.go:99-113 | a pass with an object and a client handles the last entry that names an NFDeployment, or the zero entry if none does; it leaves the world of that handler, and only its panic gets past it |
| Passes.OtherPasses | internal/controller/nfreconfig_controller.go:82-96 | every other pass makes no call: nil without the object or a client, an error only for an object that cannot be read, a panic for a nil client |
| Passes.PassSafety | internal/controller/nfreconfig_controller.go:76-146 | trace safety and both frames for whole passes |
| Passes.PassCouples | internal/controller/nfreconfig_controller.go:110-113 | coupling consistency for whole passes, which return nil even when the handler fails: the last call tells |
| Singleton.ReturnsAgree | reconcilers/gitaclient/giteaclient.go:78-78 | error-free returns at any two times give the same, published instance |
| Singleton.NoDeadlock | reconcilers/gitaclient/giteaclient.go:65-66 | while a call is unfinished some call can move |
| Singleton.BoundedWork | reconcilers/gitaclient/giteaclient.go:54-79 | n calls take at most nine steps each in any schedule |
| DeepCopy.CopyInterface | api/v1/zz_generated.deepcopy.go:108-115 | equal through its pointer, nil kept, pointer fresh |
| DeepCopy.CopyNetwork | api/v1/zz_generated.deepcopy.go:248-255 | equal through its slice, nil kept, slice fresh |
| DeepCopy.CopyInterfaces | api/v1/zz_generated.deepcopy.go:189-195 | element-wise equal, slice and pointers fresh, and entries unshared even where the original shares |
| DeepCopy.CopyNetworks | api/v1/zz_generated.deepcopy.go:196-202 | element-wise equal through nested slices, all fresh |
| DeepCopy.CopySlice | api/v1/zz_generated.deepcopy.go:203-212 | `make` and `copy`: nil for nil, equal elements, fresh |
| DeepCopy.CopySpec | api/v1/zz_generated.deepcopy.go:187-213 | structurally equal, nil and empty slices kept apart, and everything it owns lies in a fresh region |
| DeepCopy.CopyStatus | api/v1/zz_generated.deepcopy.go:226-235 | the same for conditions |
| DeepCopy.CopyReconfig | api/v1/zz_generated.deepcopy.go:128-134 | the same for a whole object, metav1 parts assumed |
| DeepCopy.StillCopied | api/v1/zz_generated.deepcopy.go:163-165 | an item stays equal to its copy while nothing in their regions is written, as in later rounds of the loop |
| DeepCopy.CopyList | api/v1/zz_generated.deepcopy.go:155-167 | every item of the new slice is structurally equal to the old one and owns a fresh region, disjoint from that of every other item |
| DeepCopy.DeepCopyInto | api/v1/zz_generated.deepcopy.go:187-213 | writes only through `out`; into another struct a copy that shares nothing, onto itself zero values in slices of the old lengths |
| DeepCopy.SelfCopyExactly | api/v1/zz_generated.deepcopy.go:187-213 | a copy onto itself is structurally equal to the old value if and only if all slices held zero values only |
| DeepCopy.DeepCopy | api/v1/zz_generated.deepcopy.go:216-223 | nil for nil, otherwise a fresh equal struct |
| DeepCopy.WritesStayApart | api/v1/zz_generated.deepcopy.go:128-134 | writes that stay within one region do not show in any object that owns a disjoint one |
| Uncomment.Scanner.Scan | test/utils/utils.go:198-209 | yields the next line without its carriage return, and stops at a line over the limit |
| Uncomment.UncommentCode | test/utils/utils.go:178-226 | the scan loop writes the trimmed lines between the untouched bytes around the first occurrence |
| Uncomment.TokensOfJoin | test/utils/utils.go:198-213 | scanning joined lines gives them back up to the first that is too long, each without a trailing carriage return; an empty last line gives no token |
| Uncomment.RoundTrip | test/utils/utils.go:187-217 | uncommenting a commented block restores its lines and keeps the bytes around it if and only if every commented line fits and does not end in a carriage return |
| Uncomment.UncommentedExactly | test/utils/utils.go:187-217 | on any contents, for any target and prefix: it fails if and only if the target occurs nowhere, silently does nothing if and only if the target is empty or begins with a line that does not fit, and otherwise replaces the first occurrence by its trimmed lines, where a line without the prefix stays, an empty last one goes, and all from the first that does not fit on is lost |

## Left out

- Structs of the deep copies are values that hold references, so writing through an `out` pointer into an array element is returning the struct; spare slice capacity is not modelled.
- CommitAndPush: opening, staging, committing and pushing are one answer of the environment, each failure leaving the remote as it was; a push that lands although its answer is lost is not modelled, nor are other writers to a repository.
- GetWorkloadClusterClient: the listing of Cluster API clusters, the secret, readiness and naming (reconcilers/capi/cluster.go) are one answer of the environment.
- Failures of reading and writing single files on the local disk, temporary directories, sleeps and logging.
- YAML and JSON lexing and number formatting; mappings with keys that are not strings; YAML merge keys.
- Deletion takes effect at once: finalizers, graceful termination and controllers that recreate pods are not modelled.
- Singleton: sequential consistency is assumed for the first, unlocked read; a panic inside Start is not modelled.
- CreateAndPushArgoApp: the constant settings of the Argo application.
- Status conditions, scheme registration, command-line wiring and the test suites: nothing with a state of its own.
