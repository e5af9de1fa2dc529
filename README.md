# Views welcome contribution

A Dafny model of `ViewsWelcomeContribution`, the workbench contribution that keeps
extension-contributed "view welcome" content in step with the views registry.
The extension point delivers batches of `{added, removed}` contributions. For each
batch the handler:

- walks the removed contributions first. It skips any contribution without the
  proposed-API flag. For the others, it disposes the stored disposable of each entry
  that has one. It does not delete the map entry.
- then walks the added contributions. A contribution without the flag gets one
  `collector.error` diagnostic and nothing is registered for it. For the others, each
  entry is registered with the views registry and the returned disposable is stored
  in `viewWelcomeContents`, keyed by the entry. Any earlier value for that entry is
  overwritten without being disposed.

Files:

- `welcome_model.dfy` (module `WelcomeModel`): the entries, contributions,
  registrations and effects as datatypes. It also gives one batch as pure functions:
  `RemoveWelcomes` and `RemoveContributions` for the removal loops, `AddWelcomes` and
  `AddContributions` for the addition loops, and `HandleDelta` for a whole batch.
- `views_welcome.dfy` (module `ViewsWelcome`): the class `ViewsWelcomeContribution`.
  It holds the `viewWelcomeContents` map field, and its `HandleDelta` method has the
  source's nested loops and `continue` gates. The method is proved to compute exactly
  `WelcomeModel.HandleDelta`. The collaborators (the views registry, the disposables
  it returns, and each contribution's diagnostic collector) are the class `Collaborators`.
  It records every call it receives, in order, in an effect log.
- `welcome_properties.dfy` (module `WelcomeProperties`): reference definitions that
  describe a batch without its loops, and lemmas connecting them to `HandleDelta`.
  The reference definitions are the gated entries, the disposals, the registrations
  and the diagnostics of a batch.

Modelling choices:

- The map is keyed by the whole `ViewWelcome` record, as the source's `Map` is keyed
  by the entry object. The record's `id` field stands for that object's identity, so
  two entries with equal view, contents and `when` but different ids are different
  keys, and the same entry object always has the same id.
- Disposables are numbered handles. The registry hands out `next` and then
  increments it, so a new handle differs from every handle stored or live before it.
- `ContextKeyExpr.deserialize` is the constant `deserialize` of the class. It is an
  arbitrary function into a type parameter `Expr`, so nothing is assumed about it.

Consequences of the code that the lemmas make explicit:

- A matched removal (`viewsWelcomeContribution.ts:31-37`) only calls `get` and
  `dispose`. It never deletes the map entry, so no batch removes a key (`BatchKeys`).
- Because the disposed handle stays in the map, removing the same flagged
  contribution in two batches disposes the same handle twice
  (`RepeatedRemovalDisposesAgain`).
- The class has no teardown of its own. Nothing in it disposes the handles still
  held in `viewWelcomeContents`, so the model has no such operation.

## Model

| member | source | states |
|---|---|---|
| `ViewsWelcome.ViewsWelcomeContribution.HandleDelta` | src/vs/workbench/contrib/welcome/common/viewsWelcomeContribution.ts:24-56 | The handler's loops leave the map and the collaborators exactly as `WelcomeModel.HandleDelta` says: removals first, then additions. It keeps every stored handle and every live registration below the next fresh handle. |
| `ViewsWelcome.ViewsWelcomeContribution.constructor` | src/vs/workbench/contrib/welcome/common/viewsWelcomeContribution.ts:19-23 | A new contribution starts with an empty `viewWelcomeContents` map. |
| `ViewsWelcome.Collaborators.RegisterViewWelcomeContent` | src/vs/workbench/contrib/welcome/common/viewsWelcomeContribution.ts:48-51 | Registering returns a fresh handle. The registration becomes live under that handle and is logged once. |
| `ViewsWelcome.Collaborators.DisposeRegistration` | src/vs/workbench/contrib/welcome/common/viewsWelcomeContribution.ts:35 | Disposing withdraws the registration, if it is live, and is logged once per call. |
| `ViewsWelcome.Collaborators.CollectorError` | src/vs/workbench/contrib/welcome/common/viewsWelcomeContribution.ts:43 | Reporting a proposed-API error logs one diagnostic naming the extension and changes nothing else. |
| `WelcomeProperties.RemoveWelcomesEffect` | src/vs/workbench/contrib/welcome/common/viewsWelcomeContribution.ts:31-37 | Removing entries disposes, in order, the stored handle of each entry that has one, once per occurrence. It withdraws exactly those registrations and logs nothing else. |
| `WelcomeProperties.RemovalGate` | src/vs/workbench/contrib/welcome/common/viewsWelcomeContribution.ts:25-38 | The removal phase is the removal of the entries of the flagged contributions only, in order. |
| `WelcomeProperties.RemovalDisposesStoredHandles` | src/vs/workbench/contrib/welcome/common/viewsWelcomeContribution.ts:25-38 | The removal phase disposes the stored handle of every entry of every flagged removed contribution, once per occurrence and in order. It registers nothing and reports nothing. |
| `WelcomeProperties.RemovalOnlyDisposes` | src/vs/workbench/contrib/welcome/common/viewsWelcomeContribution.ts:25-38 | The removal phase hands out no handle and logs no registration and no diagnostic. |
| `WelcomeProperties.RemovalSkipsUnflagged` | src/vs/workbench/contrib/welcome/common/viewsWelcomeContribution.ts:27-29 | A removed contribution without the flag changes nothing, wherever it stands in the batch. |
| `WelcomeProperties.RemovalSkipsUnregistered` | src/vs/workbench/contrib/welcome/common/viewsWelcomeContribution.ts:32-36 | A removed entry with no stored handle is a silent no-op: no disposal, no diagnostic, wherever it stands. |
| `WelcomeProperties.RepeatedRemovalDisposesAgain` | src/vs/workbench/contrib/welcome/common/viewsWelcomeContribution.ts:31-37 | The removal loop leaves disposed handles in the map. Removing the same flagged contribution in two batches keeps the map unchanged and disposes the same handle in each batch. |
| `WelcomeProperties.AddWelcomesLog` | src/vs/workbench/contrib/welcome/common/viewsWelcomeContribution.ts:47-54 | Adding entries hands out one fresh handle per entry and logs exactly one registration per entry. Each registration carries the entry's view, contents and deserialized `when`, under consecutive handles. |
| `WelcomeProperties.AddWelcomesFrame` | src/vs/workbench/contrib/welcome/common/viewsWelcomeContribution.ts:47-54 | What the addition loop stores depends on the registry only through its next handle. What it makes live depends only on the live registrations. |
| `WelcomeProperties.AddWelcomesKeys` | src/vs/workbench/contrib/welcome/common/viewsWelcomeContribution.ts:53 | After adding entries, the map's keys are the old keys plus the added entries. |
| `WelcomeProperties.AddWelcomesKeeps` | src/vs/workbench/contrib/welcome/common/viewsWelcomeContribution.ts:53 | An entry that is not added keeps its old handle. |
| `WelcomeProperties.AddWelcomesLastWrite` | src/vs/workbench/contrib/welcome/common/viewsWelcomeContribution.ts:53 | An added entry maps to the handle of its last registration: the last write wins for repeated entries. |
| `WelcomeProperties.AddWelcomesActive` | src/vs/workbench/contrib/welcome/common/viewsWelcomeContribution.ts:48-51 | The live registrations become the old ones plus one per added entry, under the fresh handles. Live registrations under earlier handles are untouched. |
| `WelcomeProperties.AddedWelcomesLive` | src/vs/workbench/contrib/welcome/common/viewsWelcomeContribution.ts:47-54 | Every added entry ends up stored under a handle handed out during the addition. That handle's live registration carries the entry's view, contents and deserialized `when`. |
| `WelcomeProperties.AdditionGate` | src/vs/workbench/contrib/welcome/common/viewsWelcomeContribution.ts:40-55 | On the map, the next handle and the live registrations, the addition phase equals adding the entries of the flagged contributions only. |
| `WelcomeProperties.AdditionNext` | src/vs/workbench/contrib/welcome/common/viewsWelcomeContribution.ts:40-55 | The addition phase hands out exactly one handle per entry of a flagged added contribution. |
| `WelcomeProperties.AdditionRegistrations` | src/vs/workbench/contrib/welcome/common/viewsWelcomeContribution.ts:40-55 | The addition phase logs exactly one registration per entry of a flagged contribution, in order, and none for unflagged ones. |
| `WelcomeProperties.AdditionErrors` | src/vs/workbench/contrib/welcome/common/viewsWelcomeContribution.ts:42-45 | The addition phase reports exactly one diagnostic per added contribution without the flag, naming it, in order. Processing continues with the next contribution. |
| `WelcomeProperties.AdditionNeverDisposes` | src/vs/workbench/contrib/welcome/common/viewsWelcomeContribution.ts:40-55 | The addition phase only appends to the log and never disposes: an earlier handle of a re-added entry is overwritten without disposal. |
| `WelcomeProperties.HandleDeltaMap` | src/vs/workbench/contrib/welcome/common/viewsWelcomeContribution.ts:24-56 | The map after a batch does not depend on the removed contributions. It is the old map with the flagged added entries stored. |
| `WelcomeProperties.BatchKeys` | src/vs/workbench/contrib/welcome/common/viewsWelcomeContribution.ts:24-56 | After a batch, the map's keys are the old keys plus the entries of the flagged added contributions. No key is removed, and every other entry keeps its old handle. |
| `WelcomeProperties.BatchRegistersFlagged` | src/vs/workbench/contrib/welcome/common/viewsWelcomeContribution.ts:47-54 | A batch registers each entry of a flagged added contribution once per occurrence, in order, under fresh handles. Afterwards the map sends the entry to the handle of its last registration, and that registration is live with the entry's content. |
| `WelcomeProperties.BatchDiagnostics` | src/vs/workbench/contrib/welcome/common/viewsWelcomeContribution.ts:40-45 | A batch's diagnostics are exactly one per unflagged added contribution, in order. A batch whose added contributions are all flagged reports nothing. |
| `WelcomeProperties.DisposalsPrecedeAdditions` | src/vs/workbench/contrib/welcome/common/viewsWelcomeContribution.ts:25-55 | Within a batch, every disposal precedes every registration and every diagnostic. |
| `WelcomeProperties.BatchPreservesConsistency` | src/vs/workbench/contrib/welcome/common/viewsWelcomeContribution.ts:24-56 | A batch keeps every stored handle and every live registration below the registry's next handle. `BatchActive` relies on this to show that later registrations never reuse a held handle. |
| `WelcomeProperties.BatchActive` | src/vs/workbench/contrib/welcome/common/viewsWelcomeContribution.ts:24-56 | From a state where every stored and live handle is below the next one, the live registrations after a batch are exactly the old ones minus the handles stored for entries of flagged removed contributions, plus one fresh registration per entry of a flagged added contribution. Every surviving registration is unchanged, and no fresh handle overwrites one. |
| `WelcomeProperties.BatchActiveIsAddition` | src/vs/workbench/contrib/welcome/common/viewsWelcomeContribution.ts:24-56 | The removal phase keeps the next handle and withdraws exactly the stored handles of entries of flagged removed contributions. The live registrations after the batch are what adding the flagged added entries makes of those. |

## Left out

- The text of the diagnostic (`localize` and the extension-point descriptor) is not modelled. The diagnostic is an effect tagged with the extension's identifier.
- `ContextKeyExpr.deserialize` is not modelled. It stays an arbitrary function, so its behaviour on a missing `when` is not modelled either.
- The `Registry.as` lookup of the global views registry and the registry's own storage are not modelled. They are replaced by the `Collaborators` class, which hands out numbered handles and records calls.
- The `extensionPoint.setHandler` subscription and the `Disposable` base class are not modelled. The handler is the method `HandleDelta`, called once per batch.
- The extension point's schema and its validation are not part of this model; they live in `viewsWelcomeExtensionPoint`.
- Failures thrown by the registry or by a disposable are not modelled: the collaborators here always succeed.
- `ViewsWelcome.ViewsWelcomeContribution.constructor`: requires the given collaborators to hold no live registration at or above its next handle. This is an assumption about the collaborator model, not something the source checks.
