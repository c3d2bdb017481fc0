# NamespaceClass controller — a verified model

This project models the reconciliation engine of the NamespaceClass operator.
A cluster-scoped NamespaceClass holds an ordered list of resource templates and a
deletion policy. A namespace opts in by carrying the label
`namespaceclass.akuity.io/name=<class>`. The controller then does four things:

- It renders every template into that namespace. Rendering forces the namespace,
  adds the `managed-by` and `source-class` labels, and sets a single controller
  owner reference to the namespace.
- It applies each rendered object with server-side apply.
- It prunes the objects of the previous inventory that the new pass did not produce.
- It records the new inventory in two namespace annotations: `inventory` (a JSON
  array) and `attached-class`.

When the label disappears, the controller deletes everything it recorded and clears
both annotations. A second reconciler manages the class's finalizer. When a class is
deleted under the Cascade policy, it removes the class label from every namespace that
carries it. Under the Orphan policy it leaves the namespaces alone. A fan-out mapper
turns one class change into one reconcile request per labelled namespace.

The cluster is a `Store` with three maps:

- `objects`, keyed by (apiVersion, kind, namespace, name);
- `namespaces`, holding labels, annotations, UID and the deleting flag;
- `classes`, holding templates, policy, finalizers and the deleting flag.

The store also keeps `order`, the order in which a list query returns namespaces.
`Faults` says which store calls fail: the set of keys or names whose get, apply,
delete, patch or update fails, and whether the list query fails. This lets every
error path be stated.

Each reconciler has two forms:

- a reference semantics: a function from a store to the next store, an error and the
  recorded events (modules `Applier`, `Pruner`, `NamespaceReconcile`,
  `ClassReconcile`, `FanOut`);
- an imperative `Controller.Cluster` class. Its methods update the maps call by call
  and loop as the source does. Each method is proved to end in exactly the state the
  reference semantics gives.

The properties are proved as lemmas about the reference semantics.

Modules: `Wrappers` (Option, Result), `Resources` (data model, list query, policy and
finalizer helpers), `InventoryCodec` (JSON inventory and annotations), `Render`,
`Applier`, `Pruner`, `NamespaceReconcile`, `ClassReconcile`, `FanOut`, `Controller`.

Conventions:

- A cleared annotation is an absent key. Both an absent key and an empty value read
  as the empty inventory.
- The "|"-joined key of the source is modelled as equality of the 4-tuple.
  Kubernetes names and kinds never contain "|".
- A template is `Structured(obj)`, `Foreign`, or `Raw(decoded)`. `decoded` is the
  outcome of decoding the raw JSON: `None` means the JSON is malformed.

## Model

| member | source | states |
|---|---|---|
| Resources.ListByClass | controllers/namespaceclass_controller.go:207-210 | the label-selector list contains exactly the existing namespaces whose class label equals the class name, and no more entries than the listing |
| Resources.ListByClassOrdered | controllers/namespaceclass_controller.go:207-212 | the selection is a subsequence of the listing: the namespaces come in the order the list query returns them |
| Resources.ListByClassAppend | controllers/namespaceclass_controller.go:207-210 | selecting from two runs of the listing is selecting from each in turn and concatenating |
| Resources.ListByClassNoDuplicates | controllers/namespaceclass_controller.go:425-433 | a list over a duplicate-free listing names each namespace at most once |
| Resources.EffectivePolicy | controllers/namespaceclass_controller.go:198-204 | an unset policy becomes Cascade; the Cascade branch is taken exactly for an unset or Cascade policy; a set policy is kept |
| Resources.PolicyOf | api/v1/namespaceclass_types.go:16-21 | the empty string is the unset policy, "Cascade" and "Orphan" are the two named policies, and any other string is kept verbatim as a policy of its own |
| Resources.PolicyStringRoundTrip | controllers/namespaceclass_controller.go:198-204 | every policy string reads back as written, and a class cascades exactly when its policy string is empty or "Cascade" |
| Resources.AttachmentOf | controllers/namespaceclass_controller.go:96-111 | no contract of its own; specified by NamespaceReconcile.ReconcileNoOps (an unattached namespace is a no-op), NamespaceReconcile.SyncSuccess (a labelled namespace is synced to its class) and NamespaceReconcile.CleanUpSuccess (a namespace with only the attached-class annotation is cleaned up) |
| Resources.AddFinalizer | controllers/namespaceclass_controller.go:184-185 | the finalizer is present afterwards; it is appended only when it was absent, otherwise the list is unchanged |
| Resources.RemoveFinalizer | controllers/namespaceclass_controller.go:225 | the finalizer is gone, every other finalizer is kept in order, and nothing is added |
| InventoryCodec.Escape | controllers/namespaceclass_controller.go:402-409 | no contract of its own beyond being non-empty and not starting with a quote; specified by InventoryCodec.EscapeCharRoundTrip and InventoryCodec.QuoteRoundTrip (an escaped character, and a quoted string, parse back to the original) |
| InventoryCodec.Encode | controllers/namespaceclass_controller.go:402-409 | no contract of its own; specified by InventoryCodec.DecodeEncode and InventoryCodec.InventoryRoundTrip |
| InventoryCodec.Decode | controllers/namespaceclass_controller.go:369 | no contract of its own; specified by InventoryCodec.DecodeEncode and, through the annotations, InventoryCodec.GetInventory |
| InventoryCodec.ItemRoundTrip | controllers/namespaceclass_controller.go:235-240 | one record encoded with its JSON field names (apiVersion, kind, name, namespace) parses back to the same record, leaving the rest of the input |
| InventoryCodec.DecodeEncode | controllers/namespaceclass_controller.go:402-409 | decoding the JSON array written for a list gives back the same list in order |
| InventoryCodec.GetInventory | controllers/namespaceclass_controller.go:359-373 | a missing key or empty value is the empty inventory; a present, non-empty value is the InventoryMalformed error iff it does not decode, and otherwise the decoded list |
| InventoryCodec.WithInventory | controllers/namespaceclass_controller.go:386-410 | a non-empty list writes the inventory and sets attached-class to the class; an empty list removes both keys; no other annotation changes |
| InventoryCodec.InventoryRoundTrip | controllers/namespaceclass_controller.go:136-140 | reading back the annotations just persisted yields exactly the persisted list, empty or not |
| InventoryCodec.WithInventoryIdempotent | controllers/namespaceclass_controller.go:376-420 | persisting the same inventory twice gives the same annotations as persisting it once |
| Render.NamespaceOwner | controllers/namespaceclass_controller.go:274-282 | no contract of its own; specified by Render.RenderObject (the only owner reference is this v1 Namespace reference with controller and blockOwnerDeletion set) |
| Render.RenderObject | controllers/namespaceclass_controller.go:263-282 | the object gets the target namespace, the managed-by and source-class labels, keeps every other template label and every other field, and carries exactly one owner reference (v1 Namespace, the namespace's name and UID, controller and blockOwnerDeletion set) |
| Render.Prepare | controllers/namespaceclass_controller.go:249-261 | a foreign object is skipped, malformed raw JSON is an error, and a decoded or structured template is rendered from a copy |
| Render.RenderIdempotent | controllers/namespaceclass_controller.go:263-282 | rendering an already rendered object for the same target changes nothing |
| Applier.ApplyAll | controllers/namespaceclass_controller.go:243-309 | no contract of its own; specified by Applier.ApplyAllSpec, Applier.ApplyRecordsManaged, Applier.ApplyFrame, Applier.ApplyAppend, Applier.ApplyStopsAtMalformed and Applier.ApplyStopsAtApplyFailure |
| Applier.ApplyAllSpec | controllers/namespaceclass_controller.go:247-308 | a pass succeeds iff no template is malformed and no write fails; its inventory is then one record per rendered object in template order, and the store holds those objects written in order |
| Applier.ApplyRecordsManaged | controllers/namespaceclass_controller.go:300-305 | each record of a successful pass names an object in the target namespace that the store now holds, labelled as managed by this class |
| Applier.WrittenAt | controllers/namespaceclass_controller.go:293 | the object stored at a written key is one of the rendered objects and carries that key |
| Applier.UpsertsAsOverride | controllers/namespaceclass_controller.go:293 | applying objects one after another overrides the store with their last-wins map |
| Applier.UpsertsIdempotent | controllers/namespaceclass_controller.go:284-293 | applying the same objects again leaves the store unchanged |
| Applier.ApplyFrame | controllers/namespaceclass_controller.go:247-308 | on success and on failure, objects at keys the class does not render are untouched |
| Applier.ApplyResultIndependent | controllers/namespaceclass_controller.go:247-308 | the inventory or error of a pass does not depend on what the store held |
| Applier.ApplyIdempotent | controllers/namespaceclass_controller.go:284-293 | re-running a successful pass on the store it produced returns the same store and inventory |
| Applier.ApplyAppend | controllers/namespaceclass_controller.go:247-308 | a pass over two template lists is the first pass followed, only if it succeeded, by the second, with the inventories concatenated |
| Applier.ApplyStopsAtMalformed | controllers/namespaceclass_controller.go:258-260 | malformed raw JSON aborts the pass with no inventory, while the writes of the earlier templates stay in the store |
| Applier.ApplyStopsAtApplyFailure | controllers/namespaceclass_controller.go:293-295 | a failed apply aborts the pass with that object's ApplyFailed error and no inventory, while the writes of the earlier templates stay in the store |
| Pruner.Prune | controllers/namespaceclass_controller.go:312-342 | no contract of its own; specified by Pruner.PruneSpec, Pruner.PruneSucceeds, Pruner.PruneFrame and Pruner.PruneKeepAll |
| Pruner.Delete | controllers/namespaceclass_controller.go:334-338 | a delete fails only with a non-NotFound error; otherwise the key is absent afterwards, present or not before |
| Pruner.FirstBlocked | controllers/namespaceclass_controller.go:320-337 | locates the first record that must be deleted and whose delete fails; every earlier record is kept or deletable |
| Pruner.PruneSpec | controllers/namespaceclass_controller.go:314-341 | a prune deletes exactly the non-kept records before the first failing delete, and reports that failure (or none) |
| Pruner.PruneSucceeds | controllers/namespaceclass_controller.go:320-341 | a prune succeeds iff every delete it must issue succeeds, and then deletes exactly old minus keep |
| Pruner.PruneFrame | controllers/namespaceclass_controller.go:320-324 | objects in keep and objects outside the old inventory are never touched |
| Pruner.PruneKeepAll | controllers/namespaceclass_controller.go:314-324 | with every old record kept, a prune deletes nothing and cannot fail |
| FanOut.FindNamespacesForClass | controllers/namespaceclass_controller.go:423-434 | no contract of its own; specified by FanOut.FanOutSpec and FanOut.FanOutOrdered |
| FanOut.Requests | controllers/namespaceclass_controller.go:430-433 | one request per listed namespace, at the same position, carrying only its name |
| FanOut.FanOutSpec | controllers/namespaceclass_controller.go:423-434 | there is a request for a namespace iff it carries the class label, no namespace is requested twice, and a list failure yields no requests |
| FanOut.FanOutOrdered | controllers/namespaceclass_controller.go:427-433 | the names the requests carry are a subsequence of the listing order |
| NamespaceReconcile.Reconcile | controllers/namespaceclass_controller.go:87-165 | no contract of its own; specified by NamespaceReconcile.ReconcileNoOps, NamespaceReconcile.SyncSuccess, NamespaceReconcile.CleanUpSuccess, NamespaceReconcile.FailureKeepsNamespaces, NamespaceReconcile.ReconcileKeepsNamespaceSet, NamespaceReconcile.ReconcilePreservesValid and NamespaceReconcile.ReconcileIdempotent |
| NamespaceReconcile.Persist | controllers/namespaceclass_controller.go:376-420 | no contract of its own; specified by NamespaceReconcile.PersistSpec |
| NamespaceReconcile.CleanUp | controllers/namespaceclass_controller.go:345-356 | no contract of its own; specified by NamespaceReconcile.CleanUpSuccess and NamespaceReconcile.MalformedInventoryBlocksCleanUp |
| NamespaceReconcile.Sync | controllers/namespaceclass_controller.go:135-164 | no contract of its own; specified by NamespaceReconcile.SyncShape, NamespaceReconcile.SyncSuccess, NamespaceReconcile.SyncRecordsManaged and NamespaceReconcile.MalformedInventoryBlocksSync |
| NamespaceReconcile.ReconcileNoOps | controllers/namespaceclass_controller.go:87-133 | a missing namespace, a namespace being deleted, an unattached namespace and a label naming a missing class all succeed with the store unchanged; the last records a ClassMissing warning |
| NamespaceReconcile.PersistSpec | controllers/namespaceclass_controller.go:376-420 | persisting fails only on a patch failure and then changes nothing; on success the inventory reads back as the list, attached-class is the class (or both are absent for an empty list), and nothing else changes |
| NamespaceReconcile.SyncShape | controllers/namespaceclass_controller.go:122-164 | a successful attached pass gives exactly the store with the desired objects and the persisted annotations |
| NamespaceReconcile.SyncSuccess | controllers/namespaceclass_controller.go:135-164 | after a successful attached pass the objects are those rendered, minus the stale old ones; the inventory equals the applied list; attached-class is the class (cleared when the list is empty); labels and other namespaces are unchanged |
| NamespaceReconcile.SyncRecordsManaged | controllers/namespaceclass_controller.go:135-164 | after a successful attached pass, every record of the persisted inventory names an object in the namespace that the store holds, labelled as managed by the class |
| NamespaceReconcile.FailureKeepsNamespaces | controllers/namespaceclass_controller.go:136-161 | any failed pass, including a prune or persist failure, leaves every namespace's annotations and labels, and every class, as they were |
| NamespaceReconcile.CleanUpSuccess | controllers/namespaceclass_controller.go:108-121 | after the label is removed, a successful pass deletes every recorded object and nothing else, removes both annotations and only them, keeps labels, UID and deleting flag, leaves the namespace unattached, and changes no other namespace, no class and not the list order |
| NamespaceReconcile.MalformedInventoryBlocksSync | controllers/namespaceclass_controller.go:135-140 | for an attached namespace whose class is found, an inventory annotation that does not decode ends the pass with InventoryMalformed before anything is applied: the store is unchanged and no event is recorded |
| NamespaceReconcile.MalformedInventoryBlocksCleanUp | controllers/namespaceclass_controller.go:345-349 | for a namespace whose label was removed, an undecodable inventory ends the cleanup with InventoryMalformed before anything is deleted |
| NamespaceReconcile.ReconcileKeepsNamespaceSet | controllers/namespaceclass_controller.go:87-165 | a pass, successful or not, adds and removes no namespace and keeps the list order |
| NamespaceReconcile.ReconcilePreservesValid | controllers/namespaceclass_controller.go:87-165 | a pass keeps the store well formed (every namespace listed exactly once) |
| NamespaceReconcile.RewriteAfterPrune | controllers/namespaceclass_controller.go:142-155 | re-applying the rendered objects to a store whose stale keys were pruned changes nothing |
| NamespaceReconcile.ReconcileIdempotent | controllers/namespaceclass_controller.go:87-164 | reconciling again after a successful pass, with class and label unchanged, succeeds, deletes nothing and leaves the identical store |
| NamespaceReconcile.ReconcileAtFixpoint | controllers/namespaceclass_controller.go:135-161 | a pass over a store that already holds and records what the class renders changes nothing |
| ClassReconcile.Reconcile | controllers/namespaceclass_controller.go:175-233 | no contract of its own; specified by ClassReconcile.LiveClass, ClassReconcile.DeletingWithoutFinalizer, ClassReconcile.CascadeSuccess, ClassReconcile.OrphanKeepsNamespaces, ClassReconcile.FinalizerRemovedLast, ClassReconcile.FailureKeepsClass, ClassReconcile.ClassReconcileKeepsInventory and ClassReconcile.ClassReconcilePreservesValid |
| ClassReconcile.UpdateClass | controllers/namespaceclass_controller.go:186-188 | no contract of its own; specified by ClassReconcile.LiveClass and ClassReconcile.CascadeSuccess (the class is rewritten, or nothing changes on failure) |
| ClassReconcile.Detach | controllers/namespaceclass_controller.go:212-221 | no contract of its own; specified by ClassReconcile.DetachSpec, ClassReconcile.DetachSucceeds, ClassReconcile.DetachFrame, ClassReconcile.DetachExact and ClassReconcile.DetachStopsAtFailure |
| ClassReconcile.DeletionWork | controllers/namespaceclass_controller.go:198-222 | no contract of its own; specified by ClassReconcile.DeletionWorkFrame, ClassReconcile.CascadeSuccess and ClassReconcile.OrphanKeepsNamespaces |
| ClassReconcile.DetachLabel | controllers/namespaceclass_controller.go:214-215 | only the class label is removed; other labels, annotations, UID and the deleting flag are kept |
| ClassReconcile.DetachSucceeds | controllers/namespaceclass_controller.go:212-221 | the cascade loop succeeds iff every listed namespace is patched without error |
| ClassReconcile.DetachFrame | controllers/namespaceclass_controller.go:212-221 | whether or not it stops early, the loop only ever removes the class label, and touches no object or class |
| ClassReconcile.DetachExact | controllers/namespaceclass_controller.go:212-221 | a successful loop removes the label from exactly the listed namespaces |
| ClassReconcile.FirstUnpatched | controllers/namespaceclass_controller.go:212-219 | locates the first listed namespace whose patch fails; every earlier one exists and patches |
| ClassReconcile.DetachSpec | controllers/namespaceclass_controller.go:212-221 | the cascade loop removes the label from exactly the namespaces listed before the first failing patch, and reports that failure (or none) |
| ClassReconcile.DetachStopsAtFailure | controllers/namespaceclass_controller.go:216-218 | every namespace not patched before the failure, those listed after it included, is left as it was |
| ClassReconcile.DeletingWithoutFinalizer | controllers/namespaceclass_controller.go:195-232 | a deleting class that no longer carries the finalizer is a no-op: the store is unchanged and there is no error |
| ClassReconcile.LiveClass | controllers/namespaceclass_controller.go:183-192 | a live class without the finalizer gets exactly that finalizer appended (or, on update failure, nothing changes); with the finalizer it is a no-op |
| ClassReconcile.CascadeSuccess | controllers/namespaceclass_controller.go:194-230 | under Cascade (or unset), success removes the class label from exactly the namespaces labelled with the class, touches no object, rewrites the class with only the finalizer removed (templates, policy and other classes kept), and keeps the list order |
| ClassReconcile.OrphanKeepsNamespaces | controllers/namespaceclass_controller.go:204-222 | under any policy other than Cascade no namespace and no object changes |
| ClassReconcile.FinalizerRemovedLast | controllers/namespaceclass_controller.go:204-228 | the finalizer of a deleting class is removed only by a successful pass, and under Cascade only when no namespace still carries the class label |
| ClassReconcile.FailureKeepsClass | controllers/namespaceclass_controller.go:216-219 | a failed pass, such as a failed cascade patch, leaves the class and its finalizer as they were |
| ClassReconcile.DeletionWorkFrame | controllers/namespaceclass_controller.go:198-222 | the namespace-side work of a deletion, under any policy and whether or not it fails, writes no object, changes no class and touches no annotation |
| ClassReconcile.ClassReconcilePreservesValid | controllers/namespaceclass_controller.go:175-233 | a pass keeps the store well formed: no namespace appears or disappears and the list order is kept |
| ClassReconcile.ClassReconcileKeepsInventory | controllers/namespaceclass_controller.go:175-233 | the class reconciler never writes or deletes an object and never changes an annotation |
| Controller.Cluster.ApplyObject | controllers/namespaceclass_controller.go:284-295 | server-side apply is an upsert at the object's key, or fails without change |
| Controller.Cluster.DeleteObject | controllers/namespaceclass_controller.go:334-338 | delete removes the key, reporting NotFound when it was absent, or fails without change |
| Controller.Cluster.PatchAnnotations | controllers/namespaceclass_controller.go:412-419 | the annotation patch replaces the namespace's annotations, or fails without change |
| Controller.Cluster.PatchRemoveClassLabel | controllers/namespaceclass_controller.go:214-216 | the merge patch removes the class label of one namespace, or fails without change |
| Controller.Cluster.UpdateClass | controllers/namespaceclass_controller.go:186-188 | the update writes the class, or fails without change |
| Controller.Cluster.ApplyClassResources | controllers/namespaceclass_controller.go:243-309 | the loop leaves the objects and returns the inventory or error that the applier semantics gives, touching nothing else |
| Controller.Cluster.PruneOrphanedResources | controllers/namespaceclass_controller.go:312-342 | building the keep set and deleting in order leaves the objects and error that the prune semantics gives |
| Controller.Cluster.SetNamespaceInventory | controllers/namespaceclass_controller.go:376-420 | the patch leaves the store the persist semantics gives |
| Controller.Cluster.CleanUpResources | controllers/namespaceclass_controller.go:345-356 | reading the inventory, pruning with an empty keep list and clearing the annotations leave the store the cleanup semantics gives |
| Controller.Cluster.ReconcileNamespace | controllers/namespaceclass_controller.go:87-165 | the sequence of reads and writes with early returns ends in the store, error and events of the namespace reconcile semantics |
| Controller.Cluster.DetachNamespaces | controllers/namespaceclass_controller.go:212-221 | patching the label off the listed namespaces one by one, with an early return on failure, ends in the store and error of the detach semantics |
| Controller.Cluster.ReconcileClass | controllers/namespaceclass_controller.go:175-233 | finalizer handling and the cascade loop end in the store and error of the class reconcile semantics |

## Left out

- Prometheus metrics and their registration, and logging: side channels that do not affect control flow.
- The event recorder: the model returns the ClassMissing and ApplyFailed warnings as a list of events.
- Server-side apply field ownership and conflict forcing. Apply is modelled as an upsert of the rendered object at its key, so fields written by other managers are not modelled.
- InventoryCodec.Decode: it accepts only the compact layout that json.Marshal writes (no whitespace, the four fields in declaration order) plus `null` and `[]`. Inside strings it is looser: it also takes `\/` and upper-case hex, which json.Marshal never writes, and `\b` and `\f`, which only Go 1.22 and later write. json.Unmarshal also accepts whitespace, reordered, missing and unknown fields; the model reports such input as malformed. Escaped surrogate pairs are also refused, and so is a lone surrogate escape, which json.Unmarshal replaces by U+FFFD. `[null]` is refused, where json.Unmarshal gives one record with empty fields. Field names are matched case-sensitively, where json.Unmarshal also accepts them in another case. In the other direction, the decoder accepts raw `<`, `>`, `&`, U+2028 and U+2029 and any `\u` escape of them, which json.Marshal would have escaped; json.Unmarshal accepts these as well.
- InventoryCodec.Escape: writes backspace and form feed as `\u0008` and `\u000c`, as Go releases before 1.22 do; later releases write `\b` and `\f`. The decoder reads both forms; the proved round trip is about the encoder as modelled.
- Object identity across API versions and for cluster-scoped kinds. The store and the inventory key an object by (apiVersion, kind, namespace, name), as the source's "|"-joined key does. Kubernetes identifies an object by group, kind, namespace and name. So when a template changes version within its group, the source applies the object and then deletes it by pruning its old record, while the model deletes only the old key and keeps the object under its new one. A cluster-scoped kind ignores the forced namespace, which the model does not capture either.
- Decoding arbitrary template JSON: a raw template carries the outcome of its decoding.
- The Kubernetes garbage collector acting on owner references, and the removal of a deleted class once its last finalizer is gone.
- Watch wiring (`SetupWithManager`), concurrency limits and worker pools.
- The process entry point: flags, leader election, health probes and client settings.
- Scheme registration, and the class status fields, which the controller never writes.
- Controller.Cluster.PatchRemoveClassLabel: the merge patch is applied to the namespace as listed. A change made between the list and the patch is not modelled, because the model is sequential.
- A failing store call is modelled as a fixed set of keys or names that fail. A call that fails once and then succeeds (a transient error followed by a retry) is a different `Faults` value in the next pass.
