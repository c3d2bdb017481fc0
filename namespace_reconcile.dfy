/**
 * The namespace reconciler: for one namespace, either keeps its objects in
 * step with its class (render, apply, prune, persist the inventory), or,
 * once the class label is gone, deletes everything it recorded and clears
 * the inventory annotations.
 */
module NamespaceReconcile {
  import opened Wrappers
  import opened Resources
  import opened InventoryCodec
  import opened Render
  import opened Applier
  import opened Pruner

  /** Events recorded on the namespace. */
  datatype Event = ClassMissing(className: string) | ApplyFailedEvent(error: Error)

  /** The store after a pass, its error (None means success) and the events it recorded. */
  datatype Outcome = Outcome(store: Store, error: Option<Error>, events: seq<Event>)

  /** The store after a store-side step that may fail part-way. */
  datatype Step = Step(store: Store, error: Option<Error>)

  function WithAnnotations(s: Store, name: string, ann: map<string, string>): Store
    requires name in s.namespaces
  {
    s.(namespaces := s.namespaces[name := s.namespaces[name].(annotations := ann)])
  }

  /** Persisting the inventory and the attached class on the namespace (a patch that may fail). */
  function Persist(s: Store, name: string, className: string, items: seq<ObjRef>, faults: Faults): Step
    requires name in s.namespaces
  {
    if name in faults.nsPatchFails then Step(s, Some(PatchFailed(name)))
    else Step(WithAnnotations(s, name, WithInventory(s.namespaces[name].annotations, className, items)), None)
  }

  /** Cleanup after the class label was removed: delete every recorded object, then clear the annotations. */
  function CleanUp(s: Store, name: string, faults: Faults): Step
    requires name in s.namespaces
  {
    match GetInventory(s.namespaces[name].annotations)
    case Failure(e) => Step(s, Some(e))
    case Success(previous) =>
      var po := Prune(s.objects, previous, {}, faults.deleteFails);
      var s1 := s.(objects := po.objects);
      if po.error.Some? then Step(s1, po.error)
      else Persist(s1, name, "", [], faults)
  }

  /** One pass for a namespace attached to an existing class. */
  function Sync(s: Store, name: string, className: string, faults: Faults): Outcome
    requires name in s.namespaces && className in s.classes
  {
    var ns := s.namespaces[name];
    match GetInventory(ns.annotations)
    case Failure(e) => Outcome(s, Some(e), [])
    case Success(previous) =>
      var ao := ApplyAll(s.objects, s.classes[className].resources, Target(name, ns.uid, className), faults.applyFails);
      var s1 := s.(objects := ao.objects);
      match ao.result
      case Failure(e) => Outcome(s1, Some(e), [ApplyFailedEvent(e)])
      case Success(applied) =>
        var po := Prune(s1.objects, previous, SetOf(applied), faults.deleteFails);
        var s2 := s1.(objects := po.objects);
        if po.error.Some? then Outcome(s2, po.error, [])
        else
          var st := Persist(s2, name, className, applied, faults);
          Outcome(st.store, st.error, [])
  }

  /** The reference semantics of one reconcile of the namespace `name`. */
  function Reconcile(s: Store, name: string, faults: Faults): Outcome {
    if name in faults.nsGetFails then Outcome(s, Some(GetNamespaceFailed(name)), [])
    else if name !in s.namespaces then Outcome(s, None, [])
    else if s.namespaces[name].deleting then Outcome(s, None, [])
    else
      match AttachmentOf(s.namespaces[name])
      case Unattached => Outcome(s, None, [])
      case Detaching(_) =>
        var st := CleanUp(s, name, faults);
        Outcome(st.store, st.error, [])
      case Attached(c) =>
        if c in faults.classGetFails then Outcome(s, Some(GetClassFailed(c)), [])
        else if c !in s.classes then Outcome(s, None, [ClassMissing(c)])
        else Sync(s, name, c, faults)
  }

  // ---------------------------------------------------------------------
  // What a pass promises

  /** The objects a successful sync leaves: the rendered ones written, the stale previous ones deleted. */
  function Desired(s: Store, name: string, className: string, previous: seq<ObjRef>): Objects
    requires name in s.namespaces && className in s.classes
  {
    var rendered := RenderedAll(s.classes[className].resources, Target(name, s.namespaces[name].uid, className));
    Upserts(s.objects, rendered) - (SetOf(previous) - SetOf(Refs(rendered)))
  }

  /**
   * No-op cases: a missing namespace, a namespace being deleted, a
   * namespace with no label and no attached class, and a label naming a
   * missing class (which records ClassMissing and is not retried).
   */
  lemma ReconcileNoOps(s: Store, name: string, faults: Faults)
    requires name !in faults.nsGetFails
    ensures name !in s.namespaces ==> Reconcile(s, name, faults) == Outcome(s, None, [])
    ensures name in s.namespaces && s.namespaces[name].deleting ==> Reconcile(s, name, faults) == Outcome(s, None, [])
    ensures name in s.namespaces && !s.namespaces[name].deleting && AttachmentOf(s.namespaces[name]) == Unattached
      ==> Reconcile(s, name, faults) == Outcome(s, None, [])
    ensures name in s.namespaces && !s.namespaces[name].deleting && ClassLabel(s.namespaces[name]) != ""
      && ClassLabel(s.namespaces[name]) !in faults.classGetFails && ClassLabel(s.namespaces[name]) !in s.classes
      ==> Reconcile(s, name, faults) == Outcome(s, None, [ClassMissing(ClassLabel(s.namespaces[name]))])
  {
  }

  /** A persisted inventory reads back as the list persisted. */
  lemma PersistSpec(s: Store, name: string, className: string, items: seq<ObjRef>, faults: Faults)
    requires name in s.namespaces
    ensures var st := Persist(s, name, className, items, faults);
      && (st.error.None? <==> name !in faults.nsPatchFails)
      && (st.error.Some? ==> st.store == s)
      && (st.error.None? ==>
           && st.store.objects == s.objects && st.store.classes == s.classes && st.store.order == s.order
           && st.store.namespaces.Keys == s.namespaces.Keys
           && (forall n :: n in s.namespaces && n != name ==> st.store.namespaces[n] == s.namespaces[n])
           && var ns' := st.store.namespaces[name];
              && ns'.labels == s.namespaces[name].labels && ns'.uid == s.namespaces[name].uid
              && ns'.deleting == s.namespaces[name].deleting
              && GetInventory(ns'.annotations) == Success(items)
              && (items != [] ==> AttachedClass(ns') == className)
              && (items == [] ==> InventoryAnnotation !in ns'.annotations && AttachedClassAnnotation !in ns'.annotations))
  {
    InventoryRoundTrip(s.namespaces[name].annotations, className, items);
  }

  /**
   * The store after a successful pass on an attached namespace, and the
   * store calls that cannot have failed on the way.
   */
  lemma SyncShape(s: Store, name: string, faults: Faults)
    requires name in s.namespaces && !s.namespaces[name].deleting
    requires AttachmentOf(s.namespaces[name]).Attached?
    requires Reconcile(s, name, faults).error.None?
    requires ClassLabel(s.namespaces[name]) in s.classes
    ensures var c := ClassLabel(s.namespaces[name]);
      var ns := s.namespaces[name];
      var applied := Refs(RenderedAll(s.classes[c].resources, Target(name, ns.uid, c)));
      && name !in faults.nsGetFails && c !in faults.classGetFails && name !in faults.nsPatchFails
      && GetInventory(ns.annotations).Success?
      && ApplyAll(s.objects, s.classes[c].resources, Target(name, ns.uid, c), faults.applyFails).result == Success(applied)
      && Reconcile(s, name, faults) == Outcome(
           WithAnnotations(s.(objects := Desired(s, name, c, GetInventory(ns.annotations).value)), name,
             WithInventory(ns.annotations, c, applied)),
           None, [])
  {
    var c := ClassLabel(s.namespaces[name]);
    var ns := s.namespaces[name];
    var tg := Target(name, ns.uid, c);
    var ts := s.classes[c].resources;
    var previous := GetInventory(ns.annotations).value;
    ApplyAllSpec(s.objects, ts, tg, faults.applyFails);
    var ao := ApplyAll(s.objects, ts, tg, faults.applyFails);
    var applied := ao.result.value;
    PruneSucceeds(ao.objects, previous, SetOf(applied), faults.deleteFails);
  }

  /**
   * A successful pass on an attached namespace leaves exactly the desired
   * objects, records the applied list as the inventory and the class as the
   * attached class (or clears both for an empty list), and changes nothing
   * else on the namespace.
   */
  lemma SyncSuccess(s: Store, name: string, faults: Faults)
    requires name in s.namespaces && !s.namespaces[name].deleting
    requires AttachmentOf(s.namespaces[name]).Attached?
    requires Reconcile(s, name, faults).error.None?
    requires ClassLabel(s.namespaces[name]) in s.classes
    ensures var c := ClassLabel(s.namespaces[name]);
      var ns := s.namespaces[name];
      var o := Reconcile(s, name, faults);
      var applied := Refs(RenderedAll(s.classes[c].resources, Target(name, ns.uid, c)));
      && GetInventory(ns.annotations).Success?
      && o.events == []
      && o.store.objects == Desired(s, name, c, GetInventory(ns.annotations).value)
      && o.store.classes == s.classes && o.store.order == s.order
      && name in o.store.namespaces
      && GetInventory(o.store.namespaces[name].annotations) == Success(applied)
      && (applied != [] ==> AttachedClass(o.store.namespaces[name]) == c)
      && (applied == [] ==> AttachedClassAnnotation !in o.store.namespaces[name].annotations)
      && o.store.namespaces[name].labels == ns.labels
      && (forall n :: n in s.namespaces && n != name ==> n in o.store.namespaces && o.store.namespaces[n] == s.namespaces[n])
  {
    var c := ClassLabel(s.namespaces[name]);
    var ns := s.namespaces[name];
    var applied := Refs(RenderedAll(s.classes[c].resources, Target(name, ns.uid, c)));
    SyncShape(s, name, faults);
    InventoryRoundTrip(ns.annotations, c, applied);
  }

  /**
   * After a successful attached pass, every record of the persisted
   * inventory names an object the store holds, in the namespace, labelled
   * as managed by the class.
   */
  lemma SyncRecordsManaged(s: Store, name: string, faults: Faults)
    requires name in s.namespaces && !s.namespaces[name].deleting
    requires AttachmentOf(s.namespaces[name]).Attached?
    requires Reconcile(s, name, faults).error.None?
    requires ClassLabel(s.namespaces[name]) in s.classes
    ensures var c := ClassLabel(s.namespaces[name]);
      var o := Reconcile(s, name, faults);
      && name in o.store.namespaces
      && GetInventory(o.store.namespaces[name].annotations).Success?
      && forall r :: r in GetInventory(o.store.namespaces[name].annotations).value ==>
           r.namespace == name && r in o.store.objects && Managed(o.store.objects[r], name, c)
  {
    var c := ClassLabel(s.namespaces[name]);
    var ns := s.namespaces[name];
    var tg := Target(name, ns.uid, c);
    var ts := s.classes[c].resources;
    var o := Reconcile(s, name, faults);
    SyncShape(s, name, faults);
    SyncSuccess(s, name, faults);
    var ao := ApplyAll(s.objects, ts, tg, faults.applyFails);
    ApplyAllSpec(s.objects, ts, tg, faults.applyFails);
    ApplyRecordsManaged(s.objects, ts, tg, faults.applyFails);
    var us := RenderedAll(ts, tg);
    var previous := GetInventory(ns.annotations).value;
    assert o.store.objects == Upserts(s.objects, us) - (SetOf(previous) - SetOf(Refs(us)));
    forall r | r in GetInventory(o.store.namespaces[name].annotations).value
      ensures r.namespace == name && r in o.store.objects && Managed(o.store.objects[r], name, c)
    {
      assert r in ao.result.value;
      assert r in SetOf(Refs(us));
    }
  }

  /** A failed pass leaves every namespace's labels and annotations, and every class, as they were. */
  lemma FailureKeepsNamespaces(s: Store, name: string, faults: Faults)
    requires Reconcile(s, name, faults).error.Some?
    ensures Reconcile(s, name, faults).store.namespaces == s.namespaces
    ensures Reconcile(s, name, faults).store.classes == s.classes
  {
    if name !in faults.nsGetFails && name in s.namespaces && !s.namespaces[name].deleting {
      var ns := s.namespaces[name];
      match AttachmentOf(ns)
      case Unattached =>
      case Detaching(_) =>
        var previous := GetInventory(ns.annotations);
        if previous.Success? {
          var po := Prune(s.objects, previous.value, {}, faults.deleteFails);
          assert Reconcile(s, name, faults).store
            == (if po.error.Some? then s.(objects := po.objects) else Persist(s.(objects := po.objects), name, "", [], faults).store);
        }
      case Attached(c) =>
        if c !in faults.classGetFails && c in s.classes && GetInventory(ns.annotations).Success? {
          var ao := ApplyAll(s.objects, s.classes[c].resources, Target(name, ns.uid, c), faults.applyFails);
          if ao.result.Success? {
            var po := Prune(ao.objects, GetInventory(ns.annotations).value, SetOf(ao.result.value), faults.deleteFails);
            assert Reconcile(s, name, faults)
              == (if po.error.Some? then Outcome(s.(objects := po.objects), po.error, [])
                  else var st := Persist(s.(objects := po.objects), name, c, ao.result.value, faults);
                    Outcome(st.store, st.error, []));
          }
        }
    }
  }

  /**
   * Cleanup after the label was removed: on success every object of the
   * recorded inventory is gone, nothing else is deleted, both inventory
   * annotations are gone and the namespace is unattached.
   */
  lemma CleanUpSuccess(s: Store, name: string, faults: Faults)
    requires name in s.namespaces && !s.namespaces[name].deleting
    requires AttachmentOf(s.namespaces[name]).Detaching?
    requires Reconcile(s, name, faults).error.None?
    ensures var ns := s.namespaces[name];
      var o := Reconcile(s, name, faults);
      && GetInventory(ns.annotations).Success?
      && o.store.objects == s.objects - SetOf(GetInventory(ns.annotations).value)
      && name in o.store.namespaces
      && InventoryAnnotation !in o.store.namespaces[name].annotations
      && AttachedClassAnnotation !in o.store.namespaces[name].annotations
      && o.store.namespaces[name].labels == ns.labels
      && o.store.namespaces[name].uid == ns.uid && o.store.namespaces[name].deleting == ns.deleting
      && (forall k :: k != InventoryAnnotation && k != AttachedClassAnnotation ==>
            (k in o.store.namespaces[name].annotations <==> k in ns.annotations)
            && (k in ns.annotations ==> o.store.namespaces[name].annotations[k] == ns.annotations[k]))
      && AttachmentOf(o.store.namespaces[name]) == Unattached
      && o.store.namespaces.Keys == s.namespaces.Keys
      && (forall n :: n in s.namespaces && n != name ==> o.store.namespaces[n] == s.namespaces[n])
      && o.store.classes == s.classes && o.store.order == s.order
  {
    var previous := GetInventory(s.namespaces[name].annotations).value;
    PruneSucceeds(s.objects, previous, {}, faults.deleteFails);
    var po := Prune(s.objects, previous, {}, faults.deleteFails);
    assert SetOf(previous) - {} == SetOf(previous);
    PersistSpec(s.(objects := po.objects), name, "", [], faults);
  }

  /**
   * An inventory annotation that does not decode stops an attached pass
   * before anything is applied: nothing changes and the error is reported.
   */
  lemma MalformedInventoryBlocksSync(s: Store, name: string, faults: Faults)
    requires name !in faults.nsGetFails && name in s.namespaces && !s.namespaces[name].deleting
    requires AttachmentOf(s.namespaces[name]).Attached?
    requires ClassLabel(s.namespaces[name]) !in faults.classGetFails && ClassLabel(s.namespaces[name]) in s.classes
    requires var ann := s.namespaces[name].annotations;
      InventoryAnnotation in ann && ann[InventoryAnnotation] != "" && Decode(ann[InventoryAnnotation]).None?
    ensures Reconcile(s, name, faults) == Outcome(s, Some(InventoryMalformed), [])
  {
  }

  /** An inventory annotation that does not decode also stops a cleanup before anything is deleted. */
  lemma MalformedInventoryBlocksCleanUp(s: Store, name: string, faults: Faults)
    requires name !in faults.nsGetFails && name in s.namespaces && !s.namespaces[name].deleting
    requires AttachmentOf(s.namespaces[name]).Detaching?
    requires var ann := s.namespaces[name].annotations;
      InventoryAnnotation in ann && ann[InventoryAnnotation] != "" && Decode(ann[InventoryAnnotation]).None?
    ensures Reconcile(s, name, faults) == Outcome(s, Some(InventoryMalformed), [])
  {
  }

  /** A pass never adds or removes a namespace and never changes the list order. */
  lemma ReconcileKeepsNamespaceSet(s: Store, name: string, faults: Faults)
    ensures Reconcile(s, name, faults).store.namespaces.Keys == s.namespaces.Keys
    ensures Reconcile(s, name, faults).store.order == s.order
  {
    if name !in faults.nsGetFails && name in s.namespaces && !s.namespaces[name].deleting {
      var ns := s.namespaces[name];
      match AttachmentOf(ns)
      case Unattached =>
      case Detaching(_) =>
        var previous := GetInventory(ns.annotations);
        if previous.Success? {
          var po := Prune(s.objects, previous.value, {}, faults.deleteFails);
          PersistSpec(s.(objects := po.objects), name, "", [], faults);
        }
      case Attached(c) =>
        if c !in faults.classGetFails && c in s.classes && GetInventory(ns.annotations).Success? {
          var ao := ApplyAll(s.objects, s.classes[c].resources, Target(name, ns.uid, c), faults.applyFails);
          if ao.result.Success? {
            var po := Prune(ao.objects, GetInventory(ns.annotations).value, SetOf(ao.result.value), faults.deleteFails);
            PersistSpec(s.(objects := po.objects), name, c, ao.result.value, faults);
          }
        }
    }
  }

  /** A pass keeps the store well formed. */
  lemma ReconcilePreservesValid(s: Store, name: string, faults: Faults)
    requires s.Valid()
    ensures Reconcile(s, name, faults).store.Valid()
  {
    ReconcileKeepsNamespaceSet(s, name, faults);
  }

  /** Writing the rendered objects over a store that already holds them, minus unrelated keys, changes nothing. */
  lemma RewriteAfterPrune(objects: Objects, us: seq<Unstructured>, gone: set<ObjRef>)
    requires forall u :: u in us ==> u.Ref() !in gone
    ensures Upserts(Upserts(objects, us) - gone, us) == Upserts(objects, us) - gone
  {
    UpsertsAsOverride(objects, us);
    UpsertsAsOverride(Upserts(objects, us) - gone, us);
    var w := Written(us);
    var lhs := (objects + w - gone) + w;
    var rhs := objects + w - gone;
    assert lhs.Keys == rhs.Keys;
    assert forall k :: k in lhs ==> lhs[k] == rhs[k];
    assert lhs == rhs;
  }

  /**
   * Idempotence: reconciling again after a successful pass, with the class
   * and the label unchanged, deletes nothing, writes nothing new and
   * succeeds with the same store.
   */
  lemma ReconcileIdempotent(s: Store, name: string, faults: Faults)
    requires name in s.namespaces && !s.namespaces[name].deleting
    requires AttachmentOf(s.namespaces[name]).Attached?
    requires ClassLabel(s.namespaces[name]) in s.classes
    requires Reconcile(s, name, faults).error.None?
    ensures var s' := Reconcile(s, name, faults).store;
      Reconcile(s', name, faults) == Outcome(s', None, [])
  {
    var c := ClassLabel(s.namespaces[name]);
    var ns := s.namespaces[name];
    var tg := Target(name, ns.uid, c);
    var ts := s.classes[c].resources;
    var us := RenderedAll(ts, tg);
    var applied := Refs(us);
    var previous := GetInventory(ns.annotations).value;
    SyncShape(s, name, faults);
    var ann' := WithInventory(ns.annotations, c, applied);
    var s' := Reconcile(s, name, faults).store;
    assert s'.namespaces[name] == ns.(annotations := ann');
    // The second apply writes the same objects and yields the same list.
    ApplyAllSpec(s'.objects, ts, tg, faults.applyFails);
    ApplyResultIndependent(s.objects, s'.objects, ts, tg, faults.applyFails);
    var gone := SetOf(previous) - SetOf(applied);
    forall u | u in us ensures u.Ref() !in gone {
      var i :| 0 <= i < |us| && us[i] == u;
      assert applied[i] == u.Ref();
    }
    RewriteAfterPrune(s.objects, us, gone);
    InventoryRoundTrip(ns.annotations, c, applied);
    WithInventoryIdempotent(ns.annotations, c, applied);
    ReconcileAtFixpoint(s', name, c, applied, faults);
  }

  /** A pass over a store that already holds what the class renders, and records it, changes nothing. */
  lemma ReconcileAtFixpoint(s: Store, name: string, c: string, applied: seq<ObjRef>, faults: Faults)
    requires name in s.namespaces && !s.namespaces[name].deleting && name !in faults.nsGetFails
    requires AttachmentOf(s.namespaces[name]) == Attached(c) && c in s.classes && c !in faults.classGetFails
    requires name !in faults.nsPatchFails
    requires GetInventory(s.namespaces[name].annotations) == Success(applied)
    requires ApplyAll(s.objects, s.classes[c].resources, Target(name, s.namespaces[name].uid, c), faults.applyFails)
      == ApplyOutcome(s.objects, Success(applied))
    requires WithInventory(s.namespaces[name].annotations, c, applied) == s.namespaces[name].annotations
    ensures Reconcile(s, name, faults) == Outcome(s, None, [])
  {
    PruneKeepAll(s.objects, applied, SetOf(applied), faults.deleteFails);
    assert s.(objects := s.objects) == s;
    assert s.namespaces[name := s.namespaces[name].(annotations := s.namespaces[name].annotations)] == s.namespaces;
  }
}
