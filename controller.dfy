/**
 * The controller against a mutable cluster: the store is an object whose
 * maps the reconcilers update call by call, as the source does through its
 * client. Each method is proved to leave the store exactly as the reference
 * semantics in the other modules say.
 */
module Controller {
  import opened Wrappers
  import opened Resources
  import opened InventoryCodec
  import opened Render
  import opened Applier
  import opened Pruner
  import NR = NamespaceReconcile
  import CR = ClassReconcile

  /** What one delete call reports. */
  datatype DeleteResult = Deleted | NotFound | DeleteError(error: Error)

  class Cluster {
    var objects: Objects
    var namespaces: map<string, Namespace>
    var order: seq<string>
    var classes: map<string, NamespaceClass>

    function State(): Store
      reads this
    {
      Store(objects, namespaces, order, classes)
    }

    constructor (s: Store)
      ensures State() == s
    {
      objects, namespaces, order, classes := s.objects, s.namespaces, s.order, s.classes;
    }

    // -------------------------------------------------------------------
    // Store calls

    /** Server-side apply of one object: an upsert at its key. */
    method ApplyObject(obj: Unstructured, faults: Faults) returns (err: Option<Error>)
      modifies this
      ensures err == if obj.Ref() in faults.applyFails then Some(ApplyFailed(obj.Ref())) else None
      ensures objects == if err.None? then old(objects)[obj.Ref() := obj] else old(objects)
      ensures namespaces == old(namespaces) && order == old(order) && classes == old(classes)
    {
      if obj.Ref() in faults.applyFails {
        return Some(ApplyFailed(obj.Ref()));
      }
      objects := objects[obj.Ref() := obj];
      return None;
    }

    method DeleteObject(k: ObjRef, faults: Faults) returns (r: DeleteResult)
      modifies this
      ensures k in faults.deleteFails ==> r == DeleteError(DeleteFailed(k)) && objects == old(objects)
      ensures k !in faults.deleteFails ==>
        objects == old(objects) - {k} && r == (if k in old(objects) then Deleted else NotFound)
      ensures namespaces == old(namespaces) && order == old(order) && classes == old(classes)
    {
      if k in faults.deleteFails {
        return DeleteError(DeleteFailed(k));
      }
      r := if k in objects then Deleted else NotFound;
      objects := objects - {k};
    }

    method PatchAnnotations(name: string, ann: map<string, string>, faults: Faults) returns (err: Option<Error>)
      requires name in namespaces
      modifies this
      ensures err == if name in faults.nsPatchFails then Some(PatchFailed(name)) else None
      ensures namespaces == if err.None? then old(namespaces)[name := old(namespaces)[name].(annotations := ann)] else old(namespaces)
      ensures objects == old(objects) && order == old(order) && classes == old(classes)
    {
      if name in faults.nsPatchFails {
        return Some(PatchFailed(name));
      }
      namespaces := namespaces[name := namespaces[name].(annotations := ann)];
      return None;
    }

    /** A merge patch that deletes the class label of one namespace. */
    method PatchRemoveClassLabel(name: string, faults: Faults) returns (err: Option<Error>)
      modifies this
      ensures err == if name in faults.nsPatchFails || name !in old(namespaces) then Some(PatchFailed(name)) else None
      ensures namespaces == if err.None? then old(namespaces)[name := CR.DetachLabel(old(namespaces)[name])] else old(namespaces)
      ensures objects == old(objects) && order == old(order) && classes == old(classes)
    {
      if name in faults.nsPatchFails || name !in namespaces {
        return Some(PatchFailed(name));
      }
      var ns := namespaces[name];
      ns := ns.(labels := ns.labels - {NamespaceClassLabel});
      namespaces := namespaces[name := ns];
      return None;
    }

    method UpdateClass(name: string, cls: NamespaceClass, faults: Faults) returns (err: Option<Error>)
      modifies this
      ensures err == if name in faults.classUpdateFails then Some(UpdateFailed(name)) else None
      ensures classes == if err.None? then old(classes)[name := cls] else old(classes)
      ensures objects == old(objects) && namespaces == old(namespaces) && order == old(order)
    {
      if name in faults.classUpdateFails {
        return Some(UpdateFailed(name));
      }
      classes := classes[name := cls];
      return None;
    }

    // -------------------------------------------------------------------
    // Namespace reconciler

    /** Renders and applies every template in order, collecting the inventory. */
    method ApplyClassResources(nsName: string, uid: string, className: string, resources: seq<Template>, faults: Faults)
      returns (result: Result<seq<ObjRef>, Error>)
      modifies this
      ensures var o := ApplyAll(old(objects), resources, Target(nsName, uid, className), faults.applyFails);
        objects == o.objects && result == o.result
      ensures namespaces == old(namespaces) && order == old(order) && classes == old(classes)
    {
      ghost var tg := Target(nsName, uid, className);
      var inventory: seq<ObjRef> := [];
      var i := 0;
      assert resources[0..] == resources;
      ghost var whole := ApplyAll(objects, resources, tg, faults.applyFails);
      if whole.result.Success? {
        assert [] + whole.result.value == whole.result.value;
      }
      while i < |resources|
        invariant 0 <= i <= |resources|
        invariant ApplyAll(old(objects), resources, tg, faults.applyFails)
          == Prepend(inventory, ApplyAll(objects, resources[i..], tg, faults.applyFails))
        invariant namespaces == old(namespaces) && order == old(order) && classes == old(classes)
      {
        var tmpl := resources[i];
        assert resources[i..][0] == tmpl && resources[i..][1..] == resources[i + 1..];
        var obj: Unstructured;
        if tmpl.Structured? {
          obj := tmpl.obj;
        } else if tmpl.Foreign? {
          i := i + 1;
          continue;
        } else if tmpl.decoded.None? {
          return Failure(TemplateMalformed);
        } else {
          obj := tmpl.decoded.value;
        }
        obj := obj.(namespace := nsName);
        var labels := obj.labels;
        labels := labels[ManagedByLabel := ControllerName];
        labels := labels[SourceClassLabel := className];
        obj := obj.(labels := labels);
        obj := obj.(ownerRefs := [NamespaceOwner(nsName, uid)]);
        assert PrepareFor(tmpl, tg) == Rendered(obj);
        var err := ApplyObject(obj, faults);
        if err.Some? {
          return Failure(err.value);
        }
        ghost var rest := ApplyAll(objects, resources[i + 1..], tg, faults.applyFails);
        if rest.result.Success? {
          assert inventory + ([obj.Ref()] + rest.result.value) == (inventory + [obj.Ref()]) + rest.result.value;
        }
        inventory := inventory + [obj.Ref()];
        i := i + 1;
      }
      assert inventory + [] == inventory;
      return Success(inventory);
    }

    /** Deletes every old record whose key is not kept; NotFound counts as success. */
    method PruneOrphanedResources(previous: seq<ObjRef>, keep: seq<ObjRef>, faults: Faults) returns (err: Option<Error>)
      modifies this
      ensures var o := Prune(old(objects), previous, SetOf(keep), faults.deleteFails);
        objects == o.objects && err == o.error
      ensures namespaces == old(namespaces) && order == old(order) && classes == old(classes)
    {
      var keepSet: set<ObjRef> := {};
      var i := 0;
      while i < |keep|
        invariant 0 <= i <= |keep|
        invariant keepSet == SetOf(keep[..i])
      {
        assert keep[..i + 1] == keep[..i] + [keep[i]];
        keepSet := keepSet + {keep[i]};
        i := i + 1;
      }
      assert keep[..|keep|] == keep;
      var j := 0;
      while j < |previous|
        invariant 0 <= j <= |previous|
        invariant Prune(old(objects), previous, keepSet, faults.deleteFails)
          == Prune(objects, previous[j..], keepSet, faults.deleteFails)
        invariant namespaces == old(namespaces) && order == old(order) && classes == old(classes)
      {
        var item := previous[j];
        assert previous[j..][0] == item && previous[j..][1..] == previous[j + 1..];
        if item in keepSet {
          j := j + 1;
          continue;
        }
        var r := DeleteObject(item, faults);
        if r.DeleteError? {
          return Some(r.error);
        }
        j := j + 1;
      }
      return None;
    }

    /** Writes both inventory annotations, or removes both for an empty list. */
    method SetNamespaceInventory(name: string, className: string, items: seq<ObjRef>, faults: Faults) returns (err: Option<Error>)
      requires name in namespaces
      modifies this
      ensures var st := NR.Persist(old(State()), name, className, items, faults);
        State() == st.store && err == st.error
    {
      var ann := namespaces[name].annotations;
      if items == [] {
        ann := ann - {InventoryAnnotation, AttachedClassAnnotation};
      } else {
        ann := ann[InventoryAnnotation := Encode(items)][AttachedClassAnnotation := className];
      }
      err := PatchAnnotations(name, ann, faults);
    }

    /** Deletes every recorded object, then clears the inventory annotations. */
    method CleanUpResources(name: string, faults: Faults) returns (err: Option<Error>)
      requires name in namespaces
      modifies this
      ensures var st := NR.CleanUp(old(State()), name, faults);
        State() == st.store && err == st.error
    {
      var previous := GetInventory(namespaces[name].annotations);
      if previous.Failure? {
        return Some(previous.error);
      }
      err := PruneOrphanedResources(previous.value, [], faults);
      assert SetOf([]) == {};
      if err.Some? {
        return err;
      }
      err := SetNamespaceInventory(name, "", [], faults);
    }

    /** One reconcile of the namespace `name`. */
    method ReconcileNamespace(name: string, faults: Faults) returns (err: Option<Error>, events: seq<NR.Event>)
      modifies this
      ensures var o := NR.Reconcile(old(State()), name, faults);
        State() == o.store && err == o.error && events == o.events
    {
      if name in faults.nsGetFails {
        return Some(GetNamespaceFailed(name)), [];
      }
      if name !in namespaces {
        return None, [];
      }
      var ns := namespaces[name];
      var className := Lookup(ns.labels, NamespaceClassLabel);
      if ns.deleting {
        return None, [];
      }
      if className == "" {
        if Lookup(ns.annotations, AttachedClassAnnotation) != "" {
          err := CleanUpResources(name, faults);
          return err, [];
        }
        return None, [];
      }
      if className in faults.classGetFails {
        return Some(GetClassFailed(className)), [];
      }
      if className !in classes {
        return None, [NR.ClassMissing(className)];
      }
      var nsClass := classes[className];
      var previous := GetInventory(ns.annotations);
      if previous.Failure? {
        return Some(previous.error), [];
      }
      var applied := ApplyClassResources(name, ns.uid, className, nsClass.resources, faults);
      if applied.Failure? {
        return Some(applied.error), [NR.ApplyFailedEvent(applied.error)];
      }
      err := PruneOrphanedResources(previous.value, applied.value, faults);
      if err.Some? {
        return err, [];
      }
      err := SetNamespaceInventory(name, className, applied.value, faults);
      return err, [];
    }

    // -------------------------------------------------------------------
    // Class reconciler

    /** The cascade loop: removes the class label from each listed namespace in order. */
    method DetachNamespaces(nsList: seq<string>, faults: Faults) returns (err: Option<Error>)
      modifies this
      ensures var o := CR.Detach(old(State()), nsList, faults);
        State() == o.store && err == o.error
    {
      var i := 0;
      while i < |nsList|
        invariant 0 <= i <= |nsList|
        invariant CR.Detach(old(State()), nsList, faults) == CR.Detach(State(), nsList[i..], faults)
      {
        assert nsList[i..][0] == nsList[i] && nsList[i..][1..] == nsList[i + 1..];
        err := PatchRemoveClassLabel(nsList[i], faults);
        if err.Some? {
          return err;
        }
        i := i + 1;
      }
      return None;
    }

    /** One reconcile of the class `name`: finalizer handling and the deletion policy. */
    method ReconcileClass(name: string, faults: Faults) returns (err: Option<Error>)
      modifies this
      ensures var o := CR.Reconcile(old(State()), name, faults);
        State() == o.store && err == o.error
    {
      if name in faults.classGetFails {
        return Some(GetClassFailed(name));
      }
      if name !in classes {
        return None;
      }
      var cls := classes[name];
      if !cls.deleting {
        if NamespaceClassFinalizer !in cls.finalizers {
          cls := cls.(finalizers := AddFinalizer(cls.finalizers, NamespaceClassFinalizer));
          err := UpdateClass(name, cls, faults);
          if err.Some? {
            return err;
          }
        }
        return None;
      }
      if NamespaceClassFinalizer in cls.finalizers {
        var policy := cls.policy;
        if policy == Unset {
          policy := Cascade;
        }
        if policy == Cascade {
          if faults.listFails {
            return Some(ListFailed);
          }
          var nsList := ListByClass(order, namespaces, name);
          err := DetachNamespaces(nsList, faults);
          if err.Some? {
            return err;
          }
        }
        cls := cls.(finalizers := RemoveFinalizer(cls.finalizers, NamespaceClassFinalizer));
        err := UpdateClass(name, cls, faults);
        if err.Some? {
          return err;
        }
      }
      return None;
    }
  }
}
