/**
 * The class reconciler: adds the finalizer to a live class; when a class
 * that carries it is being deleted, either detaches the class label from
 * every namespace that carries it (Cascade, the default) or leaves the
 * namespaces alone (Orphan), and only then removes the finalizer.
 */
module ClassReconcile {
  import opened Wrappers
  import opened Resources

  datatype ClassOutcome = ClassOutcome(store: Store, error: Option<Error>)

  /** Writing the class back (an update that may fail). */
  function UpdateClass(s: Store, name: string, cls: NamespaceClass, faults: Faults): ClassOutcome {
    if name in faults.classUpdateFails then ClassOutcome(s, Some(UpdateFailed(name)))
    else ClassOutcome(s.(classes := s.classes[name := cls]), None)
  }

  /** The namespace with the class label removed and nothing else changed. */
  function DetachLabel(ns: Namespace): (r: Namespace)
    ensures NamespaceClassLabel !in r.labels
    ensures forall k :: k != NamespaceClassLabel ==> (k in r.labels <==> k in ns.labels)
    ensures forall k :: k in r.labels ==> r.labels[k] == ns.labels[k]
    ensures r.annotations == ns.annotations && r.uid == ns.uid && r.deleting == ns.deleting
  {
    ns.(labels := ns.labels - {NamespaceClassLabel})
  }

  /** Patching the label off each listed namespace in order, stopping at the first failure. */
  function Detach(s: Store, names: seq<string>, faults: Faults): ClassOutcome
    decreases |names|
  {
    if names == [] then ClassOutcome(s, None)
    else if names[0] in faults.nsPatchFails || names[0] !in s.namespaces then
      ClassOutcome(s, Some(PatchFailed(names[0])))
    else
      Detach(s.(namespaces := s.namespaces[names[0] := DetachLabel(s.namespaces[names[0]])]), names[1..], faults)
  }

  /** The namespace-side work of a deletion under the effective policy. */
  function DeletionWork(s: Store, name: string, policy: DeletionPolicy, faults: Faults): ClassOutcome {
    if EffectivePolicy(policy) != Cascade then ClassOutcome(s, None)
    else if faults.listFails then ClassOutcome(s, Some(ListFailed))
    else Detach(s, ListByClass(s.order, s.namespaces, name), faults)
  }

  /** The reference semantics of one reconcile of the class `name`. */
  function Reconcile(s: Store, name: string, faults: Faults): ClassOutcome {
    if name in faults.classGetFails then ClassOutcome(s, Some(GetClassFailed(name)))
    else if name !in s.classes then ClassOutcome(s, None)
    else
      var cls := s.classes[name];
      if !cls.deleting then
        if NamespaceClassFinalizer in cls.finalizers then ClassOutcome(s, None)
        else UpdateClass(s, name, cls.(finalizers := AddFinalizer(cls.finalizers, NamespaceClassFinalizer)), faults)
      else if NamespaceClassFinalizer !in cls.finalizers then ClassOutcome(s, None)
      else
        var work := DeletionWork(s, name, cls.policy, faults);
        if work.error.Some? then work
        else UpdateClass(work.store, name, cls.(finalizers := RemoveFinalizer(cls.finalizers, NamespaceClassFinalizer)), faults)
  }

  // ---------------------------------------------------------------------
  // What a pass promises

  /** The namespaces after detaching the label from those in `names`. */
  function DetachedAll(namespaces: map<string, Namespace>, names: set<string>): map<string, Namespace> {
    map n | n in namespaces :: if n in names then DetachLabel(namespaces[n]) else namespaces[n]
  }

  /** Detaching succeeds exactly when every listed namespace exists and its patch succeeds. */
  lemma {:induction false} DetachSucceeds(s: Store, names: seq<string>, faults: Faults)
    ensures Detach(s, names, faults).error.None? <==>
      forall n :: n in names ==> n !in faults.nsPatchFails && n in s.namespaces
    decreases |names|
  {
    if names != [] && names[0] !in faults.nsPatchFails && names[0] in s.namespaces {
      var n0 := names[0];
      var s1 := s.(namespaces := s.namespaces[n0 := DetachLabel(s.namespaces[n0])]);
      DetachSucceeds(s1, names[1..], faults);
      assert s1.namespaces.Keys == s.namespaces.Keys;
      assert forall n :: n in names <==> n == n0 || n in names[1..];
    }
  }

  /**
   * Whether or not it succeeds, detaching leaves every namespace either
   * untouched or without the label only, and changes nothing but namespaces.
   */
  lemma {:induction false} DetachFrame(s: Store, names: seq<string>, faults: Faults)
    ensures var o := Detach(s, names, faults);
      && o.store.namespaces.Keys == s.namespaces.Keys
      && (forall n :: n in s.namespaces ==>
            o.store.namespaces[n] == s.namespaces[n] || o.store.namespaces[n] == DetachLabel(s.namespaces[n]))
      && o.store.objects == s.objects && o.store.classes == s.classes && o.store.order == s.order
    decreases |names|
  {
    if names != [] && names[0] !in faults.nsPatchFails && names[0] in s.namespaces {
      var n0 := names[0];
      var s1 := s.(namespaces := s.namespaces[n0 := DetachLabel(s.namespaces[n0])]);
      DetachFrame(s1, names[1..], faults);
      var o := Detach(s1, names[1..], faults);
      forall n | n in s.namespaces
        ensures o.store.namespaces[n] == s.namespaces[n] || o.store.namespaces[n] == DetachLabel(s.namespaces[n])
      {
        assert DetachLabel(DetachLabel(s.namespaces[n])) == DetachLabel(s.namespaces[n]);
      }
    }
  }

  /** A successful detach removes the label from exactly the listed namespaces. */
  lemma {:induction false} DetachExact(s: Store, names: seq<string>, faults: Faults)
    requires Detach(s, names, faults).error.None?
    ensures Detach(s, names, faults).store.namespaces == DetachedAll(s.namespaces, set n | n in names)
    decreases |names|
  {
    if names == [] {
      assert DetachedAll(s.namespaces, {}) == s.namespaces;
    } else {
      var n0 := names[0];
      var s1 := s.(namespaces := s.namespaces[n0 := DetachLabel(s.namespaces[n0])]);
      DetachExact(s1, names[1..], faults);
      var o := Detach(s1, names[1..], faults);
      var all := set n | n in names;
      var rest := set n | n in names[1..];
      assert all == {n0} + rest;
      var want := DetachedAll(s.namespaces, all);
      assert o.store.namespaces.Keys == want.Keys;
      forall n | n in s.namespaces ensures o.store.namespaces[n] == want[n] {
        assert DetachLabel(DetachLabel(s.namespaces[n])) == DetachLabel(s.namespaces[n]);
      }
    }
  }

  /** The index of the first listed namespace whose patch fails; |names| when there is none. */
  function FirstUnpatched(names: seq<string>, present: set<string>, patchFails: set<string>): (j: nat)
    ensures j <= |names|
    ensures forall i :: 0 <= i < j ==> names[i] in present && names[i] !in patchFails
    ensures j < |names| ==> names[j] !in present || names[j] in patchFails
  {
    if names == [] then 0
    else if names[0] !in present || names[0] in patchFails then 0
    else 1 + FirstUnpatched(names[1..], present, patchFails)
  }

  /**
   * The cascade loop stops at the first failed patch: exactly the namespaces
   * listed before it lose the label, and that failure is the error.
   */
  lemma {:induction false} DetachSpec(s: Store, names: seq<string>, faults: Faults)
    ensures var o := Detach(s, names, faults);
      var j := FirstUnpatched(names, s.namespaces.Keys, faults.nsPatchFails);
      && o.store.namespaces == DetachedAll(s.namespaces, set n | n in names[..j])
      && o.error == (if j == |names| then None else Some(PatchFailed(names[j])))
    decreases |names|
  {
    var j := FirstUnpatched(names, s.namespaces.Keys, faults.nsPatchFails);
    if names == [] || names[0] !in s.namespaces || names[0] in faults.nsPatchFails {
      assert names[..j] == [];
      assert DetachedAll(s.namespaces, {}) == s.namespaces;
    } else {
      var n0 := names[0];
      var s1 := s.(namespaces := s.namespaces[n0 := DetachLabel(s.namespaces[n0])]);
      var keys := s.namespaces.Keys;
      assert s1.namespaces.Keys == keys;
      DetachSpec(s1, names[1..], faults);
      var j' := FirstUnpatched(names[1..], keys, faults.nsPatchFails);
      assert j == 1 + j';
      DetachStep(s, names, j, j', faults);
    }
  }

  /** The inductive step of DetachSpec, on the namespaces alone. */
  lemma DetachStep(s: Store, names: seq<string>, j: nat, j': nat, faults: Faults)
    requires names != [] && names[0] in s.namespaces && j == 1 + j' && j <= |names|
    requires var s1 := s.(namespaces := s.namespaces[names[0] := DetachLabel(s.namespaces[names[0]])]);
      Detach(s1, names[1..], faults).store.namespaces == DetachedAll(s1.namespaces, set n | n in names[1..][..j'])
    ensures Detach(s.(namespaces := s.namespaces[names[0] := DetachLabel(s.namespaces[names[0]])]), names[1..], faults).store.namespaces
      == DetachedAll(s.namespaces, set n | n in names[..j])
  {
    var n0 := names[0];
    var s1 := s.(namespaces := s.namespaces[n0 := DetachLabel(s.namespaces[n0])]);
    var o := Detach(s1, names[1..], faults);
    assert names[..j] == [n0] + names[1..][..j'];
    var all := set n | n in names[..j];
    var rest := set n | n in names[1..][..j'];
    assert all == {n0} + rest;
    var want := DetachedAll(s.namespaces, all);
    assert o.store.namespaces.Keys == want.Keys;
    forall n | n in s.namespaces ensures o.store.namespaces[n] == want[n] {
      assert DetachLabel(DetachLabel(s.namespaces[n])) == DetachLabel(s.namespaces[n]);
    }
  }

  /** Namespaces not patched before the failing one, those listed after it included, keep their label. */
  lemma DetachStopsAtFailure(s: Store, names: seq<string>, faults: Faults)
    ensures var o := Detach(s, names, faults);
      var j := FirstUnpatched(names, s.namespaces.Keys, faults.nsPatchFails);
      && o.store.namespaces.Keys == s.namespaces.Keys
      && forall n :: n in s.namespaces && n !in names[..j] ==> o.store.namespaces[n] == s.namespaces[n]
  {
    DetachSpec(s, names, faults);
  }

  /** A live class without the finalizer gains exactly that finalizer; a live class with it is left alone. */
  lemma LiveClass(s: Store, name: string, faults: Faults)
    requires name !in faults.classGetFails && name in s.classes && !s.classes[name].deleting
    ensures var cls := s.classes[name];
      var o := Reconcile(s, name, faults);
      && (NamespaceClassFinalizer in cls.finalizers ==> o == ClassOutcome(s, None))
      && (NamespaceClassFinalizer !in cls.finalizers && name !in faults.classUpdateFails ==>
            o == ClassOutcome(s.(classes := s.classes[name := cls.(finalizers := cls.finalizers + [NamespaceClassFinalizer])]), None))
      && (NamespaceClassFinalizer !in cls.finalizers && name in faults.classUpdateFails ==>
            o == ClassOutcome(s, Some(UpdateFailed(name))))
  {
  }

  /** A deleting class that no longer carries the finalizer is left alone. */
  lemma DeletingWithoutFinalizer(s: Store, name: string, faults: Faults)
    requires name !in faults.classGetFails && name in s.classes && s.classes[name].deleting
    requires NamespaceClassFinalizer !in s.classes[name].finalizers
    ensures Reconcile(s, name, faults) == ClassOutcome(s, None)
  {
  }

  /**
   * A deleting class under Cascade: on success every namespace that carried
   * the class label has lost it (and only it), no other namespace changed,
   * no object changed, and the finalizer is gone.
   */
  lemma CascadeSuccess(s: Store, name: string, faults: Faults)
    requires s.Valid()
    requires name in s.classes && s.classes[name].deleting
    requires NamespaceClassFinalizer in s.classes[name].finalizers
    requires EffectivePolicy(s.classes[name].policy) == Cascade
    requires Reconcile(s, name, faults).error.None?
    ensures var o := Reconcile(s, name, faults);
      && o.store.namespaces == DetachedAll(s.namespaces, set n | n in s.namespaces && MatchesClass(s.namespaces[n], name))
      && o.store.objects == s.objects
      && name in o.store.classes && NamespaceClassFinalizer !in o.store.classes[name].finalizers
      && (forall f :: f != NamespaceClassFinalizer ==> (f in o.store.classes[name].finalizers <==> f in s.classes[name].finalizers))
      && o.store.classes == s.classes[name := s.classes[name].(finalizers := RemoveFinalizer(s.classes[name].finalizers, NamespaceClassFinalizer))]
      && o.store.order == s.order
  {
    var names := ListByClass(s.order, s.namespaces, name);
    var w := DeletionWork(s, name, s.classes[name].policy, faults);
    assert w == Detach(s, names, faults);
    DetachExact(s, names, faults);
    DetachFrame(s, names, faults);
    assert (set n | n in names) == (set n | n in s.namespaces && MatchesClass(s.namespaces[n], name));
    var cls := s.classes[name];
    assert Reconcile(s, name, faults)
      == UpdateClass(w.store, name, cls.(finalizers := RemoveFinalizer(cls.finalizers, NamespaceClassFinalizer)), faults);
  }

  /** Under Orphan (or any policy other than Cascade) no namespace and no object changes. */
  lemma OrphanKeepsNamespaces(s: Store, name: string, faults: Faults)
    requires name in s.classes && EffectivePolicy(s.classes[name].policy) != Cascade
    ensures Reconcile(s, name, faults).store.namespaces == s.namespaces
    ensures Reconcile(s, name, faults).store.objects == s.objects
  {
  }

  /**
   * The finalizer of a deleting class is removed only when the pass
   * succeeded, and under Cascade only once no namespace carries the class
   * label any more.
   */
  lemma FinalizerRemovedLast(s: Store, name: string, faults: Faults)
    requires s.Valid()
    requires name in s.classes && s.classes[name].deleting
    requires NamespaceClassFinalizer in s.classes[name].finalizers
    ensures var o := Reconcile(s, name, faults);
      name in o.store.classes && NamespaceClassFinalizer !in o.store.classes[name].finalizers ==>
        && o.error.None?
        && (EffectivePolicy(s.classes[name].policy) == Cascade ==>
              forall n :: n in o.store.namespaces ==> !MatchesClass(o.store.namespaces[n], name))
  {
    var o := Reconcile(s, name, faults);
    if name !in faults.classGetFails {
      var work := DeletionWork(s, name, s.classes[name].policy, faults);
      if EffectivePolicy(s.classes[name].policy) == Cascade && !faults.listFails {
        DetachFrame(s, ListByClass(s.order, s.namespaces, name), faults);
      }
      if o.error.None? && EffectivePolicy(s.classes[name].policy) == Cascade {
        CascadeSuccess(s, name, faults);
      }
    }
  }

  /** A failed pass leaves the class, and so its finalizer, as it was. */
  lemma FailureKeepsClass(s: Store, name: string, faults: Faults)
    requires Reconcile(s, name, faults).error.Some?
    ensures Reconcile(s, name, faults).store.classes == s.classes
  {
    if name !in faults.classGetFails && name in s.classes && s.classes[name].deleting
      && EffectivePolicy(s.classes[name].policy) == Cascade && !faults.listFails {
      DetachFrame(s, ListByClass(s.order, s.namespaces, name), faults);
    }
  }

  /** The namespace-side work of a deletion writes no object and touches no annotation. */
  lemma DeletionWorkFrame(s: Store, name: string, policy: DeletionPolicy, faults: Faults)
    ensures var w := DeletionWork(s, name, policy, faults);
      && w.store.objects == s.objects && w.store.classes == s.classes && w.store.order == s.order
      && w.store.namespaces.Keys == s.namespaces.Keys
      && forall n :: n in s.namespaces ==> w.store.namespaces[n].annotations == s.namespaces[n].annotations
  {
    if EffectivePolicy(policy) == Cascade && !faults.listFails {
      var names := ListByClass(s.order, s.namespaces, name);
      DetachFrame(s, names, faults);
      var o := Detach(s, names, faults);
      forall n | n in s.namespaces ensures o.store.namespaces[n].annotations == s.namespaces[n].annotations {
        assert o.store.namespaces[n] == s.namespaces[n] || o.store.namespaces[n] == DetachLabel(s.namespaces[n]);
      }
    }
  }

  /** The class reconciler never deletes or writes objects and never touches an annotation. */
  lemma ClassReconcileKeepsInventory(s: Store, name: string, faults: Faults)
    ensures var o := Reconcile(s, name, faults);
      && o.store.objects == s.objects
      && o.store.namespaces.Keys == s.namespaces.Keys
      && forall n :: n in s.namespaces ==> o.store.namespaces[n].annotations == s.namespaces[n].annotations
  {
    if name !in faults.classGetFails && name in s.classes && s.classes[name].deleting {
      DeletionWorkFrame(s, name, s.classes[name].policy, faults);
    }
  }

  /** A pass keeps the store well formed: no namespace appears or disappears and the list order is kept. */
  lemma ClassReconcilePreservesValid(s: Store, name: string, faults: Faults)
    requires s.Valid()
    ensures Reconcile(s, name, faults).store.Valid()
  {
    if name !in faults.classGetFails && name in s.classes && s.classes[name].deleting {
      DeletionWorkFrame(s, name, s.classes[name].policy, faults);
    }
  }
}
