/**
 * The data model of the NamespaceClass controller: the identifiers it uses,
 * the objects it reads and writes, and an in-memory picture of the cluster
 * (the backing store) that the reconcilers act on.
 */
module Resources {
  import opened Wrappers

  // Well-known label, annotation and finalizer keys.
  const NamespaceClassLabel := "namespaceclass.akuity.io/name"
  const ManagedByLabel := "namespaceclass.akuity.io/managed-by"
  const SourceClassLabel := "namespaceclass.akuity.io/source-class"
  const InventoryAnnotation := "namespaceclass.akuity.io/inventory"
  const AttachedClassAnnotation := "namespaceclass.akuity.io/attached-class"
  const ControllerName := "namespace-class-controller"
  const NamespaceClassFinalizer := "namespaceclass.core.akuity.io/finalizer"

  type Labels = map<string, string>

  /**
   * The identity of one namespaced object: (apiVersion, kind, namespace, name).
   * It is both the inventory record and the key under which the store keeps
   * the object, so "same key" is plain equality of records.
   */
  datatype ObjRef = ObjRef(apiVersion: string, kind: string, namespace: string, name: string)

  /** The namespaced objects of the store, by key. */
  type Objects = map<ObjRef, Unstructured>

  /** A garbage-collection back-reference from an object to its owner. */
  datatype OwnerRef = OwnerRef(
    apiVersion: string, kind: string, name: string, uid: string,
    controller: bool, blockOwnerDeletion: bool)

  /**
   * A structured object of arbitrary kind. `body` stands for every field
   * other than the metadata the controller reads or writes; it is carried
   * through untouched.
   */
  datatype Unstructured = Unstructured(
    apiVersion: string, kind: string, name: string, namespace: string,
    labels: Labels, ownerRefs: seq<OwnerRef>, body: string)
  {
    function Ref(): ObjRef {
      ObjRef(apiVersion, kind, namespace, name)
    }
  }

  /**
   * One entry of a class's resource list. The raw-extension field of the
   * source holds either an already decoded object (Structured), an object of
   * some other Go type (Foreign), or raw JSON bytes; for the last, `decoded`
   * is the outcome of decoding those bytes (None when they are malformed).
   */
  datatype Template = Structured(obj: Unstructured) | Raw(decoded: Option<Unstructured>) | Foreign

  /** A policy string other than the empty one and the two named values. */
  type OtherPolicy = v: string | v != "" && v != "Cascade" && v != "Orphan" witness "Keep"

  /** The class's deletion policy as written; the empty string is Unset. */
  datatype DeletionPolicy = Unset | Cascade | Orphan | Other(value: OtherPolicy)

  /** The policy a deletionPolicy string denotes. */
  function PolicyOf(v: string): (p: DeletionPolicy)
    ensures p == Unset <==> v == ""
    ensures p == Cascade <==> v == "Cascade"
    ensures p == Orphan <==> v == "Orphan"
    ensures p.Other? ==> p.value == v
  {
    if v == "" then Unset
    else if v == "Cascade" then Cascade
    else if v == "Orphan" then Orphan
    else Other(v)
  }

  /** The string a policy is written as. */
  function PolicyString(p: DeletionPolicy): string {
    match p
    case Unset => ""
    case Cascade => "Cascade"
    case Orphan => "Orphan"
    case Other(v) => v
  }

  datatype Namespace = Namespace(labels: Labels, annotations: map<string, string>, uid: string, deleting: bool)

  /** A cluster-scoped class; its name is its key in the store. */
  datatype NamespaceClass = NamespaceClass(
    resources: seq<Template>, policy: DeletionPolicy, finalizers: seq<string>, deleting: bool)

  /**
   * The backing store. `order` is the order in which a list query returns
   * namespaces.
   */
  datatype Store = Store(
    objects: Objects,
    namespaces: map<string, Namespace>,
    order: seq<string>,
    classes: map<string, NamespaceClass>)
  {
    /** Every namespace is visible to a list query, exactly once. */
    predicate Valid() {
      && (forall n :: n in namespaces ==> n in order)
      && NoDuplicates(order)
    }
  }

  /**
   * Which store calls fail (with an error other than NotFound). A delete of
   * an absent object that is not listed here reports NotFound.
   */
  datatype Faults = Faults(
    nsGetFails: set<string>, classGetFails: set<string>,
    applyFails: set<ObjRef>, deleteFails: set<ObjRef>,
    nsPatchFails: set<string>, classUpdateFails: set<string>,
    listFails: bool)

  datatype Error =
    | GetNamespaceFailed(namespace: string)
    | GetClassFailed(className: string)
    | InventoryMalformed
    | TemplateMalformed
    | ApplyFailed(ref: ObjRef)
    | DeleteFailed(ref: ObjRef)
    | PatchFailed(namespace: string)
    | UpdateFailed(className: string)
    | ListFailed

  predicate NoDuplicates<T(==)>(xs: seq<T>) {
    forall i, j :: 0 <= i < j < |xs| ==> xs[i] != xs[j]
  }

  /** Looking up a missing key of a Go map yields the empty string. */
  function Lookup(m: map<string, string>, key: string): (v: string)
    ensures key !in m ==> v == ""
    ensures key in m ==> v == m[key]
  {
    if key in m then m[key] else ""
  }

  function ClassLabel(ns: Namespace): string {
    Lookup(ns.labels, NamespaceClassLabel)
  }

  function AttachedClass(ns: Namespace): string {
    Lookup(ns.annotations, AttachedClassAnnotation)
  }

  /** The label selector `NamespaceClassLabel = className`. */
  predicate MatchesClass(ns: Namespace, className: string) {
    NamespaceClassLabel in ns.labels && ns.labels[NamespaceClassLabel] == className
  }

  /**
   * The names a label-selector list returns, in list order: the names in
   * `order` whose namespace exists and carries the class label `className`.
   */
  function ListByClass(order: seq<string>, namespaces: map<string, Namespace>, className: string): (r: seq<string>)
    ensures |r| <= |order|
    ensures forall n :: n in r <==> n in order && n in namespaces && MatchesClass(namespaces[n], className)
  {
    if order == [] then []
    else
      var rest := ListByClass(order[1..], namespaces, className);
      if order[0] in namespaces && MatchesClass(namespaces[order[0]], className)
      then [order[0]] + rest
      else rest
  }

  /** A list query returns each namespace at most once, if the listing order does. */
  lemma {:induction false} ListByClassNoDuplicates(order: seq<string>, namespaces: map<string, Namespace>, className: string)
    requires NoDuplicates(order)
    ensures NoDuplicates(ListByClass(order, namespaces, className))
  {
    if order != [] {
      assert NoDuplicates(order[1..]) by {
        forall i, j | 0 <= i < j < |order[1..]| ensures order[1..][i] != order[1..][j] {
          assert order[1..][i] == order[i + 1] && order[1..][j] == order[j + 1];
        }
      }
      ListByClassNoDuplicates(order[1..], namespaces, className);
      var rest := ListByClass(order[1..], namespaces, className);
      assert order[0] !in order[1..];
      assert order[0] !in rest;
    }
  }

  /** `r` is `xs` with some entries left out and the others in their order. */
  predicate IsSubsequence(r: seq<string>, xs: seq<string>)
    decreases |xs|
  {
    if r == [] then true
    else if xs == [] then false
    else if r[0] == xs[0] then IsSubsequence(r[1..], xs[1..])
    else IsSubsequence(r, xs[1..])
  }

  /** A list query keeps the listing order: its result is a subsequence of the listing. */
  lemma {:induction false} ListByClassOrdered(order: seq<string>, namespaces: map<string, Namespace>, className: string)
    ensures IsSubsequence(ListByClass(order, namespaces, className), order)
  {
    if order != [] {
      var tail := order[1..];
      ListByClassOrdered(tail, namespaces, className);
      var rest := ListByClass(tail, namespaces, className);
      var r := ListByClass(order, namespaces, className);
      if order[0] in namespaces && MatchesClass(namespaces[order[0]], className) {
        assert r == [order[0]] + rest;
        assert r[1..] == rest;
      } else {
        assert r == rest;
        if rest != [] {
          assert rest[0] in namespaces && MatchesClass(namespaces[rest[0]], className);
          assert rest[0] != order[0];
        }
      }
    }
  }

  /** Listing two runs of namespaces is listing each in turn. */
  lemma {:induction false} ListByClassAppend(x: seq<string>, y: seq<string>, namespaces: map<string, Namespace>, className: string)
    ensures ListByClass(x + y, namespaces, className) == ListByClass(x, namespaces, className) + ListByClass(y, namespaces, className)
  {
    if x == [] {
      assert x + y == y;
    } else {
      assert (x + y)[0] == x[0] && (x + y)[1..] == x[1..] + y;
      ListByClassAppend(x[1..], y, namespaces, className);
    }
  }

  /**
   * The namespace's attachment, derived from its class label and its
   * attached-class annotation at the start of a reconcile.
   */
  datatype Attachment = Unattached | Attached(className: string) | Detaching(previous: string)

  function AttachmentOf(ns: Namespace): Attachment {
    if ClassLabel(ns) != "" then Attached(ClassLabel(ns))
    else if AttachedClass(ns) != "" then Detaching(AttachedClass(ns))
    else Unattached
  }

  /** An unset policy means Cascade; anything other than Cascade orphans. */
  function EffectivePolicy(p: DeletionPolicy): (r: DeletionPolicy)
    ensures r != Unset
    ensures r == Cascade <==> p == Unset || p == Cascade
    ensures p != Unset ==> r == p
  {
    if p == Unset then Cascade else p
  }

  /** A written policy cascades exactly when it is empty or "Cascade"; every string reads back as written. */
  lemma PolicyStringRoundTrip(v: string)
    ensures PolicyString(PolicyOf(v)) == v
    ensures EffectivePolicy(PolicyOf(v)) == Cascade <==> v == "" || v == "Cascade"
  {
  }

  /** Adds the finalizer at the end unless it is already there. */
  function AddFinalizer(fs: seq<string>, f: string): (r: seq<string>)
    ensures f in r
    ensures f in fs ==> r == fs
    ensures f !in fs ==> r == fs + [f]
  {
    if f in fs then fs else fs + [f]
  }

  /** Removes every occurrence of the finalizer, keeping the others in order. */
  function RemoveFinalizer(fs: seq<string>, f: string): (r: seq<string>)
    ensures f !in r
    ensures forall x :: x != f ==> (x in r <==> x in fs)
    ensures |r| <= |fs|
    ensures f !in fs ==> r == fs
    ensures IsSubsequence(r, fs)
  {
    if fs == [] then []
    else if fs[0] == f then RemoveFinalizer(fs[1..], f)
    else [fs[0]] + RemoveFinalizer(fs[1..], f)
  }
}
