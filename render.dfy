/**
 * The template renderer: turns one class template into an object bound to
 * the target namespace, with the management labels and a single controller
 * back-reference to that namespace.
 */
module Render {
  import opened Wrappers
  import opened Resources

  /** What preparing one template gives: an object, a skip, or a decode error. */
  datatype Prepared = Rendered(obj: Unstructured) | Skipped | Malformed

  /** The back-reference that lets namespace deletion collect the object. */
  function NamespaceOwner(nsName: string, uid: string): OwnerRef {
    OwnerRef("v1", "Namespace", nsName, uid, true, true)
  }

  /**
   * Injects the target namespace, the two management labels and the owner
   * reference into a copy of the template object.
   */
  function RenderObject(t: Unstructured, nsName: string, uid: string, className: string): (r: Unstructured)
    ensures r.namespace == nsName
    ensures r.apiVersion == t.apiVersion && r.kind == t.kind && r.name == t.name && r.body == t.body
    ensures r.labels.Keys == t.labels.Keys + {ManagedByLabel, SourceClassLabel}
    ensures r.labels[ManagedByLabel] == ControllerName
    ensures r.labels[SourceClassLabel] == className
    ensures forall k :: k in t.labels && k != ManagedByLabel && k != SourceClassLabel ==> r.labels[k] == t.labels[k]
    ensures r.ownerRefs == [NamespaceOwner(nsName, uid)]
    ensures r.Ref() == ObjRef(t.apiVersion, t.kind, nsName, t.name)
  {
    var labels := t.labels[ManagedByLabel := ControllerName][SourceClassLabel := className];
    t.(namespace := nsName, labels := labels, ownerRefs := [NamespaceOwner(nsName, uid)])
  }

  /**
   * Prepares one template: an already decoded object is copied, an object of
   * a foreign Go type is skipped, raw bytes are decoded (and may be malformed).
   */
  function Prepare(t: Template, nsName: string, uid: string, className: string): (p: Prepared)
    ensures p.Skipped? <==> t.Foreign?
    ensures p.Malformed? <==> t == Raw(None)
    ensures t.Structured? ==> p == Rendered(RenderObject(t.obj, nsName, uid, className))
    ensures t.Raw? && t.decoded.Some? ==> p == Rendered(RenderObject(t.decoded.value, nsName, uid, className))
  {
    match t
    case Structured(u) => Rendered(RenderObject(u, nsName, uid, className))
    case Foreign => Skipped
    case Raw(None) => Malformed
    case Raw(Some(u)) => Rendered(RenderObject(u, nsName, uid, className))
  }

  /** Rendering an object already rendered for the same target changes nothing. */
  lemma RenderIdempotent(t: Unstructured, nsName: string, uid: string, className: string)
    ensures RenderObject(RenderObject(t, nsName, uid, className), nsName, uid, className)
         == RenderObject(t, nsName, uid, className)
  {
    var r := RenderObject(t, nsName, uid, className);
    var rr := RenderObject(r, nsName, uid, className);
    assert rr.labels == r.labels;
  }

  /** A rendered object is recognisably managed by this controller for its class and namespace. */
  predicate Managed(u: Unstructured, nsName: string, className: string) {
    && u.namespace == nsName
    && ManagedByLabel in u.labels && u.labels[ManagedByLabel] == ControllerName
    && SourceClassLabel in u.labels && u.labels[SourceClassLabel] == className
    && |u.ownerRefs| == 1 && u.ownerRefs[0].kind == "Namespace" && u.ownerRefs[0].name == nsName
    && u.ownerRefs[0].controller
  }
}
