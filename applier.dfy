/**
 * The applier: renders each template of a class in order, writes it to the
 * store as an upsert at its key, and collects the inventory of what it
 * applied. The first malformed template or failed write stops the pass;
 * objects written before it stay written.
 */
module Applier {
  import opened Wrappers
  import opened Resources
  import opened Render

  /** The namespace a pass renders into and the class it renders. */
  datatype Target = Target(namespace: string, uid: string, className: string)

  /** The store's objects after a pass, and its inventory or its error. */
  datatype ApplyOutcome = ApplyOutcome(objects: Objects, result: Result<seq<ObjRef>, Error>)

  function PrepareFor(t: Template, tg: Target): Prepared {
    Prepare(t, tg.namespace, tg.uid, tg.className)
  }

  /** Puts the records of `inv` in front of a successful outcome's inventory. */
  function Prepend(inv: seq<ObjRef>, o: ApplyOutcome): ApplyOutcome {
    if o.result.Success? then o.(result := Success(inv + o.result.value)) else o
  }

  /** The reference semantics of one apply pass. */
  function ApplyAll(objects: Objects, ts: seq<Template>, tg: Target, applyFails: set<ObjRef>): ApplyOutcome
    decreases |ts|
  {
    if ts == [] then ApplyOutcome(objects, Success([]))
    else
      match PrepareFor(ts[0], tg)
      case Skipped => ApplyAll(objects, ts[1..], tg, applyFails)
      case Malformed => ApplyOutcome(objects, Failure(TemplateMalformed))
      case Rendered(u) =>
        if u.Ref() in applyFails then ApplyOutcome(objects, Failure(ApplyFailed(u.Ref())))
        else Prepend([u.Ref()], ApplyAll(objects[u.Ref() := u], ts[1..], tg, applyFails))
  }

  // ---------------------------------------------------------------------
  // Independent descriptions of what a pass does

  /** The rendered objects of the templates, in order; foreign and malformed ones give none. */
  function RenderedAll(ts: seq<Template>, tg: Target): (us: seq<Unstructured>)
    ensures |us| <= |ts|
    ensures forall u :: u in us ==> Managed(u, tg.namespace, tg.className)
  {
    if ts == [] then []
    else
      match PrepareFor(ts[0], tg)
      case Rendered(u) => [u] + RenderedAll(ts[1..], tg)
      case _ => RenderedAll(ts[1..], tg)
  }

  function Refs(us: seq<Unstructured>): (rs: seq<ObjRef>)
    ensures |rs| == |us|
    ensures forall i :: 0 <= i < |us| ==> rs[i] == us[i].Ref()
  {
    if us == [] then [] else [us[0].Ref()] + Refs(us[1..])
  }

  /** Writing the objects one after another, later ones winning. */
  function Upserts(objects: Objects, us: seq<Unstructured>): Objects
    decreases |us|
  {
    if us == [] then objects else Upserts(objects[us[0].Ref() := us[0]], us[1..])
  }

  /** The objects of `us` by key, the last one with a key winning. */
  function Written(us: seq<Unstructured>): (w: Objects)
    ensures w.Keys == set u | u in us :: u.Ref()
  {
    if us == [] then map[] else map[us[0].Ref() := us[0]] + Written(us[1..])
  }

  predicate WellFormed(ts: seq<Template>) {
    forall i :: 0 <= i < |ts| ==> ts[i] != Raw(None)
  }

  // ---------------------------------------------------------------------
  // Lemmas

  /**
   * A pass succeeds exactly when no template is malformed and no write of a
   * rendered object fails; its inventory is then one record per rendered
   * object, in template order, and the store holds those objects.
   */
  lemma {:induction false} ApplyAllSpec(objects: Objects, ts: seq<Template>, tg: Target, applyFails: set<ObjRef>)
    decreases |ts|
    ensures var o := ApplyAll(objects, ts, tg, applyFails);
      && (o.result.Success? <==> WellFormed(ts) && forall u :: u in RenderedAll(ts, tg) ==> u.Ref() !in applyFails)
      && (o.result.Success? ==> o.result.value == Refs(RenderedAll(ts, tg)))
      && (o.result.Success? ==> o.objects == Upserts(objects, RenderedAll(ts, tg)))
  {
    if ts != [] {
      var us := RenderedAll(ts, tg);
      ApplyAllSpecNext(objects, ts, tg, applyFails);
      match PrepareFor(ts[0], tg)
      case Skipped =>
        ApplyAllSpec(objects, ts[1..], tg, applyFails);
      case Malformed =>
      case Rendered(u) =>
        if u.Ref() !in applyFails {
          ApplyAllSpec(objects[u.Ref() := u], ts[1..], tg, applyFails);
        }
    }
  }

  /** How well-formedness and the rendered objects of `ts` relate to those of `ts[1..]`. */
  lemma ApplyAllSpecNext(objects: Objects, ts: seq<Template>, tg: Target, applyFails: set<ObjRef>)
    requires ts != []
    ensures WellFormed(ts) <==> ts[0] != Raw(None) && WellFormed(ts[1..])
    ensures PrepareFor(ts[0], tg).Rendered? ==>
      RenderedAll(ts, tg) == [PrepareFor(ts[0], tg).obj] + RenderedAll(ts[1..], tg)
    ensures !PrepareFor(ts[0], tg).Rendered? ==> RenderedAll(ts, tg) == RenderedAll(ts[1..], tg)
  {
    if WellFormed(ts[1..]) && ts[0] != Raw(None) {
      forall i | 0 <= i < |ts| ensures ts[i] != Raw(None) {
        if i > 0 { assert ts[i] == ts[1..][i - 1]; }
      }
    }
    if WellFormed(ts) {
      forall i | 0 <= i < |ts[1..]| ensures ts[1..][i] != Raw(None) {
        assert ts[1..][i] == ts[i + 1];
      }
    }
  }

  /** Each inventory record names an object in the target namespace that the store now holds, managed by this class. */
  lemma ApplyRecordsManaged(objects: Objects, ts: seq<Template>, tg: Target, applyFails: set<ObjRef>)
    requires ApplyAll(objects, ts, tg, applyFails).result.Success?
    ensures var o := ApplyAll(objects, ts, tg, applyFails);
      forall r :: r in o.result.value ==>
        r.namespace == tg.namespace && r in o.objects && Managed(o.objects[r], tg.namespace, tg.className)
  {
    var o := ApplyAll(objects, ts, tg, applyFails);
    var us := RenderedAll(ts, tg);
    ApplyAllSpec(objects, ts, tg, applyFails);
    UpsertsAsOverride(objects, us);
    forall r | r in o.result.value
      ensures r.namespace == tg.namespace && r in o.objects && Managed(o.objects[r], tg.namespace, tg.className)
    {
      var i :| 0 <= i < |us| && r == Refs(us)[i];
      WrittenAt(us, r);
    }
  }

  /** The object written last under a key carries that key and is one of the inputs. */
  lemma {:induction false} WrittenAt(us: seq<Unstructured>, k: ObjRef)
    requires k in Written(us)
    ensures Written(us)[k] in us && Written(us)[k].Ref() == k
  {
    if us != [] {
      if k in Written(us[1..]) {
        WrittenAt(us[1..], k);
      }
    }
  }

  /** Writing a sequence of objects is overriding the store with their last-wins map. */
  lemma {:induction false} UpsertsAsOverride(objects: Objects, us: seq<Unstructured>)
    decreases |us|
    ensures Upserts(objects, us) == objects + Written(us)
  {
    if us != [] {
      var k := us[0].Ref();
      var w := Written(us[1..]);
      UpsertsAsOverride(objects[k := us[0]], us[1..]);
      var lhs := objects[k := us[0]] + w;
      var rhs := objects + (map[k := us[0]] + w);
      assert lhs.Keys == rhs.Keys;
      assert forall x :: x in lhs ==> lhs[x] == rhs[x];
      assert lhs == rhs;
    }
  }

  /** Writing the same objects again leaves the store as it was. */
  lemma UpsertsIdempotent(objects: Objects, us: seq<Unstructured>)
    ensures Upserts(Upserts(objects, us), us) == Upserts(objects, us)
  {
    UpsertsAsOverride(objects, us);
    UpsertsAsOverride(objects + Written(us), us);
    assert objects + Written(us) + Written(us) == objects + Written(us);
  }

  /** The keys a pass may write: those of the rendered objects. */
  function TouchedKeys(ts: seq<Template>, tg: Target): set<ObjRef> {
    set u | u in RenderedAll(ts, tg) :: u.Ref()
  }

  /** Nothing else changes: objects at other keys are untouched, on success and on failure. */
  lemma {:induction false} ApplyFrame(objects: Objects, ts: seq<Template>, tg: Target, applyFails: set<ObjRef>, k: ObjRef)
    requires k !in TouchedKeys(ts, tg)
    decreases |ts|
    ensures var o := ApplyAll(objects, ts, tg, applyFails);
      (k in o.objects <==> k in objects) && (k in objects ==> o.objects[k] == objects[k])
  {
    if ts != [] {
      ApplyAllSpecNext(objects, ts, tg, applyFails);
      match PrepareFor(ts[0], tg)
      case Skipped =>
        ApplyFrame(objects, ts[1..], tg, applyFails, k);
      case Malformed =>
      case Rendered(u) =>
        if u.Ref() !in applyFails {
          ApplyFrame(objects[u.Ref() := u], ts[1..], tg, applyFails, k);
        }
    }
  }

  /** The inventory (or the error) of a pass does not depend on what the store held. */
  lemma {:induction false} ApplyResultIndependent(objects: Objects, objects': Objects, ts: seq<Template>, tg: Target, applyFails: set<ObjRef>)
    ensures ApplyAll(objects, ts, tg, applyFails).result == ApplyAll(objects', ts, tg, applyFails).result
    decreases |ts|
  {
    if ts != [] {
      match PrepareFor(ts[0], tg)
      case Skipped =>
        ApplyResultIndependent(objects, objects', ts[1..], tg, applyFails);
      case Malformed =>
      case Rendered(u) =>
        if u.Ref() !in applyFails {
          ApplyResultIndependent(objects[u.Ref() := u], objects'[u.Ref() := u], ts[1..], tg, applyFails);
        }
    }
  }

  /** Running a successful pass again on the store it produced changes nothing. */
  lemma ApplyIdempotent(objects: Objects, ts: seq<Template>, tg: Target, applyFails: set<ObjRef>)
    requires ApplyAll(objects, ts, tg, applyFails).result.Success?
    ensures var o := ApplyAll(objects, ts, tg, applyFails);
      ApplyAll(o.objects, ts, tg, applyFails) == o
  {
    var o := ApplyAll(objects, ts, tg, applyFails);
    ApplyAllSpec(objects, ts, tg, applyFails);
    ApplyAllSpec(o.objects, ts, tg, applyFails);
    UpsertsIdempotent(objects, RenderedAll(ts, tg));
  }

  /** A pass over `a + b` is the pass over `a` followed, if it succeeded, by the pass over `b`. */
  lemma {:induction false} ApplyAppend(objects: Objects, a: seq<Template>, b: seq<Template>, tg: Target, applyFails: set<ObjRef>)
    ensures var oa := ApplyAll(objects, a, tg, applyFails);
      ApplyAll(objects, a + b, tg, applyFails) ==
        if oa.result.Failure? then oa
        else Prepend(oa.result.value, ApplyAll(oa.objects, b, tg, applyFails))
    decreases |a|
  {
    if a == [] {
      assert a + b == b;
      var o := ApplyAll(objects, b, tg, applyFails);
      if o.result.Success? { assert [] + o.result.value == o.result.value; }
    } else {
      assert (a + b)[1..] == a[1..] + b;
      assert (a + b)[0] == a[0];
      match PrepareFor(a[0], tg)
      case Skipped =>
        ApplyAppend(objects, a[1..], b, tg, applyFails);
      case Malformed =>
      case Rendered(u) =>
        if u.Ref() !in applyFails {
          var objects1 := objects[u.Ref() := u];
          ApplyAppend(objects1, a[1..], b, tg, applyFails);
          var o1 := ApplyAll(objects1, a[1..], tg, applyFails);
          if o1.result.Success? {
            var ob := ApplyAll(o1.objects, b, tg, applyFails);
            if ob.result.Success? {
              assert [u.Ref()] + (o1.result.value + ob.result.value) == ([u.Ref()] + o1.result.value) + ob.result.value;
            }
          }
        }
    }
  }

  /**
   * A malformed template aborts the pass with no inventory; what the
   * templates before it applied stays in the store.
   */
  lemma ApplyStopsAtMalformed(objects: Objects, ts: seq<Template>, i: nat, tg: Target, applyFails: set<ObjRef>)
    requires i < |ts| && ts[i] == Raw(None)
    requires ApplyAll(objects, ts[..i], tg, applyFails).result.Success?
    ensures ApplyAll(objects, ts, tg, applyFails) ==
      ApplyOutcome(ApplyAll(objects, ts[..i], tg, applyFails).objects, Failure(TemplateMalformed))
  {
    assert ts == ts[..i] + ts[i..];
    ApplyAppend(objects, ts[..i], ts[i..], tg, applyFails);
    assert ts[i..][0] == Raw(None);
  }

  /**
   * A failed apply aborts the pass with that failure and no inventory; what
   * the templates before it applied stays in the store.
   */
  lemma ApplyStopsAtApplyFailure(objects: Objects, ts: seq<Template>, i: nat, tg: Target, applyFails: set<ObjRef>)
    requires i < |ts| && PrepareFor(ts[i], tg).Rendered? && PrepareFor(ts[i], tg).obj.Ref() in applyFails
    requires ApplyAll(objects, ts[..i], tg, applyFails).result.Success?
    ensures ApplyAll(objects, ts, tg, applyFails) ==
      ApplyOutcome(ApplyAll(objects, ts[..i], tg, applyFails).objects, Failure(ApplyFailed(PrepareFor(ts[i], tg).obj.Ref())))
  {
    assert ts == ts[..i] + ts[i..];
    ApplyAppend(objects, ts[..i], ts[i..], tg, applyFails);
    assert ts[i..][0] == ts[i];
  }
}
