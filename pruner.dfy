/**
 * The pruner: walks the previous inventory in order and deletes every record
 * whose key is not in the keep set. A delete of an object that is already
 * gone counts as success; any other delete error stops the walk.
 */
module Pruner {
  import opened Wrappers
  import opened Resources

  datatype PruneOutcome = PruneOutcome(objects: Objects, error: Option<Error>)

  function SetOf(rs: seq<ObjRef>): set<ObjRef> {
    set r | r in rs
  }

  /**
   * Deleting one object: a listed failure is an error; otherwise the key is
   * gone afterwards, whether or not it was there (NotFound is success).
   */
  function Delete(objects: Objects, k: ObjRef, deleteFails: set<ObjRef>): (r: Result<Objects, Error>)
    ensures r.Failure? <==> k in deleteFails
    ensures r.Success? ==> r.value == objects - {k}
  {
    if k in deleteFails then Failure(DeleteFailed(k)) else Success(objects - {k})
  }

  /** The reference semantics of one prune call. */
  function Prune(objects: Objects, previous: seq<ObjRef>, keep: set<ObjRef>, deleteFails: set<ObjRef>): PruneOutcome
    decreases |previous|
  {
    if previous == [] then PruneOutcome(objects, None)
    else if previous[0] in keep then Prune(objects, previous[1..], keep, deleteFails)
    else
      match Delete(objects, previous[0], deleteFails)
      case Failure(e) => PruneOutcome(objects, Some(e))
      case Success(objects') => Prune(objects', previous[1..], keep, deleteFails)
  }

  /** The index of the first record that must go and whose delete fails; |previous| when there is none. */
  function FirstBlocked(previous: seq<ObjRef>, keep: set<ObjRef>, deleteFails: set<ObjRef>): (j: nat)
    ensures j <= |previous|
    ensures forall i :: 0 <= i < j ==> previous[i] in keep || previous[i] !in deleteFails
    ensures j < |previous| ==> previous[j] !in keep && previous[j] in deleteFails
  {
    if previous == [] then 0
    else if previous[0] !in keep && previous[0] in deleteFails then 0
    else 1 + FirstBlocked(previous[1..], keep, deleteFails)
  }

  /**
   * A prune deletes exactly the records of `previous` before the first failing
   * delete that are not kept, and reports that failure if there is one.
   */
  lemma {:induction false} PruneSpec(objects: Objects, previous: seq<ObjRef>, keep: set<ObjRef>, deleteFails: set<ObjRef>)
    ensures var o := Prune(objects, previous, keep, deleteFails);
      var j := FirstBlocked(previous, keep, deleteFails);
      && o.objects == objects - (SetOf(previous[..j]) - keep)
      && o.error == (if j == |previous| then None else Some(DeleteFailed(previous[j])))
    decreases |previous|
  {
    var j := FirstBlocked(previous, keep, deleteFails);
    if previous == [] {
      assert objects - (SetOf(previous[..j]) - keep) == objects;
    } else if previous[0] !in keep && previous[0] in deleteFails {
      assert SetOf(previous[..j]) == {};
      assert objects - (SetOf(previous[..j]) - keep) == objects;
    } else {
      var objects' := if previous[0] in keep then objects else objects - {previous[0]};
      PruneSpec(objects', previous[1..], keep, deleteFails);
      var j' := FirstBlocked(previous[1..], keep, deleteFails);
      assert previous[..j] == [previous[0]] + previous[1..][..j'];
      assert SetOf(previous[..j]) == {previous[0]} + SetOf(previous[1..][..j']);
      var gone := SetOf(previous[1..][..j']) - keep;
      assert objects' - gone == objects - (SetOf(previous[..j]) - keep);
    }
  }

  /** A prune succeeds exactly when every delete it has to issue succeeds. */
  lemma PruneSucceeds(objects: Objects, previous: seq<ObjRef>, keep: set<ObjRef>, deleteFails: set<ObjRef>)
    ensures Prune(objects, previous, keep, deleteFails).error.None? <==>
      forall r :: r in previous && r !in keep ==> r !in deleteFails
    ensures Prune(objects, previous, keep, deleteFails).error.None? ==>
      Prune(objects, previous, keep, deleteFails).objects == objects - (SetOf(previous) - keep)
  {
    PruneSpec(objects, previous, keep, deleteFails);
    var j := FirstBlocked(previous, keep, deleteFails);
    if j == |previous| {
      assert previous[..j] == previous;
      forall r | r in previous && r !in keep ensures r !in deleteFails {
        var i :| 0 <= i < |previous| && previous[i] == r;
      }
    }
  }

  /** Kept objects and objects outside the previous inventory are never touched. */
  lemma PruneFrame(objects: Objects, previous: seq<ObjRef>, keep: set<ObjRef>, deleteFails: set<ObjRef>, k: ObjRef)
    requires k in keep || k !in previous
    ensures var o := Prune(objects, previous, keep, deleteFails);
      (k in o.objects <==> k in objects) && (k in objects ==> o.objects[k] == objects[k])
  {
    PruneSpec(objects, previous, keep, deleteFails);
    var j := FirstBlocked(previous, keep, deleteFails);
    assert k !in SetOf(previous[..j]) - keep;
  }

  /** With every previous record kept, a prune deletes nothing and cannot fail. */
  lemma PruneKeepAll(objects: Objects, previous: seq<ObjRef>, keep: set<ObjRef>, deleteFails: set<ObjRef>)
    requires SetOf(previous) <= keep
    ensures Prune(objects, previous, keep, deleteFails) == PruneOutcome(objects, None)
  {
    PruneSucceeds(objects, previous, keep, deleteFails);
    assert SetOf(previous) - keep == {};
    assert objects - (SetOf(previous) - keep) == objects;
  }
}
