/**
 * The fan-out mapper: one change of a class becomes one reconcile request
 * for each namespace that carries the class's label, in list order.
 */
module FanOut {
  import opened Resources

  /** A reconcile request names a cluster-scoped object: a namespace. */
  datatype Request = Request(name: string)

  function Requests(names: seq<string>): (rs: seq<Request>)
    ensures |rs| == |names|
    ensures forall i :: 0 <= i < |names| ==> rs[i] == Request(names[i])
  {
    seq(|names|, i requires 0 <= i < |names| => Request(names[i]))
  }

  /** The requests for a class change; a failed list query yields none. */
  function FindNamespacesForClass(s: Store, className: string, listFails: bool): seq<Request> {
    if listFails then [] else Requests(ListByClass(s.order, s.namespaces, className))
  }

  /**
   * Without a list failure there is a request for a namespace exactly when
   * it carries the class's label, and no namespace is named twice; a list
   * failure gives the empty list.
   */
  lemma FanOutSpec(s: Store, className: string, listFails: bool)
    requires s.Valid()
    ensures listFails ==> FindNamespacesForClass(s, className, listFails) == []
    ensures !listFails ==> forall n :: Request(n) in FindNamespacesForClass(s, className, listFails) <==>
      n in s.namespaces && MatchesClass(s.namespaces[n], className)
    ensures NoDuplicates(FindNamespacesForClass(s, className, listFails))
  {
    var names := ListByClass(s.order, s.namespaces, className);
    ListByClassNoDuplicates(s.order, s.namespaces, className);
    var rs := FindNamespacesForClass(s, className, listFails);
    if !listFails {
      forall n ensures Request(n) in rs <==> n in s.namespaces && MatchesClass(s.namespaces[n], className) {
        if Request(n) in rs {
          var i :| 0 <= i < |rs| && rs[i] == Request(n);
          assert names[i] == n;
        }
        if n in s.namespaces && MatchesClass(s.namespaces[n], className) {
          var i :| 0 <= i < |names| && names[i] == n;
          assert rs[i] == Request(n);
        }
      }
    }
  }

  /** The names the requests carry, in request order. */
  function Names(rs: seq<Request>): (ns: seq<string>)
    ensures |ns| == |rs|
    ensures forall i :: 0 <= i < |rs| ==> ns[i] == rs[i].name
  {
    if rs == [] then [] else [rs[0].name] + Names(rs[1..])
  }

  /** The requests follow the order in which the list query returns the namespaces. */
  lemma FanOutOrdered(s: Store, className: string, listFails: bool)
    ensures IsSubsequence(Names(FindNamespacesForClass(s, className, listFails)), s.order)
  {
    if !listFails {
      var names := ListByClass(s.order, s.namespaces, className);
      ListByClassOrdered(s.order, s.namespaces, className);
      assert Names(Requests(names)) == names;
    }
  }
}
