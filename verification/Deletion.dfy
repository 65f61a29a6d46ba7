/** Deleting a network function and its pods from a cluster, through an API that may fail at any call. */
module Deletion {
  import opened Documents

  datatype Kind = NFDeploymentKind | ConfigKind | PodKind | OtherKind(name: string)

  datatype Obj = Obj(kind: Kind, id: ObjectName)

  datatype Call = Delete(obj: Obj) | DeletePods(namespace: string)

  /** What the environment decides about one API call: whether it is served; which of its targets are gone even so
      when it is not; and whether deleting no pods at all is answered with not-found. */
  datatype Reply = Reply(ok: bool, lost: set<Obj>, emptyIsMissing: bool)

  datatype Answer = Done | NotFound | Error

  /** The objects of a cluster, and the calls made so far. */
  datatype Cluster = Cluster(objects: set<Obj>, calls: seq<Call>)

  /** The reply to the n-th call on a named cluster. */
  type Api = (string, nat) -> Reply

  function Targets(objects: set<Obj>, call: Call): set<Obj> {
    match call
    case Delete(obj) => objects * {obj}
    case DeletePods(namespace) => set o | o in objects && o.kind.PodKind? && o.id.namespace == namespace
  }

  datatype Served = Served(cluster: Cluster, answer: Answer)

  function Serve(api: Api, name: string, cl: Cluster, call: Call): Served {
    var reply := api(name, |cl.calls|);
    var targets := Targets(cl.objects, call);
    var calls := cl.calls + [call];
    if !reply.ok then Served(Cluster(cl.objects - (targets * reply.lost), calls), Error)
    else if targets == {} && (call.Delete? || reply.emptyIsMissing) then Served(Cluster(cl.objects, calls), NotFound)
    else Served(Cluster(cl.objects - targets, calls), Done)
  }

  /** The cluster after a helper returned, and whether it returned nil. */
  datatype Outcome = Outcome(cluster: Cluster, isNil: bool)

  function DeleteNF(api: Api, name: string, cl: Cluster, nf: ObjectName): Outcome {
    var first := Serve(api, name, cl, Delete(Obj(NFDeploymentKind, nf)));
    if first.answer != Done then Outcome(first.cluster, false)
    else
      var second := Serve(api, name, first.cluster, DeletePods(nf.namespace));
      Outcome(second.cluster, second.answer == Done)
  }

  function DeleteConfig(api: Api, name: string, cl: Cluster, config: ObjectName, nf: ObjectName): Outcome {
    var first := Serve(api, name, cl, Delete(Obj(ConfigKind, config)));
    if first.answer == Error then Outcome(first.cluster, false)
    else
      var second := Serve(api, name, first.cluster, DeletePods(config.namespace));
      if second.answer == Error then Outcome(second.cluster, false)
      else DeleteNF(api, name, second.cluster, nf)
  }

  // --- The helpers as methods on a client ---

  class Client {
    const api: Api
    const name: string
    var cluster: Cluster

    constructor (api: Api, name: string, cluster: Cluster)
      ensures this.api == api && this.name == name && this.cluster == cluster
    {
      this.api, this.name, this.cluster := api, name, cluster;
    }

    method Request(call: Call) returns (answer: Answer)
      modifies this
      ensures Served(cluster, answer) == Serve(api, name, old(cluster), call)
    {
      var served := Serve(api, name, cluster, call);
      cluster := served.cluster;
      answer := served.answer;
    }

    method DeleteNFDeployment(nf: ObjectName) returns (isNil: bool)
      modifies this
      ensures Outcome(cluster, isNil) == DeleteNF(api, name, old(cluster), nf)
    {
      var answer := Request(Delete(Obj(NFDeploymentKind, nf)));
      if answer != Done {
        return false;
      }
      answer := Request(DeletePods(nf.namespace));
      if answer != Done {
        return false;
      }
      return true;
    }

    method DeleteConfigRefs(config: ObjectName, nf: ObjectName) returns (isNil: bool)
      modifies this
      ensures Outcome(cluster, isNil) == DeleteConfig(api, name, old(cluster), config, nf)
    {
      var answer := Request(Delete(Obj(ConfigKind, config)));
      if answer != Done {
        if answer != NotFound {
          return false;
        }
      }
      answer := Request(DeletePods(config.namespace));
      if answer != Done {
        if answer != NotFound {
          return false;
        }
      }
      isNil := DeleteNFDeployment(nf);
    }
  }

  // --- What they promise ---

  /** The objects that DeleteConfigRefs may remove. */
  predicate InScope(o: Obj, config: ObjectName, nf: ObjectName) {
    || o == Obj(ConfigKind, config)
    || o == Obj(NFDeploymentKind, nf)
    || (o.kind.PodKind? && (o.id.namespace == config.namespace || o.id.namespace == nf.namespace))
  }

  /** `attempts` calls of DeleteConfigRefs, one after another, whatever each returns. */
  function Retried(api: Api, name: string, cl: Cluster, config: ObjectName, nf: ObjectName, attempts: nat): Cluster {
    if attempts == 0 then cl
    else DeleteConfig(api, name, Retried(api, name, cl, config, nf, attempts - 1), config, nf).cluster
  }

  lemma DeleteConfigFrame(api: Api, name: string, cl: Cluster, config: ObjectName, nf: ObjectName)
    ensures var r := DeleteConfig(api, name, cl, config, nf);
            && r.cluster.objects <= cl.objects
            && (forall o :: o in cl.objects && !InScope(o, config, nf) ==> o in r.cluster.objects)
            && (r.isNil ==> forall o :: o in r.cluster.objects ==> !InScope(o, config, nf))
            && (r.isNil ==> Obj(NFDeploymentKind, nf) in cl.objects)
  {
  }

  /** Whatever fails and however often it is retried, only objects in scope go; and a nil return of the last attempt
      means that none of them is left. */
  lemma {:induction false} DeletionFrame(api: Api, name: string, cl: Cluster, config: ObjectName, nf: ObjectName,
                                         attempts: nat)
    ensures var cl' := Retried(api, name, cl, config, nf, attempts);
            && cl'.objects <= cl.objects
            && (forall o :: o in cl.objects && !InScope(o, config, nf) ==> o in cl'.objects)
            && var r := DeleteConfig(api, name, cl', config, nf);
            r.isNil ==> forall o :: o in r.cluster.objects <==> o in cl.objects && !InScope(o, config, nf)
  {
    var cl' := Retried(api, name, cl, config, nf, attempts);
    DeleteConfigFrame(api, name, cl', config, nf);
    if attempts == 0 {
    } else {
      DeletionFrame(api, name, cl, config, nf, attempts - 1);
      DeleteConfigFrame(api, name, Retried(api, name, cl, config, nf, attempts - 1), config, nf);
    }
  }

  /** A retry cannot heal: once the NFDeployment is gone, no later attempt returns nil, and pods that only its own
      namespace would have claimed stay. */
  lemma {:induction false} RetryNeverHeals(api: Api, name: string, cl: Cluster, config: ObjectName, nf: ObjectName,
                                           attempts: nat)
    requires Obj(NFDeploymentKind, nf) !in cl.objects
    ensures var cl' := Retried(api, name, cl, config, nf, attempts);
            && !DeleteConfig(api, name, cl', config, nf).isNil
            && Obj(NFDeploymentKind, nf) !in cl'.objects
            && (nf.namespace != config.namespace ==>
                  Targets(cl'.objects, DeletePods(nf.namespace)) == Targets(cl.objects, DeletePods(nf.namespace)))
  {
    if attempts == 0 {
    } else {
      RetryNeverHeals(api, name, cl, config, nf, attempts - 1);
      WithoutNF(api, name, Retried(api, name, cl, config, nf, attempts - 1), config, nf);
    }
    WithoutNF(api, name, Retried(api, name, cl, config, nf, attempts), config, nf);
  }

  lemma WithoutNF(api: Api, name: string, cl: Cluster, config: ObjectName, nf: ObjectName)
    requires Obj(NFDeploymentKind, nf) !in cl.objects
    ensures var r := DeleteConfig(api, name, cl, config, nf);
            && !r.isNil && Obj(NFDeploymentKind, nf) !in r.cluster.objects
            && (nf.namespace != config.namespace ==>
                  Targets(r.cluster.objects, DeletePods(nf.namespace)) == Targets(cl.objects, DeletePods(nf.namespace)))
  {
  }

  predicate Healthy(reply: Reply) {
    reply.ok && !reply.emptyIsMissing
  }

  predicate IsPodOf(o: Obj, namespace: string) {
    o.kind.PodKind? && o.id.namespace == namespace
  }

  /** DeleteNFDeployment over all replies. It removes the NFDeployment and, after that only, the pods of its namespace;
      it goes on past the first call exactly when that is served and finds its object; and it returns nil exactly when,
      besides, the second is served, and finds a pod in case the API calls an empty deletion missing. */
  lemma DeleteNFExactly(api: Api, name: string, cl: Cluster, nf: ObjectName)
    ensures var r, n, there := DeleteNF(api, name, cl, nf), |cl.calls|, Obj(NFDeploymentKind, nf) in cl.objects;
            var plan := [Delete(Obj(NFDeploymentKind, nf)), DeletePods(nf.namespace)];
            && n < |r.cluster.calls| <= n + 2 && r.cluster.calls == cl.calls + plan[..|r.cluster.calls| - n]
            && (|r.cluster.calls| == n + 2 <==> api(name, n).ok && there)
            && (r.isNil <==>
                  && api(name, n).ok && there && api(name, n + 1).ok
                  && (api(name, n + 1).emptyIsMissing ==> exists o :: o in cl.objects && IsPodOf(o, nf.namespace)))
    ensures var r := DeleteNF(api, name, cl, nf);
            && r.cluster.objects <= cl.objects
            && (forall o :: o in cl.objects && o !in r.cluster.objects ==>
                  o == Obj(NFDeploymentKind, nf) || IsPodOf(o, nf.namespace))
            && (r.isNil ==> forall o :: o in r.cluster.objects ==>
                  o != Obj(NFDeploymentKind, nf) && !IsPodOf(o, nf.namespace))
  {
    var own := Obj(NFDeploymentKind, nf);
    assert own in cl.objects ==> own in Targets(cl.objects, Delete(own));
    var first := Serve(api, name, cl, Delete(own)).cluster;
    var pods := Targets(first.objects, DeletePods(nf.namespace));
    assert first.objects <= cl.objects && forall o :: o in cl.objects && o != own ==> o in first.objects;
    assert forall o :: o in pods <==> o in cl.objects && IsPodOf(o, nf.namespace);
    assert pods == {} || exists o :: o in pods;
  }

  /** The pods that DeleteConfigRefs leaves to DeleteNFDeployment. */
  predicate LeftPod(o: Obj, config: ObjectName, nf: ObjectName) {
    IsPodOf(o, nf.namespace) && nf.namespace != config.namespace
  }

  /** The calls end with the first that is not served: which of the four are made, and when the result is nil. The
      Config and its pods may be missing; the NFDeployment may not, nor its pods if the API says so. */
  lemma CallsEndExactly(api: Api, name: string, cl: Cluster, config: ObjectName, nf: ObjectName)
    ensures var r, n := DeleteConfig(api, name, cl, config, nf), |cl.calls|;
            var there := Obj(NFDeploymentKind, nf) in cl.objects;
            && (forall k :: n <= k < |r.cluster.calls| && !api(name, k).ok ==> |r.cluster.calls| == k + 1 && !r.isNil)
            && (|r.cluster.calls| >= n + 2 <==> api(name, n).ok)
            && (|r.cluster.calls| >= n + 3 <==> api(name, n).ok && api(name, n + 1).ok)
            && (|r.cluster.calls| >= n + 4 <==> api(name, n).ok && api(name, n + 1).ok && api(name, n + 2).ok && there)
            && (r.isNil <==>
                  && api(name, n).ok && api(name, n + 1).ok && api(name, n + 2).ok && there && api(name, n + 3).ok
                  && (api(name, n + 3).emptyIsMissing ==> exists o :: o in cl.objects && LeftPod(o, config, nf)))
  {
    var own := Obj(NFDeploymentKind, nf);
    var first := Serve(api, name, cl, Delete(Obj(ConfigKind, config)));
    var second := Serve(api, name, first.cluster, DeletePods(config.namespace));
    assert own in cl.objects <==> own in second.cluster.objects;
    if first.answer != Error && second.answer != Error {
      assert forall o :: o in second.cluster.objects && IsPodOf(o, nf.namespace) <==>
          o in cl.objects && LeftPod(o, config, nf);
      DeleteNFExactly(api, name, second.cluster, nf);
    }
  }

  /** When the API serves every call and answers an empty deletion as done, the result is nil exactly when the
      NFDeployment is there. */
  lemma NilExactly(api: Api, name: string, cl: Cluster, config: ObjectName, nf: ObjectName)
    requires forall n: nat :: Healthy(api(name, n))
    ensures DeleteConfig(api, name, cl, config, nf).isNil <==> Obj(NFDeploymentKind, nf) in cl.objects
  {
    var n := |cl.calls|;
    assert Healthy(api(name, n)) && Healthy(api(name, n + 1)) && Healthy(api(name, n + 2)) && Healthy(api(name, n + 3));
    CallsEndExactly(api, name, cl, config, nf);
  }

  /** The calls are a prefix of these four, in this order: pods of the second namespace are deleted only after its
      NFDeployment is. */
  lemma CallOrder(api: Api, name: string, cl: Cluster, config: ObjectName, nf: ObjectName)
    ensures var r := DeleteConfig(api, name, cl, config, nf);
            var plan := [Delete(Obj(ConfigKind, config)), DeletePods(config.namespace),
                         Delete(Obj(NFDeploymentKind, nf)), DeletePods(nf.namespace)];
            && |cl.calls| < |r.cluster.calls| <= |cl.calls| + 4
            && r.cluster.calls == cl.calls + plan[..|r.cluster.calls| - |cl.calls|]
            && (r.isNil ==> |r.cluster.calls| == |cl.calls| + 4)
            && (|r.cluster.calls| == |cl.calls| + 4 ==> Obj(NFDeploymentKind, nf) in cl.objects)
  {
  }
}
