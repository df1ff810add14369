/** The lookup and indexing helpers of `World` (model/world.go): the
    in-memory picture of a project's applications and nodes.

    `Application`, `Instance`, `Connection` and `Node` are defined in files
    not part of this model; they appear here with only the fields the
    helpers use, and `IsCorootComponent()`, `ApplicationTypes()` and the
    label values `Name.Value()`/`K8sName.Value()` are abstract fields. */
module Model {
  import opened Wrappers
  import opened Timeseries
  import Collections

  type ApplicationKind = string

  const ExternalService: ApplicationKind := "ExternalService"

  datatype ApplicationId = ApplicationId(namespace: string, kind: ApplicationKind, name: string)

  datatype ApplicationType = CorootCE | CorootEE | OtherType(name: string)

  datatype CustomApplication = CustomApplication(instancePatterns: seq<string>)

  /** The key of the lazily built `(namespace, name)` index. */
  datatype NsAndName = NsAndName(ns: string, name: string)

  class Application {
    const id: ApplicationId
    var custom: bool
    var instances: seq<Instance>
    /** The answer of `IsCorootComponent()`. */
    var corootComponent: bool
    /** The types `ApplicationTypes()` maps to true. */
    var types: set<ApplicationType>

    /** `NewApplication(id)`: no instances yet; the rest is left open. */
    constructor (id: ApplicationId)
      ensures this.id == id && !custom && instances == []
    {
      this.id := id;
      custom := false;
      instances := [];
    }
  }

  class Instance {
    var owner: Application
    var upstreams: seq<Connection>

    constructor (owner: Application)
      ensures this.owner == owner && upstreams == []
    {
      this.owner := owner;
      upstreams := [];
    }
  }

  class Connection {
    var remoteInstance: Instance?

    constructor (remoteInstance: Instance?)
      ensures this.remoteInstance == remoteInstance
    {
      this.remoteInstance := remoteInstance;
    }
  }

  class Node {
    /** `Name.Value()` and `K8sName.Value()`. */
    var name: string
    var k8sName: string

    constructor (name: string, k8sName: string)
      ensures this.name == name && this.k8sName == k8sName
    {
      this.name := name;
      this.k8sName := k8sName;
    }
  }

  predicate NodeMatches(n: Node, name: string)
    reads n
  {
    n.name == name || n.k8sName == name
  }

  /** An application whose upstreams `GetCorootComponents` scans: a coroot
      component of type Coroot CE or Coroot EE. */
  predicate ScansUpstreams(app: Application)
    reads app
  {
    app.corootComponent && (CorootCE in app.types || CorootEE in app.types)
  }

  /** `a` owns the remote instance of upstream `l` of instance `j` of `app`,
      and is not an external service. */
  ghost predicate UpstreamOwner(app: Application, j: int, l: int, a: Application)
    reads *
  {
    && 0 <= j < |app.instances|
    && 0 <= l < |app.instances[j].upstreams|
    && app.instances[j].upstreams[l].remoteInstance != null
    && app.instances[j].upstreams[l].remoteInstance.owner == a
    && a.id.kind != ExternalService
  }

  /** `index` is the `(namespace, name)` index of `apps`: one key per
      namespace and name of an id, bound to an application with such an id.
      When two ids differ only in kind, which one wins is left open, like
      the order of Go's map iteration. */
  ghost predicate IsNsAndNameIndex(index: map<NsAndName, Application>, apps: map<ApplicationId, Application>) {
    && (forall id :: id in apps ==> NsAndName(id.namespace, id.name) in index)
    && (forall key :: key in index ==>
          exists id :: id in apps && NsAndName(id.namespace, id.name) == key && index[key] == apps[id])
  }

  class World {
    var ctx: Context
    var customApplications: map<string, CustomApplication>
    var nodes: seq<Node>
    var applications: map<ApplicationId, Application>
    /** `None` until the first `GetApplicationByNsAndName` call builds it. */
    var appsByNsAndName: Option<map<NsAndName, Application>>
    var awsDiscoveryErrors: map<string, bool>

    constructor NewWorld(from: Time, to: Time, step: Duration, rawStep: Duration)
      ensures ctx == Context(from, to, step, rawStep)
      ensures applications == map[] && customApplications == map[] && awsDiscoveryErrors == map[]
      ensures nodes == [] && appsByNsAndName == None
    {
      ctx := Context(from, to, step, rawStep);
      applications := map[];
      awsDiscoveryErrors := map[];
      customApplications := map[];
      nodes := [];
      appsByNsAndName := None;
    }

    function GetApplication(id: ApplicationId): (app: Application?)
      reads this
      ensures app != null <==> id in applications
      ensures app != null ==> app == applications[id]
    {
      if id in applications then applications[id] else null
    }

    /** Looks up an application by namespace and name. The first call builds
        the index from the applications present then; later calls reuse it
        as it is, even when applications were added since. */
    method GetApplicationByNsAndName(ns: string, name: string) returns (app: Application?)
      modifies this`appsByNsAndName
      ensures appsByNsAndName.Some?
      ensures old(appsByNsAndName).Some? ==> appsByNsAndName == old(appsByNsAndName)
      ensures old(appsByNsAndName).None? ==> IsNsAndNameIndex(appsByNsAndName.value, applications)
      ensures app != null <==> NsAndName(ns, name) in appsByNsAndName.value
      ensures app != null ==> app == appsByNsAndName.value[NsAndName(ns, name)]
    {
      if appsByNsAndName.None? {
        var index: map<NsAndName, Application> := map[];
        var idsLeft := applications.Keys;
        while idsLeft != {}
          invariant idsLeft <= applications.Keys
          invariant forall id :: id in applications && id !in idsLeft ==> NsAndName(id.namespace, id.name) in index
          invariant forall key :: key in index ==>
            exists id :: id in applications && NsAndName(id.namespace, id.name) == key && index[key] == applications[id]
          decreases idsLeft
        {
          var id :| id in idsLeft;
          idsLeft := idsLeft - {id};
          index := index[NsAndName(id.namespace, id.name) := applications[id]];
        }
        appsByNsAndName := Some(index);
      }
      var key := NsAndName(ns, name);
      app := if key in appsByNsAndName.value then appsByNsAndName.value[key] else null;
    }

    /** Returns the application with the given id, creating and adding it
        when there is none. */
    method GetOrCreateApplication(id: ApplicationId, custom: bool) returns (app: Application)
      modifies this`applications
      ensures id in old(applications) ==> app == old(applications)[id] && applications == old(applications)
      ensures id !in old(applications) ==>
        && fresh(app) && app.id == id && app.custom == custom && app.instances == []
        && applications == old(applications)[id := app]
    {
      var existing := GetApplication(id);
      if existing == null {
        app := new Application(id);
        app.custom := custom;
        applications := applications[id := app];
      } else {
        app := existing;
      }
    }

    /** The first node, in `nodes` order, whose name or Kubernetes name is
        `name`. */
    method GetNode(name: string) returns (node: Node?)
      ensures node == null <==> forall i :: 0 <= i < |nodes| ==> !NodeMatches(nodes[i], name)
      ensures node != null ==>
        exists i :: 0 <= i < |nodes| && nodes[i] == node && NodeMatches(node, name)
          && forall j :: 0 <= j < i ==> !NodeMatches(nodes[j], name)
    {
      for i := 0 to |nodes|
        invariant forall j :: 0 <= j < i ==> !NodeMatches(nodes[j], name)
      {
        var n := nodes[i];
        if n.name == name || n.k8sName == name {
          return n;
        }
      }
      return null;
    }

    /** `a` is a component: a coroot component among the applications, or a
        non-external owner of an upstream of a Coroot CE/EE component. */
    ghost predicate IsComponent(a: Application)
      reads *
    {
      || (a in applications.Values && a.corootComponent)
      || exists id, j, l :: id in applications && ScansUpstreams(applications[id]) && UpstreamOwner(applications[id], j, l, a)
    }

    /** The coroot components, one per application id, in unspecified
        order. */
    method GetCorootComponents() returns (components: seq<Application>)
      ensures forall i :: 0 <= i < |components| ==> IsComponent(components[i])
      ensures forall i, j :: 0 <= i < j < |components| ==> components[i].id != components[j].id
      ensures forall id :: id in applications && applications[id].corootComponent ==>
        exists i :: 0 <= i < |components| && components[i].id == applications[id].id
      ensures forall id, j, l, a :: id in applications && ScansUpstreams(applications[id]) && UpstreamOwner(applications[id], j, l, a) ==>
        exists i :: 0 <= i < |components| && components[i].id == a.id
    {
      var found := ComponentsById();
      components := Collections.Values(found);
      ComponentsFromIndex(found, components);
    }

    /** The map `GetCorootComponents` builds: each component under its own
        id, covering every coroot component and every non-external upstream
        owner of a Coroot CE/EE component. */
    method ComponentsById() returns (found: map<ApplicationId, Application>)
      ensures forall k :: k in found ==> found[k].id == k && IsComponent(found[k])
      ensures forall id :: id in applications && applications[id].corootComponent ==>
        applications[id].id in found
      ensures forall id, j, l, a :: id in applications && ScansUpstreams(applications[id]) && UpstreamOwner(applications[id], j, l, a) ==>
        a.id in found
    {
      found := map[];
      var idsLeft := applications.Keys;
      while idsLeft != {}
        invariant idsLeft <= applications.Keys
        invariant forall k :: k in found ==> found[k].id == k && IsComponent(found[k])
        invariant forall id :: id in applications && id !in idsLeft && applications[id].corootComponent ==>
          applications[id].id in found
        invariant forall id, j, l, a ::
          (id in applications && id !in idsLeft && ScansUpstreams(applications[id])
           && UpstreamOwner(applications[id], j, l, a)) ==> a.id in found
        decreases idsLeft
      {
        var id :| id in idsLeft;
        idsLeft := idsLeft - {id};
        var app := applications[id];
        if !app.corootComponent {
          continue;
        }
        found := found[app.id := app];
        var types := app.types;
        if CorootCE in types || CorootEE in types {
          ghost var before := found.Keys;
          for j := 0 to |app.instances|
            invariant before <= found.Keys
            invariant forall k :: k in found ==> found[k].id == k && IsComponent(found[k])
            invariant forall j', l, a :: 0 <= j' < j && UpstreamOwner(app, j', l, a) ==> a.id in found
          {
            var inst := app.instances[j];
            for l := 0 to |inst.upstreams|
              invariant before <= found.Keys
              invariant forall k :: k in found ==> found[k].id == k && IsComponent(found[k])
              invariant forall j', l', a :: 0 <= j' < j && UpstreamOwner(app, j', l', a) ==> a.id in found
              invariant forall l', a :: 0 <= l' < l && UpstreamOwner(app, j, l', a) ==> a.id in found
            {
              var u := inst.upstreams[l];
              if u.remoteInstance != null && u.remoteInstance.owner.id.kind != ExternalService {
                var owner := u.remoteInstance.owner;
                assert UpstreamOwner(app, j, l, owner);
                found := found[owner.id := owner];
              }
            }
          }
        }
      }
    }
  }

  /** The values of a map keyed by application id, each bound under its own
      id, have pairwise distinct ids and cover every key. */
  lemma ComponentsFromIndex(found: map<ApplicationId, Application>, components: seq<Application>)
    requires forall k :: k in found ==> found[k].id == k
    requires multiset(components) == Collections.MultisetOfValues(found)
    ensures forall i :: 0 <= i < |components| ==> components[i] in found.Values
    ensures forall i, j :: 0 <= i < j < |components| ==> components[i].id != components[j].id
    ensures forall k :: k in found ==> exists i :: 0 <= i < |components| && components[i].id == k
  {
    forall v: Application
      ensures multiset(components)[v] <= 1
      ensures v in components <==> v in found.Values
    {
      Collections.MultisetOfValuesInjective(found, v);
      Collections.MultisetOfValuesMembership(found, v);
    }
    Collections.NoRepeats(components);
    forall k | k in found
      ensures exists i :: 0 <= i < |components| && components[i].id == k
    {
      assert found[k] in found.Values;
      var i :| 0 <= i < |components| && components[i] == found[k];
    }
  }
}
