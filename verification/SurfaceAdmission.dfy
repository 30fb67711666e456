// Admitting a deployment profile against the composed manifests, and the separate filter that
// withholds a manifest's routes: what admission accepts is what the filter leaves mounted.
module SurfaceAdmission {
  import opened Wrappers

  /** A legacy feature and a contract-2 module carry their routes in different fields. */
  datatype Manifest =
    | Feature(name: string, routers: seq<string>, webRouters: seq<string>, nav: seq<string>, declarations: string)
    | Module(name: string, apiRouters: seq<string>, webSurfaces: seq<string>, webRouters: seq<string>, nav: seq<string>,
             declarations: string)

  datatype Profile = Profile(withheld: set<string>, inventory: seq<string>)

  datatype Refusal =
    | WithholdsMandatory(names: set<string>) | WithholdsSilent(names: set<string>)
    | NotInventoried(names: set<string>) | InventoryNamesSilent(names: set<string>)

  const NEVER_WITHHELD := {"readiness"}

  predicate BearsRoutes(m: Manifest) {
    match m
    case Feature(_, routers, webRouters, nav, _) => routers != [] || webRouters != [] || nav != []
    case Module(_, apiRouters, webSurfaces, webRouters, nav, _) =>
      apiRouters != [] || webRouters != [] || nav != [] || webSurfaces != []
  }

  function RouteBearing(manifests: seq<Manifest>): set<string> {
    set m | m in manifests && BearsRoutes(m) :: m.name
  }

  function InventoryOf(p: Profile): set<string> {
    set name | name in p.inventory
  }

  /** `admit_surfaces`, on the manifests with their routes still attached. */
  function Admit(p: Profile, manifests: seq<Manifest>): Option<Refusal> {
    var bearing := RouteBearing(manifests);
    var published := bearing - p.withheld;
    if p.withheld * NEVER_WITHHELD != {} then Some(WithholdsMandatory(p.withheld * NEVER_WITHHELD))
    else if p.withheld - bearing != {} then Some(WithholdsSilent(p.withheld - bearing))
    else if published - InventoryOf(p) != {} then Some(NotInventoried(published - InventoryOf(p)))
    else if InventoryOf(p) - published != {} then Some(InventoryNamesSilent(InventoryOf(p) - published))
    else None
  }

  /** `_profiled_surface` */
  function Profiled(m: Manifest, p: Profile): Manifest {
    if m.name !in p.withheld then m
    else
      match m
      case Feature(_, _, _, _, _) => m.(routers := [], webRouters := [], nav := [])
      case Module(_, _, _, _, _, _) => m.(apiRouters := [], webSurfaces := [], webRouters := [], nav := [])
  }

  /** The modules of the assembled product, in composition order. */
  function Mounted(manifests: seq<Manifest>, p: Profile): (mounted: seq<Manifest>)
    ensures |mounted| == |manifests|
    ensures forall i :: 0 <= i < |manifests| ==> mounted[i] == Profiled(manifests[i], p)
  {
    seq(|manifests|, i requires 0 <= i < |manifests| => Profiled(manifests[i], p))
  }

  lemma ProfiledBears(m: Manifest, p: Profile)
    ensures BearsRoutes(Profiled(m, p)) <==> BearsRoutes(m) && m.name !in p.withheld
    ensures Profiled(m, p).name == m.name
  {
  }

  lemma MountedBears(manifests: seq<Manifest>, p: Profile)
    ensures RouteBearing(Mounted(manifests, p)) == RouteBearing(manifests) - p.withheld
  {
    var mounted := Mounted(manifests, p);
    forall i | 0 <= i < |manifests|
      ensures mounted[i].name == manifests[i].name
      ensures BearsRoutes(mounted[i]) <==> BearsRoutes(manifests[i]) && manifests[i].name !in p.withheld
    {
      ProfiledBears(manifests[i], p);
    }
    hide BearsRoutes, Profiled;
    forall name | name in RouteBearing(manifests) - p.withheld ensures name in RouteBearing(mounted) {
      var i :| 0 <= i < |manifests| && BearsRoutes(manifests[i]) && manifests[i].name == name;
      assert mounted[i] in mounted;
    }
    forall name | name in RouteBearing(mounted) ensures name in RouteBearing(manifests) - p.withheld {
      var i :| 0 <= i < |mounted| && BearsRoutes(mounted[i]) && mounted[i].name == name;
      assert manifests[i] in manifests;
    }
  }

  /** A name bears routes exactly when a manifest of that name has some route field that is not empty. */
  lemma BearsByFields(manifests: seq<Manifest>, name: string)
    ensures name in RouteBearing(manifests) <==>
              exists i :: 0 <= i < |manifests| && manifests[i].name == name &&
                          match manifests[i]
                          case Feature(_, routers, webRouters, nav, _) => |routers| + |webRouters| + |nav| > 0
                          case Module(_, apiRouters, webSurfaces, webRouters, nav, _) =>
                            |apiRouters| + |webSurfaces| + |webRouters| + |nav| > 0
  {
    if i :| 0 <= i < |manifests| && manifests[i].name == name && BearsRoutes(manifests[i]) {
      assert manifests[i] in manifests;
    }
  }

  /** After filtering, a withheld manifest has every route field empty, and any other is as it was. */
  lemma FilteredByFields(manifests: seq<Manifest>, p: Profile, i: nat)
    requires i < |manifests|
    ensures var before, after := manifests[i], Mounted(manifests, p)[i];
            if before.name !in p.withheld then after == before
            else
              match before
              case Feature(name, _, _, _, declarations) => after == Feature(name, [], [], [], declarations)
              case Module(name, _, _, _, _, declarations) => after == Module(name, [], [], [], [], declarations)
  {
  }

  /**
   * A profile is admitted exactly when it withholds only route-bearing surfaces that may be withheld,
   * and the surfaces that bear routes after filtering are the ones its inventory names.
   */
  lemma AdmittedIsWhatIsMounted(p: Profile, manifests: seq<Manifest>)
    ensures Admit(p, manifests) == None
       <==> && p.withheld <= RouteBearing(manifests) - NEVER_WITHHELD
            && RouteBearing(Mounted(manifests, p)) == InventoryOf(p)
  {
    hide RouteBearing;
    MountedBears(manifests, p);
    var bearing, inventory := RouteBearing(manifests), InventoryOf(p);
    NoneLeft(p.withheld, bearing);
    NoneLeft(bearing - p.withheld, inventory);
    NoneLeft(inventory, bearing - p.withheld);
    NoneLeft(p.withheld, p.withheld - NEVER_WITHHELD);
    assert p.withheld * NEVER_WITHHELD == p.withheld - (p.withheld - NEVER_WITHHELD);
  }

  lemma NoneLeft(a: set<string>, b: set<string>)
    ensures a - b == {} <==> a <= b
  {
    assert a <= b + (a - b);
  }

  /** The inventory of an admitted profile: the names with some route field that is not empty, less the withheld. */
  lemma AdmittedByFields(p: Profile, manifests: seq<Manifest>, name: string)
    requires Admit(p, manifests) == None
    ensures name in p.inventory <==>
              && name !in p.withheld
              && exists i :: 0 <= i < |manifests| && manifests[i].name == name &&
                             match manifests[i]
                             case Feature(_, routers, webRouters, nav, _) => |routers| + |webRouters| + |nav| > 0
                             case Module(_, apiRouters, webSurfaces, webRouters, nav, _) =>
                               |apiRouters| + |webSurfaces| + |webRouters| + |nav| > 0
  {
    hide Admit, RouteBearing;
    AdmittedIsWhatIsMounted(p, manifests);
    MountedBears(manifests, p);
    BearsByFields(manifests, name);
    assert name in p.inventory <==> name in InventoryOf(p);
  }

  /** An admitted profile never drops the readiness probe's routes, nor anything but routes, nor the order. */
  lemma AdmittedKeeps(p: Profile, manifests: seq<Manifest>, i: nat)
    requires Admit(p, manifests) == None && i < |manifests|
    ensures var before, after := manifests[i], Mounted(manifests, p)[i];
            && after.name == before.name && after.declarations == before.declarations
            && (after.Module? <==> before.Module?)
            && (before.name in NEVER_WITHHELD || before.name !in p.withheld ==> after == before)
            && (before.name in p.withheld ==> !BearsRoutes(after))
    ensures "readiness" in RouteBearing(manifests) ==> "readiness" in p.inventory
    ensures "readiness" !in p.withheld
  {
    AdmittedIsWhatIsMounted(p, manifests);
    MountedBears(manifests, p);
    assert "readiness" in NEVER_WITHHELD;
    assert forall name :: name in InventoryOf(p) ==> name in p.inventory;
    assert forall name :: name in NEVER_WITHHELD ==> name !in p.withheld;
  }
}
