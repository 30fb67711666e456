// Enforcing the retention classification on a live database: revoking deletion on every withheld
// table, then checking the effective privileges, which also flow from PUBLIC and from inherited
// roles, and the cascading foreign keys, through which one deletion removes rows elsewhere.
module Retention {
  import opened Graphs
  import opened Wrappers

  datatype Disposition = EnforcedRetain | SupersededInPlace | LifecycleDelete | MigrationBookkeeping

  type Classification = map<string, Disposition>

  predicate Withheld(policies: Classification, table: string) {
    table in policies && !policies[table].LifecycleDelete?
  }

  predicate Deletable(policies: Classification, table: string) {
    table in policies && policies[table].LifecycleDelete?
  }

  datatype Privilege = Select | Insert | Update | Delete | Truncate

  const ONLINE_ROLES := {"platform_api", "app_user"}
  const WITHHELD_PRIVILEGES := {Delete, Truncate}
  const PRESERVED_PRIVILEGES := {Select, Insert, Update}

  datatype Grantee = Public | Role(name: string)

  datatype Grant = Grant(table: string, grantee: Grantee, privilege: Privilege, grantor: string)

  /** A `child` row goes when the `parent` row it references is deleted. */
  datatype Cascade = Cascade(child: string, parent: string)

  /**
   * What the enforcement reads and never changes. `inherited` gives, for each role, every role
   * whose privileges it has: itself, and those it is a member of through any number of steps.
   * `parts` leads from a relation to its partitions and to the tables that inherit from it, which a
   * DELETE on it includes; a foreign key of a partitioned relation is listed for each partition too.
   */
  datatype Catalogue = Catalogue(roles: set<string>, members: Graph<string>, inherited: map<string, set<string>>,
                                 superusers: set<string>, tables: set<string>, parts: Graph<string>,
                                 cascades: set<Cascade>, definersClean: bool, owner: string)

  ghost predicate Loaded(c: Catalogue) {
    forall r :: r in c.roles ==> r in c.inherited && c.inherited[r] == Closure(c.members, {r})
  }

  /** The grant gives the role its privilege: directly, through PUBLIC, or by inheritance. */
  predicate Gives(c: Catalogue, g: Grant, role: string) {
    match g.grantee
    case Public => true
    case Role(name) => name == role || (role in c.inherited && name in c.inherited[role])
  }

  /** `has_table_privilege(role, table, privilege)` */
  predicate Holds(c: Catalogue, grants: set<Grant>, role: string, table: string, privilege: Privilege) {
    role in c.superusers
    || exists g :: g in grants && g.table == table && g.privilege == privilege && Gives(c, g, role)
  }

  // ------------------------------------------------------------------------ what must hold

  predicate Revocable(c: Catalogue, table: string, g: Grant) {
    && g.table == table && g.privilege in WITHHELD_PRIVILEGES && g.grantor == c.owner
    && g.grantee.Role? && g.grantee.name in ONLINE_ROLES
  }

  function Revoked(c: Catalogue, grants: set<Grant>, tables: set<string>): set<Grant> {
    set g | g in grants && !(g.table in tables && Revocable(c, g.table, g))
  }

  function WithheldTables(policies: Classification): set<string> {
    set t | t in policies && Withheld(policies, t)
  }

  predicate Sealed(c: Catalogue, policies: Classification, grants: set<Grant>) {
    forall t, r, p | t in WithheldTables(policies) && r in ONLINE_ROLES && p in WITHHELD_PRIVILEGES ::
      !Holds(c, grants, r, t, p)
  }

  predicate StillPermitted(c: Catalogue, policies: Classification, grants: set<Grant>) {
    forall t | t in policies && Deletable(policies, t) :: DeletableOnline(c, grants, t)
  }

  predicate DeletableOnline(c: Catalogue, grants: set<Grant>, table: string) {
    exists r | r in ONLINE_ROLES :: Holds(c, grants, r, table, Delete)
  }

  predicate NoDirectCascade(c: Catalogue, policies: Classification) {
    forall e | e in c.cascades :: Withheld(policies, e.child) ==> !Deletable(policies, e.parent)
  }

  /** When enforcement succeeds, decided on the database as it is found. */
  predicate Enforceable(c: Catalogue, policies: Classification, grants: set<Grant>) {
    && ONLINE_ROLES <= c.roles
    && c.tables == policies.Keys
    && Sealed(c, policies, Revoked(c, grants, WithheldTables(policies)))
    && StillPermitted(c, policies, grants)
    && NoDirectCascade(c, policies)
    && c.definersClean
  }

  datatype Refusal = RolesAbsent | NotAdmissible | RevokeDidNotTake | NothingMayDelete | TookTooMuch
                     | CascadesInto | DefinerDeletes

  class Connection {
    const catalogue: Catalogue
    var grants: set<Grant>

    constructor (catalogue: Catalogue, grants: set<Grant>)
      ensures this.catalogue == catalogue && this.grants == grants
    {
      this.catalogue, this.grants := catalogue, grants;
    }

    /** `REVOKE DELETE, TRUNCATE ON table FROM` the online roles, as the tables' owner. */
    method Revoke(table: string)
      modifies this
      ensures grants == set g | g in old(grants) && !Revocable(catalogue, table, g)
    {
      grants := set g | g in grants && !Revocable(catalogue, table, g);
    }

    method EnforceRetention(policies: Classification) returns (refusal: Option<Refusal>)
      modifies this
      ensures refusal == None <==> Enforceable(catalogue, policies, old(grants))
      ensures refusal == None ==> grants == Revoked(catalogue, old(grants), WithheldTables(policies))
      ensures refusal in {Some(RolesAbsent), Some(NotAdmissible)} ==> grants == old(grants)
      ensures refusal == None ==>
                forall role, table, privilege ::
                  role in {"platform_api", "app_user"} && privilege in {Delete, Truncate} && table in policies &&
                  policies[table] in {EnforcedRetain, SupersededInPlace, MigrationBookkeeping} ==>
                    !Holds(catalogue, grants, role, table, privilege)
      ensures refusal == None ==>
                forall table :: table in policies && policies[table] == LifecycleDelete ==>
                  || Holds(catalogue, grants, "platform_api", table, Delete)
                  || Holds(catalogue, grants, "app_user", table, Delete)
      ensures refusal == None ==>
                forall role, table, privilege :: privilege in {Select, Insert, Update} ==>
                  (Holds(catalogue, grants, role, table, privilege)
                   <==> Holds(catalogue, old(grants), role, table, privilege))
      ensures refusal == Some(RolesAbsent) <==> !({"platform_api", "app_user"} <= catalogue.roles)
      ensures refusal == Some(NotAdmissible) ==> catalogue.tables != policies.Keys
      ensures refusal == Some(RevokeDidNotTake) ==>
                exists role, table, privilege ::
                  && role in {"platform_api", "app_user"} && privilege in {Delete, Truncate} && table in policies
                  && policies[table] != LifecycleDelete && Holds(catalogue, grants, role, table, privilege)
      ensures refusal == Some(NothingMayDelete) ==>
                exists table ::
                  && table in policies && policies[table] == LifecycleDelete
                  && !Holds(catalogue, old(grants), "platform_api", table, Delete)
                  && !Holds(catalogue, old(grants), "app_user", table, Delete)
      ensures refusal != Some(TookTooMuch)
      ensures refusal == Some(CascadesInto) ==>
                exists e :: && e in catalogue.cascades && e.child in policies && e.parent in policies
                            && policies[e.child] != LifecycleDelete && policies[e.parent] == LifecycleDelete
      ensures refusal == Some(DefinerDeletes) ==> !catalogue.definersClean
      ensures refusal == None ==>
                && {"platform_api", "app_user"} <= catalogue.roles && catalogue.tables == policies.Keys
                && catalogue.definersClean
                && forall e :: e in catalogue.cascades && e.child in policies && e.parent in policies ==>
                     policies[e.child] == LifecycleDelete || policies[e.parent] != LifecycleDelete
    {
      if !(ONLINE_ROLES <= catalogue.roles) {
        return Some(RolesAbsent);
      }
      if catalogue.tables != policies.Keys {
        return Some(NotAdmissible);
      }
      var before := grants;
      var pending := WithheldTables(policies);
      while pending != {}
        invariant pending <= WithheldTables(policies)
        invariant grants == Revoked(catalogue, before, WithheldTables(policies) - pending)
        decreases pending
      {
        var table :| table in pending;
        Revoke(table);
        pending := pending - {table};
      }
      assert WithheldTables(policies) - {} == WithheldTables(policies);
      RevokeKeepsTheRest(catalogue, policies, before);
      if !Sealed(catalogue, policies, grants) {
        return Some(RevokeDidNotTake);
      }
      if !StillPermitted(catalogue, policies, grants) {
        return Some(NothingMayDelete);
      }
      if exists t, r, p | t in WithheldTables(policies) && r in ONLINE_ROLES && p in PRESERVED_PRIVILEGES ::
           Holds(catalogue, before, r, t, p) && !Holds(catalogue, grants, r, t, p) {
        return Some(TookTooMuch);
      }
      if !NoDirectCascade(catalogue, policies) {
        return Some(CascadesInto);
      }
      refusal := if catalogue.definersClean then None else Some(DefinerDeletes);
    }
  }

  /** The revokes take deletion on withheld tables from the online roles, and nothing else from anyone. */
  lemma RevokeKeepsTheRest(c: Catalogue, policies: Classification, grants: set<Grant>)
    ensures var after := Revoked(c, grants, WithheldTables(policies));
            && (forall r, t, p :: Holds(c, after, r, t, p) ==> Holds(c, grants, r, t, p))
            && (forall r, t, p :: p in PRESERVED_PRIVILEGES || !Withheld(policies, t) ==>
                  (Holds(c, after, r, t, p) <==> Holds(c, grants, r, t, p)))
            && (StillPermitted(c, policies, after) <==> StillPermitted(c, policies, grants))
  {
    var after := Revoked(c, grants, WithheldTables(policies));
    forall r, t, p | (p in PRESERVED_PRIVILEGES || !Withheld(policies, t)) && Holds(c, grants, r, t, p)
      ensures Holds(c, after, r, t, p)
    {
      if r !in c.superusers {
        var g :| g in grants && g.table == t && g.privilege == p && Gives(c, g, r);
        assert g in after;
      }
    }
  }

  // ------------------------------------------------------------------- what enforcement means

  /** A way to delete from a withheld table that the revokes do not take away. */
  predicate Residual(c: Catalogue, policies: Classification, g: Grant, role: string) {
    && role in ONLINE_ROLES && Withheld(policies, g.table) && g.privilege in WITHHELD_PRIVILEGES
    && Gives(c, g, role) && !Revocable(c, g.table, g)
  }

  /** The seal takes exactly when no online role is a superuser and no grant leaves a residual way. */
  lemma SealedExactly(c: Catalogue, policies: Classification, grants: set<Grant>)
    ensures Sealed(c, policies, Revoked(c, grants, WithheldTables(policies)))
       <==> || WithheldTables(policies) == {}
            || (ONLINE_ROLES !! c.superusers && forall g, r :: g in grants ==> !Residual(c, policies, g, r))
  {
    var after := Revoked(c, grants, WithheldTables(policies));
    if Sealed(c, policies, after) && WithheldTables(policies) != {} {
      var t :| t in WithheldTables(policies);
      forall r | r in ONLINE_ROLES ensures r !in c.superusers {
        assert Delete in WITHHELD_PRIVILEGES && !Holds(c, after, r, t, Delete);
      }
      forall g, r | g in grants ensures !Residual(c, policies, g, r) {
        if Residual(c, policies, g, r) {
          assert g in after;
          assert Holds(c, after, r, g.table, g.privilege);
        }
      }
    }
    if ONLINE_ROLES !! c.superusers && forall g, r :: g in grants ==> !Residual(c, policies, g, r) {
      forall t, r, p | t in WithheldTables(policies) && r in ONLINE_ROLES && p in WITHHELD_PRIVILEGES
        ensures !Holds(c, after, r, t, p)
      {
        if g :| g in after && g.table == t && g.privilege == p && Gives(c, g, r) {
          assert Residual(c, policies, g, r);
        }
      }
    }
  }

  /** PUBLIC, and any other role reached through memberships of any depth, are such ways. */
  lemma ResidualForcesRefusal(c: Catalogue, policies: Classification, grants: set<Grant>, g: Grant, role: string)
    requires Loaded(c) && g in grants && role in ONLINE_ROLES
    requires Withheld(policies, g.table) && g.privilege in WITHHELD_PRIVILEGES
    requires g.grantee == Public
          || (g.grantee.Role? && Reaches(c.members, role, g.grantee.name)
              && (g.grantee.name !in ONLINE_ROLES || g.grantor != c.owner))
    ensures !Enforceable(c, policies, grants)
  {
    hide Reaches, Closure;
    if ONLINE_ROLES <= c.roles {
      if g.grantee.Role? {
        ReachedIsNode(c.members, {role}, role, g.grantee.name);
        assert c.inherited[role] == Closure(c.members, {role});
      }
      assert Residual(c, policies, g, role);
      assert g.table in WithheldTables(policies);
      SealedExactly(c, policies, grants);
    }
  }

  /**
   * What a successful run leaves behind: no grant of deletion on a withheld table to PUBLIC or to a
   * role that an online role reaches through memberships, and everything else as it was.
   */
  lemma EnforcedGuarantees(c: Catalogue, policies: Classification, grants: set<Grant>)
    requires Loaded(c) && Enforceable(c, policies, grants)
    ensures var after := Revoked(c, grants, WithheldTables(policies));
            && (forall g, r | g in after && r in ONLINE_ROLES ::
                  Withheld(policies, g.table) && g.privilege in WITHHELD_PRIVILEGES ==>
                  g.grantee.Role? && !Reaches(c.members, r, g.grantee.name))
            && (forall t :: Deletable(policies, t) ==> DeletableOnline(c, after, t))
            && (forall t, r, p :: p in PRESERVED_PRIVILEGES ==>
                (Holds(c, after, r, t, p) <==> Holds(c, grants, r, t, p)))
  {
    hide Reaches, Closure;
    RevokeKeepsTheRest(c, policies, grants);
    var after := Revoked(c, grants, WithheldTables(policies));
    forall g, r | g in after && Withheld(policies, g.table) && g.privilege in WITHHELD_PRIVILEGES && r in ONLINE_ROLES
      ensures g.grantee.Role? && !Reaches(c.members, r, g.grantee.name)
    {
      assert g.table in WithheldTables(policies) && !Holds(c, after, r, g.table, g.privilege) && !Gives(c, g, r);
      assert c.inherited[r] == Closure(c.members, {r});
      if Reaches(c.members, r, g.grantee.name) {
        ReachedIsNode(c.members, {r}, r, g.grantee.name);
      }
    }
    assert StillPermitted(c, policies, after);
  }

  /** A second run succeeds too and changes nothing. */
  lemma SecondRun(c: Catalogue, policies: Classification, grants: set<Grant>)
    requires Enforceable(c, policies, grants)
    ensures var after := Revoked(c, grants, WithheldTables(policies));
            Enforceable(c, policies, after) && Revoked(c, after, WithheldTables(policies)) == after
  {
    RevokeKeepsTheRest(c, policies, grants);
    var after := Revoked(c, grants, WithheldTables(policies));
    assert Revoked(c, after, WithheldTables(policies)) == after;
  }

  // --------------------------------------------------------------------------- cascades, by path

  /** From each table, the tables whose rows go with its rows. */
  function CascadeGraph(cascades: set<Cascade>): Graph<string> {
    map parent | parent in ParentTables(cascades) :: ChildTables(cascades, parent)
  }

  function ParentTables(cascades: set<Cascade>): set<string> {
    set e | e in cascades :: e.parent
  }

  function ChildTables(cascades: set<Cascade>, parent: string): set<string> {
    set e | e in cascades && e.parent == parent :: e.child
  }

  /**
   * Every cascade path, of any length, from a deletable table to a withheld one runs through a
   * relation that is not classified: the check of single edges sees all the others.
   */
  lemma {:induction false} CascadePathsBlocked(c: Catalogue, policies: Classification, p: seq<string>)
    requires NoDirectCascade(c, policies) && Path(CascadeGraph(c.cascades), p)
    requires Deletable(policies, p[0]) && Withheld(policies, p[|p| - 1])
    ensures exists i :: 0 < i < |p| - 1 && p[i] !in policies
    decreases |p|
  {
    var n := |p| - 1;
    assert n > 0;
    var from := p[n - 1];
    assert p[n - 1 + 1] in Next(CascadeGraph(c.cascades), from);
    var e :| e in c.cascades && e.parent == from && e.child == p[n];
    if from in policies && n > 1 {
      var shorter := p[..n];
      assert Path(CascadeGraph(c.cascades), shorter) by {
        forall i | 0 <= i < |shorter| - 1 ensures shorter[i + 1] in Next(CascadeGraph(c.cascades), shorter[i]) {
          assert p[i + 1] in Next(CascadeGraph(c.cascades), p[i]);
        }
      }
      CascadePathsBlocked(c, policies, shorter);
    }
  }

  /** Without a direct one, a cascade leads from a deletable to a withheld table exactly through such a relation. */
  lemma CascadesThroughUnclassified(c: Catalogue, policies: Classification, from: string, to: string)
    requires NoDirectCascade(c, policies) && Deletable(policies, from) && Withheld(policies, to)
    ensures Reaches(CascadeGraph(c.cascades), from, to) <==> LeadsThroughUnclassified(c, policies, from, to)
  {
    var g := CascadeGraph(c.cascades);
    if Reaches(g, from, to) {
      var p: seq<string> :| Path(g, p) && p[0] == from && p[|p| - 1] == to;
      CascadePathsBlocked(c, policies, p);
      var i :| 0 < i < |p| - 1 && p[i] !in policies;
      PathSplits(g, p, i);
    } else if u :| u !in policies && Reaches(g, from, u) && Reaches(g, u, to) {
      ReachesTrans(g, from, u, to);
    }
  }

  /** Deleting in `from` cascades to an unclassified relation, possibly `from` itself, and on to `to`. */
  ghost predicate LeadsThroughUnclassified(c: Catalogue, policies: Classification, from: string, to: string)
  {
    exists u :: u !in policies && Reaches(CascadeGraph(c.cascades), from, u) && Reaches(CascadeGraph(c.cascades), u, to)
  }

  /** Deleting rows stored in `from` cascades through an unclassified relation to some withheld table. */
  ghost predicate Bridged(c: Catalogue, policies: Classification, from: string) {
    exists to :: Withheld(policies, to) && LeadsThroughUnclassified(c, policies, from, to)
  }

  /**
   * What the checks do not see: a relation that an online role may delete from has, itself included,
   * a part that is withheld, or a part whose rows cascade through an unclassified relation.
   */
  ghost predicate Exposed(c: Catalogue, policies: Classification, grants: set<Grant>) {
    exists from, part ::
      && !Withheld(policies, from) && DeletableOnline(c, grants, from)
      && Reaches(c.parts, from, part) && (Withheld(policies, part) || Bridged(c, policies, part))
  }

  const EXAMPLE := Catalogue(ONLINE_ROLES, map[], map[], {}, {"t", "w"}, map[],
                             {Cascade("q", "t"), Cascade("w", "q")}, true, "app_admin")
  const EXAMPLE_POLICIES: Classification := map["t" := LifecycleDelete, "w" := EnforcedRetain]
  const EXAMPLE_GRANTS := {Grant("t", Role("app_user"), Delete, "app_admin"),
                           Grant("q", Role("app_user"), Delete, "app_admin")}

  lemma ExampleEnforceable()
    ensures Enforceable(EXAMPLE, EXAMPLE_POLICIES, EXAMPLE_GRANTS)
  {
    assert "t"[0] == 't' && "w"[0] == 'w' && "q"[0] == 'q';
    assert Grant("t", Role("app_user"), Delete, "app_admin") in EXAMPLE_GRANTS;
    assert Holds(EXAMPLE, EXAMPLE_GRANTS, "app_user", "t", Delete);
  }

  /** Not so through an unclassified relation, one in a schema that the catalogue query leaves out. */
  lemma UnclassifiedRelationCascades()
    ensures Enforceable(EXAMPLE, EXAMPLE_POLICIES, EXAMPLE_GRANTS)
    ensures Deletable(EXAMPLE_POLICIES, "t") && Withheld(EXAMPLE_POLICIES, "w")
    ensures Reaches(CascadeGraph(EXAMPLE.cascades), "t", "w")
  {
    ExampleEnforceable();
    hide Enforceable;
    assert "t"[0] == 't' && "w"[0] == 'w' && "q"[0] == 'q';
    var g := CascadeGraph(EXAMPLE.cascades);
    assert Cascade("q", "t") in EXAMPLE.cascades && Cascade("w", "q") in EXAMPLE.cascades;
    assert Path(g, ["t", "q", "w"]) && ["t", "q", "w"][0] == "t" && ["t", "q", "w"][2] == "w";
  }

  // ------------------------------------------------------------------------------------- rows

  datatype Row = Row(table: string, id: nat)

  /**
   * One DELETE by an online role; a row's table is the one that stores it, which may be a part of the
   * relation named, whose privileges alone are checked. `references` leads from each row to the rows that reference it
   * through a cascading foreign key when the statement runs.
   */
  datatype Statement = Statement(role: string, table: string, targets: set<Row>, references: Graph<Row>)

  ghost predicate Allowed(c: Catalogue, grants: set<Grant>, s: Statement) {
    && s.role in ONLINE_ROLES && Holds(c, grants, s.role, s.table, Delete)
    && (forall r :: r in s.targets ==> Reaches(c.parts, s.table, r.table))
    && (forall parent, child :: child in Next(s.references, parent) ==>
        Cascade(child.table, parent.table) in c.cascades)
  }

  /** The targets go, and whatever cascades from them at any depth. */
  ghost function Remaining(rows: set<Row>, statements: seq<Statement>): set<Row>
    decreases |statements|
  {
    if statements == [] then rows
    else
      var last := statements[|statements| - 1];
      Remaining(rows, statements[..|statements| - 1]) - Closure(last.references, last.targets)
  }

  ghost predicate AllAllowed(c: Catalogue, grants: set<Grant>, statements: seq<Statement>) {
    forall s :: s in statements ==> Allowed(c, grants, s)
  }

  /** A cascade over rows is a cascade over their tables. */
  lemma RowsCascadeLikeTables(c: Catalogue, references: Graph<Row>, a: Row, b: Row)
    requires forall parent, child :: child in Next(references, parent) ==>
        Cascade(child.table, parent.table) in c.cascades
    requires Reaches(references, a, b)
    ensures Reaches(CascadeGraph(c.cascades), a.table, b.table)
  {
    hide Reaches;
    var g := CascadeGraph(c.cascades);
    var led := set r | r in Nodes(references) + {a} && Reaches(g, a.table, r.table);
    ReachesSelf(g, a.table);
    forall x, y | x in led && y in Next(references, x) ensures y in led {
      assert Cascade(y.table, x.table) in c.cascades;
      ReachesStep(g, a.table, x.table, y.table);
    }
    assert Closed(references, led);
    ClosedKeeps(references, led, a, b);
  }

  /** A row that goes is stored where cascades lead from some part of the relation named. */
  lemma RowsGoFromPart(c: Catalogue, grants: set<Grant>, s: Statement, row: Row) returns (part: string)
    requires Allowed(c, grants, s) && row in Closure(s.references, s.targets)
    ensures Reaches(c.parts, s.table, part) && Reaches(CascadeGraph(c.cascades), part, row.table)
  {
    hide Reaches, Holds;
    var target :| target in s.targets && Reaches(s.references, target, row);
    part := target.table;
    RowsCascadeLikeTables(c, s.references, target, row);
  }

  /** One row in every table, each referencing the row of every parent table. */
  function OneRowEach(cascades: set<Cascade>): Graph<Row> {
    map r | r in RowsOf(ParentTables(cascades)) :: RowsOf(ChildTables(cascades, r.table))
  }

  function RowsOf(tables: set<string>): set<Row> {
    set t | t in tables :: Row(t, 0)
  }

  lemma TablesCascadeLikeRows(cascades: set<Cascade>, from: string, to: string)
    requires Reaches(CascadeGraph(cascades), from, to)
    ensures Row(to, 0) in Closure(OneRowEach(cascades), {Row(from, 0)})
  {
    hide Reaches, Closure;
    var g, rows := CascadeGraph(cascades), Closure(OneRowEach(cascades), {Row(from, 0)});
    ClosureIsLeast(OneRowEach(cascades), {Row(from, 0)});
    var tables := set r | r in rows :: r.table;
    assert Row(from, 0) in rows;
    var led := set t | t in tables && Row(t, 0) in rows;
    forall x, y | x in led && y in Next(g, x) ensures y in led {
      assert Row(y, 0) in Next(OneRowEach(cascades), Row(x, 0));
    }
    assert Closed(g, led) && from in led;
    ClosedKeeps(g, led, from, to);
  }

  /** One permitted statement can remove some withheld row exactly where an online role's relation leads to one. */
  lemma OneStatementExactly(c: Catalogue, policies: Classification, grants: set<Grant>)
    ensures (exists s, row: Row ::
               Allowed(c, grants, s) && Withheld(policies, row.table) && row in Closure(s.references, s.targets))
       <==> exists from, part, to :: Loses(c, policies, grants, from, part, to)
  {
    hide Reaches, Closure, Holds, DeletableOnline;
    if s, row: Row :|
      Allowed(c, grants, s) && Withheld(policies, row.table) && row in Closure(s.references, s.targets)
    {
      var part := RowsGoFromPart(c, grants, s, row);
      DeletesOnline(c, grants, s);
      assert Loses(c, policies, grants, s.table, part, row.table);
    }
    if from, part, to :| Loses(c, policies, grants, from, part, to) {
      var s, row := LosesRow(c, policies, grants, from, part, to);
    }
  }

  /** An online role may delete from `from`; that includes `part`, whose rows cascade to those of a withheld table. */
  ghost predicate Loses(c: Catalogue, policies: Classification, grants: set<Grant>, from: string, part: string,
                        to: string)
  {
    && DeletableOnline(c, grants, from) && Reaches(c.parts, from, part)
    && Reaches(CascadeGraph(c.cascades), part, to) && Withheld(policies, to)
  }

  lemma DeletesOnline(c: Catalogue, grants: set<Grant>, s: Statement)
    requires Allowed(c, grants, s)
    ensures DeletableOnline(c, grants, s.table)
  {
    hide Holds, Reaches;
  }

  lemma LosesRow(c: Catalogue, policies: Classification, grants: set<Grant>, from: string, part: string, to: string)
    returns (s: Statement, row: Row)
    requires Loses(c, policies, grants, from, part, to)
    ensures Allowed(c, grants, s) && Withheld(policies, row.table) && row in Closure(s.references, s.targets)
  {
    hide Reaches, Closure, Holds;
    var role :| role in ONLINE_ROLES && Holds(c, grants, role, from, Delete);
    row := Row(to, 0);
    s := Statement(role, from, {Row(part, 0)}, OneRowEach(c.cascades));
    TablesCascadeLikeRows(c.cascades, part, to);
  }

  /** Under the checks that enforcement makes, exactly the exposed catalogues lose a row. */
  lemma LosesExactly(c: Catalogue, policies: Classification, grants: set<Grant>)
    requires Sealed(c, policies, grants) && NoDirectCascade(c, policies)
    ensures (exists from, part, to :: Loses(c, policies, grants, from, part, to)) <==> Exposed(c, policies, grants)
  {
    hide Reaches, Holds, LeadsThroughUnclassified;
    if from, part, to :| Loses(c, policies, grants, from, part, to) {
      assert from !in WithheldTables(policies);
      if !Withheld(policies, part) {
        if part in policies {
          CascadesThroughUnclassified(c, policies, part, to);
        } else {
          StartsUnclassified(c, policies, part, to);
        }
      }
    }
    if from, part :| && !Withheld(policies, from) && DeletableOnline(c, grants, from) && Reaches(c.parts, from, part)
                     && (Withheld(policies, part) || Bridged(c, policies, part)) {
      if Withheld(policies, part) {
        ReachesSelf(CascadeGraph(c.cascades), part);
        assert Loses(c, policies, grants, from, part, part);
      } else {
        var to :| Withheld(policies, to) && LeadsThroughUnclassified(c, policies, part, to);
        UnclassifiedIsReached(c, policies, part, to);
        assert Loses(c, policies, grants, from, part, to);
      }
    }
  }

  lemma StartsUnclassified(c: Catalogue, policies: Classification, from: string, to: string)
    requires from !in policies && Reaches(CascadeGraph(c.cascades), from, to)
    ensures LeadsThroughUnclassified(c, policies, from, to)
  {
    hide Reaches;
    ReachesSelf(CascadeGraph(c.cascades), from);
  }

  lemma UnclassifiedIsReached(c: Catalogue, policies: Classification, from: string, to: string)
    requires LeadsThroughUnclassified(c, policies, from, to)
    ensures Reaches(CascadeGraph(c.cascades), from, to)
  {
    hide Reaches;
    var g := CascadeGraph(c.cascades);
    var u :| u !in policies && Reaches(g, from, u) && Reaches(g, u, to);
    ReachesTrans(g, from, u, to);
  }

  /** One permitted statement, on whatever relation, removes no row of a withheld table, unless exposed. */
  lemma StatementSparesWithheld(c: Catalogue, policies: Classification, grants: set<Grant>, s: Statement, row: Row)
    requires Sealed(c, policies, grants) && NoDirectCascade(c, policies) && !Exposed(c, policies, grants)
    requires Allowed(c, grants, s) && Withheld(policies, row.table)
    ensures row !in Closure(s.references, s.targets)
  {
    hide Allowed, Closure, Sealed, NoDirectCascade, Exposed, Loses;
    OneStatementExactly(c, policies, grants);
    LosesExactly(c, policies, grants);
  }

  /**
   * After a successful enforcement with nothing exposed, no sequence of DELETE statements by online
   * roles, on whatever relation, removes a row of a withheld table, through cascades of any depth.
   */
  lemma {:induction false} WithheldRowsSurvive(c: Catalogue, policies: Classification, grants: set<Grant>,
                                               rows: set<Row>, statements: seq<Statement>, row: Row)
    requires Enforceable(c, policies, grants) && !Exposed(c, policies, grants)
    requires AllAllowed(c, Revoked(c, grants, WithheldTables(policies)), statements)
    requires row in rows && Withheld(policies, row.table)
    ensures row in Remaining(rows, statements)
    decreases |statements|
  {
    hide Allowed, Sealed, Closure, Revoked, Exposed;
    if statements != [] {
      var last := statements[|statements| - 1];
      assert last in statements;
      assert forall s :: s in statements[..|statements| - 1] ==> s in statements;
      WithheldRowsSurvive(c, policies, grants, rows, statements[..|statements| - 1], row);
      ExposedAlike(c, policies, grants);
      StatementSparesWithheld(c, policies, Revoked(c, grants, WithheldTables(policies)), last, row);
    }
  }

  /** The revokes neither expose anything nor close a gap. */
  lemma ExposedAlike(c: Catalogue, policies: Classification, grants: set<Grant>)
    ensures Exposed(c, policies, Revoked(c, grants, WithheldTables(policies))) <==> Exposed(c, policies, grants)
  {
    hide Holds, Bridged, Revoked, Reaches;
    RevokeKeepsTheRest(c, policies, grants);
  }

  ghost predicate Safe(c: Catalogue, policies: Classification, grants: set<Grant>) {
    forall rows: set<Row>, statements, row: Row ::
      AllAllowed(c, grants, statements) && row in rows && Withheld(policies, row.table) ==>
          row in Remaining(rows, statements)
  }

  /** Enforcement makes every withheld row safe exactly when nothing was exposed before it. */
  lemma WithheldRowsSurviveExactly(c: Catalogue, policies: Classification, grants: set<Grant>)
    requires Enforceable(c, policies, grants)
    ensures Safe(c, policies, Revoked(c, grants, WithheldTables(policies))) <==> !Exposed(c, policies, grants)
  {
    var after := Revoked(c, grants, WithheldTables(policies));
    assert Sealed(c, policies, after) && NoDirectCascade(c, policies);
    hide Enforceable, Sealed, NoDirectCascade, Allowed, Exposed, Loses, Closure, Revoked;
    if Exposed(c, policies, grants) {
      ExposedAlike(c, policies, grants);
      LosesExactly(c, policies, after);
      OneStatementExactly(c, policies, after);
      var s, row: Row :|
        Allowed(c, after, s) && Withheld(policies, row.table) && row in Closure(s.references, s.targets);
      RemainingAfterOne({row}, s);
      assert AllAllowed(c, after, [s]) && row !in Remaining({row}, [s]);
    } else {
      forall rows: set<Row>, statements, row: Row
        | AllAllowed(c, after, statements) && row in rows && Withheld(policies, row.table)
        ensures row in Remaining(rows, statements)
      {
        WithheldRowsSurvive(c, policies, grants, rows, statements, row);
      }
    }
  }

  lemma RemainingAfterOne(rows: set<Row>, s: Statement)
    ensures Remaining(rows, [s]) == rows - Closure(s.references, s.targets)
  {
    assert [s][..0] == [];
    assert Remaining(rows, []) == rows;
  }

  const EXAMPLE_REFERENCES := Chained(Row("t", 0), Row("q", 0), Row("w", 0))

  function Chained(x: Row, y: Row, z: Row): Graph<Row> {
    map[x := {y}, y := {z}]
  }

  lemma ChainedReaches(x: Row, y: Row, z: Row, from: Row)
    requires x != y && from in {x, y}
    ensures forall a, b :: b in Next(Chained(x, y, z), a) ==> (a == x && b == y) || (a == y && b == z)
    ensures z in Closure(Chained(x, y, z), {from})
  {
    hide Closure;
    ClosureIsLeast(Chained(x, y, z), {from});
    assert y in Next(Chained(x, y, z), x) && z in Next(Chained(x, y, z), y);
  }

  /**
   * A row lost after a successful enforcement: deleting in "t" cascades through "q", which is not
   * classified, to "w"; and where "q" itself is deletable, one edge is enough.
   */
  lemma UnclassifiedRelationLosesRow(from: string)
    requires from in {"t", "q"}
    ensures Enforceable(EXAMPLE, EXAMPLE_POLICIES, EXAMPLE_GRANTS) && Withheld(EXAMPLE_POLICIES, "w")
    ensures var s := Statement("app_user", from, {Row(from, 0)}, EXAMPLE_REFERENCES);
            && Allowed(EXAMPLE, Revoked(EXAMPLE, EXAMPLE_GRANTS, WithheldTables(EXAMPLE_POLICIES)), s)
            && Row("w", 0) !in Remaining({Row("w", 0)}, [s])
  {
    ExampleEnforceable();
    ExampleDeletable(from);
    ExampleReferences(from);
    ReachesSelf(EXAMPLE.parts, from);
    hide Closure, Reaches, Holds, Revoked, Enforceable, EXAMPLE, EXAMPLE_GRANTS, EXAMPLE_REFERENCES;
    RemainingAfterOne({Row("w", 0)}, Statement("app_user", from, {Row(from, 0)}, EXAMPLE_REFERENCES));
  }

  lemma ExampleDeletable(from: string)
    requires from in {"t", "q"}
    ensures Holds(EXAMPLE, Revoked(EXAMPLE, EXAMPLE_GRANTS, WithheldTables(EXAMPLE_POLICIES)), "app_user", from, Delete)
  {
    assert "t"[0] == 't' && "w"[0] == 'w' && "q"[0] == 'q';
    RevokeKeepsTheRest(EXAMPLE, EXAMPLE_POLICIES, EXAMPLE_GRANTS);
    hide Revoked;
    var g := Grant(from, Role("app_user"), Delete, "app_admin");
    assert g in EXAMPLE_GRANTS && Gives(EXAMPLE, g, "app_user");
  }

  lemma ExampleReferences(from: string)
    requires from in {"t", "q"}
    ensures forall x, y :: y in Next(EXAMPLE_REFERENCES, x) ==> Cascade(y.table, x.table) in EXAMPLE.cascades
    ensures Row("w", 0) in Closure(EXAMPLE_REFERENCES, {Row(from, 0)})
  {
    var t, q, w := Row("t", 0), Row("q", 0), Row("w", 0);
    assert t != q by {
      assert "t"[0] != "q"[0];
    }
    assert Cascade(q.table, t.table) in EXAMPLE.cascades && Cascade(w.table, q.table) in EXAMPLE.cascades;
    hide Chained, Closure;
    ChainedReaches(t, q, w, Row(from, 0));
  }

  /** Two classified tables, the withheld one inheriting from the other, and no foreign key. */
  const PARTS_EXAMPLE := EXAMPLE.(parts := map["t" := {"w"}], cascades := {})

  /** A row lost although everything is classified: deleting in "t" includes its part "w". */
  lemma WithheldPartLosesRow()
    ensures Enforceable(PARTS_EXAMPLE, EXAMPLE_POLICIES, EXAMPLE_GRANTS) && Withheld(EXAMPLE_POLICIES, "w")
    ensures var s := Statement("app_user", "t", {Row("w", 0)}, map[]);
            && Allowed(PARTS_EXAMPLE, Revoked(PARTS_EXAMPLE, EXAMPLE_GRANTS, WithheldTables(EXAMPLE_POLICIES)), s)
            && Row("w", 0) !in Remaining({Row("w", 0)}, [s])
  {
    ExampleEnforceable();
    ExampleDeletable("t");
    PartsDoNotMatter(EXAMPLE, PARTS_EXAMPLE, EXAMPLE_POLICIES, EXAMPLE_GRANTS);
    ExamplePart();
    hide Closure, Reaches, Holds, Revoked, Enforceable, EXAMPLE, PARTS_EXAMPLE, EXAMPLE_GRANTS;
    DirectTarget(Statement("app_user", "t", {Row("w", 0)}, map[]), Row("w", 0));
  }

  lemma ExamplePart()
    ensures Reaches(PARTS_EXAMPLE.parts, "t", "w")
  {
    hide Reaches;
    ReachesSelf(PARTS_EXAMPLE.parts, "t");
    ReachesStep(PARTS_EXAMPLE.parts, "t", "t", "w");
  }

  lemma DirectTarget(s: Statement, row: Row)
    requires row in s.targets
    ensures row !in Remaining({row}, [s])
  {
    hide Closure;
    ClosureIsLeast(s.references, s.targets);
    RemainingAfterOne({row}, s);
  }

  /** The checks do not look at parts. */
  lemma PartsDoNotMatter(c: Catalogue, d: Catalogue, policies: Classification, grants: set<Grant>)
    requires d == c.(parts := d.parts, cascades := {}) && Enforceable(c, policies, grants)
    ensures Enforceable(d, policies, grants)
    ensures forall r, t, p :: Holds(c, Revoked(c, grants, WithheldTables(policies)), r, t, p) ==>
              Holds(d, Revoked(d, grants, WithheldTables(policies)), r, t, p)
  {
    assert forall g, r :: Gives(c, g, r) <==> Gives(d, g, r);
    assert Revoked(c, grants, WithheldTables(policies)) == Revoked(d, grants, WithheldTables(policies));
    forall after: set<Grant>, r, t, p ensures Holds(c, after, r, t, p) <==> Holds(d, after, r, t, p) {
    }
    hide Holds, Revoked;
  }
}
