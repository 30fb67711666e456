// Issuing and spending transition permissions: a durable claim made by exclusive creation, a
// permission held in process memory, and its removal when the upgrade returns. Runs interleave any
// number of upgrades and presentations with process crashes.
module TransitionProtocol {
  import opened RevisionGraph
  import opened TransitionGuard
  import opened Wrappers

  /** The retained document whose exclusive creation consumes one execution attempt. */
  datatype Claim = Claim(requestDigest: string, hostNonce: string, treeDigest: string)

  datatype Issue = Issue(claim: Claim, binding: Binding)

  datatype Admission = Admission(permission: nat, deploy: Deploy)

  /**
   * `claims` is durable and `live` is the process's own table; `issued` and `admitted` are the
   * history. A permission is the number of its issue: no two issues share an object.
   */
  datatype World = World(claims: set<Claim>, live: map<nat, Binding>, issued: seq<Issue>, admitted: seq<Admission>)

  datatype Step =
    | Issuing(claim: Claim, binding: Binding)
    | ClaimedThenStopped(claim: Claim)
    | ClaimedThenCrashed(claim: Claim)
    | Present(permission: nat, deploy: Deploy)
    | Return(permission: nat)
    | Crash

  const START := World({}, map[], [], [])

  function Take(w: World, step: Step): World {
    match step
    case Issuing(claim, binding) =>
      if claim in w.claims then w
      else
        w.(claims := w.claims + {claim}, live := w.live[|w.issued| := binding],
           issued := w.issued + [Issue(claim, binding)])
    case ClaimedThenStopped(claim) => w.(claims := w.claims + {claim})
    case ClaimedThenCrashed(claim) => w.(claims := w.claims + {claim}, live := map[])
    case Present(permission, deploy) =>
      w.(live := w.live - {permission},
         admitted := if permission in w.live && Matches(w.live[permission], deploy)
                     then w.admitted + [Admission(permission, deploy)] else w.admitted)
    case Return(permission) => w.(live := w.live - {permission})
    case Crash => w.(live := map[])
  }

  function Run(w: World, steps: seq<Step>): World
    decreases |steps|
  {
    if steps == [] then w else Take(Run(w, steps[..|steps| - 1]), steps[|steps| - 1])
  }

  ghost predicate AdmissionsBound(w: World) {
    forall i :: 0 <= i < |w.admitted| ==>
      w.admitted[i].permission < |w.issued| && Matches(w.issued[w.admitted[i].permission].binding, w.admitted[i].deploy)
  }

  ghost predicate AdmissionsDistinct(w: World) {
    forall i, j :: 0 <= i < j < |w.admitted| ==> w.admitted[i].permission != w.admitted[j].permission
  }

  ghost predicate IssuesDistinct(w: World) {
    && (forall i :: 0 <= i < |w.issued| ==> w.issued[i].claim in w.claims)
    && (forall i, j :: 0 <= i < j < |w.issued| ==> w.issued[i].claim != w.issued[j].claim)
  }

  ghost predicate LiveUnspent(w: World) {
    && (forall p :: p in w.live ==> p < |w.issued| && w.live[p] == w.issued[p].binding)
    && (forall i :: 0 <= i < |w.admitted| ==> w.admitted[i].permission !in w.live)
  }

  ghost predicate Valid(w: World) {
    AdmissionsBound(w) && AdmissionsDistinct(w) && IssuesDistinct(w) && LiveUnspent(w)
  }

  lemma StepKeepsAdmissions(w: World, step: Step)
    requires Valid(w)
    ensures AdmissionsBound(Take(w, step)) && AdmissionsDistinct(Take(w, step))
  {
    hide Matches;
  }

  lemma StepKeepsIssues(w: World, step: Step)
    requires Valid(w)
    ensures IssuesDistinct(Take(w, step)) && LiveUnspent(Take(w, step))
  {
    hide Matches;
  }

  /**
   * In every run from the start: each permission admits at most one deploy, and only one that
   * matches what the permission was bound to when issued; each claim is issued at most once.
   */
  lemma {:induction false} EveryRunIsValid(steps: seq<Step>)
    ensures Valid(Run(START, steps))
    decreases |steps|
  {
    if steps != [] {
      EveryRunIsValid(steps[..|steps| - 1]);
      hide Take, AdmissionsBound, AdmissionsDistinct, IssuesDistinct, LiveUnspent;
      StepKeepsAdmissions(Run(START, steps[..|steps| - 1]), steps[|steps| - 1]);
      StepKeepsIssues(Run(START, steps[..|steps| - 1]), steps[|steps| - 1]);
    }
  }

  /** Issued, and no longer held: it can never be presented successfully again. */
  predicate Spent(w: World, permission: nat) {
    permission < |w.issued| && permission !in w.live
  }

  ghost predicate AdmittedWith(w: World, permission: nat) {
    exists i :: 0 <= i < |w.admitted| && w.admitted[i].permission == permission
  }

  /** A spent permission stays spent and admits nothing more, whatever follows. */
  lemma {:induction false} SpentForGood(w: World, permission: nat, steps: seq<Step>)
    requires Spent(w, permission)
    ensures Spent(Run(w, steps), permission)
    ensures AdmittedWith(Run(w, steps), permission) <==> AdmittedWith(w, permission)
    decreases |steps|
  {
    hide Matches;
    if steps != [] {
      var before := Run(w, steps[..|steps| - 1]);
      SpentForGood(w, permission, steps[..|steps| - 1]);
      SpentStep(before, permission, steps[|steps| - 1]);
    }
  }

  lemma SpentStep(w: World, permission: nat, step: Step)
    requires Spent(w, permission)
    ensures Spent(Take(w, step), permission)
    ensures AdmittedWith(Take(w, step), permission) <==> AdmittedWith(w, permission)
  {
    var after := Take(w, step);
    if i :| 0 <= i < |w.admitted| && w.admitted[i].permission == permission {
      assert after.admitted[i] == w.admitted[i];
    }
  }

  predicate Spends(step: Step, permission: nat) {
    step == Crash || step.ClaimedThenCrashed? || step == Return(permission)
        || (step.Present? && step.permission == permission)
  }

  /** Until a step spends it, a permission is held with its binding and has admitted nothing new. */
  lemma {:induction false} HeldUntilSpent(w: World, permission: nat, steps: seq<Step>)
    requires permission in w.live && permission < |w.issued|
    requires forall i :: 0 <= i < |steps| ==> !Spends(steps[i], permission)
    ensures var after := Run(w, steps);
            && permission in after.live && after.live[permission] == w.live[permission] && |w.issued| <= |after.issued|
            && (AdmittedWith(after, permission) <==> AdmittedWith(w, permission))
    decreases |steps|
  {
    if steps != [] {
      HeldUntilSpent(w, permission, steps[..|steps| - 1]);
      assert !Spends(steps[|steps| - 1], permission);
      HeldStep(Run(w, steps[..|steps| - 1]), permission, steps[|steps| - 1]);
    }
  }

  lemma HeldStep(w: World, permission: nat, step: Step)
    requires permission in w.live && permission < |w.issued| && !Spends(step, permission)
    ensures var after := Take(w, step);
            && permission in after.live && after.live[permission] == w.live[permission] && |w.issued| <= |after.issued|
            && (AdmittedWith(after, permission) <==> AdmittedWith(w, permission))
  {
    hide Matches;
    var after := Take(w, step);
    if i :| 0 <= i < |w.admitted| && w.admitted[i].permission == permission {
      assert after.admitted[i] == w.admitted[i];
    }
  }

  lemma {:induction false} RunConcat(w: World, a: seq<Step>, b: seq<Step>)
    ensures Run(w, a + b) == Run(Run(w, a), b)
    decreases |b|
  {
    if b == [] {
      assert a + b == a;
    } else {
      assert (a + b)[..|a + b| - 1] == a + b[..|b| - 1];
      RunConcat(w, a, b[..|b| - 1]);
    }
  }

  /**
   * A permission is spent by the first step that presents it, matched or not, returns it, or loses
   * the process; and it admits a deploy exactly when that step presents a matching one.
   */
  lemma FirstSpenderDecides(w: World, permission: nat, steps: seq<Step>, i: nat)
    requires Valid(w) && permission in w.live
    requires i < |steps| && Spends(steps[i], permission) && forall j :: 0 <= j < i ==> !Spends(steps[j], permission)
    ensures Spent(Run(w, steps), permission)
    ensures AdmittedWith(Run(w, steps), permission)
       <==> steps[i].Present? && Matches(w.live[permission], steps[i].deploy)
  {
    hide Matches, Take;
    var before := Run(w, steps[..i]);
    HeldUntilSpent(w, permission, steps[..i]);
    SpendingStep(before, permission, steps[i]);
    assert steps[..i + 1] == steps[..i] + [steps[i]];
    RunOne(w, steps[..i], steps[i]);
    SpentForGood(Take(before, steps[i]), permission, steps[i + 1..]);
    RunConcat(w, steps[..i + 1], steps[i + 1..]);
    assert steps == steps[..i + 1] + steps[i + 1..];
    assert !AdmittedWith(w, permission);
  }

  lemma SpendingStep(w: World, permission: nat, step: Step)
    requires permission in w.live && permission < |w.issued| && Spends(step, permission)
    ensures Spent(Take(w, step), permission)
    ensures AdmittedWith(Take(w, step), permission)
       <==> AdmittedWith(w, permission) || (step.Present? && Matches(w.live[permission], step.deploy))
  {
    hide Matches;
    var after := Take(w, step);
    if i :| 0 <= i < |w.admitted| && w.admitted[i].permission == permission {
      assert after.admitted[i] == w.admitted[i];
    }
    if step.Present? && Matches(w.live[permission], step.deploy) {
      assert after.admitted[|w.admitted|].permission == permission;
    }
  }

  /** A claim once taken is never issued again, even after a crash between claim and issue. */
  lemma {:induction false} ClaimIsFinal(w: World, claim: Claim, steps: seq<Step>)
    requires claim in w.claims
    ensures var after := Run(w, steps);
            && claim in after.claims && w.issued <= after.issued
            && forall i :: |w.issued| <= i < |after.issued| ==> after.issued[i].claim != claim
    decreases |steps|
  {
    if steps != [] {
      ClaimIsFinal(w, claim, steps[..|steps| - 1]);
    }
  }

  /** Whatever takes a claim, an issue or an attempt that stopped or crashed before it, no run issues it afterwards. */
  lemma ClaimedOnce(w: World, claim: Claim, step: Step, steps: seq<Step>)
    requires step.ClaimedThenStopped? || step.ClaimedThenCrashed? || step.Issuing?
    requires step.claim == claim
    ensures var taken, after := Take(w, step), Run(Take(w, step), steps);
            forall i :: |taken.issued| <= i < |after.issued| ==> after.issued[i].claim != claim
  {
    hide Run;
    ClaimIsFinal(Take(w, step), claim, steps);
  }

  // -------------------------------------------------------------------------------- the owner

  /** What one call of the deploy guard does: it presents the permission, or leaves the world as it was. */
  ghost function GuardSteps(s: Script, d: Deploy): seq<Step> {
    if Inspected(s, d) && d.permission.Some? then [Present(d.permission.value, d)] else []
  }

  ghost function AllGuardSteps(s: Script, deploys: seq<Deploy>): seq<Step>
    decreases |deploys|
  {
    if deploys == [] then []
    else AllGuardSteps(s, deploys[..|deploys| - 1]) + GuardSteps(s, deploys[|deploys| - 1])
  }

  /** Admission with a permission is an admission of the run; admission without one is not. */
  lemma GuardAdmits(s: Script, d: Deploy, w: World)
    ensures var after := Run(w, GuardSteps(s, d));
            after.admitted == if Inspected(s, d) && d.permission.Some? && Admissible(s, d, w.live)
                              then w.admitted + [Admission(d.permission.value, d)] else w.admitted
    ensures Run(w, GuardSteps(s, d)) ==
              if Inspected(s, d) && d.permission.Some? then Take(w, Present(d.permission.value, d)) else w
  {
    hide Matches, Ancestry, Incomparable;
    if Inspected(s, d) && d.permission.Some? {
      RunOne(w, [], Present(d.permission.value, d));
    }
  }

  class TransitionOwner {
    const table: PermissionTable
    var claims: set<Claim>
    var issued: seq<Issue>
    var admitted: seq<Admission>

    ghost function View(): World
      reads this, table
    {
      World(claims, table.live, issued, admitted)
    }

    constructor ()
      ensures View() == START && fresh(table)
    {
      table := new PermissionTable();
      claims, issued, admitted := {}, [], [];
    }

    /** The deploy guard of an upgrade run in this process. */
    method Guard(s: Script, d: Deploy) returns (refusal: Option<TransitionGuard.Refusal>)
      requires Loaded(s)
      modifies this`admitted, table
      ensures refusal == None <==> Admissible(s, d, old(table.live))
      ensures View() == Run(old(View()), GuardSteps(s, d))
      ensures issued == old(issued)
    {
      hide Matches, Ancestry, Incomparable, Run;
      GuardAdmits(s, d, View());
      refusal := table.RequireDeployTransition(s, d);
      if refusal == None && d.permission.Some? && d.heads != [] {
        admitted := admitted + [Admission(d.permission.value, d)];
      }
    }

    /** Create the claim exclusively, then store a new permission. */
    method IssuePermission(claim: Claim, binding: Binding) returns (permission: nat)
      requires claim !in claims
      modifies this`claims, this`issued, table
      ensures View() == Take(old(View()), Issuing(claim, binding))
      ensures permission == |old(issued)| && |issued| == permission + 1 && permission in table.live
    {
      permission := |issued|;
      claims := claims + {claim};
      table.live := table.live[permission := binding];
      issued := issued + [Issue(claim, binding)];
    }

    method RemovePermission(permission: nat)
      modifies table
      ensures View() == Take(old(View()), Return(permission))
      ensures permission !in table.live
    {
      table.live := table.live - {permission};
    }

    /**
     * The issue, use and cleanup part of `native_upgrade`; `deploys` is what the upgrade it runs,
     * and anything else in the process meanwhile, brings before the guard. An asynchronous exception
     * before the block that removes the permission is entered, or within its `finally` clause before
     * the removal, ends the upgrade without it: then `removed` is false.
     */
    method NativeUpgrade(claim: Claim, binding: Binding, s: Script, deploys: seq<Deploy>, removed: bool)
      returns (permission: Option<nat>)
      requires Loaded(s)
      modifies this, table
      ensures permission == None <==> claim in old(claims)
      ensures permission == None ==> View() == old(View())
      ensures permission.Some? ==>
                && permission.value == |old(issued)|
                && View() == Run(old(View()), UpgradeSteps(claim, binding, permission.value, s, deploys, removed))
                && (Spent(View(), permission.value) <==> removed || Presented(s, deploys, permission.value))
    {
      if claim in claims {
        return None;
      }
      hide Take, Run, UpgradeSteps, AllGuardSteps, Loaded, Presented;
      ghost var start := View();
      var p := IssuePermission(claim, binding);
      UpgradeRuns(start, claim, binding, p, s, deploys);
      SpentByGuards(View(), p, s, deploys);
      Deploys(s, deploys);
      if removed {
        RemovePermission(p);
      }
      permission := Some(p);
    }

    /** What is brought before the guard while the permission is held. */
    method Deploys(s: Script, deploys: seq<Deploy>)
      requires Loaded(s)
      modifies this`admitted, table
      ensures View() == Run(old(View()), AllGuardSteps(s, deploys)) && issued == old(issued)
    {
      hide Take, GuardSteps, Admissible, Loaded;
      ghost var start := View();
      for k := 0 to |deploys|
        invariant View() == Run(start, AllGuardSteps(s, deploys[..k])) && issued == old(issued)
      {
        var _ := Guard(s, deploys[k]);
        RunConcat(start, AllGuardSteps(s, deploys[..k]), GuardSteps(s, deploys[k]));
        AllGuardStepsNext(s, deploys, k);
      }
      assert deploys[..|deploys|] == deploys;
    }
  }

  /** The permission is shown in a deploy that the guard inspects. */
  ghost predicate Presented(s: Script, deploys: seq<Deploy>, permission: nat) {
    exists k :: 0 <= k < |deploys| && Presents(s, deploys[k], permission)
  }

  ghost predicate Presents(s: Script, d: Deploy, permission: nat) {
    Inspected(s, d) && d.permission == Some(permission)
  }

  /** A permission that is held is spent by calls of the guard exactly when one of them presents it. */
  lemma {:induction false} SpentByGuards(w: World, permission: nat, s: Script, deploys: seq<Deploy>)
    requires permission in w.live && permission < |w.issued|
    ensures var after := Run(w, AllGuardSteps(s, deploys));
            && permission < |after.issued|
            && (Spent(after, permission) <==> Presented(s, deploys, permission))
    decreases |deploys|
  {
    hide Take, Run, Presents, GuardSteps;
    if deploys == [] {
      assert Run(w, []) == w by { RunNone(w); }
    } else {
      var earlier, last := deploys[..|deploys| - 1], deploys[|deploys| - 1];
      SpentByGuards(w, permission, s, earlier);
      RunConcat(w, AllGuardSteps(s, earlier), GuardSteps(s, last));
      SpentByGuard(Run(w, AllGuardSteps(s, earlier)), permission, s, last);
      PresentedLast(s, deploys, permission);
    }
  }

  lemma RunNone(w: World)
    ensures Run(w, []) == w
  {
  }

  lemma PresentedLast(s: Script, deploys: seq<Deploy>, permission: nat)
    requires deploys != []
    ensures Presented(s, deploys, permission)
       <==> Presented(s, deploys[..|deploys| - 1], permission) || Presents(s, deploys[|deploys| - 1], permission)
  {
    hide Presents;
    var earlier := deploys[..|deploys| - 1];
    if k :| 0 <= k < |earlier| && Presents(s, earlier[k], permission) {
      assert Presents(s, deploys[k], permission);
    }
    if k :| 0 <= k < |deploys| && Presents(s, deploys[k], permission) {
      assert k == |earlier| || Presents(s, earlier[k], permission);
    }
  }

  lemma SpentByGuard(w: World, permission: nat, s: Script, d: Deploy)
    requires permission < |w.issued|
    ensures var after := Run(w, GuardSteps(s, d));
            && permission < |after.issued|
            && (Spent(after, permission) <==> Spent(w, permission) || Presents(s, d, permission))
  {
    hide Inspected, Matches;
    GuardAdmits(s, d, w);
  }

  lemma UpgradeRuns(w: World, claim: Claim, binding: Binding, permission: nat, s: Script, deploys: seq<Deploy>)
    ensures var after := Run(Take(w, Issuing(claim, binding)), AllGuardSteps(s, deploys));
            && after == Run(w, UpgradeSteps(claim, binding, permission, s, deploys, false))
            && Take(after, Return(permission)) == Run(w, UpgradeSteps(claim, binding, permission, s, deploys, true))
  {
    hide Take, AllGuardSteps;
    var issuing, during := [Issuing(claim, binding)], AllGuardSteps(s, deploys);
    RunOne(w, [], Issuing(claim, binding));
    RunConcat(w, issuing, during);
    RunOne(w, issuing + during, Return(permission));
    assert issuing + during + [] == issuing + during;
  }

  lemma RunOne(w: World, steps: seq<Step>, step: Step)
    ensures Run(w, steps + [step]) == Take(Run(w, steps), step)
    ensures steps == [] ==> Run(w, [step]) == Take(w, step)
  {
    hide Take;
    assert (steps + [step])[..|steps|] == steps;
    assert steps == [] ==> steps + [step] == [step];
  }

  lemma AllGuardStepsNext(s: Script, deploys: seq<Deploy>, k: nat)
    requires k < |deploys|
    ensures AllGuardSteps(s, deploys[..k + 1]) == AllGuardSteps(s, deploys[..k]) + GuardSteps(s, deploys[k])
  {
    hide GuardSteps;
    assert deploys[..k + 1][..k] == deploys[..k];
  }

  ghost function UpgradeSteps(claim: Claim, binding: Binding, permission: nat, s: Script, deploys: seq<Deploy>,
                              removed: bool): seq<Step>
  {
    [Issuing(claim, binding)] + AllGuardSteps(s, deploys) + if removed then [Return(permission)] else []
  }
}
