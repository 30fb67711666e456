// Downloading one artifact: staged, checked, linked into place without overwriting, and rolled
// back when the staging directory cannot be removed. Every step may fail, and another process may
// create the target at any moment at which nothing is there. An asynchronous exception, which only
// the first of the two handlers catches, may arrive at any moment as well.
module StagedPublication {
  import opened Bytes
  import opened Wrappers

  const ARTIFACT_MAX_BYTES := 0x800_0000 // 128 MiB

  /** What the transfer left in the staging directory. */
  datatype Landed = Nothing | SymbolicLink | Regular(bytes: seq<byte>)

  /** When an asynchronous exception arrives, if that moment is reached: `Cleaning` lasts until the return. */
  datatype Interrupt = Never | BeforeLink | AfterLink | Cleaning | BeforeUnlink | AfterUnlink

  /** How each step of one call goes, and what other processes put at the target meanwhile. */
  datatype Steps = Steps(
    stagingMade: bool, chmodOk: bool, curlExit: int, status: string, landed: Landed, readable: bool,
    linkOk: bool, stagingRemoved: bool, unlinkOk: bool, interrupt: Interrupt,
    beforeCheck: Option<seq<byte>>, beforeLink: Option<seq<byte>>, atEnd: Option<seq<byte>>)

  datatype Reason =
    | OsFailure | CurlFailed | Redirected | BadStatus | NoRegularFile | TooLarge | DigestMismatch
    | TargetExists | TargetAppeared | LinkFailed | RolledBack | Stopped

  datatype Outcome =
    | Fetched(digest: string)
    | Failed(reason: Reason)
    | PublishedArtifactUnrecorded
    | Interrupted

  /** The target path: what is there now, and what others, rather than these calls, have put there. */
  datatype Path = Path(target: Option<seq<byte>>, foreign: Option<seq<byte>>)

  /** The staged bytes passed every check made before publication. */
  predicate Verified(steps: Steps, bytes: seq<byte>, expected: Option<string>, sha256: seq<byte> -> string) {
    && steps.stagingMade && steps.chmodOk && steps.readable
    && steps.curlExit == 0 && steps.status == "200"
    && steps.landed == Regular(bytes) && |bytes| <= ARTIFACT_MAX_BYTES
    && (expected.Some? ==> sha256(bytes) == expected.value)
  }

  /** The call gets as far as linking the staged bytes to the target. */
  ghost predicate Links(before: Path, steps: Steps, expected: Option<string>, sha256: seq<byte> -> string) {
    && before.target == steps.beforeCheck == steps.beforeLink == None && steps.linkOk && steps.interrupt != BeforeLink
    && exists bytes :: Verified(steps, bytes, expected, sha256)
  }

  /** Once linked, the artifact stays at its path although the call was interrupted. */
  predicate StaysPublished(steps: Steps) {
    match steps.interrupt
    case AfterLink | Cleaning => true
    case BeforeUnlink => !steps.stagingRemoved
    case AfterUnlink => !steps.stagingRemoved && !steps.unlinkOk
    case _ => false
  }

  /** What one call may do: the outcome, exactly, from the steps and the path before and after. */
  ghost predicate Call(before: Path, steps: Steps, expected: Option<string>, sha256: seq<byte> -> string,
                       outcome: Outcome, after: Path)
  {
    match outcome
    case Fetched(digest) =>
      && before.target == None && after.foreign == before.foreign
      && steps.stagingRemoved && !StaysPublished(steps)
      && exists bytes ::
           Verified(steps, bytes, expected, sha256) && after.target == Some(bytes) && digest == sha256(bytes)
    case PublishedArtifactUnrecorded =>
      && before.target == None && after.foreign == before.foreign
      && !steps.stagingRemoved && !steps.unlinkOk && !StaysPublished(steps)
      && exists bytes :: Verified(steps, bytes, expected, sha256) && after.target == Some(bytes)
    case Interrupted =>
      && before.target == None && after.foreign == before.foreign && StaysPublished(steps)
      && exists bytes :: Verified(steps, bytes, expected, sha256) && after.target == Some(bytes)
    case Failed(reason) =>
      if before.target.Some? then after == before
      else
        && after.target == after.foreign
        && (after.foreign.Some? ==> after.foreign in {steps.beforeCheck, steps.beforeLink, steps.atEnd})
  }

  /**
   * One of the promised outcomes: the bytes at the target have the digest returned, or an artifact
   * that could not be rolled back is reported, or the call raises and the target is as it was, or as others left it.
   */
  ghost predicate Promised(before: Path, steps: Steps, sha256: seq<byte> -> string, outcome: Outcome, after: Path) {
    match outcome
    case Fetched(digest) => exists bytes :: after.target == Some(bytes) && digest == sha256(bytes)
    case PublishedArtifactUnrecorded => after.target.Some? && !steps.stagingRemoved && !steps.unlinkOk
    case _ => after.target == if before.target.Some? then before.target else after.foreign
  }

  /** A call that links gives a promised outcome exactly when no interrupt leaves its artifact behind. */
  lemma PromisedExactly(before: Path, steps: Steps, expected: Option<string>, sha256: seq<byte> -> string,
                        outcome: Outcome, after: Path)
    requires before.foreign.Some? ==> before.target == before.foreign
    requires Call(before, steps, expected, sha256, outcome, after)
    requires outcome == Interrupted <==> Links(before, steps, expected, sha256) && StaysPublished(steps)
    ensures Promised(before, steps, sha256, outcome, after)
        <==> !(Links(before, steps, expected, sha256) && StaysPublished(steps))
  {
    hide Verified, StaysPublished;
    if before.target.None? && outcome == Interrupted {
      assert after.foreign == None && after.target.Some?;
    }
  }

  /** What passing all the checks comes to. */
  lemma VerifiedByFields(steps: Steps, expected: Option<string>, sha256: seq<byte> -> string)
    ensures (exists bytes :: Verified(steps, bytes, expected, sha256))
       <==> && steps.stagingMade && steps.chmodOk && steps.curlExit == 0 && steps.status == "200" && steps.readable
            && steps.landed.Regular? && |steps.landed.bytes| <= 134217728
            && (expected.Some? ==> sha256(steps.landed.bytes) == expected.value)
    ensures forall bytes :: Verified(steps, bytes, expected, sha256) ==> steps.landed == Regular(bytes)
  {
    if steps.landed.Regular? {
      var bytes := steps.landed.bytes;
      assert Verified(steps, bytes, expected, sha256)
        <==> && steps.stagingMade && steps.chmodOk && steps.curlExit == 0 && steps.status == "200" && steps.readable
             && |bytes| <= 134217728 && (expected.Some? ==> sha256(bytes) == expected.value);
    }
  }

  lemma NothingStaged(steps: Steps, expected: Option<string>, sha256: seq<byte> -> string)
    requires !steps.stagingMade
    ensures forall bytes :: !Verified(steps, bytes, expected, sha256)
  {
  }

  /** What each refusal of a finished transfer says about it: the first check that fails. */
  predicate ChecksFail(steps: Steps, expected: Option<string>, sha256: seq<byte> -> string, reason: Reason) {
    match reason
    case OsFailure =>
      !steps.chmodOk || (steps.curlExit == 0 && steps.status == "200" && steps.landed.Regular? && !steps.readable)
    case CurlFailed => steps.chmodOk && steps.curlExit != 0
    case Redirected =>
      && steps.chmodOk && steps.curlExit == 0 && steps.status != "200"
      && steps.status != "" && steps.status[0] == '3'
    case BadStatus =>
      && steps.chmodOk && steps.curlExit == 0 && steps.status != "200"
      && (steps.status != "" ==> steps.status[0] != '3')
    case NoRegularFile => steps.chmodOk && steps.curlExit == 0 && steps.status == "200" && !steps.landed.Regular?
    case TooLarge =>
      && steps.chmodOk && steps.curlExit == 0 && steps.status == "200" && steps.readable
      && steps.landed.Regular? && |steps.landed.bytes| > 134217728
    case DigestMismatch =>
      && steps.chmodOk && steps.curlExit == 0 && steps.status == "200" && steps.readable
      && steps.landed.Regular? && |steps.landed.bytes| <= 134217728
      && expected.Some? && sha256(steps.landed.bytes) != expected.value
    case _ => false
  }

  class Destination {
    var target: Option<seq<byte>>
    var staging: Option<Landed>
    ghost var foreign: Option<seq<byte>>

    ghost function View(): Path
      reads this
    {
      Path(target, foreign)
    }

    /** Nobody else removes what another process put there. */
    ghost predicate Valid()
      reads this
    {
      foreign.Some? ==> target == foreign
    }

    constructor (initial: Option<seq<byte>>)
      ensures Valid() && target == foreign == initial && staging == None
    {
      target, foreign, staging := initial, initial, None;
    }

    /** Another process creates the target, if nothing is there. */
    method Arrival(bytes: Option<seq<byte>>)
      modifies this`target, this`foreign
      ensures if old(target) == None && bytes.Some?
              then target == foreign == bytes
              else target == old(target) && foreign == old(foreign)
    {
      if target == None && bytes.Some? {
        target := bytes;
        foreign := bytes;
      }
    }

    /** `os.link` refuses to overwrite; nothing else here writes the target. */
    method PublishAtomically(bytes: seq<byte>, steps: Steps) returns (failure: Option<Reason>)
      modifies this`target, this`foreign
      ensures failure == None <==>
                old(target) == None && steps.beforeCheck == None && steps.beforeLink == None && steps.linkOk
      ensures failure == None ==> target == Some(bytes) && foreign == old(foreign)
      ensures failure !in {Some(RolledBack), Some(Stopped)}
      ensures failure == Some(TargetExists) <==> old(target).Some? || steps.beforeCheck.Some?
      ensures failure.Some? ==> failure.value in {TargetExists, TargetAppeared, LinkFailed}
      ensures failure == Some(LinkFailed) ==> !steps.linkOk
      ensures failure == Some(TargetAppeared) <==> old(target) == steps.beforeCheck == None && steps.beforeLink.Some?
      ensures failure.Some? && old(target).Some? ==> target == old(target) && foreign == old(foreign)
      ensures failure.Some? && old(target) == None ==>
                var arrived := if steps.beforeCheck.Some? then steps.beforeCheck else steps.beforeLink;
                target == arrived && foreign == if arrived.Some? then arrived else old(foreign)
    {
      Arrival(steps.beforeCheck);
      if target.Some? {
        return Some(TargetExists);
      }
      Arrival(steps.beforeLink);
      if target.Some? {
        return Some(TargetAppeared);
      }
      if !steps.linkOk {
        return Some(LinkFailed);
      }
      target := Some(bytes);
      failure := None;
    }

    /** The checks on a finished transfer, in order. */
    method Check(steps: Steps, expected: Option<string>, sha256: seq<byte> -> string)
      returns (r: Result<seq<byte>, Reason>)
      requires steps.stagingMade
      ensures r.Ok? ==> Verified(steps, r.value, expected, sha256)
      ensures r.Err? ==> r.error !in {RolledBack, Stopped} && forall bytes :: !Verified(steps, bytes, expected, sha256)
      ensures r.Ok? ==>
                && steps.chmodOk && steps.curlExit == 0 && steps.status == "200" && steps.readable
                && steps.landed == Regular(r.value) && |r.value| <= 134217728
                && (expected.Some? ==> sha256(r.value) == expected.value)
      ensures r.Err? ==> ChecksFail(steps, expected, sha256, r.error)
    {
      if !steps.chmodOk {
        return Err(OsFailure);
      }
      if steps.curlExit != 0 {
        return Err(CurlFailed);
      }
      if steps.status != "200" {
        return Err(if |steps.status| > 0 && steps.status[0] == '3' then Redirected else BadStatus);
      }
      if !steps.landed.Regular? {
        return Err(NoRegularFile);
      }
      if !steps.readable {
        return Err(OsFailure);
      }
      var bytes := steps.landed.bytes;
      if |bytes| > ARTIFACT_MAX_BYTES {
        return Err(TooLarge);
      }
      if expected.Some? && sha256(bytes) != expected.value {
        return Err(DigestMismatch);
      }
      r := Ok(bytes);
    }

    method Fetch(steps: Steps, expected: Option<string>, sha256: seq<byte> -> string) returns (outcome: Outcome)
      requires Valid()
      modifies this
      ensures Valid()
      ensures Call(old(View()), steps, expected, sha256, outcome, View())
      ensures outcome.Fetched? <==>
                Links(old(View()), steps, expected, sha256) && !StaysPublished(steps) && steps.stagingRemoved
      ensures outcome == PublishedArtifactUnrecorded <==>
                && Links(old(View()), steps, expected, sha256) && steps.interrupt == Never
                && !steps.stagingRemoved && !steps.unlinkOk
      ensures outcome == Failed(RolledBack) <==>
                && Links(old(View()), steps, expected, sha256) && steps.interrupt == Never
                && !steps.stagingRemoved && steps.unlinkOk
      ensures outcome == Failed(Stopped) <==>
                || steps.interrupt == BeforeLink
                || (Links(old(View()), steps, expected, sha256) && steps.interrupt == AfterUnlink
                    && !steps.stagingRemoved && steps.unlinkOk)
      ensures outcome == Interrupted <==> Links(old(View()), steps, expected, sha256) && StaysPublished(steps)
      ensures outcome.Fetched? ==> staging == None
      ensures outcome.Fetched? ==>
                && steps.curlExit == 0 && steps.status == "200" && steps.readable
                && steps.landed.Regular? && |steps.landed.bytes| <= 134217728
                && target == Some(steps.landed.bytes) && outcome.digest == sha256(steps.landed.bytes)
                && (expected.Some? ==> outcome.digest == expected.value)
      ensures (&& old(target) == steps.beforeCheck == steps.beforeLink == None && steps.interrupt == Never
               && steps.stagingMade && steps.chmodOk && steps.curlExit == 0 && steps.status == "200" && steps.readable
               && steps.landed.Regular? && |steps.landed.bytes| <= 134217728
               && (expected.Some? ==> sha256(steps.landed.bytes) == expected.value)
               && steps.linkOk && steps.stagingRemoved) ==> outcome.Fetched?
      ensures steps.interrupt != BeforeLink && steps.stagingMade && steps.chmodOk ==>
                && (outcome == Failed(CurlFailed) <==> steps.curlExit != 0)
                && (steps.curlExit == 0 && steps.status != "200" ==> outcome in {Failed(Redirected), Failed(BadStatus)})
                && (steps.curlExit == 0 && steps.status == "200" ==>
                      && (outcome == Failed(NoRegularFile) <==> !steps.landed.Regular?)
                      && (steps.landed.Regular? && !steps.readable ==> outcome == Failed(OsFailure))
                      && (steps.landed.Regular? && steps.readable ==>
                            && (outcome == Failed(TooLarge) <==> |steps.landed.bytes| > 134217728)
                            && (|steps.landed.bytes| <= 134217728 ==>
                                  (outcome == Failed(DigestMismatch)
                                   <==> expected.Some? && sha256(steps.landed.bytes) != expected.value))))
      ensures outcome == Failed(TargetExists) ==> old(target).Some? || steps.beforeCheck.Some?
      ensures outcome == Failed(TargetAppeared) ==> old(target) == None && steps.beforeLink.Some?
      ensures outcome == Failed(LinkFailed) ==> !steps.linkOk
      ensures old(target).Some? ==> target == old(target) && outcome.Failed?
      ensures outcome == PublishedArtifactUnrecorded ==>
                target.Some? && steps.landed == Regular(target.value) && !steps.stagingRemoved && !steps.unlinkOk
      ensures outcome.Failed? && old(target) == None ==>
                target in {None, steps.beforeCheck, steps.beforeLink, steps.atEnd}
    {
      VerifiedByFields(steps, expected, sha256);
      hide Verified;
      outcome := Attempt(steps, expected, sha256);
    }

    /** The steps of one call. */
    method Attempt(steps: Steps, expected: Option<string>, sha256: seq<byte> -> string) returns (outcome: Outcome)
      requires Valid()
      modifies this
      ensures Valid()
      ensures Call(old(View()), steps, expected, sha256, outcome, View())
      ensures outcome.Fetched? <==>
                Links(old(View()), steps, expected, sha256) && !StaysPublished(steps) && steps.stagingRemoved
      ensures outcome == PublishedArtifactUnrecorded <==>
                && Links(old(View()), steps, expected, sha256) && steps.interrupt == Never
                && !steps.stagingRemoved && !steps.unlinkOk
      ensures outcome == Failed(RolledBack) <==>
                && Links(old(View()), steps, expected, sha256) && steps.interrupt == Never
                && !steps.stagingRemoved && steps.unlinkOk
      ensures outcome == Failed(Stopped) <==>
                || steps.interrupt == BeforeLink
                || (Links(old(View()), steps, expected, sha256) && steps.interrupt == AfterUnlink
                    && !steps.stagingRemoved && steps.unlinkOk)
      ensures outcome == Interrupted <==> Links(old(View()), steps, expected, sha256) && StaysPublished(steps)
      ensures outcome.Fetched? ==> staging == None
      ensures outcome == Failed(TargetExists) ==> old(target).Some? || steps.beforeCheck.Some?
      ensures outcome == Failed(TargetAppeared) ==> old(target) == None && steps.beforeLink.Some?
      ensures outcome == Failed(LinkFailed) ==> !steps.linkOk
      ensures steps.interrupt != BeforeLink && steps.stagingMade ==>
                if exists bytes :: Verified(steps, bytes, expected, sha256)
                then outcome.Failed? ==> outcome.reason in {TargetExists, TargetAppeared, LinkFailed, RolledBack,
                    Stopped}
                else outcome.Failed? && ChecksFail(steps, expected, sha256, outcome.reason)
    {
      hide Verified, ChecksFail;
      if steps.interrupt == BeforeLink {
        Arrival(steps.atEnd);
        return Failed(Stopped);
      }
      if !steps.stagingMade {
        NothingStaged(steps, expected, sha256);
        Arrival(steps.atEnd);
        return Failed(OsFailure);
      }
      staging := Some(steps.landed);
      var checked := Check(steps, expected, sha256);
      if checked.Err? {
        RemoveStaging(steps.stagingRemoved);
        Arrival(steps.atEnd);
        return Failed(checked.error);
      }
      var published := PublishAtomically(checked.value, steps);
      if published.Some? {
        RemoveStaging(steps.stagingRemoved);
        Arrival(steps.atEnd);
        return Failed(published.value);
      }
      outcome := Finish(steps, sha256(checked.value));
    }

    /** Published: the cleanup is part of the transaction. */
    method Finish(steps: Steps, digest: string) returns (outcome: Outcome)
      requires staging.Some? && steps.interrupt != BeforeLink
      modifies this
      ensures outcome ==
                if StaysPublished(steps) then Interrupted
                else if steps.stagingRemoved then Fetched(digest)
                else if !steps.unlinkOk then PublishedArtifactUnrecorded
                else Failed(if steps.interrupt == Never then RolledBack else Stopped)
      ensures !outcome.Failed? ==> target == old(target) && foreign == old(foreign)
      ensures outcome.Failed? ==>
                target == steps.atEnd && foreign == if steps.atEnd.Some? then steps.atEnd else old(foreign)
      ensures steps.stagingRemoved ==> staging == None
    {
      RemoveStaging(steps.stagingRemoved);
      if steps.interrupt == AfterLink || steps.interrupt == Cleaning {
        return Interrupted;
      }
      if staging.Some? {
        outcome := Rollback(steps);
        return;
      }
      outcome := Fetched(digest);
    }

    /** The staging directory could not be removed: take back what was published. */
    method Rollback(steps: Steps) returns (outcome: Outcome)
      modifies this`target, this`foreign
      requires !steps.stagingRemoved && steps.interrupt in {Never, BeforeUnlink, AfterUnlink}
      ensures outcome ==
                if StaysPublished(steps) then Interrupted
                else if !steps.unlinkOk then PublishedArtifactUnrecorded
                else Failed(if steps.interrupt == Never then RolledBack else Stopped)
      ensures !outcome.Failed? ==> target == old(target) && foreign == old(foreign)
      ensures outcome.Failed? ==>
                target == steps.atEnd && foreign == if steps.atEnd.Some? then steps.atEnd else old(foreign)
    {
      if steps.interrupt == BeforeUnlink {
        return Interrupted;
      }
      if steps.unlinkOk {
        target := None;
        Arrival(steps.atEnd);
      }
      if steps.interrupt == AfterUnlink {
        return if steps.unlinkOk then Failed(Stopped) else Interrupted;
      }
      outcome := if steps.unlinkOk then Failed(RolledBack) else PublishedArtifactUnrecorded;
    }

    method RemoveStaging(ok: bool)
      modifies this`staging
      ensures staging == if ok then None else old(staging)
    {
      if ok {
        staging := None;
      }
    }
  }

  // ------------------------------------------------------------------------- runs of calls

  /** One call in a run, with the path after it. */
  datatype Event = Event(steps: Steps, expected: Option<string>, outcome: Outcome, after: Path)

  ghost predicate Run(start: Path, events: seq<Event>, sha256: seq<byte> -> string) {
    forall i :: 0 <= i < |events| ==> CalledFrom(PathBefore(start, events, i), events[i], sha256)
  }

  ghost predicate CalledFrom(before: Path, event: Event, sha256: seq<byte> -> string) {
    Call(before, event.steps, event.expected, sha256, event.outcome, event.after)
  }

  ghost function PathBefore(start: Path, events: seq<Event>, i: nat): Path
    requires i <= |events|
  {
    if i == 0 then start else events[i - 1].after
  }

  /** Whatever occupies the target after some call stays there, and every later call fails. */
  lemma {:induction false} OccupiedStays(start: Path, events: seq<Event>, sha256: seq<byte> -> string, i: nat, j: nat)
    requires Run(start, events, sha256)
    requires i <= j <= |events| && PathBefore(start, events, i).target.Some?
    ensures PathBefore(start, events, j) == PathBefore(start, events, i)
    ensures forall k :: i <= k < j ==> events[k].outcome.Failed?
    decreases j
  {
    hide Call;
    if i < j {
      OccupiedStays(start, events, sha256, i, j - 1);
      OccupiedRefuses(PathBefore(start, events, j - 1), events[j - 1], sha256);
    }
  }

  lemma OccupiedRefuses(before: Path, event: Event, sha256: seq<byte> -> string)
    requires CalledFrom(before, event, sha256) && before.target.Some?
    ensures event.outcome.Failed? && event.after == before
  {
  }

  lemma Publishes(before: Path, event: Event, sha256: seq<byte> -> string)
    requires CalledFrom(before, event, sha256) && !event.outcome.Failed?
    ensures before.target == None
    ensures exists bytes :: Verified(event.steps, bytes, event.expected, sha256) && event.after.target == Some(bytes)
  {
  }

  /**
   * Over any run of calls for one target: at most one call does not fail, and it leaves its own
   * checked bytes at the target for good; while all calls fail, only foreign bytes are ever there.
   */
  lemma AtMostOnePublication(start: Path, events: seq<Event>, sha256: seq<byte> -> string, i: nat, j: nat)
    requires Run(start, events, sha256)
    requires i < |events| && j < |events| && !events[i].outcome.Failed?
    ensures !events[j].outcome.Failed? ==> i == j
    ensures j >= i ==> events[j].after == events[i].after
    ensures j >= i ==> exists bytes :: && Verified(events[i].steps, bytes, events[i].expected, sha256)
                                       && events[j].after.target == Some(bytes)
    ensures j < i ==> events[j].after.target == None
  {
    hide Call, Verified;
    Publishes(PathBefore(start, events, i), events[i], sha256);
    if j < i {
      if PathBefore(start, events, j + 1).target.Some? {
        OccupiedStays(start, events, sha256, j + 1, i);
      }
      if !events[j].outcome.Failed? {
        Publishes(PathBefore(start, events, j), events[j], sha256);
      }
    } else {
      OccupiedStays(start, events, sha256, i + 1, j + 1);
    }
  }
}
