// Renewing the ledger App's lease: issue a token, write it over hosts.yml, and revoke it when it
// was issued but not written. Any step may raise, and a `BaseException` such as an interrupt, which
// the handler does not catch, may arrive at any moment.
module CredentialRenewal {
  import opened Wrappers

  type Token = string

  /** The issuer's answer, if the request did not raise; a body holds a token when it matches the token pattern. */
  datatype Issued = NoAnswer | Answer(status: int, oversized: bool, body: Body)

  datatype Body = Unparsable | Parsed(token: Option<Token>)

  datatype Persisted = Written | FailsBeforeReplace | ReplaceFails

  datatype Revocation = RevocationRaises | RevocationAnswers(status: int)

  /**
   * When an interrupt arrives, if that moment is reached: in the handler before the revocation is
   * answered or after, or in the `finally` clause.
   */
  datatype Interrupt = Never | BeforeToken | WithToken | AfterReplace | BeforeAnswer | AfterAnswer | InFinally

  /** How each step of one renewal goes. */
  datatype Steps = Steps(clockOk: bool, directoryOk: bool, keyOk: bool, issued: Issued, leaseValid: bool,
                         persisted: Persisted, revocation: Revocation, closeOk: bool, interrupt: Interrupt)

  datatype Outcome = Renewed(token: Token) | RenewalFailed | RevocationUnconfirmed | Interrupted | CloseFailed

  predicate Opened(s: Steps) {
    s.clockOk && s.directoryOk
  }

  /** The newly issued token, as far as this renewal knows it. */
  function Recognised(s: Steps): Option<Token> {
    if && Opened(s) && s.keyOk && s.interrupt != BeforeToken
       && s.issued.Answer? && !s.issued.oversized && s.issued.body.Parsed?
    then s.issued.body.token
    else None
  }

  /** The new token replaced the contents of hosts.yml. */
  predicate Replaces(s: Steps) {
    && Recognised(s).Some? && s.interrupt != WithToken
    && s.issued.status == 201 && s.leaseValid && s.persisted == Written
  }

  /** An interrupt arrives, which the handler does not catch. */
  predicate Escapes(s: Steps) {
    match s.interrupt
    case Never => false
    case BeforeToken => true
    case WithToken => Recognised(s).Some?
    case AfterReplace => Replaces(s)
    case BeforeAnswer => !Replaces(s)
    case AfterAnswer => Recognised(s).Some? && !Replaces(s) && s.revocation.RevocationAnswers?
    case InFinally => true
  }

  predicate ConfirmedRevoked(s: Steps) {
    && Recognised(s).Some? && !Replaces(s) && s.interrupt !in {WithToken, BeforeAnswer}
    && s.revocation == RevocationAnswers(204)
  }

  class Lease {
    /** The token in hosts.yml, or none when the file is absent. */
    var hosts: Option<Token>
    /** Tokens whose revocation the issuer confirmed. */
    var revoked: set<Token>

    constructor (initial: Option<Token>)
      ensures hosts == initial && revoked == {}
    {
      hosts, revoked := initial, {};
    }

    /** Write a temporary file, then rename it over hosts.yml. */
    method Persist(token: Token, fate: Persisted) returns (raised: bool)
      modifies this`hosts
      ensures raised <==> fate != Written
      ensures hosts == if fate == Written then Some(token) else old(hosts)
    {
      if fate == FailsBeforeReplace || fate == ReplaceFails {
        return true;
      }
      hosts := Some(token);
      raised := false;
    }

    /** The body of the `try`: the token recognised so far, and whether anything was raised or interrupted. */
    method Issue(s: Steps) returns (token: Option<Token>, raised: bool, interrupted: bool)
      modifies this`hosts
      ensures token == Recognised(s)
      ensures raised <==> !Replaces(s)
      ensures interrupted <==> Escapes(s) && s.interrupt in {BeforeToken, WithToken, AfterReplace}
      ensures hosts == if Replaces(s) then Recognised(s) else old(hosts)
    {
      token, raised, interrupted := None, true, false;
      if s.interrupt == BeforeToken {
        interrupted := true;
        return;
      }
      if !s.clockOk || !s.directoryOk || !s.keyOk || s.issued.NoAnswer? {
        return;
      }
      if s.issued.oversized || s.issued.body.Unparsable? {
        return;
      }
      token := s.issued.body.token;
      if token.Some? && s.interrupt == WithToken {
        interrupted := true;
        return;
      }
      if s.issued.status != 201 || token == None || !s.leaseValid {
        return;
      }
      raised := Persist(token.value, s.persisted);
      interrupted := !raised && s.interrupt == AfterReplace;
    }

    method Renew(s: Steps) returns (outcome: Outcome)
      modifies this
      ensures Renewal(old(hosts), old(revoked), Event(s, outcome, hosts, revoked))
      ensures hosts != old(hosts) || outcome.Renewed? ==>
                && s.clockOk && s.directoryOk && s.keyOk
                && s.issued.Answer? && s.issued.status == 201 && !s.issued.oversized
                && s.issued.body.Parsed? && s.issued.body.token.Some?
                && s.leaseValid && s.persisted == Written && hosts == s.issued.body.token
      ensures outcome.Renewed? ==> s.closeOk && s.interrupt !in {BeforeToken, WithToken, AfterReplace, InFinally}
      ensures forall token, oversized ::
                s == Steps(true, true, true, Answer(201, oversized, Parsed(Some(token))), true, Written, s.revocation,
                           true, Never) && !oversized ==>
                  outcome == Renewed(token) && hosts == Some(token) && revoked == old(revoked)
      ensures revoked != old(revoked) ==>
                && s.revocation == RevocationAnswers(204)
                && s.issued.Answer? && s.issued.body.Parsed? && s.issued.body.token.Some?
                && revoked == old(revoked) + {s.issued.body.token.value} && !outcome.Renewed?
      ensures (&& s.interrupt == Never && s.clockOk && s.directoryOk && s.keyOk && s.closeOk
               && s.issued.Answer? && !s.issued.oversized && s.issued.body.Parsed? && s.issued.body.token.Some?
               && (s.issued.status != 201 || !s.leaseValid || s.persisted != Written)) ==>
                && hosts == old(hosts)
                && (outcome == RenewalFailed && s.issued.body.token.value in revoked
                    <==> s.revocation == RevocationAnswers(204))
                && (outcome == RevocationUnconfirmed <==> s.revocation != RevocationAnswers(204))
    {
      var token, raised, interrupted := Issue(s);
      if interrupted {
        outcome := Interrupted;
      } else if !raised {
        outcome := Renewed(token.value);
      } else if s.interrupt == BeforeAnswer {
        outcome := Interrupted;
      } else {
        outcome := RenewalFailed;
        if token.Some? {
          if s.revocation == RevocationAnswers(204) {
            revoked := revoked + {token.value};
          } else {
            outcome := RevocationUnconfirmed;
          }
          if s.interrupt == AfterAnswer && s.revocation.RevocationAnswers? {
            outcome := Interrupted;
          }
        }
      }
      // The `finally` clause: an error in closing the directory replaces whatever was to happen.
      if s.interrupt == InFinally {
        outcome := Interrupted;
      } else if Opened(s) && !s.closeOk {
        outcome := CloseFailed;
      }
    }
  }

  // -------------------------------------------------------------------------------- runs

  /** One renewal in a run, and the lease after it. */
  datatype Event = Event(steps: Steps, outcome: Outcome, hosts: Option<Token>, revoked: set<Token>)

  /** What one renewal does: hosts.yml, the confirmed revocations, and what each outcome means. */
  ghost predicate Renewal(hosts: Option<Token>, revoked: set<Token>, e: Event) {
    && e.hosts == (if Replaces(e.steps) then Recognised(e.steps) else hosts)
    && e.revoked == revoked + (if ConfirmedRevoked(e.steps) then {Recognised(e.steps).value} else {})
    && (e.outcome == CloseFailed <==> Opened(e.steps) && !e.steps.closeOk && e.steps.interrupt != InFinally)
    && (e.outcome == Interrupted <==>
          Escapes(e.steps) && (Opened(e.steps) && !e.steps.closeOk ==> e.steps.interrupt == InFinally))
    && (e.outcome.Renewed? <==> Replaces(e.steps) && e.steps.closeOk && !Escapes(e.steps))
    && (e.outcome.Renewed? ==> e.hosts == Some(e.outcome.token))
    && (e.outcome == RevocationUnconfirmed ==> Recognised(e.steps).Some? && !ConfirmedRevoked(e.steps))
    && (e.outcome == RenewalFailed ==> Recognised(e.steps) == None || ConfirmedRevoked(e.steps))
  }

  function HostsBefore(initial: Option<Token>, events: seq<Event>, i: nat): Option<Token>
    requires i <= |events|
  {
    if i == 0 then initial else events[i - 1].hosts
  }

  function RevokedBefore(events: seq<Event>, i: nat): set<Token>
    requires i <= |events|
  {
    if i == 0 then {} else events[i - 1].revoked
  }

  ghost predicate Run(initial: Option<Token>, events: seq<Event>) {
    forall i :: 0 <= i < |events| ==> Renewal(HostsBefore(initial, events, i), RevokedBefore(events, i), events[i])
  }

  /** The token the last successful renewal returned, or what was there at first. */
  function LastReturned(initial: Option<Token>, events: seq<Event>): Option<Token>
    decreases |events|
  {
    if events == [] then initial
    else
      var last := events[|events| - 1];
      if last.outcome.Renewed? then Some(last.outcome.token) else LastReturned(initial, events[..|events| - 1])
  }

  /**
   * A renewal that fails although it replaced hosts.yml: it was interrupted after the rename, or
   * closing the directory raised at the very end.
   */
  predicate FailsAfterReplacing(s: Steps) {
    Replaces(s) && (!s.closeOk || Escapes(s))
  }

  /** No renewal failed after replacing since the last successful one. */
  predicate Quiet(events: seq<Event>)
    decreases |events|
  {
    events == []
    || var last := events[|events| - 1];
       last.outcome.Renewed? || (!FailsAfterReplacing(last.steps) && Quiet(events[..|events| - 1]))
  }

  /** The token of the last renewal that failed after replacing. */
  function LastUnreported(events: seq<Event>): Option<Token>
    decreases |events|
  {
    if events == [] then None
    else
      var last := events[|events| - 1];
      if FailsAfterReplacing(last.steps) then Recognised(last.steps) else LastUnreported(events[..|events| - 1])
  }

  /** A failed renewal changes hosts.yml only in those ways. */
  lemma FailureKeepsHosts(hosts: Option<Token>, revoked: set<Token>, e: Event)
    requires Renewal(hosts, revoked, e)
    ensures !e.outcome.Renewed? && !FailsAfterReplacing(e.steps) ==> e.hosts == hosts
    ensures FailsAfterReplacing(e.steps) ==> e.outcome in {CloseFailed, Interrupted} && e.hosts == Recognised(e.steps)
  {
  }

  lemma HostsAfterOne(hosts: Option<Token>, revoked: set<Token>, e: Event)
    requires Renewal(hosts, revoked, e)
    ensures e.hosts == if e.outcome.Renewed? then Some(e.outcome.token)
                       else if FailsAfterReplacing(e.steps) then Recognised(e.steps) else hosts
    ensures e.outcome.Renewed? ==> !FailsAfterReplacing(e.steps)
  {
  }

  lemma HostsAfterLast(initial: Option<Token>, events: seq<Event>)
    requires Run(initial, events) && events != []
    ensures var earlier, last := events[..|events| - 1], events[|events| - 1];
            HostsBefore(initial, events, |events|) ==
              if last.outcome.Renewed? then Some(last.outcome.token)
              else if FailsAfterReplacing(last.steps) then Recognised(last.steps)
              else HostsBefore(initial, earlier, |earlier|)
    ensures events[|events| - 1].outcome.Renewed? ==> !FailsAfterReplacing(events[|events| - 1].steps)
  {
    hide Renewal, FailsAfterReplacing, Run, Recognised;
    var k := |events| - 1;
    LastRenewal(initial, events);
    HostsAfterOne(HostsBefore(initial, events, k), RevokedBefore(events, k), events[k]);
  }

  lemma LastRenewal(initial: Option<Token>, events: seq<Event>)
    requires Run(initial, events) && events != []
    ensures var k := |events| - 1; Renewal(HostsBefore(initial, events, k), RevokedBefore(events, k), events[k])
  {
    hide Renewal;
  }

  lemma RunPrefix(initial: Option<Token>, events: seq<Event>)
    requires Run(initial, events) && events != []
    ensures Run(initial, events[..|events| - 1])
  {
    hide Renewal;
    var earlier := events[..|events| - 1];
    forall i | 0 <= i < |earlier|
      ensures Renewal(HostsBefore(initial, earlier, i), RevokedBefore(earlier, i), earlier[i])
    {
      assert Renewal(HostsBefore(initial, events, i), RevokedBefore(events, i), events[i]);
    }
  }

  /**
   * In every run: hosts.yml holds the last successful renewal's token, unless a later renewal failed
   * after replacing; then it holds the token of the last such.
   */
  lemma {:induction false} HostsFollowsSuccess(initial: Option<Token>, events: seq<Event>)
    requires Run(initial, events)
    ensures HostsBefore(initial, events, |events|) ==
              if Quiet(events) then LastReturned(initial, events) else LastUnreported(events)
    decreases |events|
  {
    if events != [] {
      hide Renewal, FailsAfterReplacing, Run, Recognised, HostsBefore;
      RunPrefix(initial, events);
      HostsFollowsSuccess(initial, events[..|events| - 1]);
      HostsAfterLast(initial, events);
    } else {
      assert HostsBefore(initial, events, 0) == initial;
    }
  }

  /** The recognised token of a failed renewal is revoked for certain, or the error says it may not be. */
  predicate Accounted(e: Event) {
    ConfirmedRevoked(e.steps) || e.outcome == RevocationUnconfirmed
  }

  /** That holds exactly when the revocation was confirmed, or nothing interrupts and closing succeeds. */
  lemma FailureAccountsForToken(hosts: Option<Token>, revoked: set<Token>, e: Event)
    requires Renewal(hosts, revoked, e) && !e.outcome.Renewed? && Recognised(e.steps).Some?
    ensures Accounted(e) <==> ConfirmedRevoked(e.steps) || (e.steps.closeOk && !Escapes(e.steps))
  {
  }

  /** Nothing confirmed as revoked is ever forgotten. */
  lemma {:induction false} RevokedStays(initial: Option<Token>, events: seq<Event>, i: nat, j: nat)
    requires Run(initial, events) && i <= j < |events|
    ensures events[i].revoked <= events[j].revoked
    ensures ConfirmedRevoked(events[i].steps) ==>
              Recognised(events[i].steps).Some? && Recognised(events[i].steps).value in events[j].revoked
    decreases j
  {
    hide Renewal, Replaces, Recognised, ConfirmedRevoked;
    RevocationRecorded(HostsBefore(initial, events, j), RevokedBefore(events, j), events[j]);
    if i < j {
      RevokedStays(initial, events, i, j - 1);
    }
  }

  lemma RevocationRecorded(hosts: Option<Token>, revoked: set<Token>, e: Event)
    requires Renewal(hosts, revoked, e)
    ensures revoked <= e.revoked
    ensures ConfirmedRevoked(e.steps) ==> Recognised(e.steps).Some? && Recognised(e.steps).value in e.revoked
  {
  }

  /** The promise does fail: everything succeeds, the directory's close raises, and the new token stays in use. */
  lemma CloseFailureBreaksPromise(token: Token)
    ensures var s := Steps(true, true, true, Answer(201, false, Parsed(Some(token))), true, Written,
                           RevocationAnswers(204), false, Never);
            var e := Event(s, CloseFailed, Some(token), {});
            && Renewal(None, {}, e) && !Accounted(e) && e.hosts != None
  {
  }

  /** And an interrupt while the token is held leaves it neither written, revoked nor reported. */
  lemma InterruptBreaksPromise(token: Token)
    ensures var s := Steps(true, true, true, Answer(201, false, Parsed(Some(token))), true, Written,
                           RevocationAnswers(204), true, WithToken);
            var e := Event(s, Interrupted, None, {});
            && Renewal(None, {}, e) && !Accounted(e) && Recognised(s) == Some(token)
  {
  }
}
