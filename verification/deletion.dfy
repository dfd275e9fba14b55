/** The confirmation-gated deletion loop over the expired waivers, with its
    deleted/failed accounting. */
module Deletion {

  import opened Wrappers
  import opened Calendar
  import opened Records
  import opened Scopes
  import opened Api
  import opened Confirmation
  import opened Classification

  /** What happened to one expired waiver. */
  datatype Outcome =
    | Deleted                        // the DELETE result was truthy
    | UnknownScopeType               // no owner type for the scope type; no request sent
    | MissingScopeId                 // the scope id is NaN or falsy; no request sent
    | DeleteFailed(result: PyValue)  // the DELETE result was falsy (None, [], ...)

  /** The per-entry checks end either in a skip or in a request to an endpoint. */
  datatype Step = Skip(reason: Outcome) | Request(endpoint: string)

  /** `policyWaivers/{owner type}/{scope id}/{waiver id}`, each cell as `str()` renders it. */
  function WaiverEndpoint(ownerType: string, scopeId: Cell, waiverId: Cell): (path: string)
    ensures |path| > 14 + |ownerType| && path[..14 + |ownerType|] == "policyWaivers/" + ownerType
  {
    "policyWaivers/" + ownerType + "/" + Str(scopeId) + "/" + Str(waiverId)
  }

  /** The three parts of an endpoint can be read back at their positions. */
  lemma EndpointReadsBack(ownerType: string, scopeId: Cell, waiverId: Cell)
    ensures var path := WaiverEndpoint(ownerType, scopeId, waiverId);
            var a := 14 + |ownerType|;
            var b := a + 1 + |Str(scopeId)|;
            && |path| == b + 1 + |Str(waiverId)|
            && path[14..a] == ownerType && path[a] == '/'
            && path[a + 1..b] == Str(scopeId) && path[b] == '/' && path[b + 1..] == Str(waiverId)
  {
  }

  /** `pd.isna(owner_id) or not owner_id`. */
  predicate ScopeIdMissing(scopeId: Cell)
    ensures ScopeIdMissing(scopeId) <==> scopeId.Missing? || scopeId == Text("") || (scopeId.Other? && !scopeId.truthy)
  {
    scopeId.Missing? || !CellTruthy(scopeId)
  }

  /** The checks before the request, in the program's order: the scope type is
      looked up first (`not delete_scope_type`, which for this table means "not
      found"), the scope id second; only an entry passing both is requested, at the
      endpoint built from its mapped owner type. */
  function PlanEntry(e: WaiverRecord): (s: Step)
    ensures s == Skip(UnknownScopeType) <==> ScopeToken(e.scopeType).None?
    ensures s == Skip(MissingScopeId) <==> ScopeToken(e.scopeType).Some? && ScopeIdMissing(e.scopeId)
    ensures s.Request? <==> ScopeToken(e.scopeType).Some? && !ScopeIdMissing(e.scopeId)
    ensures s.Request? ==> s.endpoint == WaiverEndpoint(ScopeToken(e.scopeType).value, e.scopeId, e.waiverId)
  {
    var token := ScopeToken(e.scopeType);
    if token.None? || token.value == "" then Skip(UnknownScopeType)
    else if ScopeIdMissing(e.scopeId) then Skip(MissingScopeId)
    else Request(WaiverEndpoint(token.value, e.scopeId, e.waiverId))
  }

  /** One entry's outcome when the server answers `server(endpoint)`: deleted exactly
      when a request was sent and its result was truthy. */
  function EntryOutcome(e: WaiverRecord, server: string -> Exchange): (o: Outcome)
    ensures o.Deleted? <==> PlanEntry(e).Request? && Truthy(MakeApiRequest(DELETE, server(PlanEntry(e).endpoint)))
    ensures o.DeleteFailed? ==> PlanEntry(e).Request?
  {
    match PlanEntry(e)
    case Skip(reason) => reason
    case Request(endpoint) =>
      var result := MakeApiRequest(DELETE, server(endpoint));
      if Truthy(result) then Deleted else DeleteFailed(result)
  }

  /** The outcomes of visiting `es` in order, each exactly once. */
  function Outcomes(es: seq<WaiverRecord>, server: string -> Exchange): (os: seq<Outcome>)
    ensures |os| == |es|
    ensures forall i :: 0 <= i < |es| ==> os[i] == EntryOutcome(es[i], server)
    decreases |es|
  {
    if |es| == 0 then []
    else Outcomes(es[..|es| - 1], server) + [EntryOutcome(es[|es| - 1], server)]
  }

  /** The endpoints requested while visiting `es` in order: at most one per entry,
      and one per entry exactly when every entry passes both checks. */
  function Requests(es: seq<WaiverRecord>): (rs: seq<string>)
    ensures |rs| <= |es|
    ensures |rs| == |es| <==> forall i :: 0 <= i < |es| ==> PlanEntry(es[i]).Request?
    decreases |es|
  {
    if |es| == 0 then []
    else
      var front := Requests(es[..|es| - 1]);
      match PlanEntry(es[|es| - 1])
      case Request(endpoint) => front + [endpoint]
      case Skip(_) => front
  }

  function CountDeleted(os: seq<Outcome>): nat
    decreases |os|
  {
    if |os| == 0 then 0
    else CountDeleted(os[..|os| - 1]) + (if os[|os| - 1].Deleted? then 1 else 0)
  }

  function CountFailed(os: seq<Outcome>): nat
    decreases |os|
  {
    if |os| == 0 then 0
    else CountFailed(os[..|os| - 1]) + (if os[|os| - 1].Deleted? then 0 else 1)
  }

  /** How the deletion phase ends. Only a completed run has sent requests. */
  datatype DeletionRun =
    | NothingToDelete
    | Cancelled
    | Completed(deleted: nat, failed: nat, outcomes: seq<Outcome>, requests: seq<string>)

  /** The deletion phase as a function of its inputs: the expired list, the
      operator's reply to the prompt, and the server's answer per endpoint. */
  function Orchestrate(expired: seq<WaiverRecord>, reply: string, server: string -> Exchange): (run: DeletionRun)
    ensures run.NothingToDelete? <==> |expired| == 0
    ensures run.Cancelled? <==> |expired| > 0 && !Confirmed(reply)
    ensures run.Completed? ==> && run.deleted + run.failed == |expired|
                               && run.outcomes == Outcomes(expired, server)
                               && run.deleted == CountDeleted(run.outcomes)
                               && run.failed == CountFailed(run.outcomes)
                               && run.requests == Requests(expired)
                               && |run.outcomes| == |expired|
                               && |run.requests| <= |expired|
  {
    if |expired| == 0 then NothingToDelete
    else if !Confirmed(reply) then Cancelled
    else
      var os := Outcomes(expired, server);
      CountsCoverEveryOutcome(os);
      Completed(CountDeleted(os), CountFailed(os), os, Requests(expired))
  }

  /** Every outcome is counted once, as deleted or as failed. */
  lemma {:induction false} CountsCoverEveryOutcome(os: seq<Outcome>)
    ensures CountDeleted(os) + CountFailed(os) == |os|
    decreases |os|
  {
    if |os| > 0 {
      CountsCoverEveryOutcome(os[..|os| - 1]);
    }
  }

  /** The deletion phase: no prompt effect and no requests for an empty list, no
      requests when the operator does not confirm, and otherwise every entry
      visited once in order with `deleted + failed == len(expired)`. */
  lemma OrchestrateAccounting(expired: seq<WaiverRecord>, reply: string, server: string -> Exchange)
    ensures |expired| == 0 ==> Orchestrate(expired, reply, server) == NothingToDelete
    ensures |expired| > 0 && !Confirmed(reply) ==> Orchestrate(expired, reply, server) == Cancelled
    ensures |expired| > 0 && Confirmed(reply) ==>
              var run := Orchestrate(expired, reply, server);
              && run.Completed?
              && run.deleted + run.failed == |expired|
              && run.deleted == CountDeleted(run.outcomes)
              && run.failed == CountFailed(run.outcomes)
              && run.requests == Requests(expired)
              && |run.outcomes| == |expired|
              && (forall i :: 0 <= i < |expired| ==> run.outcomes[i] == EntryOutcome(expired[i], server))
  {
    CountsCoverEveryOutcome(Outcomes(expired, server));
  }

  /** Requests go only to entries that passed both checks, and every entry that
      passed them is requested; an unknown scope type or a missing scope id never
      reaches the server. */
  lemma {:induction false} RequestsComeFromCheckedEntries(es: seq<WaiverRecord>)
    ensures |Requests(es)| <= |es|
    ensures forall k :: 0 <= k < |Requests(es)| ==>
              exists i :: 0 <= i < |es| && PlanEntry(es[i]) == Request(Requests(es)[k])
    ensures forall i :: 0 <= i < |es| && PlanEntry(es[i]).Request? ==> PlanEntry(es[i]).endpoint in Requests(es)
    decreases |es|
  {
    CheckedEntriesAreRequested(es);
    if |es| > 0 {
      var front := es[..|es| - 1];
      RequestsComeFromCheckedEntries(front);
      forall k | 0 <= k < |Requests(es)|
        ensures exists i :: 0 <= i < |es| && PlanEntry(es[i]) == Request(Requests(es)[k])
      {
        if k < |Requests(front)| {
          var i :| 0 <= i < |front| && PlanEntry(front[i]) == Request(Requests(front)[k]);
          assert es[i] == front[i];
        } else {
          assert PlanEntry(es[|es| - 1]) == Request(Requests(es)[k]);
        }
      }
    }
  }

  /** `idx` lists, in increasing order, exactly the positions of `es` whose entry
      passes both checks, and `rs[k]` is the endpoint of the entry at `idx[k]`. */
  ghost predicate RequestsAt(es: seq<WaiverRecord>, rs: seq<string>, idx: seq<int>) {
    && |idx| == |rs|
    && (forall k :: 0 <= k < |idx| ==> 0 <= idx[k] < |es| && PlanEntry(es[idx[k]]) == Request(rs[k]))
    && (forall k, l :: 0 <= k < l < |idx| ==> idx[k] < idx[l])
    && (forall i :: 0 <= i < |es| ==> (PlanEntry(es[i]).Request? <==> i in idx))
  }

  lemma AtKept(es: seq<WaiverRecord>, rs: seq<string>, idx: seq<int>, e: WaiverRecord)
    requires RequestsAt(es, rs, idx)
    requires PlanEntry(e).Request?
    ensures RequestsAt(es + [e], rs + [PlanEntry(e).endpoint], idx + [|es|])
  {
    var ys, rs', idx' := es + [e], rs + [PlanEntry(e).endpoint], idx + [|es|];
    forall k | 0 <= k < |idx'|
      ensures 0 <= idx'[k] < |ys| && PlanEntry(ys[idx'[k]]) == Request(rs'[k])
    {
      if k < |idx| {
        assert ys[idx[k]] == es[idx[k]];
      }
    }
    assert forall i :: 0 <= i < |es| ==> (i in idx' <==> i in idx);
  }

  lemma AtDropped(es: seq<WaiverRecord>, rs: seq<string>, idx: seq<int>, e: WaiverRecord)
    requires RequestsAt(es, rs, idx)
    requires PlanEntry(e).Skip?
    ensures RequestsAt(es + [e], rs, idx)
  {
    var ys := es + [e];
    assert forall i :: 0 <= i < |es| ==> ys[i] == es[i];
    assert |es| !in idx;
  }

  /** The requests are the endpoints of the entries that pass both checks, one
      each, in the order of the entries. */
  lemma {:induction false} RequestsInOrder(es: seq<WaiverRecord>)
    ensures exists idx :: RequestsAt(es, Requests(es), idx)
    decreases |es|
  {
    if |es| == 0 {
      assert RequestsAt(es, Requests(es), []);
    } else {
      var front, e := es[..|es| - 1], es[|es| - 1];
      assert es == front + [e];
      RequestsInOrder(front);
      var idx :| RequestsAt(front, Requests(front), idx);
      if PlanEntry(e).Request? {
        AtKept(front, Requests(front), idx, e);
        assert RequestsAt(es, Requests(es), idx + [|front|]);
      } else {
        AtDropped(front, Requests(front), idx, e);
        assert RequestsAt(es, Requests(es), idx);
      }
    }
  }

  /** Every entry that passes both checks is requested. */
  lemma {:induction false} CheckedEntriesAreRequested(es: seq<WaiverRecord>)
    ensures forall i :: 0 <= i < |es| && PlanEntry(es[i]).Request? ==> PlanEntry(es[i]).endpoint in Requests(es)
    decreases |es|
  {
    if |es| > 0 {
      var front := es[..|es| - 1];
      CheckedEntriesAreRequested(front);
      assert Requests(front) <= Requests(es);
      forall i | 0 <= i < |front| && PlanEntry(es[i]).Request?
        ensures PlanEntry(es[i]).endpoint in Requests(es)
      {
        assert es[i] == front[i];
      }
    }
  }

  /** A waiver is only counted as deleted through a request that was sent. */
  lemma {:induction false} DeletedNeedsRequest(es: seq<WaiverRecord>, server: string -> Exchange)
    ensures CountDeleted(Outcomes(es, server)) <= |Requests(es)|
    decreases |es|
  {
    if |es| > 0 {
      var front := es[..|es| - 1];
      DeletedNeedsRequest(front, server);
      assert Outcomes(es, server)[..|es| - 1] == Outcomes(front, server);
    }
  }

  lemma VisitNext(es: seq<WaiverRecord>, i: int, server: string -> Exchange)
    requires 0 <= i < |es|
    ensures Outcomes(es[..i + 1], server) == Outcomes(es[..i], server) + [EntryOutcome(es[i], server)]
    ensures Requests(es[..i + 1]) == match PlanEntry(es[i])
                                     case Request(endpoint) => Requests(es[..i]) + [endpoint]
                                     case Skip(_) => Requests(es[..i])
  {
    assert es[..i + 1][..i] == es[..i];
  }

  lemma CountAppend(os: seq<Outcome>, o: Outcome)
    ensures CountDeleted(os + [o]) == CountDeleted(os) + (if o.Deleted? then 1 else 0)
    ensures CountFailed(os + [o]) == CountFailed(os) + (if o.Deleted? then 0 else 1)
  {
    assert (os + [o])[..|os|] == os;
  }

  /** The body of the loop for one waiver: the scope-type check, the scope-id check,
      then the DELETE request and the truthiness test. `endpoint` is the request
      sent, if any. */
  method VisitEntry(waiver: WaiverRecord, server: string -> Exchange)
    returns (outcome: Outcome, endpoint: Option<string>)
    ensures outcome == EntryOutcome(waiver, server)
    ensures endpoint.Some? <==> PlanEntry(waiver).Request?
    ensures endpoint.Some? ==> PlanEntry(waiver) == Request(endpoint.value)
  {
    var ownerType := ScopeToken(waiver.scopeType);
    if ownerType.None? || ownerType.value == "" {
      return UnknownScopeType, None;
    }
    if ScopeIdMissing(waiver.scopeId) {
      return MissingScopeId, None;
    }
    var path := WaiverEndpoint(ownerType.value, waiver.scopeId, waiver.waiverId);
    var result := MakeApiRequest(DELETE, server(path));
    if Truthy(result) {
      outcome := Deleted;
    } else {
      outcome := DeleteFailed(result);
    }
    endpoint := Some(path);
  }

  /** The confirmation gate: an empty list is reported without a prompt, a reply
      other than DELETE cancels, and only a confirmed run enters the loop. */
  method DeleteExpired(expired: seq<WaiverRecord>, reply: string, server: string -> Exchange)
    returns (run: DeletionRun)
    ensures run == Orchestrate(expired, reply, server)
    ensures run.Completed? ==> run.deleted + run.failed == |expired| && |run.requests| <= |expired|
  {
    if |expired| == 0 {
      return NothingToDelete;
    }
    if !Confirmed(reply) {
      return Cancelled;
    }
    var deleted, failed, outcomes, requests := DeleteAll(expired, server);
    run := Completed(deleted, failed, outcomes, requests);
  }

  /** The loop of the program once confirmed: every expired entry in order, each
      visited once whatever happened before, with the two counters kept in step
      with the entries visited. */
  method DeleteAll(expired: seq<WaiverRecord>, server: string -> Exchange)
    returns (deleted: nat, failed: nat, outcomes: seq<Outcome>, requests: seq<string>)
    ensures outcomes == Outcomes(expired, server) && requests == Requests(expired)
    ensures deleted == CountDeleted(outcomes) && failed == CountFailed(outcomes)
    ensures deleted + failed == |expired| && |requests| <= |expired|
  {
    deleted, failed := 0, 0;
    outcomes, requests := [], [];
    for i := 0 to |expired|
      invariant outcomes == Outcomes(expired[..i], server)
      invariant requests == Requests(expired[..i])
      invariant deleted == CountDeleted(outcomes)
      invariant failed == CountFailed(outcomes)
      invariant deleted + failed == i
      invariant |requests| <= i
    {
      VisitNext(expired, i, server);
      var outcome, endpoint := VisitEntry(expired[i], server);
      if endpoint.Some? {
        requests := requests + [endpoint.value];
      }
      if outcome.Deleted? {
        deleted := deleted + 1;
      } else {
        failed := failed + 1;
      }
      CountAppend(outcomes, outcome);
      outcomes := outcomes + [outcome];
    }
    assert expired[..|expired|] == expired;
  }

  /** Safety of the whole run: every endpoint the deletion phase can request
      belongs to a row of the export whose expiry parsed to an instant strictly
      before `now`. */
  lemma RequestsAddressExpiredRows(rows: seq<WaiverRecord>, now: Instant)
    ensures var expired := Classify(rows, now).expired;
            forall k :: 0 <= k < |Requests(expired)| ==>
              exists r :: r in rows && StatusOf(r, now).Expired? && PlanEntry(r) == Request(Requests(expired)[k])
  {
    var expired := Classify(rows, now).expired;
    RequestsComeFromCheckedEntries(expired);
    forall k | 0 <= k < |Requests(expired)|
      ensures exists r :: r in rows && StatusOf(r, now).Expired? && PlanEntry(r) == Request(Requests(expired)[k])
    {
      var i :| 0 <= i < |expired| && PlanEntry(expired[i]) == Request(Requests(expired)[k]);
      assert expired[i] in expired;
    }
  }

  /** The whole run: classify against `now`, then the deletion phase on the expired
      rows. Every request the run sends addresses a row of the export whose expiry
      parsed to an instant strictly before `now`. */
  method Reconcile(rows: seq<WaiverRecord>, now: Instant, reply: string, server: string -> Exchange)
    returns (c: Classification, run: DeletionRun)
    ensures c == Classify(rows, now)
    ensures run == Orchestrate(c.expired, reply, server)
    ensures run.Completed? ==>
              forall k :: 0 <= k < |run.requests| ==>
                exists r :: r in rows && StatusOf(r, now).Expired? && PlanEntry(r) == Request(run.requests[k])
  {
    c := Classify(rows, now);
    run := DeleteExpired(c.expired, reply, server);
    RequestsAddressExpiredRows(rows, now);
  }
}
