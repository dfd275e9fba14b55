/** Whole-run examples: one expired application waiver deleted, the same waiver
    with an unknown scope type, and an unparseable expiry next to an expired one. */
module Scenarios {

  import opened Wrappers
  import opened Digits
  import opened Calendar
  import opened Records
  import opened Timestamps
  import opened Scopes
  import opened Api
  import opened Confirmation
  import opened Classification
  import opened Deletion

  /** The expiry text of the scenarios, written by the timestamp encoder. */
  function Expiry2020(): string {
    Format(Utc(WallClock(2020, 1, 1, 0, 0, 0)))
  }

  /** Waiver W1 on scope app-42 with the given scope type and expiry text. */
  function Waiver(scopeType: string, expiry: string): WaiverRecord {
    WaiverRecord(Text("W1"), Text(scopeType), Text("app-42"), Text(expiry))
  }

  /** `expiry` parses to an instant strictly before `now`. */
  predicate ExpiredBy(expiry: string, now: Instant) {
    var parsed := ParseWaiverDatetime(Text(expiry));
    parsed.Some? && Before(parsed.value, now)
  }

  /** The instant the expiry string denotes: 2020-01-01T00:00:00Z. */
  function ExpiryInstant(): Instant {
    InstantAt(WallClock(2020, 1, 1, 0, 0, 0), 0, 0)
  }

  /** 2024-01-01T00:00:00Z, a reference time after that expiry. */
  function Reference(): Instant {
    InstantAt(WallClock(2024, 1, 1, 0, 0, 0), 0, 0)
  }

  lemma PadZero()
    ensures Pad(0, 2) == "00"
  {
    assert Pad(0, 1) == "0";
  }

  lemma PadOne()
    ensures Pad(1, 2) == "01"
  {
    assert Pad(0, 1) == "0";
  }

  lemma PadYear()
    ensures Pad(2020, 4) == "2020"
  {
    assert Pad(2, 1) == "2";
    assert Pad(20, 2) == "20";
    assert Pad(202, 3) == "202";
  }

  lemma Expiry2020IsFormatted()
    ensures Expiry2020() == "2020-01-01T00:00:00Z"
  {
    PadZero();
    PadOne();
    PadYear();
  }

  lemma ExpiryParses()
    ensures ParseWaiverDatetime(Text(Expiry2020())) == Some(ExpiryInstant())
  {
    ParseFormatRoundTrip(Utc(WallClock(2020, 1, 1, 0, 0, 0)));
  }

  lemma ExpiryIsBeforeReference()
    ensures Before(ExpiryInstant(), Reference())
  {
    FieldOrderIsInstantOrder(WallClock(2020, 1, 1, 0, 0, 0), 0, WallClock(2024, 1, 1, 0, 0, 0), 0, 0);
  }

  lemma DeleteConfirms()
    ensures Confirmed("DELETE")
  {
    PaddedKeywordConfirms("", "DELETE", "");
    assert "" + "DELETE" + "" == "DELETE";
  }

  lemma ExpiredWaiverStatus(scopeType: string, expiry: string, now: Instant)
    requires ExpiredBy(expiry, now)
    ensures StatusOf(Waiver(scopeType, expiry), now) == Expired(ParseWaiverDatetime(Text(expiry)).value)
  {
  }

  lemma ApplicationEndpoint()
    ensures forall expiry :: PlanEntry(Waiver("application", expiry)) == Request("policyWaivers/application/app-42/W1")
  {
    assert ScopeToken(Text("application")) == Some("application");
    assert WaiverEndpoint("application", Text("app-42"), Text("W1")) == "policyWaivers/application/app-42/W1";
  }

  lemma SingleEntryRun(w: WaiverRecord, server: string -> Exchange)
    ensures Outcomes([w], server) == [EntryOutcome(w, server)]
    ensures Requests([w]) == match PlanEntry(w)
                             case Request(endpoint) => [endpoint]
                             case Skip(_) => []
  {
    assert [w][..0] == [];
  }

  lemma ClassifyOneExpired(w: WaiverRecord, now: Instant)
    requires StatusOf(w, now).Expired?
    ensures Classify([w], now) == Classification([w], [])
  {
    assert [w][..0] == [];
  }

  lemma ClassifyUnparseableThenExpired(a: WaiverRecord, b: WaiverRecord, now: Instant)
    requires StatusOf(a, now).Unparseable?
    requires StatusOf(b, now).Expired?
    ensures Classify([a, b], now) == Classification([b], [a])
  {
    assert [a, b][..1] == [a] && [a][..0] == [];
  }

  /** One confirmed entry whose request the server answers with 204. */
  lemma ConfirmedSingleDeletion(w: WaiverRecord, endpoint: string, server: string -> Exchange)
    requires PlanEntry(w) == Request(endpoint)
    requires server(endpoint).Response? && server(endpoint).status == 204
    ensures Orchestrate([w], "DELETE", server) == Completed(1, 0, [Deleted], [endpoint])
  {
    DeleteConfirms();
    SingleEntryRun(w, server);
    assert EntryOutcome(w, server) == Deleted;
    assert [Deleted][..0] == [];
  }

  /** An expired application waiver, confirmed, answered with 204: one deletion,
      no failure, one request to its endpoint. The literal inputs of this scenario are
      covered in three steps rather than one: `ExpiryParses` reads the expiry text
      `2020-01-01T00:00:00Z` as `ExpiryInstant()`, `ExpiryIsBeforeReference` puts
      that instant before 2024-01-01T00:00:00Z, and this lemma holds for every
      expiry text that parses to an instant before the reference time. */
  lemma ApplicationWaiverIsDeleted(expiry: string, now: Instant, server: string -> Exchange)
    requires ExpiredBy(expiry, now)
    requires server("policyWaivers/application/app-42/W1").Response?
    requires server("policyWaivers/application/app-42/W1").status == 204
    ensures Classify([Waiver("application", expiry)], now).expired == [Waiver("application", expiry)]
    ensures Orchestrate([Waiver("application", expiry)], "DELETE", server)
            == Completed(1, 0, [Deleted], ["policyWaivers/application/app-42/W1"])
  {
    ExpiredWaiverStatus("application", expiry, now);
    ClassifyOneExpired(Waiver("application", expiry), now);
    ApplicationEndpoint();
    ConfirmedSingleDeletion(Waiver("application", expiry), "policyWaivers/application/app-42/W1", server);
  }

  lemma UnknownKindIsNotMapped()
    ensures ScopeToken(Text("unknown_kind")) == None
  {
    ScopeTokenTable("unknown_kind");
  }

  /** One confirmed entry whose scope type the table does not know. */
  lemma ConfirmedSingleUnknown(w: WaiverRecord, server: string -> Exchange)
    requires ScopeToken(w.scopeType).None?
    ensures Orchestrate([w], "DELETE", server) == Completed(0, 1, [UnknownScopeType], [])
  {
    DeleteConfirms();
    SingleEntryRun(w, server);
    assert [UnknownScopeType][..0] == [];
  }

  /** The same waiver with an unknown scope type: one failure and no request,
      whatever the server would have answered. */
  lemma UnknownScopeTypeFailsWithoutRequest(expiry: string, server: string -> Exchange)
    ensures Orchestrate([Waiver("unknown_kind", expiry)], "DELETE", server)
            == Completed(0, 1, [UnknownScopeType], [])
  {
    UnknownKindIsNotMapped();
    ConfirmedSingleUnknown(Waiver("unknown_kind", expiry), server);
  }

  lemma BananaIsUnparseable(banana: WaiverRecord, now: Instant)
    requires banana.expiration == Text("banana")
    ensures StatusOf(banana, now) == Unparseable
  {
    assert |Str(banana.expiration)| == 6;
  }

  /** An unparseable expiry is set aside with its row; the expired row is still found. */
  lemma UnparseableRowIsSetAside(expiry: string, now: Instant)
    requires ExpiredBy(expiry, now)
    ensures var banana := WaiverRecord(Text("W0"), Text("application"), Text("app-42"), Text("banana"));
            Classify([banana, Waiver("application", expiry)], now)
            == Classification([Waiver("application", expiry)], [banana])
  {
    var banana := WaiverRecord(Text("W0"), Text("application"), Text("app-42"), Text("banana"));
    BananaIsUnparseable(banana, now);
    ExpiredWaiverStatus("application", expiry, now);
    ClassifyUnparseableThenExpired(banana, Waiver("application", expiry), now);
  }

  /** The waiver id is never checked: a missing one is rendered as "nan" and the
      request still goes out. */
  lemma MissingWaiverIdIsStillRequested(expiry: string)
    ensures PlanEntry(WaiverRecord(Missing, Text("application"), Text("app-42"), Text(expiry)))
            == Request("policyWaivers/application/app-42/nan")
  {
    assert ScopeToken(Text("application")) == Some("application");
    assert WaiverEndpoint("application", Text("app-42"), Missing) == "policyWaivers/application/app-42/nan";
  }
}
