/** The pass that marks waivers for deletion: each row's 'Expiration Date' is
    parsed and compared with the reference time. */
module Classification {

  import opened Wrappers
  import opened Calendar
  import opened Records
  import opened Timestamps

  /** What the pass decides about one row. */
  datatype ExpiryStatus =
    | NoExpiration            // the cell is missing: skipped silently
    | Unparseable             // the parser gave None: skipped with a warning
    | Expired(at: Instant)    // strictly before the reference time: marked for deletion
    | NotExpired(at: Instant) // at or after the reference time: kept

  /** One row against the reference time `now`: a missing cell is skipped first,
      then the cell's `str()` is parsed, then the instant is compared strictly. */
  function StatusOf(r: WaiverRecord, now: Instant): (st: ExpiryStatus)
    ensures st.Expired? ==> Before(st.at, now)
    ensures st.NotExpired? ==> !Before(st.at, now)
    ensures st.NoExpiration? <==> r.expiration.Missing?
    ensures !r.expiration.Missing? ==>
              var parsed := ParseWaiverDatetime(Text(Str(r.expiration)));
              && (st.Unparseable? <==> parsed.None?)
              && (st.Expired? <==> parsed.Some? && Before(parsed.value, now))
              && (st.Expired? || st.NotExpired? ==> parsed == Some(st.at))
  {
    if r.expiration.Missing? then NoExpiration
    else
      var parsed := ParseWaiverDatetime(Text(Str(r.expiration)));
      if parsed.None? then Unparseable
      else if Before(parsed.value, now) then Expired(parsed.value)
      else NotExpired(parsed.value)
  }

  /** The rows marked for deletion, and the rows warned about as unparseable. */
  datatype Classification = Classification(expired: seq<WaiverRecord>, unparseable: seq<WaiverRecord>)

  /** The classification loop, one row at a time in input order. A row lands in
      `expired` exactly when its status is Expired, in `unparseable` exactly when
      it is Unparseable, and in neither otherwise. */
  function Classify(rows: seq<WaiverRecord>, now: Instant): (c: Classification)
    ensures forall x :: x in c.expired <==> x in rows && StatusOf(x, now).Expired?
    ensures forall x :: x in c.unparseable <==> x in rows && StatusOf(x, now).Unparseable?
    ensures |c.expired| + |c.unparseable| <= |rows|
    decreases |rows|
  {
    if |rows| == 0 then Classification([], [])
    else
      var front := rows[..|rows| - 1];
      var r := rows[|rows| - 1];
      assert rows == front + [r];
      var c := Classify(front, now);
      match StatusOf(r, now)
      case Expired(_) => c.(expired := c.expired + [r])
      case Unparseable => c.(unparseable := c.unparseable + [r])
      case _ => c
  }

  /** `idx` is a strictly increasing list of positions of `xs`, made of exactly the
      positions whose element satisfies `keep`, and it lists `kept`. */
  ghost predicate SelectsBy<T>(xs: seq<T>, kept: seq<T>, keep: T -> bool, idx: seq<int>) {
    && |idx| == |kept|
    && (forall k :: 0 <= k < |idx| ==> 0 <= idx[k] < |xs| && kept[k] == xs[idx[k]])
    && (forall k, l :: 0 <= k < l < |idx| ==> idx[k] < idx[l])
    && (forall i :: 0 <= i < |xs| ==> (keep(xs[i]) <==> i in idx))
  }

  /** `kept` is `xs` filtered by `keep` with the relative order preserved. */
  ghost predicate IsStableFilter<T>(xs: seq<T>, kept: seq<T>, keep: T -> bool) {
    exists idx: seq<int> :: SelectsBy(xs, kept, keep, idx)
  }

  lemma SelectsNothing<T>(keep: T -> bool)
    ensures IsStableFilter([], [], keep)
  {
    assert SelectsBy([], [], keep, []);
  }

  lemma SelectsKept<T>(xs: seq<T>, kept: seq<T>, keep: T -> bool, idx: seq<int>, x: T)
    requires SelectsBy(xs, kept, keep, idx)
    requires keep(x)
    ensures SelectsBy(xs + [x], kept + [x], keep, idx + [|xs|])
  {
    var ys, idx' := xs + [x], idx + [|xs|];
    assert forall i :: 0 <= i < |xs| ==> ys[i] == xs[i];
    assert forall i :: 0 <= i < |xs| ==> (i in idx' <==> i in idx);
  }

  lemma SelectsDropped<T>(xs: seq<T>, kept: seq<T>, keep: T -> bool, idx: seq<int>, x: T)
    requires SelectsBy(xs, kept, keep, idx)
    requires !keep(x)
    ensures SelectsBy(xs + [x], kept, keep, idx)
  {
    var ys := xs + [x];
    assert forall i :: 0 <= i < |xs| ==> ys[i] == xs[i];
    assert |xs| !in idx;
  }

  lemma StableFilterExtend<T>(xs: seq<T>, kept: seq<T>, keep: T -> bool, x: T)
    requires IsStableFilter(xs, kept, keep)
    ensures keep(x) ==> IsStableFilter(xs + [x], kept + [x], keep)
    ensures !keep(x) ==> IsStableFilter(xs + [x], kept, keep)
  {
    var idx :| SelectsBy(xs, kept, keep, idx);
    if keep(x) {
      SelectsKept(xs, kept, keep, idx, x);
    } else {
      SelectsDropped(xs, kept, keep, idx, x);
    }
  }

  /** The expired list, and likewise the unparseable list, is a stable filter of the
      input: same relative order, and exactly the rows with that status. */
  lemma {:induction false} ClassifyIsStable(rows: seq<WaiverRecord>, now: Instant)
    ensures IsStableFilter(rows, Classify(rows, now).expired, r => StatusOf(r, now).Expired?)
    ensures IsStableFilter(rows, Classify(rows, now).unparseable, r => StatusOf(r, now).Unparseable?)
    decreases |rows|
  {
    var isExpired := r => StatusOf(r, now).Expired?;
    var isUnparseable := r => StatusOf(r, now).Unparseable?;
    if |rows| == 0 {
      SelectsNothing(isExpired);
      SelectsNothing(isUnparseable);
    } else {
      var front := rows[..|rows| - 1];
      var r := rows[|rows| - 1];
      assert rows == front + [r];
      ClassifyIsStable(front, now);
      StableFilterExtend(front, Classify(front, now).expired, isExpired, r);
      StableFilterExtend(front, Classify(front, now).unparseable, isUnparseable, r);
    }
  }

  /** A row is marked for deletion exactly when it is in the export, has an expiry
      cell, and that cell parses to an instant strictly before `now`. */
  lemma ExpiredMeansParsedBefore(rows: seq<WaiverRecord>, now: Instant, x: WaiverRecord)
    ensures x in Classify(rows, now).expired <==>
              && x in rows
              && !x.expiration.Missing?
              && var parsed := ParseWaiverDatetime(Text(Str(x.expiration)));
                 parsed.Some? && Before(parsed.value, now)
  {
  }

  /** The comparison is strict: a waiver expiring exactly at the reference time is kept. */
  lemma ExpiryAtReferenceTimeIsKept(r: WaiverRecord, now: Instant)
    requires !r.expiration.Missing?
    requires ParseWaiverDatetime(Text(Str(r.expiration))) == Some(now)
    ensures StatusOf(r, now) == NotExpired(now)
    ensures r !in Classify([r], now).expired
  {
  }
}
