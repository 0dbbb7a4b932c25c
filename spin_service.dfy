/**
 * The two callable functions of the backend over an in-memory `spins`
 * collection: `spinWheel` (authenticate, cooldown, configuration, weighted
 * selection, append one record) and `getHistory` (a newest-first page of the
 * caller's records, their total count and page statistics).
 */
module SpinService {
  import opened Common
  import opened SpinTypes
  import Cooldown
  import WeightedSelection
  import SpinStats

  const DEFAULT_LIMIT: int := 20
  const MAX_LIMIT: int := 100
  const SPIN_FAILED: string := "Failed to process spin"
  const HISTORY_FAILED: string := "Failed to retrieve history"
  const UNAUTHENTICATED: HttpsError := HttpsError(Unauthenticated, "User must be authenticated")

  /** Store operations of `spinWheel` that may throw (a non-`HttpsError`). */
  datatype SpinFault = NoSpinFault | LatestQueryFails | ConfigReadFails | AddFails

  /** Store operations of `getHistory` that may throw (a non-`HttpsError`). */
  datatype HistoryFault = NoHistoryFault | PageQueryFails | CountQueryFails

  datatype SpinResponse = SpinResponse(spinId: nat, segment: Segment, message: string, cooldownMinutes: nat)

  datatype HistoryResponse = HistoryResponse(
    spins: seq<SpinRecord>,
    totalSpins: nat,
    hasMore: bool,
    stats: SpinStats.Stats)

  // ---------------------------------------------------------------------
  // Queries over the collection

  /**
   * The caller's records ordered by timestamp, newest first. Only the spin
   * function adds records, with the server clock, so the reverse of the
   * order of addition is the timestamp order (see `NewestFirstSpaced`).
   */
  function NewestFirst(records: seq<SpinRecord>, uid: string): (mine: seq<SpinRecord>)
    ensures |mine| <= |records|
    ensures forall k :: 0 <= k < |mine| ==> mine[k].userId == uid
    ensures records != [] && records[|records| - 1].userId == uid ==>
      |mine| > 0 && mine[0] == records[|records| - 1]
  {
    if records == [] then []
    else
      var last := records[|records| - 1];
      (if last.userId == uid then [last] else []) + NewestFirst(records[..|records| - 1], uid)
  }

  /** Timestamp of the caller's latest record (the `limit(1)` query), if any. */
  function LastSpinTime(records: seq<SpinRecord>, uid: string): (latest: Option<int>)
    ensures latest.None? <==> forall i :: 0 <= i < |records| ==> records[i].userId != uid
    ensures latest.Some? ==>
      exists i :: 0 <= i < |records| && records[i].userId == uid && records[i].timestamp == latest.value
  {
    NewestFirstMembers(records, uid);
    var mine := NewestFirst(records, uid);
    if mine == [] then
      assert forall i :: 0 <= i < |records| ==> records[i] !in mine;
      None
    else
      assert mine[0] in records;
      Some(mine[0].timestamp)
  }

  /** `offset(offset).limit(limit)`: skip `offset` records, then take at most `limit`. */
  function PageOf(s: seq<SpinRecord>, offset: nat, limit: nat): (page: seq<SpinRecord>)
    ensures |page| == (if offset >= |s| then 0 else if offset + limit <= |s| then limit else |s| - offset)
    ensures forall k :: 0 <= k < |page| ==> page[k] == s[offset + k]
  {
    var from := if offset <= |s| then offset else |s|;
    var to := if offset + limit <= |s| then offset + limit else |s|;
    s[from..to]
  }

  /**
   * The collection as the service leaves it: document ids are positions,
   * server timestamps never decrease, and two records of one user lie at
   * least the cooldown apart.
   */
  predicate WellFormed(records: seq<SpinRecord>) {
    && (forall i :: 0 <= i < |records| ==> records[i].id == i)
    && (forall i, j :: 0 <= i < j < |records| ==> records[i].timestamp <= records[j].timestamp)
    && (forall i, j :: 0 <= i < j < |records| && records[i].userId == records[j].userId ==>
          records[i].timestamp + Cooldown.COOLDOWN_MS <= records[j].timestamp)
  }

  /** Newest first, each record at least the cooldown older than the one before it. */
  predicate SpacedNewestFirst(s: seq<SpinRecord>) {
    forall i, j :: 0 <= i < j < |s| ==> s[j].timestamp + Cooldown.COOLDOWN_MS <= s[i].timestamp
  }

  /** The server clock reads no earlier than any stored timestamp. */
  predicate ClockNotBefore(records: seq<SpinRecord>, now: int) {
    forall i :: 0 <= i < |records| ==> records[i].timestamp <= now
  }

  // ---------------------------------------------------------------------
  // Request fields and response text

  /** `data?.clientRequestId || null` */
  function StoredRequestId(clientRequestId: Option<string>): (stored: Option<string>)
    ensures stored.None? <==> clientRequestId.None? || clientRequestId.value == ""
    ensures stored.Some? ==> stored == clientRequestId
  {
    if clientRequestId.Some? && clientRequestId.value != "" then clientRequestId else None
  }

  /** `wheelConfig?.version || 1` */
  function VersionOr1(version: Option<int>): (v: int)
    ensures v != 0
    ensures version.Some? && version.value != 0 ==> v == version.value
    ensures v == 1 || version == Some(v)
  {
    if version.Some? && version.value != 0 then version.value else 1
  }

  /** A description as a template literal prints it. */
  function DescriptionText(description: Option<string>): string {
    if description.Some? then description.value else "undefined"
  }

  /** The success message: a fixed prefix, then the prize description as printed. */
  function WinMessage(prize: Prize): (m: string)
    ensures |m| >= 9 && m[..9] == "You won: "
    ensures prize.description.Some? ==> m[9..] == prize.description.value
    ensures prize.description.None? ==> m[9..] == "undefined"
  {
    "You won: " + DescriptionText(prize.description)
  }

  /** `data?.limit || 20`: a missing or zero limit becomes 20. */
  function EffectiveLimit(limit: Option<int>): (lim: int)
    ensures lim != 0
    ensures limit.Some? && limit.value != 0 ==> lim == limit.value
    ensures lim == DEFAULT_LIMIT || limit == Some(lim)
  {
    if limit.Some? && limit.value != 0 then limit.value else DEFAULT_LIMIT
  }

  /** `data?.offset || 0` */
  function EffectiveOffset(offset: Option<int>): (off: int)
    ensures offset.Some? ==> off == offset.value
    ensures offset.None? ==> off == 0
  {
    offset.GetOr(0)
  }

  /** The cooldown lets the caller through: authenticated, latest-spin query answered, not denied. */
  predicate PassedCooldown(records: seq<SpinRecord>, auth: Option<string>, fault: SpinFault, now: int) {
    auth.Some? && fault != LatestQueryFails && Cooldown.Check(LastSpinTime(records, auth.value), now).Allowed?
  }

  // ---------------------------------------------------------------------
  // Lemmas about the collection

  /** The query returns exactly the caller's records. */
  lemma {:induction false} NewestFirstMembers(records: seq<SpinRecord>, uid: string)
    ensures forall r :: r in NewestFirst(records, uid) <==> r in records && r.userId == uid
  {
    if records != [] {
      var s, x := records[..|records| - 1], records[|records| - 1];
      NewestFirstMembers(s, uid);
      assert records == s + [x];
    }
  }

  lemma SpacedCons(x: SpinRecord, rest: seq<SpinRecord>)
    requires SpacedNewestFirst(rest)
    requires forall y :: y in rest ==> y.timestamp + Cooldown.COOLDOWN_MS <= x.timestamp
    ensures SpacedNewestFirst([x] + rest)
  {
    var mine := [x] + rest;
    forall i, j | 0 <= i < j < |mine|
      ensures mine[j].timestamp + Cooldown.COOLDOWN_MS <= mine[i].timestamp
    {
      assert mine[j] == rest[j - 1];
      if i > 0 {
        assert mine[i] == rest[i - 1];
      } else {
        assert mine[j] in rest;
      }
    }
  }

  /** Newest first: along the caller's records each is at least the cooldown older than the one before. */
  lemma {:induction false} NewestFirstSpaced(records: seq<SpinRecord>, uid: string)
    requires WellFormed(records)
    ensures SpacedNewestFirst(NewestFirst(records, uid))
  {
    if records != [] {
      var s, x := records[..|records| - 1], records[|records| - 1];
      assert WellFormed(s);
      NewestFirstSpaced(s, uid);
      var rest := NewestFirst(s, uid);
      if x.userId == uid {
        NewestFirstMembers(s, uid);
        forall y | y in rest
          ensures y.timestamp + Cooldown.COOLDOWN_MS <= x.timestamp
        {
          var p :| 0 <= p < |s| && s[p] == y;
          assert records[p] == y;
        }
        SpacedCons(x, rest);
      }
    }
  }

  /**
   * The latest-spin query finds nothing exactly when the caller has no
   * record; otherwise it gives the largest of the caller's timestamps.
   */
  lemma LatestIsNewest(records: seq<SpinRecord>, uid: string)
    requires WellFormed(records)
    ensures LastSpinTime(records, uid).None? <==>
      forall i :: 0 <= i < |records| ==> records[i].userId != uid
    ensures LastSpinTime(records, uid).Some? ==>
      forall i :: 0 <= i < |records| && records[i].userId == uid ==>
        records[i].timestamp <= LastSpinTime(records, uid).value
    ensures LastSpinTime(records, uid).Some? ==>
      exists i :: 0 <= i < |records| && records[i].userId == uid &&
        records[i].timestamp == LastSpinTime(records, uid).value
  {
    NewestFirstMembers(records, uid);
    NewestFirstSpaced(records, uid);
    var mine := NewestFirst(records, uid);
    forall i | 0 <= i < |records| && records[i].userId == uid
      ensures mine != [] && records[i].timestamp <= mine[0].timestamp
    {
      assert records[i] in mine;
      var k :| 0 <= k < |mine| && mine[k] == records[i];
      if k > 0 {
        assert mine[k].timestamp + Cooldown.COOLDOWN_MS <= mine[0].timestamp;
      }
    }
    if mine != [] {
      assert mine[0] in records;
    }
  }

  /**
   * Appending a record the cooldown allows at time `checkedAt`, stamped no
   * earlier than that and given the next id, keeps the collection well formed.
   */
  lemma AppendKeepsWellFormed(records: seq<SpinRecord>, rec: SpinRecord, checkedAt: int)
    requires WellFormed(records)
    requires rec.id == |records| && ClockNotBefore(records, checkedAt) && checkedAt <= rec.timestamp
    requires Cooldown.Check(LastSpinTime(records, rec.userId), checkedAt).Allowed?
    ensures WellFormed(records + [rec])
  {
    LatestIsNewest(records, rec.userId);
  }

  /**
   * A history page holds only the caller's records, newest first and each
   * at least the cooldown older than the previous, and has the size the
   * offset and limit leave.
   */
  lemma PageOfNewestFirst(records: seq<SpinRecord>, uid: string, offset: nat, limit: nat)
    requires WellFormed(records)
    ensures var mine := NewestFirst(records, uid);
      var page := PageOf(mine, offset, limit);
      && (forall r :: r in page ==> r in records && r.userId == uid)
      && SpacedNewestFirst(page)
      && |page| == (if offset >= |mine| then 0 else if offset + limit <= |mine| then limit else |mine| - offset)
  {
    NewestFirstMembers(records, uid);
    NewestFirstSpaced(records, uid);
    var mine := NewestFirst(records, uid);
    var from := if offset <= |mine| then offset else |mine|;
    var to := if offset + limit <= |mine| then offset + limit else |mine|;
    var page := PageOf(mine, offset, limit);
    assert page == mine[from..to];
    SliceOfSpaced(mine, from, to);
    SliceMembers(mine, from, to);
  }

  lemma SliceMembers(s: seq<SpinRecord>, from: nat, to: nat)
    requires from <= to <= |s|
    ensures forall r :: r in s[from..to] ==> r in s
  {
    forall r | r in s[from..to]
      ensures r in s
    {
      var k :| 0 <= k < to - from && s[from..to][k] == r;
      assert s[from + k] == r;
    }
  }

  lemma SliceOfSpaced(s: seq<SpinRecord>, from: nat, to: nat)
    requires from <= to <= |s| && SpacedNewestFirst(s)
    ensures SpacedNewestFirst(s[from..to])
  {
    var page := s[from..to];
    forall i, j | 0 <= i < j < |page|
      ensures page[j].timestamp + Cooldown.COOLDOWN_MS <= page[i].timestamp
    {
      assert page[i] == s[from + i] && page[j] == s[from + j];
    }
  }

  /** Two consecutive pages together are the page spanning both. */
  lemma PagesTile(s: seq<SpinRecord>, offset: nat, a: nat, b: nat)
    ensures PageOf(s, offset, a) + PageOf(s, offset + a, b) == PageOf(s, offset, a + b)
  {
    var x := if offset <= |s| then offset else |s|;
    var y := if offset + a <= |s| then offset + a else |s|;
    var z := if offset + a + b <= |s| then offset + a + b else |s|;
    assert s[x..y] + s[y..z] == s[x..z];
  }

  // ---------------------------------------------------------------------
  // The service

  class SpinLedger {
    /** The `spins` collection, in the order its documents were added. */
    var spins: seq<SpinRecord>

    ghost predicate Valid()
      reads this
    {
      WellFormed(spins)
    }

    constructor ()
      ensures Valid() && spins == []
    {
      spins := [];
    }

    /**
     * `spinWheel`. `config` is the `wheelConfig/default` document (None when
     * it does not exist), `now` the function's clock when the cooldown is
     * checked, `commitTime` the store's commit timestamp written into the new
     * record, `u` the `Math.random()` value and `fault` the store operation
     * that throws, if any. A failure leaves the collection untouched; a
     * success appends exactly one record.
     */
    method SpinWheel(auth: Option<string>, clientRequestId: Option<string>, config: Option<WheelConfig>,
                     now: int, commitTime: int, u: real, fault: SpinFault)
      returns (result: Result<SpinResponse, HttpsError>)
      requires Valid()
      requires ClockNotBefore(spins, now) && now <= commitTime
      requires 0.0 <= u < 1.0
      modifies this
      ensures Valid()
      ensures result.Failure? ==> spins == old(spins)
      ensures result.Success? ==> |spins| == |old(spins)| + 1 && spins[..|old(spins)|] == old(spins)
      ensures auth.None? ==> result == Failure(UNAUTHENTICATED)
      ensures auth.Some? && fault == LatestQueryFails ==> result == Failure(HttpsError(Internal, SPIN_FAILED))
      ensures auth.Some? && fault != LatestQueryFails ==>
        var decision := Cooldown.Check(LastSpinTime(old(spins), auth.value), now);
        decision.Denied? ==>
          result == Failure(HttpsError(FailedPrecondition, Cooldown.WaitMessage(decision.remainingMinutes)))
      ensures PassedCooldown(old(spins), auth, fault, now) ==>
        if fault == ConfigReadFails then result == Failure(HttpsError(Internal, SPIN_FAILED))
        else if config.None? then result == Failure(HttpsError(NotFound, "Wheel configuration not found"))
        else if config.value.segments == [] then
          result == Failure(HttpsError(FailedPrecondition, "No wheel segments configured"))
        else if fault == AddFails then result == Failure(HttpsError(Internal, SPIN_FAILED))
        else
          var segs := config.value.segments;
          var seg := segs[WeightedSelection.SelectedIndex(segs, WeightedSelection.Draw(segs, u))];
          var id := |old(spins)|;
          && result == Success(SpinResponse(id, seg, WinMessage(seg.prize), Cooldown.COOLDOWN_MINUTES))
          && spins == old(spins) + [SpinRecord(id, auth.value, seg.id, Some(seg.prize), commitTime,
                                                StoredRequestId(clientRequestId), VersionOr1(config.value.version))]
    {
      if auth.None? {
        return Failure(UNAUTHENTICATED);
      }
      var userId := auth.value;
      var requestId := StoredRequestId(clientRequestId);

      if fault == LatestQueryFails {
        return Failure(HttpsError(Internal, SPIN_FAILED));
      }
      var decision := Cooldown.Check(LastSpinTime(spins, userId), now);
      if decision.Denied? {
        return Failure(HttpsError(FailedPrecondition, Cooldown.WaitMessage(decision.remainingMinutes)));
      }

      if fault == ConfigReadFails {
        return Failure(HttpsError(Internal, SPIN_FAILED));
      }
      if config.None? {
        return Failure(HttpsError(NotFound, "Wheel configuration not found"));
      }
      var segments := config.value.segments;
      if |segments| == 0 {
        return Failure(HttpsError(FailedPrecondition, "No wheel segments configured"));
      }

      var selected := WeightedSelection.SelectWeightedSegment(segments, u);

      if fault == AddFails {
        return Failure(HttpsError(Internal, SPIN_FAILED));
      }
      var spin := SpinRecord(|spins|, userId, selected.id, Some(selected.prize), commitTime,
                             requestId, VersionOr1(config.value.version));
      AppendKeepsWellFormed(spins, spin, now);
      spins := spins + [spin];
      result := Success(SpinResponse(spin.id, selected, WinMessage(selected.prize), Cooldown.COOLDOWN_MINUTES));
    }

    /**
     * `getHistory`. `fault` names the store query that throws, if any; the
     * store also refuses a negative limit or offset. Both surface as
     * `internal`. Statistics cover the returned page only.
     */
    method GetHistory(auth: Option<string>, limit: Option<int>, offset: Option<int>, fault: HistoryFault)
      returns (result: Result<HistoryResponse, HttpsError>)
      requires Valid()
      ensures auth.None? ==> result == Failure(UNAUTHENTICATED)
      ensures auth.Some? && EffectiveLimit(limit) > MAX_LIMIT ==>
        result == Failure(HttpsError(InvalidArgument, "Limit cannot exceed 100"))
      ensures result.Success? <==>
        && auth.Some? && 0 <= EffectiveLimit(limit) <= MAX_LIMIT && 0 <= EffectiveOffset(offset)
        && fault == NoHistoryFault
      ensures result.Failure? && auth.Some? && EffectiveLimit(limit) <= MAX_LIMIT ==>
        result == Failure(HttpsError(Internal, HISTORY_FAILED))
      ensures result.Success? ==>
        var mine := NewestFirst(spins, auth.value);
        var lim, off := EffectiveLimit(limit), EffectiveOffset(offset);
        && result.value.spins == PageOf(mine, off, lim)
        && result.value.totalSpins == |mine|
        && (result.value.hasMore <==> |mine| > off + lim)
        && result.value.stats == SpinStats.Summary(result.value.spins)
      ensures result.Success? ==>
        && SpacedNewestFirst(result.value.spins)
        && (forall r :: r in result.value.spins ==> r in spins && r.userId == auth.value)
    {
      if auth.None? {
        return Failure(UNAUTHENTICATED);
      }
      var userId := auth.value;
      var lim := EffectiveLimit(limit);
      var off := EffectiveOffset(offset);
      if lim > MAX_LIMIT {
        return Failure(HttpsError(InvalidArgument, "Limit cannot exceed 100"));
      }
      if lim < 0 || off < 0 || fault == PageQueryFails {
        return Failure(HttpsError(Internal, HISTORY_FAILED));
      }
      var page := PageOf(NewestFirst(spins, userId), off, lim);
      PageOfNewestFirst(spins, userId, off, lim);
      if fault == CountQueryFails {
        return Failure(HttpsError(Internal, HISTORY_FAILED));
      }
      var totalSpins := |NewestFirst(spins, userId)|;
      var stats := SpinStats.CalculateSpinStats(page);
      result := Success(HistoryResponse(page, totalSpins, totalSpins > off + lim, stats));
    }
  }
}
