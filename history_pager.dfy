/**
 * The history screen's paging state: a refresh replaces the list with the
 * first page, a load-more appends the fetched spins whose ids are not yet
 * listed, and the offset advances by a fixed page size.
 */
module HistoryPager {
  import opened Common
  import opened SpinTypes
  import SpinService

  const PAGE_SIZE: int := 20
  const LOAD_ERROR: string := "Failed to load history. Please try again."

  /** A row of the list; `displayLabel` is the `label` field, the prize description. */
  datatype HistoryEntry = HistoryEntry(
    id: nat,
    segmentId: int,
    prize: Prize,
    timestamp: int,
    displayLabel: Option<string>)

  /** The arguments of a `getHistory` call. */
  datatype HistoryRequest = HistoryRequest(limit: int, offset: int)

  /** How the `getHistory` call settled: the data it returned, or an error it threw. */
  datatype CallOutcome = Returned(success: bool, spins: seq<SpinRecord>, hasMore: bool) | Threw

  function ToEntry(spin: SpinRecord): HistoryEntry
    requires spin.prize.Some?
  {
    HistoryEntry(spin.id, spin.segmentId, spin.prize.value, spin.timestamp, spin.prize.value.description)
  }

  /**
   * `data.spins.map(...)`. Reading `spin.prize.description` throws when a
   * spin has no prize, so the mapping yields nothing in that case.
   */
  function ToEntries(spins: seq<SpinRecord>): (r: Option<seq<HistoryEntry>>)
    ensures r.Some? <==> forall i :: 0 <= i < |spins| ==> spins[i].prize.Some?
    ensures r.Some? ==> |r.value| == |spins|
    ensures r.Some? ==> forall i :: 0 <= i < |spins| ==>
      && r.value[i].id == spins[i].id
      && r.value[i].segmentId == spins[i].segmentId
      && r.value[i].timestamp == spins[i].timestamp
      && Some(r.value[i].prize) == spins[i].prize
      && r.value[i].displayLabel == spins[i].prize.value.description
  {
    if spins == [] then Some([])
    else
      var last := spins[|spins| - 1];
      match ToEntries(spins[..|spins| - 1])
      case None => None
      case Some(init) => if last.prize.None? then None else Some(init + [ToEntry(last)])
  }

  function Ids(entries: seq<HistoryEntry>): set<nat> {
    set e | e in entries :: e.id
  }

  predicate UniqueIds(entries: seq<HistoryEntry>) {
    forall i, j :: 0 <= i < j < |entries| ==> entries[i].id != entries[j].id
  }

  /** `fetched.filter(spin => !seen.has(spin.id))`, keeping the fetched order. */
  function KeepUnseen(fetched: seq<HistoryEntry>, seen: set<nat>): (r: seq<HistoryEntry>)
    ensures |r| <= |fetched|
    ensures forall e :: e in r <==> e in fetched && e.id !in seen
  {
    if fetched == [] then []
    else
      var last := fetched[|fetched| - 1];
      KeepUnseen(fetched[..|fetched| - 1], seen) + (if last.id in seen then [] else [last])
  }

  /**
   * The load-more update of the list: the previous list, unchanged, followed
   * by the fetched entries whose id it does not already hold.
   */
  function Merge(prev: seq<HistoryEntry>, fetched: seq<HistoryEntry>): (r: seq<HistoryEntry>)
    ensures |prev| <= |r| <= |prev| + |fetched|
    ensures r[..|prev|] == prev
    ensures forall e :: e in r[|prev|..] <==> e in fetched && e.id !in Ids(prev)
    ensures Ids(r) == Ids(prev) + Ids(fetched)
    ensures r[|prev|..] == KeepUnseen(fetched, Ids(prev))
  {
    var r := prev + KeepUnseen(fetched, Ids(prev));
    assert r[|prev|..] == KeepUnseen(fetched, Ids(prev));
    assert forall e :: e in fetched ==> e.id in Ids(r) by {
      forall e | e in fetched ensures e.id in Ids(r) {
        if e.id !in Ids(prev) {
          assert e in r[|prev|..];
        } else {
          var p :| p in prev && p.id == e.id;
        }
      }
    }
    r
  }

  // ---------------------------------------------------------------------
  // Lemmas

  lemma {:induction false} KeepUnseenUnique(fetched: seq<HistoryEntry>, seen: set<nat>)
    requires UniqueIds(fetched)
    ensures UniqueIds(KeepUnseen(fetched, seen))
  {
    if fetched != [] {
      var init, last := fetched[..|fetched| - 1], fetched[|fetched| - 1];
      KeepUnseenUnique(init, seen);
      var kept := KeepUnseen(init, seen);
      forall e | e in kept ensures e.id != last.id {
        var k :| 0 <= k < |init| && init[k] == e;
        assert fetched[k] == e;
      }
    }
  }

  /** A single fetched entry is kept exactly when its id has not been seen. */
  lemma KeepUnseenOne(e: HistoryEntry, seen: set<nat>)
    ensures KeepUnseen([e], seen) == if e.id in seen then [] else [e]
  {
    assert [e][..0] == [];
  }

  /**
   * The filter works entry by entry: filtering a concatenation is the
   * concatenation of the filtered parts, so (with `KeepUnseenOne`) the kept
   * entries keep their fetched order and multiplicity.
   */
  lemma {:induction false} KeepUnseenConcat(a: seq<HistoryEntry>, b: seq<HistoryEntry>, seen: set<nat>)
    ensures KeepUnseen(a + b, seen) == KeepUnseen(a, seen) + KeepUnseen(b, seen)
  {
    if b == [] {
      assert a + b == a;
    } else {
      var init, last := b[..|b| - 1], b[|b| - 1];
      var tail := if last.id in seen then [] else [last];
      assert (a + b)[..|a + b| - 1] == a + init;
      assert (a + b)[|a + b| - 1] == last;
      assert KeepUnseen(a + b, seen) == KeepUnseen(a + init, seen) + tail;
      assert KeepUnseen(b, seen) == KeepUnseen(init, seen) + tail;
      KeepUnseenConcat(a, init, seen);
    }
  }

  /** When the previous list and the fetched page are each free of repeated ids, so is the merge. */
  lemma MergeUniqueIds(prev: seq<HistoryEntry>, fetched: seq<HistoryEntry>)
    requires UniqueIds(prev) && UniqueIds(fetched)
    ensures UniqueIds(Merge(prev, fetched))
  {
    var tail := KeepUnseen(fetched, Ids(prev));
    KeepUnseenUnique(fetched, Ids(prev));
    var r := Merge(prev, fetched);
    assert r == prev + tail;
    forall i, j | 0 <= i < j < |r| ensures r[i].id != r[j].id {
      if j >= |prev| {
        assert r[j] == tail[j - |prev|];
        if i < |prev| {
          assert r[i] in prev;
          assert r[j] in tail;
        } else {
          assert r[i] == tail[i - |prev|];
        }
      }
    }
  }

  /**
   * Filtering only removes ids already listed: when no fetched id is listed,
   * the whole page is kept, repeated ids within it included.
   */
  lemma {:induction false} KeepUnseenKeepsAll(fetched: seq<HistoryEntry>, seen: set<nat>)
    requires forall e :: e in fetched ==> e.id !in seen
    ensures KeepUnseen(fetched, seen) == fetched
  {
    if fetched != [] {
      var init, last := fetched[..|fetched| - 1], fetched[|fetched| - 1];
      assert fetched == init + [last];
      assert last.id !in seen;
      KeepUnseenKeepsAll(init, seen);
      assert KeepUnseen(fetched, seen) == KeepUnseen(init, seen) + [last];
    }
  }

  lemma {:induction false} ToEntriesAppend(a: seq<SpinRecord>, b: seq<SpinRecord>)
    requires ToEntries(a).Some? && ToEntries(b).Some?
    ensures ToEntries(a + b) == Some(ToEntries(a).value + ToEntries(b).value)
  {
    if b != [] {
      var init, last := b[..|b| - 1], b[|b| - 1];
      assert (a + b)[..|a + b| - 1] == a + init;
      assert (a + b)[|a + b| - 1] == last;
      ToEntriesAppend(a, init);
      var ea, ei := ToEntries(a).value, ToEntries(init).value;
      assert ToEntries(b) == Some(ei + [ToEntry(last)]);
      assert ToEntries(a + b) == Some((ea + ei) + [ToEntry(last)]);
      assert (ea + ei) + [ToEntry(last)] == ea + (ei + [ToEntry(last)]);
    } else {
      assert a + b == a;
      assert ToEntries(a).value + ToEntries(b).value == ToEntries(a).value;
    }
  }

  predicate UniqueRecordIds(s: seq<SpinRecord>) {
    forall i, j :: 0 <= i < j < |s| ==> s[i].id != s[j].id
  }

  lemma EntryIds(recs: seq<SpinRecord>)
    requires ToEntries(recs).Some?
    ensures Ids(ToEntries(recs).value) == set r | r in recs :: r.id
  {
    var es := ToEntries(recs).value;
    forall x | x in Ids(es) ensures x in set r | r in recs :: r.id {
      var e :| e in es && e.id == x;
      var k :| 0 <= k < |es| && es[k] == e;
      assert recs[k] in recs;
    }
    forall x | x in set r | r in recs :: r.id ensures x in Ids(es) {
      var r :| r in recs && r.id == x;
      var k :| 0 <= k < |recs| && recs[k] == r;
      assert es[k] in es;
    }
  }

  /** Records before position `cut` and records from `cut` on share no id. */
  lemma SplitIdsDisjoint(s: seq<SpinRecord>, cut: nat, to: nat)
    requires UniqueRecordIds(s) && cut <= to <= |s|
    ensures (set r | r in s[..cut] :: r.id) !! (set r | r in s[cut..to] :: r.id)
  {
    forall x, y | x in s[..cut] && y in s[cut..to] ensures x.id != y.id {
      var i :| 0 <= i < cut && s[..cut][i] == x;
      var j :| 0 <= j < to - cut && s[cut..to][j] == y;
      assert s[i] == x && s[cut + j] == y;
    }
  }

  /**
   * Against an unchanged record list with distinct ids, loading the page at
   * offset `n` after the first `n` records yields exactly the first `n + 20`
   * records: nothing is lost, repeated or reordered.
   */
  lemma LoadMoreExtendsPages(s: seq<SpinRecord>, n: nat)
    requires UniqueRecordIds(s)
    requires forall i :: 0 <= i < |s| ==> s[i].prize.Some?
    ensures var before := ToEntries(SpinService.PageOf(s, 0, n)).value;
      var page := ToEntries(SpinService.PageOf(s, n, PAGE_SIZE)).value;
      Merge(before, page) == ToEntries(SpinService.PageOf(s, 0, n + PAGE_SIZE)).value
  {
    var a, b := SpinService.PageOf(s, 0, n), SpinService.PageOf(s, n, PAGE_SIZE);
    var cut := if n <= |s| then n else |s|;
    var to := if n + PAGE_SIZE <= |s| then n + PAGE_SIZE else |s|;
    assert a == s[..cut] && b == s[cut..to];
    SpinService.PagesTile(s, 0, n, PAGE_SIZE);
    ToEntriesAppend(a, b);
    var ea, eb := ToEntries(a).value, ToEntries(b).value;
    EntryIds(a);
    EntryIds(b);
    SplitIdsDisjoint(s, cut, to);
    assert Ids(ea) !! Ids(eb);
    assert forall e :: e in eb ==> e.id in Ids(eb);
    KeepUnseenKeepsAll(eb, Ids(ea));
  }

  /** Advancing a whole number of pages by one page stays a whole number of pages. */
  lemma NextPage(offset: int)
    requires 0 <= offset && offset % PAGE_SIZE == 0
    ensures 0 <= offset + PAGE_SIZE && (offset + PAGE_SIZE) % PAGE_SIZE == 0
  {
  }

  // ---------------------------------------------------------------------
  // The screen state

  class HistoryScreenState {
    var spins: seq<HistoryEntry>
    var loading: bool
    var refreshing: bool
    var hasMore: bool
    var offset: int
    var error: Option<string>
    /**
     * The `isRefresh` of the `fetchHistory` call awaiting its response, if
     * any: it pairs the two halves of one call.
     */
    ghost var pending: Option<bool>

    /** The offset is always a whole number of pages; a call in flight keeps `loading` up. */
    ghost predicate Valid()
      reads this
    {
      && 0 <= offset && offset % PAGE_SIZE == 0
      && (pending.Some? ==> loading)
    }

    constructor ()
      ensures Valid()
      ensures spins == [] && !loading && !refreshing && hasMore && offset == 0 && error.None?
      ensures pending.None?
    {
      pending := None;
      spins := [];
      loading := false;
      refreshing := false;
      hasMore := true;
      offset := 0;
      error := None;
    }

    /**
     * `fetchHistory` up to the awaited call: signed-out callers get an alert
     * and nothing changes; otherwise loading starts, the error is cleared and
     * the request asks for 20 spins at offset 0 (refresh) or at the current
     * offset (load-more).
     */
    method BeginFetch(isAuthenticated: bool, isRefresh: bool) returns (request: Option<HistoryRequest>)
      requires Valid()
      modifies this
      ensures Valid()
      ensures !isAuthenticated ==> request.None? && unchanged(this)
      ensures isAuthenticated ==>
        && request == Some(HistoryRequest(PAGE_SIZE, if isRefresh then 0 else old(offset)))
        && loading && error.None?
        && spins == old(spins) && offset == old(offset) && hasMore == old(hasMore)
        && refreshing == old(refreshing) && pending == Some(isRefresh)
    {
      if !isAuthenticated {
        return None;
      }
      loading := true;
      error := None;
      var currentOffset := if isRefresh then 0 else offset;
      request := Some(HistoryRequest(PAGE_SIZE, currentOffset));
      pending := Some(isRefresh);
    }

    /** The call returned successful data whose spins all carry a prize. */
    static predicate Loaded(outcome: CallOutcome) {
      outcome.Returned? && outcome.success && ToEntries(outcome.spins).Some?
    }

    /**
     * `fetchHistory` after the call settles, `finally` included. On success
     * a refresh replaces the list and sets the offset to 20, a load-more
     * merges and advances the offset by 20 however many spins survive, and
     * `hasMore` is copied. On failure the error is set, and a refresh also
     * empties the list, resets the offset and clears `hasMore`.
     */
    method FinishFetch(isRefresh: bool, outcome: CallOutcome)
      requires Valid() && pending == Some(isRefresh)
      modifies this
      ensures Valid()
      ensures !loading && !refreshing && pending.None?
      ensures Loaded(outcome) ==>
        var fetched := ToEntries(outcome.spins).value;
        && error == old(error)
        && hasMore == outcome.hasMore
        && (isRefresh ==> spins == fetched && offset == PAGE_SIZE)
        && (!isRefresh ==> spins == Merge(old(spins), fetched) && offset == old(offset) + PAGE_SIZE)
      ensures !Loaded(outcome) ==>
        && error == Some(LOAD_ERROR)
        && (isRefresh ==> spins == [] && offset == 0 && !hasMore)
        && (!isRefresh ==> spins == old(spins) && offset == old(offset) && hasMore == old(hasMore))
    {
      if Loaded(outcome) {
        ShowPage(isRefresh, ToEntries(outcome.spins).value, outcome.hasMore);
      } else {
        ShowError(isRefresh);
      }
      loading := false;
      refreshing := false;
      pending := None;
    }

    /** The `try` block after a successful call: the list, the offset and `hasMore`. */
    method ShowPage(isRefresh: bool, fetched: seq<HistoryEntry>, more: bool)
      requires Valid()
      modifies this
      ensures Valid()
      ensures isRefresh ==> spins == fetched && offset == PAGE_SIZE
      ensures !isRefresh ==> spins == Merge(old(spins), fetched) && offset == old(offset) + PAGE_SIZE
      ensures hasMore == more
      ensures error == old(error) && loading == old(loading) && refreshing == old(refreshing)
      ensures pending == old(pending)
    {
      if isRefresh {
        spins := fetched;
        offset := PAGE_SIZE;
      } else {
        spins := Merge(spins, fetched);
        NextPage(offset);
        offset := offset + PAGE_SIZE;
      }
      hasMore := more;
    }

    /** The failure path: the error message, and on a refresh an emptied list. */
    method ShowError(isRefresh: bool)
      requires Valid()
      modifies this
      ensures Valid()
      ensures error == Some(LOAD_ERROR)
      ensures isRefresh ==> spins == [] && offset == 0 && !hasMore
      ensures !isRefresh ==> spins == old(spins) && offset == old(offset) && hasMore == old(hasMore)
      ensures loading == old(loading) && refreshing == old(refreshing) && pending == old(pending)
    {
      error := Some(LOAD_ERROR);
      if isRefresh {
        spins := [];
        offset := 0;
        hasMore := false;
      }
    }

    /**
     * `onRefresh`: raises the refreshing flag, then starts a refresh. A
     * signed-out caller returns before the `finally`, so the flag stays up.
     */
    method Refresh(isAuthenticated: bool) returns (request: Option<HistoryRequest>)
      requires Valid()
      modifies this
      ensures Valid() && refreshing
      ensures request.Some? <==> isAuthenticated
      ensures request.Some? ==>
        request.value == HistoryRequest(PAGE_SIZE, 0) && loading && error.None? && pending == Some(true)
      ensures !isAuthenticated ==> loading == old(loading) && error == old(error) && pending == old(pending)
      ensures spins == old(spins) && offset == old(offset) && hasMore == old(hasMore)
    {
      refreshing := true;
      request := BeginFetch(isAuthenticated, true);
    }

    /** `loadMore`: fetches the next page only when not loading, more exist and no error is shown. */
    method LoadMore(isAuthenticated: bool) returns (request: Option<HistoryRequest>)
      requires Valid()
      modifies this
      ensures Valid()
      ensures request.Some? <==> isAuthenticated && !old(loading) && old(hasMore) && old(error).None?
      ensures request.Some? ==>
        request.value == HistoryRequest(PAGE_SIZE, old(offset)) && loading && pending == Some(false)
      ensures request.None? ==> unchanged(this)
      ensures error == old(error) && refreshing == old(refreshing)
      ensures spins == old(spins) && offset == old(offset) && hasMore == old(hasMore)
    {
      if !loading && hasMore && error.None? {
        request := BeginFetch(isAuthenticated, false);
      } else {
        request := None;
      }
    }
  }
}
