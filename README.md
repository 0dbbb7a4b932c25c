# Spin the wheel: adjudication, history and countdown

A model of the core of a "spin the wheel" reward game. A backend exposes two
callable functions:

- `spinWheel` authenticates the caller, enforces a five-minute per-user
  cooldown, loads the wheel configuration, draws a segment by weight and
  appends one spin record.
- `getHistory` returns a newest-first page of the caller's spin records,
  their total count, whether more exist, and statistics over the page.

On the client, the history screen pages through that history (refresh,
load-more with duplicate filtering). A countdown timer shows the time left
until the next spin as `M:SS`.

Modules:

- `Common`: `Option` and `Result`.
- `SpinTypes`: prizes, segments, the wheel configuration, spin records and
  callable-function errors.
- `Decimal`: decimal printing of whole numbers and `padStart(2, '0')`,
  with the inverse reading used to state what printed text means.
- `Cooldown`: the cooldown decision, in integer milliseconds.
- `WeightedSelection`: `selectWeightedSegment`. It is a loop proved against
  a specification (`SelectedIndex`, the first segment whose prefix sum of
  weights reaches the draw).
- `SpinStats`: `calculateSpinStats`. It is a loop proved equal to the
  record-by-record specification `Summary`.
- `SpinService`: class `SpinLedger`, whose field `spins` is the `spins`
  collection in insertion order. Its methods `SpinWheel` and `GetHistory`
  are the two callable functions.
- `HistoryPager`: class `HistoryScreenState`, the history screen's state
  (`spins`, `loading`, `refreshing`, `hasMore`, `offset`, `error`) and
  its handlers. A ghost field records the `fetchHistory` call awaiting its
  response, which pairs the two halves of that call.
- `CooldownTimer`: the countdown text.

Storage, the clock and `Math.random()` are parameters:

- A store operation that throws is an injected fault value (`SpinFault`,
  `HistoryFault`).
- Two clocks are read, both in milliseconds:
  - `now` is the function's own clock, against which the cooldown is checked;
  - `commitTime` is the store's commit timestamp, written into the new record.
- The random number is `u`, a real in `[0, 1)`.

The model follows the code as written, including where its behaviour is
easy to misread:

- The cooldown is checked before the configuration is read.
- The cooldown length is the hard-coded 5 minutes; the configuration's
  `cooldownMinutes` is ignored.
- Selection falls back to the first segment, not the last.
- Statistics cover only the returned page.

## Model

| member | source | states |
|---|---|---|
| Cooldown.WaitMessage | firebase/functions/src/index.ts:35-38 | The denial message is "Please wait ", then the wait in decimal digits that read back as the number of minutes, with no leading zero, then " more minutes before spinning again". |
| Cooldown.Check | firebase/functions/src/index.ts:20-41 | No previous spin is always allowed. Otherwise a spin is allowed exactly when at least 5·60000 ms have elapsed. A denial carries the wait rounded up to whole minutes: at least 1; it never understates the time left and never overstates it by a full minute; and it is at most 5 when the clock has not run backwards. |
| WeightedSelection.SelectWeightedSegment | firebase/functions/src/index.ts:153-166 | The subtract-and-test loop returns the segment at `SelectedIndex` of the draw `u * total`, and always a member of the input. |
| WeightedSelection.SelectedIndexIsFirstCover | firebase/functions/src/index.ts:157-165 | The chosen index is the smallest whose prefix sum of weights reaches the draw. When no prefix sum reaches it, the choice is the fallback, index 0. |
| WeightedSelection.NoFallback | firebase/functions/src/index.ts:154-162 | With positive weights and `0 <= u < 1`, the draw lies in `[0, total)` and the walk always stops at a segment that absorbs it: the fallback is never reached. |
| WeightedSelection.SelectionInterval | firebase/functions/src/index.ts:157-162 | For a draw in `[0, total)` with positive weights, segment `i` is chosen exactly when the draw lies in its interval: `[0, w0]` for the first segment, `(w0+…+w(i-1), w0+…+wi]` for the others. So each segment is chosen with probability proportional to its weight. |
| WeightedSelection.SelectedCovers | firebase/functions/src/index.ts:157-162 | A draw no larger than the total is absorbed by the segment the walk stops at, and by no earlier segment. |
| WeightedSelection.PrefixIncreasing | firebase/functions/src/index.ts:154 | With positive weights, prefix sums strictly increase. |
| WeightedSelection.TotalWeightBounds | firebase/functions/src/index.ts:154 | With no negative weight, the summed weight is non-negative and at least each single weight. |
| WeightedSelection.Draw | firebase/functions/src/index.ts:155 | The draw `Math.random() * totalWeight` lies in `[0, total)` when `u` is in `[0, 1)` and the total is positive. |
| WeightedSelection.FirstCoverFrom | firebase/functions/src/index.ts:157-165 | The walk from position k ends on an index inside the list. |
| SpinStats.Summary | firebase/functions/src/index.ts:169-213 | `totalSpins` is the page length. The keys of `prizeCounts` are exactly the keys of its enumeration order. A reported `mostCommonPrize` is one of those keys. |
| SpinStats.AmountOrZero | firebase/functions/src/index.ts:187 | A prize's amount counts as itself when present and as 0 when missing. |
| SpinStats.DescriptionKey | firebase/functions/src/index.ts:201 | The counting key is never empty: a present, non-empty description is its own key, and anything else is 'Unknown'. |
| SpinStats.CalculateSpinStats | firebase/functions/src/index.ts:169-213 | The `forEach` accumulation yields exactly `Summary(spins)`: the page length, per-type totals of `amount \|\| 0`, counts per description key in first-seen order, and the most common key. |
| SpinStats.PrizeCountsTotal | firebase/functions/src/index.ts:200-202 | The `prizeCounts` values add up to the number of records that carry a prize. |
| SpinStats.KeyOrderMembers | firebase/functions/src/index.ts:200-202 | A description key appears in `prizeCounts` exactly when some prized record carries it. A missing or empty description counts as 'Unknown'. |
| SpinStats.KeyOrderDistinct | firebase/functions/src/index.ts:202 | The dictionary's key order lists no key twice. |
| SpinStats.PrizeCountsStep | firebase/functions/src/index.ts:201-202 | One more prized record adds one to the count of its key and changes no other count. A record without a prize changes nothing. |
| SpinStats.MostCommonAbsent | firebase/functions/src/index.ts:205-210 | `mostCommonPrize` is null exactly when no record of the page has a prize. |
| SpinStats.MostCommonIsLastMaximum | firebase/functions/src/index.ts:205-210 | `mostCommonPrize` has the largest count, and every key enumerated after it has a strictly smaller count: among tied keys, the reduce keeps the last one inserted. |
| SpinStats.ReduceIndexIsLastMaximum | firebase/functions/src/index.ts:207-208 | The `reduce` with strict `>` ends on a maximum, and no later entry reaches it. |
| SpinStats.ReduceIndex | firebase/functions/src/index.ts:207-208 | The reduce ends on a position of the entry list. |
| SpinStats.SummaryAppend | firebase/functions/src/index.ts:180-198 | A record without a prize only raises `totalSpins`. A prize type outside coins, special, bonus and jackpot leaves every type total unchanged. |
| SpinStats.TypeTotalConcat | firebase/functions/src/index.ts:185-198 | The type totals of two consecutive pages add up to the totals of both together. |
| SpinService.SpinLedger.SpinWheel | firebase/functions/src/index.ts:10-89 | Checks run in the source's order: unauthenticated, then a failed latest-spin query (internal), then the cooldown (failed-precondition, with the wait message), then the configuration read (internal / not-found / no segments), then the append (internal). Any failure leaves the collection unchanged. On success exactly one record is appended: the selected segment's id and prize, the caller, the commit timestamp `commitTime`, the stored request id, the version or 1. The response carries the new id, the segment, "You won: …" and 5. The ledger invariant is kept. |
| SpinService.SpinLedger.GetHistory | firebase/functions/src/index.ts:92-150 | Unauthenticated comes first, then "Limit cannot exceed 100" before any read. A missing or zero limit is 20 and a missing offset is 0. Success comes exactly when neither query throws and limit and offset are non-negative; every other failure is internal. On success: the page of the caller's records newest first at that offset, the caller's full count, `hasMore` exactly when count > offset + limit, and the statistics of the page. The page holds only the caller's records, newest first, each at least the cooldown older than the one before. The collection is unchanged. |
| SpinService.NewestFirst | firebase/functions/src/index.ts:109-111 | The `where(userId).orderBy(timestamp, desc)` query returns no more records than are stored, all of them the caller's, and when the last record added is the caller's it comes first. |
| SpinService.LastSpinTime | firebase/functions/src/index.ts:22-30 | The latest-spin query finds nothing exactly when the caller has no record, and otherwise the timestamp of one of the caller's records. |
| SpinService.PageOf | firebase/functions/src/index.ts:112-113 | `offset(o).limit(l)` has length l, or what is left after o when fewer remain, or 0 past the end; its k-th record is the input's (o+k)-th. |
| SpinService.StoredRequestId | firebase/functions/src/index.ts:18 | A missing or empty client request id is stored as null; any other is stored unchanged. |
| SpinService.VersionOr1 | firebase/functions/src/index.ts:67 | The stored wheel version is never 0: a present non-zero version is kept, and anything else becomes 1. |
| SpinService.WinMessage | firebase/functions/src/index.ts:76 | The success message is "You won: " followed by the prize description, or by "undefined" when the prize has none. |
| SpinService.EffectiveLimit | firebase/functions/src/index.ts:100 | The limit used is never 0: a present non-zero limit is kept, and anything else becomes 20. |
| SpinService.EffectiveOffset | firebase/functions/src/index.ts:101 | The offset used is the given one, or 0 when it is missing. |
| SpinService.NewestFirstMembers | firebase/functions/src/index.ts:109-111 | The user query returns exactly the caller's records. |
| SpinService.NewestFirstSpaced | firebase/functions/src/index.ts:20-41 | In a collection the service built, the caller's records newest first are each at least the cooldown older than the one before them. |
| SpinService.LatestIsNewest | firebase/functions/src/index.ts:22-30 | The `limit(1)` query finds nothing exactly when the caller has no record. Otherwise it finds the timestamp of one of the caller's records, and no record of theirs exceeds it. |
| SpinService.AppendKeepsWellFormed | firebase/functions/src/index.ts:20-70 | Appending a record that passed the cooldown check at some time no earlier than the stored times, with the next id and a stamp no earlier than that check, keeps the collection well formed: ids are positions, times never decrease, and one user's records are at least 5 minutes apart. |
| SpinService.PageOfNewestFirst | firebase/functions/src/index.ts:109-114 | A page holds only the caller's records, newest first and cooldown-spaced, and has the size `offset(o).limit(l)` gives. |
| SpinService.SliceOfSpaced | firebase/functions/src/index.ts:111-113 | A slice of a cooldown-spaced newest-first list is cooldown-spaced too. |
| SpinService.PagesTile | firebase/functions/src/index.ts:112-113 | Two consecutive offset pages together are the page spanning both: offset paging loses and repeats nothing. |
| HistoryPager.ToEntries | frontend/src/pages/HistoryScreen.tsx:66-72 | The `map` succeeds exactly when every spin carries a prize (reading `spin.prize.description` throws otherwise). Each entry keeps the spin's id, segment, prize and time, and its label is the prize description. |
| HistoryPager.KeepUnseen | frontend/src/pages/HistoryScreen.tsx:87-88 | The filter keeps exactly the fetched entries whose id is not already listed, and never lengthens the page. |
| HistoryPager.KeepUnseenOne | frontend/src/pages/HistoryScreen.tsx:88 | A single fetched entry is kept exactly when its id is unseen. |
| HistoryPager.KeepUnseenConcat | frontend/src/pages/HistoryScreen.tsx:88 | Filtering a concatenation gives the concatenation of the filtered parts. With the single-entry case, this fixes the result entry by entry: fetched order and repeats are kept. |
| HistoryPager.Merge | frontend/src/pages/HistoryScreen.tsx:86-90 | Load-more keeps the previous list as a prefix. What follows is the fetched page filtered to unseen ids, in fetched order. The ids of the result are the previous ids plus the fetched ids. |
| HistoryPager.MergeUniqueIds | frontend/src/pages/HistoryScreen.tsx:86-90 | When the previous list and the fetched page each have distinct ids, so does the merged list. |
| HistoryPager.KeepUnseenKeepsAll | frontend/src/pages/HistoryScreen.tsx:74-90 | The filter only removes ids already listed: a page whose ids are all new is kept whole, repeated ids within it included. Duplicates inside one page are only logged. |
| HistoryPager.LoadMoreExtendsPages | frontend/src/pages/HistoryScreen.tsx:81-91 | Against an unchanged record list with distinct ids, merging the page at offset n into the first n entries gives exactly the first n + 20 entries. |
| HistoryPager.ToEntriesAppend | frontend/src/pages/HistoryScreen.tsx:66-72 | Mapping a concatenation is the concatenation of the mappings. |
| HistoryPager.HistoryScreenState.constructor | frontend/src/pages/HistoryScreen.tsx:28-33 | The initial state: no spins, not loading or refreshing, `hasMore` true, offset 0, no error. |
| HistoryPager.HistoryScreenState.BeginFetch | frontend/src/pages/HistoryScreen.tsx:37-60 | A signed-out caller changes nothing and sends nothing. Otherwise `loading` is set, the error is cleared and the request is limit 20 at offset 0 (refresh) or at the current offset (load-more). The call is then recorded as pending, together with its refresh flag. |
| HistoryPager.HistoryScreenState.ShowPage | frontend/src/pages/HistoryScreen.tsx:81-94 | After a successful call, a refresh replaces the list and sets the offset to 20, and a load-more appends the merge and advances the offset by 20. `hasMore` is copied. Nothing else changes, and the offset stays a multiple of 20. |
| HistoryPager.HistoryScreenState.ShowError | frontend/src/pages/HistoryScreen.tsx:100-109 | After a failed call the error message is set. A refresh also empties the list, zeroes the offset and clears `hasMore`; a load-more keeps all three. Nothing else changes. |
| HistoryPager.HistoryScreenState.FinishFetch | frontend/src/pages/HistoryScreen.tsx:62-113 | On success, a refresh replaces the list and sets the offset to 20. A load-more merges and advances the offset by 20. `hasMore` is copied. On failure the error message is set, and a refresh also empties the list, zeroes the offset and clears `hasMore`. It settles the pending call begun with the same refresh flag. In every case `loading` and `refreshing` end false, nothing is pending any more, and the offset stays a multiple of 20. |
| HistoryPager.HistoryScreenState.Refresh | frontend/src/pages/HistoryScreen.tsx:116-119 | Raises `refreshing` and asks for offset 0. A signed-out caller returns before the `finally`, so `refreshing` stays raised and nothing else changes. |
| HistoryPager.HistoryScreenState.LoadMore | frontend/src/pages/HistoryScreen.tsx:121-125 | Requests the next page exactly when signed in, not loading, more exist and no error is shown, at the current offset, changing only `loading` and the pending call. Otherwise nothing changes. |
| CooldownTimer.UpdateTimer | frontend/src/components/CooldownTimer.tsx:16-36 | No deadline gives no text. A reached deadline gives no text and fires the completion callback. Otherwise the callback does not fire, and the text reads back as the whole minutes and leftover whole seconds left, rounded down to the second, with no leading zero on the minutes. |
| CooldownTimer.UpdateTimerLastSecond | frontend/src/components/CooldownTimer.tsx:32-35 | In the last second before the deadline the timer reads `0:00`. |
| CooldownTimer.CountdownText | frontend/src/components/CooldownTimer.tsx:32-35 | The text for d ms left is `M:SS`, with M·60000 + S·1000 ≤ d < M·60000 + (S+1)·1000 and S ≤ 59. M has no leading zero. |
| CooldownTimer.Split | frontend/src/components/CooldownTimer.tsx:32-33 | Whole minutes and leftover whole seconds: seconds ≤ 59, and they bracket the time left to within one second. |
| CooldownTimer.Clock | frontend/src/components/CooldownTimer.tsx:35 | `${minutes}:${seconds padded to 2}` has digits, a colon and two digits, and reads back as the two numbers. A leading zero appears only in `0:SS`. |
| CooldownTimer.Visible | frontend/src/components/CooldownTimer.tsx:44-46 | The component renders exactly while a deadline is set and has not been reached. |
| Decimal.DecimalDigits | frontend/src/components/CooldownTimer.tsx:35 | Printing a whole number gives digits only, at least one, with no leading zero unless the number is 0. One digit exactly below 10, two exactly from 10 to 99. |
| Decimal.DecimalRoundTrip | frontend/src/components/CooldownTimer.tsx:35 | Reading the printed digits back gives the number. |
| Decimal.PadStart2 | frontend/src/components/CooldownTimer.tsx:35 | `padStart(2, '0')` yields length max(2, \|s\|), ends with `s` and is zeros before it. |
| Decimal.PadStart2Value | frontend/src/components/CooldownTimer.tsx:35 | Zero-padding keeps a digit string's value. |
| Decimal.PaddedRoundTrip | frontend/src/components/CooldownTimer.tsx:33-35 | A seconds value below 100, printed and padded, is two digits that read back as the value. |

## Left out

- Firestore is not modelled. The `spins` collection is an in-memory sequence in insertion order. The `wheelConfig/default` document is a parameter (`None` when it does not exist). A store call that throws is an injected fault.
- `Math.random()` is the parameter `u`. The model proves which segment each value of `u` selects, not the distribution of random numbers.
- Floating point is not modelled. Times are whole milliseconds and weights are integers. The draw is an exact real product. The cooldown is computed exactly, with no float division of milliseconds into minutes.
- SpinService.SpinLedger.SpinWheel: the cooldown compares against the function's `new Date()` (`firebase/functions/src/index.ts:31`). The record is stamped with `serverTimestamp()` (`firebase/functions/src/index.ts:65`), which is the store's later commit time. These are the two parameters `now` and `commitTime`. The method requires `now` to be no earlier than every stored timestamp and `commitTime` to be no earlier than `now`: the two clocks are assumed to agree and never to run backwards. Clock skew between the function and the store is not modelled.
- Concurrency is not modelled. Two simultaneous `spinWheel` calls of one user can both pass the cooldown read before either appends. The model runs calls one at a time, so this race and the cooldown breach it allows are outside it. The same holds for overlapping history fetches on the client.
- SpinService.NewestFirst: the query orders by timestamp. The model lists the caller's records in reverse order of addition, which is timestamp order because only `spinWheel` adds records, stamped with a commit time no earlier than any stored timestamp (`SpinService.NewestFirstSpaced`). Records added out of time order by seeding scripts (`firebase/add-spins-for-user.js:110`) are not modelled.
- SpinService.SpinLedger.GetHistory: a negative limit or offset is rejected by the store query. It is modelled as a store error, which surfaces as `internal`.
- Non-numeric or fractional `limit`, `offset` or `weight` values, and configuration segments without a prize, are not modelled. The model's types rule them out.
- SpinStats.Summary: the key order of `prizeCounts` is insertion order. JavaScript enumerates integer-like keys such as "100" first in ascending order, and this is not modelled. It can change which tied key `mostCommonPrize` reports. `prizeCounts` is a plain object, and keys that name its inherited properties are not modelled either. For a description such as "constructor" or "toString", the first read finds the inherited member, so the count becomes a string rather than 1, which `SpinStats.PrizeCountsTotal` does not allow for. A write to "__proto__" creates no key, so `mostCommonPrize` can be null although a prize was counted, which `SpinStats.MostCommonAbsent` and `SpinStats.KeyOrderMembers` do not allow for. The model treats every description as an ordinary key.
- `helloWorld` is not modelled; it is a test endpoint.
- The wheel animation (`Wheel.tsx`), the other screens, `formatDate`, `getPrizeIcon`, styles and the seed and test scripts are not modelled. They are display, tooling or test data.
- Console logging, the duplicate-id warning and the sign-in `Alert` are not modelled; they are side effects with no state.
- React plumbing is not modelled: `useEffect`, `setInterval`, and the re-render that calls `updateTimer` each second. Each timer update is modelled as one call at a given `now`. The mount-time `fetchHistory(true)` is `BeginFetch` with a refresh flag.
