/**
 * Page statistics of the history function: per-type prize totals, a count
 * per prize description (a dictionary filled in first-seen order) and the
 * most common description, picked by a `reduce` over the dictionary entries.
 */
module SpinStats {
  import opened Common
  import opened SpinTypes

  /**
   * The statistics object. `prizeOrder` is the order in which the keys of
   * `prizeCounts` are enumerated (their insertion order).
   */
  datatype Stats = Stats(
    totalSpins: nat,
    totalCoins: int,
    totalSpecial: int,
    totalBonus: int,
    totalJackpot: int,
    mostCommonPrize: Option<string>,
    prizeCounts: map<string, nat>,
    prizeOrder: seq<string>)

  /** `prize.amount || 0` */
  function AmountOrZero(p: Prize): (a: int)
    ensures p.amount.Some? ==> a == p.amount.value
    ensures p.amount.None? ==> a == 0
  {
    p.amount.GetOr(0)
  }

  /** `prize.description || 'Unknown'`: a missing or empty description counts as 'Unknown'. */
  function DescriptionKey(p: Prize): (key: string)
    ensures key != ""
    ensures p.description.Some? && p.description.value != "" ==> key == p.description.value
    ensures key == "Unknown" || p.description == Some(key)
  {
    if p.description.Some? && p.description.value != "" then p.description.value else "Unknown"
  }

  /** What one record adds to the total of prize type `kind`. */
  function Contribution(spin: SpinRecord, kind: string): int {
    if spin.prize.Some? && spin.prize.value.kind == kind then AmountOrZero(spin.prize.value) else 0
  }

  /** Sum of `amount || 0` over the records whose prize has type `kind`. */
  function TypeTotal(spins: seq<SpinRecord>, kind: string): int {
    if spins == [] then 0
    else TypeTotal(spins[..|spins| - 1], kind) + Contribution(spins[|spins| - 1], kind)
  }

  predicate HasKey(spin: SpinRecord, key: string) {
    spin.prize.Some? && DescriptionKey(spin.prize.value) == key
  }

  /** Number of records with a prize whose description key is `key`. */
  function CountOf(spins: seq<SpinRecord>, key: string): nat {
    if spins == [] then 0
    else CountOf(spins[..|spins| - 1], key) + (if HasKey(spins[|spins| - 1], key) then 1 else 0)
  }

  /** Number of records that carry a prize. */
  function PrizedCount(spins: seq<SpinRecord>): nat {
    if spins == [] then 0
    else PrizedCount(spins[..|spins| - 1]) + (if spins[|spins| - 1].prize.Some? then 1 else 0)
  }

  /** The description keys in the order they are first met. */
  function KeyOrder(spins: seq<SpinRecord>): seq<string> {
    if spins == [] then []
    else
      var order := KeyOrder(spins[..|spins| - 1]);
      var last := spins[|spins| - 1];
      if last.prize.Some? && DescriptionKey(last.prize.value) !in order
      then order + [DescriptionKey(last.prize.value)]
      else order
  }

  /** The `prizeCounts` dictionary: each key met, with its number of records. */
  function PrizeCounts(spins: seq<SpinRecord>): map<string, nat> {
    map k | k in KeyOrder(spins) :: CountOf(spins, k)
  }

  /**
   * Position the `reduce((a, b) => counts[a] > counts[b] ? a : b)` ends on:
   * the running choice is kept only when its count is strictly larger.
   */
  function ReduceIndex(keys: seq<string>, counts: map<string, nat>): (i: nat)
    requires 0 < |keys|
    requires forall k :: k in keys ==> k in counts
    ensures i < |keys|
  {
    if |keys| == 1 then 0
    else
      var a := ReduceIndex(keys[..|keys| - 1], counts);
      if counts[keys[a]] > counts[keys[|keys| - 1]] then a else |keys| - 1
  }

  /** `mostCommonPrize`: null when the dictionary is empty, else the key the reduce picks. */
  function MostCommon(keys: seq<string>, counts: map<string, nat>): Option<string>
    requires forall k :: k in keys ==> k in counts
  {
    if keys == [] then None else Some(keys[ReduceIndex(keys, counts)])
  }

  /** The statistics of a page, defined record by record. */
  function Summary(spins: seq<SpinRecord>): (st: Stats)
    ensures st.totalSpins == |spins|
    ensures forall k :: k in st.prizeCounts <==> k in st.prizeOrder
    ensures st.mostCommonPrize.Some? ==> st.mostCommonPrize.value in st.prizeCounts
  {
    Stats(
      |spins|,
      TypeTotal(spins, "coins"),
      TypeTotal(spins, "special"),
      TypeTotal(spins, "bonus"),
      TypeTotal(spins, "jackpot"),
      MostCommon(KeyOrder(spins), PrizeCounts(spins)),
      PrizeCounts(spins),
      KeyOrder(spins))
  }

  predicate Distinct(keys: seq<string>) {
    forall i, j :: 0 <= i < j < |keys| ==> keys[i] != keys[j]
  }

  /** Sum of the counts of `keys`. */
  function SumValues(keys: seq<string>, m: map<string, nat>): nat
    requires forall k :: k in keys ==> k in m
  {
    if keys == [] then 0 else SumValues(keys[..|keys| - 1], m) + m[keys[|keys| - 1]]
  }

  // ---------------------------------------------------------------------
  // Lemmas

  lemma {:induction false} KeyOrderDistinct(spins: seq<SpinRecord>)
    ensures Distinct(KeyOrder(spins))
  {
    if spins != [] {
      KeyOrderDistinct(spins[..|spins| - 1]);
    }
  }

  /** A key is listed exactly when some record carries it. */
  lemma {:induction false} KeyOrderMembers(spins: seq<SpinRecord>, key: string)
    ensures key in KeyOrder(spins) <==> CountOf(spins, key) > 0
  {
    if spins != [] {
      KeyOrderMembers(spins[..|spins| - 1], key);
    }
  }

  lemma {:induction false} KeyOrderEmpty(spins: seq<SpinRecord>)
    ensures KeyOrder(spins) == [] <==> PrizedCount(spins) == 0
  {
    if spins != [] {
      KeyOrderEmpty(spins[..|spins| - 1]);
    }
  }

  /** One more record adds one to the count of its key and to no other. */
  lemma PrizeCountsStep(s: seq<SpinRecord>, x: SpinRecord)
    ensures PrizeCounts(s + [x]) ==
      if x.prize.Some? then
        var d := DescriptionKey(x.prize.value);
        var m := PrizeCounts(s);
        m[d := (if d in m then m[d] else 0) + 1]
      else PrizeCounts(s)
  {
    assert (s + [x])[..|s|] == s;
    if x.prize.Some? {
      KeyOrderMembers(s, DescriptionKey(x.prize.value));
    }
  }

  lemma {:induction false} SumValuesBump(keys: seq<string>, m1: map<string, nat>, m2: map<string, nat>, d: Option<string>)
    requires Distinct(keys)
    requires forall k :: k in keys ==> k in m1 && k in m2
    requires forall k :: k in keys ==> m2[k] == m1[k] + (if d == Some(k) then 1 else 0)
    ensures SumValues(keys, m2) == SumValues(keys, m1) + (if d.Some? && d.value in keys then 1 else 0)
  {
    if keys != [] {
      var init := keys[..|keys| - 1];
      SumValuesBump(init, m1, m2, d);
    }
  }

  /** The `prizeCounts` values add up to the number of records that have a prize. */
  lemma PrizeCountsTotal(spins: seq<SpinRecord>)
    ensures SumValues(Summary(spins).prizeOrder, Summary(spins).prizeCounts) == PrizedCount(spins)
  {
    CountsTotal(spins);
  }

  lemma {:induction false} CountsTotal(spins: seq<SpinRecord>)
    ensures SumValues(KeyOrder(spins), PrizeCounts(spins)) == PrizedCount(spins)
  {
    if spins != [] {
      var s, x := spins[..|spins| - 1], spins[|spins| - 1];
      assert spins == s + [x];
      CountsTotal(s);
      if x.prize.None? {
        PrizeCountsStep(s, x);
        assert KeyOrder(spins) == KeyOrder(s);
      } else {
        CountsTotalStep(s, x);
      }
    }
  }

  /** A record with a prize adds one to the sum of the counts. */
  lemma CountsTotalStep(s: seq<SpinRecord>, x: SpinRecord)
    requires x.prize.Some?
    requires SumValues(KeyOrder(s), PrizeCounts(s)) == PrizedCount(s)
    ensures SumValues(KeyOrder(s + [x]), PrizeCounts(s + [x])) == PrizedCount(s + [x])
  {
    var spins := s + [x];
    assert spins[..|s|] == s;
    assert PrizedCount(spins) == PrizedCount(s) + 1;
    var order, m2 := KeyOrder(s), PrizeCounts(spins);
    var d := DescriptionKey(x.prize.value);
    SumAfterBump(s, x);
    if d !in order {
      assert KeyOrder(spins) == order + [d];
      assert (order + [d])[..|order|] == order;
      assert SumValues(order + [d], m2) == SumValues(order, m2) + m2[d];
    }
  }

  /**
   * Over the keys met before `x`, the counts after `x` sum to one more than
   * before when `x`'s key was already met, and to the same otherwise, where
   * `x`'s own key then has count one.
   */
  lemma SumAfterBump(s: seq<SpinRecord>, x: SpinRecord)
    requires x.prize.Some?
    ensures var order, d := KeyOrder(s), DescriptionKey(x.prize.value);
      && (forall k :: k in order ==> k in PrizeCounts(s + [x]))
      && SumValues(order, PrizeCounts(s + [x])) ==
           SumValues(order, PrizeCounts(s)) + (if d in order then 1 else 0)
      && d in PrizeCounts(s + [x])
      && (d !in order ==> PrizeCounts(s + [x])[d] == 1 && KeyOrder(s + [x]) == order + [d])
      && (d in order ==> KeyOrder(s + [x]) == order)
  {
    var spins := s + [x];
    assert spins[..|s|] == s;
    KeyOrderDistinct(s);
    PrizeCountsStep(s, x);
    var order, m1, m2 := KeyOrder(s), PrizeCounts(s), PrizeCounts(spins);
    var d := DescriptionKey(x.prize.value);
    var v := (if d in m1 then m1[d] else 0) + 1;
    assert m2 == m1[d := v];
    assert forall k :: k in order ==> k in m1 && k in m2 && m2[k] == m1[k] + (if Some(d) == Some(k) then 1 else 0);
    SumValuesBump(order, m1, m2, Some(d));
  }

  lemma {:induction false} ReduceIndexIsLastMaximum(keys: seq<string>, counts: map<string, nat>)
    requires 0 < |keys|
    requires forall k :: k in keys ==> k in counts
    ensures var i := ReduceIndex(keys, counts);
      && (forall j :: 0 <= j < |keys| ==> counts[keys[j]] <= counts[keys[i]])
      && (forall j :: i < j < |keys| ==> counts[keys[j]] < counts[keys[i]])
  {
    if |keys| > 1 {
      var init, n := keys[..|keys| - 1], |keys| - 1;
      ReduceIndexIsLastMaximum(init, counts);
      var a, i := ReduceIndex(init, counts), ReduceIndex(keys, counts);
      assert i == if counts[keys[a]] > counts[keys[n]] then a else n;
      assert forall j :: 0 <= j < n ==> keys[j] == init[j];
    }
  }

  /** `mostCommonPrize` is null exactly when no record of the page has a prize. */
  lemma MostCommonAbsent(spins: seq<SpinRecord>)
    ensures Summary(spins).mostCommonPrize.None? <==> PrizedCount(spins) == 0
  {
    KeyOrderEmpty(spins);
  }

  /**
   * `mostCommonPrize` has the largest count, and every key enumerated after
   * it has a strictly smaller one: among tied keys the reduce keeps the one
   * inserted last.
   */
  lemma MostCommonIsLastMaximum(spins: seq<SpinRecord>)
    requires Summary(spins).mostCommonPrize.Some?
    ensures var st := Summary(spins);
      var m := st.mostCommonPrize.value;
      && m in st.prizeCounts
      && (forall k :: k in st.prizeCounts ==> st.prizeCounts[k] <= st.prizeCounts[m])
      && (forall i, j :: 0 <= i < j < |st.prizeOrder| && st.prizeOrder[i] == m ==>
            st.prizeCounts[st.prizeOrder[j]] < st.prizeCounts[m])
  {
    var order, counts := KeyOrder(spins), PrizeCounts(spins);
    ReduceIndexIsLastMaximum(order, counts);
    KeyOrderDistinct(spins);
    var r := ReduceIndex(order, counts);
    forall k | k in counts ensures counts[k] <= counts[order[r]] {
      var j :| 0 <= j < |order| && order[j] == k;
    }
  }

  /**
   * A record without a prize only raises `totalSpins`; a record whose prize
   * type is none of the four known types leaves every type total unchanged.
   */
  lemma SummaryAppend(s: seq<SpinRecord>, x: SpinRecord)
    ensures x.prize.None? ==>
      Summary(s + [x]) == Summary(s).(totalSpins := |s| + 1)
    ensures x.prize.Some? && x.prize.value.kind !in {"coins", "special", "bonus", "jackpot"} ==>
      && Summary(s + [x]).totalCoins == Summary(s).totalCoins
      && Summary(s + [x]).totalSpecial == Summary(s).totalSpecial
      && Summary(s + [x]).totalBonus == Summary(s).totalBonus
      && Summary(s + [x]).totalJackpot == Summary(s).totalJackpot
  {
    assert (s + [x])[..|s|] == s;
    PrizeCountsStep(s, x);
  }

  /** Type totals add up across consecutive pages: the totals of `a + b` are those of `a` plus those of `b`. */
  lemma {:induction false} TypeTotalConcat(a: seq<SpinRecord>, b: seq<SpinRecord>, kind: string)
    ensures TypeTotal(a + b, kind) == TypeTotal(a, kind) + TypeTotal(b, kind)
  {
    if b == [] {
      assert a + b == a;
    } else {
      var init, last := b[..|b| - 1], b[|b| - 1];
      assert (a + b)[..|a + b| - 1] == a + init;
      assert (a + b)[|a + b| - 1] == last;
      TypeTotalConcat(a, init, kind);
    }
  }

  // ---------------------------------------------------------------------
  // The statistics loop

  /** The `forEach` over the page, accumulating into the statistics object. */
  method CalculateSpinStats(spins: seq<SpinRecord>) returns (stats: Stats)
    ensures stats == Summary(spins)
  {
    var totalCoins, totalSpecial, totalBonus, totalJackpot := 0, 0, 0, 0;
    var prizeCounts: map<string, nat> := map[];
    var prizeOrder: seq<string> := [];
    for i := 0 to |spins|
      invariant totalCoins == TypeTotal(spins[..i], "coins")
      invariant totalSpecial == TypeTotal(spins[..i], "special")
      invariant totalBonus == TypeTotal(spins[..i], "bonus")
      invariant totalJackpot == TypeTotal(spins[..i], "jackpot")
      invariant prizeOrder == KeyOrder(spins[..i])
      invariant prizeCounts == PrizeCounts(spins[..i])
    {
      var spin := spins[i];
      assert spins[..i + 1] == spins[..i] + [spin];
      PrizeCountsStep(spins[..i], spin);
      if spin.prize.Some? {
        var prize := spin.prize.value;
        if prize.kind == "coins" {
          totalCoins := totalCoins + AmountOrZero(prize);
        } else if prize.kind == "special" {
          totalSpecial := totalSpecial + AmountOrZero(prize);
        } else if prize.kind == "bonus" {
          totalBonus := totalBonus + AmountOrZero(prize);
        } else if prize.kind == "jackpot" {
          totalJackpot := totalJackpot + AmountOrZero(prize);
        }
        var description := DescriptionKey(prize);
        if description !in prizeCounts {
          prizeOrder := prizeOrder + [description];
        }
        prizeCounts := prizeCounts[description := (if description in prizeCounts then prizeCounts[description] else 0) + 1];
      }
    }
    assert spins[..|spins|] == spins;
    var mostCommonPrize: Option<string> := None;
    if |prizeOrder| > 0 {
      mostCommonPrize := Some(prizeOrder[ReduceIndex(prizeOrder, prizeCounts)]);
    }
    stats := Stats(|spins|, totalCoins, totalSpecial, totalBonus, totalJackpot,
                   mostCommonPrize, prizeCounts, prizeOrder);
  }
}
