/** Counting DMA transfers from a self-reloading down counter: the arithmetic of common/packet.c. */
module DmaCounter {
  import opened Modular

  /** bmc_rx_calc_total_words. */
  function CalcTotal(laps: nat, count: nat, reload: nat): nat {
    if reload == 0 then 0 else laps * reload + if count <= reload then reload - count else 0
  }

  /** bmc_rx_calc_delta_words. */
  function CalcDelta(prevLaps: nat, prevCount: nat, laps: nat, count: nat, reload: nat): nat {
    if reload == 0 || laps < prevLaps then 0
    else
      var prev, curr := CalcTotal(prevLaps, prevCount, reload), CalcTotal(laps, count, reload);
      if curr >= prev then curr - prev else 0
  }

  /** bmc_rx_update_transfer_state: n transfers had happened at the last reading, m have at this one. */
  method Update(laps: nat, last: nat, count: nat, reload: nat, ghost n: nat, ghost m: nat)
    returns (laps': nat, last': nat, total: nat)
    requires reload > 0 ==> Tracks(laps, last, n, reload) && Later(last, n, count, m, reload)
    ensures reload == 0 ==> laps' == laps && last' == last && total == 0
    ensures reload > 0 ==> Tracks(laps', last', m, reload) && total == m && last' == count
  {
    if reload == 0 { return laps, last, 0; }
    UpdateExact(laps, last, n, count, m, reload);
    laps', last' := laps, last;
    if count > last { laps' := laps' + 1; }
    last' := count;
    total := CalcTotal(laps', count, reload);
  }

  /** What the counter can read after n transfers: at the end of a lap it shows 0, then the reload value. */
  predicate Shows(count: nat, n: nat, reload: nat)
    requires reload > 0
  {
    count == reload - n % reload || (count == 0 && n > 0 && n % reload == 0)
  }

  /** The bookkeeping matches n transfers. */
  predicate Tracks(laps: nat, last: nat, n: nat, reload: nat) {
    last <= reload && laps * reload + (reload - last) == n
  }

  /** A reading later than the one the bookkeeping was made from: fewer than a lap of transfers in
      between, and the counter does not run backwards. */
  predicate Later(last: nat, n: nat, count: nat, m: nat, reload: nat)
    requires reload > 0
  {
    n <= m < n + reload && Shows(count, m, reload) && (m == n && last == reload ==> count != 0)
  }

  lemma LapBoundary(laps: nat, rest: nat, n: nat, reload: nat)
    requires reload > 0 && rest < reload && laps * reload + rest == n
    ensures n % reload == rest && n / reload == laps
  {
    ModUnique(n, reload, laps, rest);
  }

  /** One update is exact, whichever of the two readings a lap boundary shows. */
  lemma UpdateExact(laps: nat, last: nat, n: nat, count: nat, m: nat, reload: nat)
    requires reload > 0 && Tracks(laps, last, n, reload) && Later(last, n, count, m, reload)
    ensures var laps' := if count > last then laps + 1 else laps;
            Tracks(laps', count, m, reload) && CalcTotal(laps', count, reload) == m
  {
    var r, s := reload - last, m % reload;
    assert m == m / reload * reload + s;
    if r == reload {
      assert (laps + 1) * reload == laps * reload + reload;
      LapBoundary(laps + 1, 0, n, reload);
      LapNear(laps + 1, 0, m, m - n, reload);
    } else {
      LapBoundary(laps, r, n, reload);
      LapNear(laps, r, m, m - n, reload);
    }
  }

  /** Where m lies when it is less than a lap after laps * reload + rest. */
  lemma LapNear(laps: nat, rest: nat, m: nat, more: nat, reload: nat)
    requires reload > 0 && rest < reload && more < reload && m == laps * reload + rest + more
    ensures if rest + more < reload then m % reload == rest + more else m % reload == rest + more - reload
    ensures (laps + 1) * reload == laps * reload + reload
  {
    assert (laps + 1) * reload == laps * reload + reload;
    if rest + more < reload { ModUnique(m, reload, laps, rest + more); }
    else { ModUnique(m, reload, laps + 1, rest + more - reload); }
  }

  /** The same reading twice means that nothing was transferred in between. */
  lemma SameReading(laps: nat, last: nat, n: nat, m: nat, reload: nat)
    requires reload > 0 && Tracks(laps, last, n, reload) && Later(last, n, last, m, reload)
    ensures m == n
  {
    UpdateExact(laps, last, n, last, m, reload);
  }

  /** A run of readings: true[i] transfers had happened when the counter showed counts[i]. */
  ghost predicate Readings(true_: seq<nat>, counts: seq<nat>, reload: nat)
    requires reload > 0
  {
    && |true_| == |counts|
    && (|true_| > 0 ==> Later(reload, 0, counts[0], true_[0], reload))
    && forall i :: 0 < i < |true_| ==> Later(counts[i - 1], true_[i - 1], counts[i], true_[i], reload)
  }

  /** Laps and last reading after processing the first k readings. */
  function Tracked(counts: seq<nat>, k: nat, reload: nat): (r: (nat, nat))
    requires k <= |counts|
  {
    if k == 0 then (0, reload)
    else
      var (laps, last) := Tracked(counts, k - 1, reload);
      (if counts[k - 1] > last then laps + 1 else laps, counts[k - 1])
  }

  /** Over any run the computed total is the true transfer count. */
  lemma {:induction false} TotalsExact(true_: seq<nat>, counts: seq<nat>, reload: nat, k: nat)
    requires reload > 0 && Readings(true_, counts, reload) && k <= |counts|
    ensures var (laps, last) := Tracked(counts, k, reload);
            var n := if k == 0 then 0 else true_[k - 1];
            && Tracks(laps, last, n, reload) && CalcTotal(laps, last, reload) == n
            && last == if k == 0 then reload else counts[k - 1]
  {
    if k > 0 {
      TotalsExact(true_, counts, reload, k - 1);
      var (laps, last) := Tracked(counts, k - 1, reload);
      UpdateExact(laps, last, if k == 1 then 0 else true_[k - 2], counts[k - 1], true_[k - 1], reload);
    }
  }

  /** Neither transfers nor laps go backwards. */
  lemma {:induction false} Onwards(true_: seq<nat>, counts: seq<nat>, reload: nat, i: nat, k: nat)
    requires reload > 0 && Readings(true_, counts, reload) && 0 < i <= k <= |counts|
    ensures true_[i - 1] <= true_[k - 1] && Tracked(counts, i, reload).0 <= Tracked(counts, k, reload).0
    decreases k
  {
    if i < k {
      Onwards(true_, counts, reload, i, k - 1);
      assert Later(counts[k - 2], true_[k - 2], counts[k - 1], true_[k - 1], reload);
    }
  }

  /** Differences of totals count the transfers between any two readings. */
  lemma DeltaExact(true_: seq<nat>, counts: seq<nat>, reload: nat, i: nat, k: nat)
    requires reload > 0 && Readings(true_, counts, reload) && 0 < i <= k <= |counts|
    ensures true_[i - 1] <= true_[k - 1]
    ensures var (l0, c0) := Tracked(counts, i, reload);
            var (l1, c1) := Tracked(counts, k, reload);
            CalcDelta(l0, c0, l1, c1, reload) == true_[k - 1] - true_[i - 1]
  {
    TotalsExact(true_, counts, reload, i);
    TotalsExact(true_, counts, reload, k);
    Onwards(true_, counts, reload, i, k);
  }
}
