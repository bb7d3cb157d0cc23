/**
 * The flood limiter of the network layer: every key (an address, an account) owns a circular
 * window of per-tick counters; a check slides the window up to the current tick, optionally
 * counts one event in the current slot and then compares two overlapping window sums per
 * filter against that filter's warn and reject limits.
 *
 * The wall clock is the `currentTick` parameter of every operation.
 */
module Flood {
  import opened Primitives

  /** The verdict of a check, ordered by severity (its ordinal). */
  datatype Result = Accepted | Warned | Rejected

  function Ordinal(r: Result): nat {
    match r
    case Accepted => 0
    case Warned => 1
    case Rejected => 2
  }

  /** Result.max: the operand with the higher ordinal (the second one on a tie). */
  function MaxResult(r1: Result, r2: Result): (r: Result)
    ensures r == r1 || r == r2
    ensures Ordinal(r1) <= Ordinal(r) && Ordinal(r2) <= Ordinal(r)
  {
    if Ordinal(r1) > Ordinal(r2) then r1 else r2
  }

  /** A filter: more than `warnLimit` events within `tickLimit` ticks warns, more than `rejectLimit` rejects. */
  datatype Filter = Filter(warnLimit: int32, rejectLimit: int32, tickLimit: int32)

  /**
   * The counter array length a manager allocates for its filters: one more than the largest
   * tick limit, and at least 1.
   */
  function TickAmount(filters: seq<Filter>): (n: int)
    ensures n >= 1
    ensures forall i | 0 <= i < |filters| :: filters[i].tickLimit + 1 <= n
    ensures n == 1 || exists i | 0 <= i < |filters| :: filters[i].tickLimit + 1 == n
  {
    if filters == [] then 1
    else
      var init := filters[..|filters| - 1];
      var n0 := TickAmount(init);
      assert forall i | 0 <= i < |init| :: init[i] == filters[i];
      Max(filters[|filters| - 1].tickLimit + 1, n0)
  }

  // ----- The counter window, as a value -----

  function Zeros(n: nat): (t: seq<short>)
    ensures |t| == n && forall i | 0 <= i < n :: t[i] == 0
  {
    seq(n, _ => 0)
  }

  /** The slot tick k occupies in a window of n counters. */
  function Slot(k: int, n: int): int
    requires n >= 1
  {
    k % n
  }

  /** The counters after the window has been walked forward tick by tick from `last` to `now`. */
  function Advance(t: seq<short>, last: int, now: int): (r: seq<short>)
    requires |t| >= 1 && last <= now
    ensures |r| == |t|
    decreases now - last
  {
    if now == last then t else Advance(t, last, now - 1)[Slot(now, |t|) := 0]
  }

  /** Whether slot i is one a walk from `last` to `now` enters. */
  predicate Entered(i: int, last: int, now: int, n: int)
    requires n >= 1
  {
    exists k | last < k <= now :: Slot(k, n) == i
  }

  /**
   * The counters after the slide at the start of a check: a gap of a whole window or more
   * clears everything, a clock that went backwards leaves the counters alone, and otherwise
   * the window is walked forward.
   */
  function Slid(t: seq<short>, last: int, now: int): (r: seq<short>)
    requires |t| >= 1
    ensures |r| == |t|
  {
    if now - last >= |t| then Zeros(|t|)
    else if last > now then t
    else Advance(t, last, now)
  }

  /** The counters after the optional increment of the current slot. */
  function Bumped(t: seq<short>, now: int, increment: bool): (r: seq<short>)
    requires |t| >= 1
    ensures |r| == |t|
  {
    if increment then t[Slot(now, |t|) := Inc16(t[Slot(now, |t|)])] else t
  }

  /** The sum of the counters at offsets lo..hi-1 behind tick `last`. */
  function WindowSum(t: seq<short>, last: int, lo: int, hi: int): int
    requires |t| >= 1
    decreases hi - lo
  {
    if hi <= lo then 0 else WindowSum(t, last, lo, hi - 1) + t[Slot(last - (hi - 1), |t|)]
  }

  /** previousSum: offsets 1..tickLimit. */
  function PreviousSum(f: Filter, t: seq<short>, last: int): int
    requires |t| >= 1
  {
    WindowSum(t, last, 1, f.tickLimit as int + 1)
  }

  /** currentSum: offsets 0..tickLimit-1. */
  function CurrentSum(f: Filter, t: seq<short>, last: int): int
    requires |t| >= 1
  {
    WindowSum(t, last, 0, f.tickLimit)
  }

  predicate Exceeds(f: Filter, t: seq<short>, last: int, limit: int)
    requires |t| >= 1
  {
    PreviousSum(f, t, last) > limit || CurrentSum(f, t, last) > limit
  }

  /** What one filter alone says of the window. */
  function FilterVerdict(f: Filter, t: seq<short>, last: int): Result
    requires |t| >= 1
  {
    if Exceeds(f, t, last, f.rejectLimit) then Rejected
    else if Exceeds(f, t, last, f.warnLimit) then Warned
    else Accepted
  }

  /** The verdict of a check: the first filter, in order, that warns or rejects decides. */
  function Verdict(filters: seq<Filter>, t: seq<short>, last: int): Result
    requires |t| >= 1
  {
    if filters == [] then Accepted
    else
      var v := FilterVerdict(filters[0], t, last);
      if v != Accepted then v else Verdict(filters[1..], t, last)
  }

  /** The most severe verdict over all filters, folded with Result.max. */
  function MostSevere(filters: seq<Filter>, t: seq<short>, last: int): Result
    requires |t| >= 1
  {
    if filters == [] then Accepted
    else MaxResult(FilterVerdict(filters[0], t, last), MostSevere(filters[1..], t, last))
  }

  // ----- Properties of the window -----

  /** A gap of a whole window or more clears every counter. */
  lemma SlidResets(t: seq<short>, last: int, now: int)
    requires |t| >= 1 && now - last >= |t|
    ensures forall i | 0 <= i < |t| :: Slid(t, last, now)[i] == 0
  {
  }

  /** A clock that went backwards clears nothing. */
  lemma SlidBackwards(t: seq<short>, last: int, now: int)
    requires |t| >= 1 && last > now
    ensures Slid(t, last, now) == t
  {
  }

  /** Walking the window forward zeroes exactly the slots it enters and leaves the others alone. */
  lemma {:induction false} AdvanceZeroesEntered(t: seq<short>, last: int, now: int)
    requires |t| >= 1 && last <= now
    ensures forall i | 0 <= i < |t| ::
      Advance(t, last, now)[i] == if Entered(i, last, now, |t|) then 0 else t[i]
    decreases now - last
  {
    var n := |t|;
    if now > last {
      AdvanceZeroesEntered(t, last, now - 1);
      forall i | 0 <= i < n
        ensures Advance(t, last, now)[i] == if Entered(i, last, now, n) then 0 else t[i]
      {
        if i == Slot(now, n) {
          assert Entered(i, last, now, n);
        } else if Entered(i, last, now, n) {
          var k :| last < k <= now && Slot(k, n) == i;
          assert k != now;
          assert Entered(i, last, now - 1, n);
        } else {
          assert !Entered(i, last, now - 1, n);
        }
      }
    }
  }

  /** Fewer than n consecutive ticks fall into pairwise different slots. */
  lemma SlotsDistinct(k1: int, k2: int, n: int)
    requires n >= 1 && k1 < k2 < k1 + n
    ensures Slot(k1, n) != Slot(k2, n)
  {
    var q1, q2 := k1 / n, k2 / n;
    var r1, r2 := k1 % n, k2 % n;
    assert k1 == n * q1 + r1 && k2 == n * q2 + r2;
    if r1 == r2 {
      ProductStep(q2 - q1, n, k2 - k1);
    }
  }

  /** A multiple of n that is not 0 is at least n away from 0. */
  lemma ProductStep(q: int, n: int, d: int)
    requires n >= 1 && d == n * q
    ensures d <= 0 || d >= n
  {
    if q >= 1 {
      assert n * q == n + n * (q - 1);
      assert n * (q - 1) >= 0;
    }
  }

  /** Advancing by fewer than n ticks enters exactly now - last slots. */
  lemma EnteredCount(last: int, now: int, n: int)
    requires n >= 1 && 0 <= now - last < n
    ensures |set k | last < k <= now :: Slot(k, n)| == now - last
    decreases now - last
  {
    if now > last {
      var before := set k | last < k <= now - 1 :: Slot(k, n);
      EnteredCount(last, now - 1, n);
      forall k | last < k <= now - 1
        ensures Slot(k, n) != Slot(now, n)
      {
        SlotsDistinct(k, now, n);
      }
      assert (set k | last < k <= now :: Slot(k, n)) == before + {Slot(now, n)};
    }
  }

  /** With increment exactly the current slot counts one more (a Java short, so it wraps); without, nothing changes. */
  lemma BumpedOnlyCurrent(t: seq<short>, now: int, increment: bool)
    requires |t| >= 1
    ensures forall i | 0 <= i < |t| ::
      Bumped(t, now, increment)[i] == if increment && i == Slot(now, |t|) then Inc16(t[i]) else t[i]
  {
  }

  /** A window sum splits at any offset in between. */
  lemma {:induction false} WindowSplit(t: seq<short>, last: int, lo: int, mid: int, hi: int)
    requires |t| >= 1 && lo <= mid <= hi
    ensures WindowSum(t, last, lo, hi) == WindowSum(t, last, lo, mid) + WindowSum(t, last, mid, hi)
    decreases hi - mid
  {
    if hi > mid {
      WindowSplit(t, last, lo, mid, hi - 1);
    }
  }

  /**
   * The two sums of a filter share offsets 1..tickLimit-1: previousSum adds the oldest slot,
   * currentSum the newest.
   */
  lemma SumsOverlap(f: Filter, t: seq<short>, last: int)
    requires |t| >= 1 && f.tickLimit >= 1
    ensures PreviousSum(f, t, last) == WindowSum(t, last, 1, f.tickLimit) + t[Slot(last - f.tickLimit, |t|)]
    ensures CurrentSum(f, t, last) == t[Slot(last, |t|)] + WindowSum(t, last, 1, f.tickLimit)
  {
    WindowSplit(t, last, 0, 1, f.tickLimit);
  }

  /** First match: the verdict is that of the first filter that is not content, or Accepted if there is none. */
  lemma {:induction false} VerdictIsFirstMatch(filters: seq<Filter>, t: seq<short>, last: int)
    requires |t| >= 1
    ensures Verdict(filters, t, last) == Accepted <==>
      forall j | 0 <= j < |filters| :: FilterVerdict(filters[j], t, last) == Accepted
    ensures Verdict(filters, t, last) != Accepted <==>
      exists j | 0 <= j < |filters| ::
        (forall i | 0 <= i < j :: FilterVerdict(filters[i], t, last) == Accepted) &&
        Verdict(filters, t, last) == FilterVerdict(filters[j], t, last) != Accepted
  {
    if filters != [] {
      var rest := filters[1..];
      VerdictIsFirstMatch(rest, t, last);
      assert forall j | 1 <= j < |filters| :: filters[j] == rest[j - 1];
      if FilterVerdict(filters[0], t, last) == Accepted {
        if Verdict(rest, t, last) != Accepted {
          var j :| 0 <= j < |rest| &&
            (forall i | 0 <= i < j :: FilterVerdict(rest[i], t, last) == Accepted) &&
            Verdict(rest, t, last) == FilterVerdict(rest[j], t, last) != Accepted;
          assert forall i | 0 <= i < j + 1 :: FilterVerdict(filters[i], t, last) == Accepted;
        }
      }
    }
  }

  /** The first match is never more severe than the most severe filter, and both accept together. */
  lemma {:induction false} VerdictBelowMostSevere(filters: seq<Filter>, t: seq<short>, last: int)
    requires |t| >= 1
    ensures Ordinal(Verdict(filters, t, last)) <= Ordinal(MostSevere(filters, t, last))
    ensures Verdict(filters, t, last) == Accepted <==> MostSevere(filters, t, last) == Accepted
  {
    if filters != [] {
      VerdictBelowMostSevere(filters[1..], t, last);
    }
  }

  /** A warning filter listed first hides a rejecting filter listed after it. */
  lemma FirstMatchIsNotMostSevere()
    ensures var filters := [Filter(0, 100, 1), Filter(5, 0, 2)];
      var t := [1, 0, 0];
      Verdict(filters, t, 0) == Warned && MostSevere(filters, t, 0) == Rejected
  {
    var t: seq<short> := [1, 0, 0];
    assert WindowSum(t, 0, 1, 2) == 0 && WindowSum(t, 0, 0, 1) == 1;
    assert WindowSum(t, 0, 1, 3) == 0 && WindowSum(t, 0, 0, 2) == 1;
  }

  // ----- The per-key entry -----

  /**
   * isActive's test on the ticks elapsed since the last use: both sides are Java ints, so the
   * difference and `tickAmount * 10` wrap.
   */
  predicate StillActive(elapsed: int, tickAmount: int) {
    Wrap32(elapsed) < Wrap32(tickAmount * 10)
  }

  /** Without a wrap, an entry stays exactly while fewer than ten windows have passed. */
  lemma StillActiveMeaning(elapsed: int, tickAmount: int)
    requires MIN_INT <= elapsed <= MAX_INT && 0 <= tickAmount * 10 <= MAX_INT
    ensures StillActive(elapsed, tickAmount) <==> elapsed < tickAmount * 10
  {
  }

  /**
   * From a tick amount of 214748365 on, `tickAmount * 10` wraps below zero, and an entry used
   * in the current tick is already inactive: the sweep drops every entry.
   */
  lemma StillActiveWraps(elapsed: int, tickAmount: int)
    requires 0 <= elapsed <= MAX_INT && 214748365 <= tickAmount <= 429496729
    ensures !StillActive(elapsed, tickAmount)
  {
    assert 0x8000_0000 <= tickAmount * 10 < 0x1_0000_0000;
  }

  /** The counters and the reference tick of one key. */
  class LogEntry {
    const ticks: array<short>
    var lastTick: int32

    /** A fresh entry: all counters zero, referenced to the current tick. */
    constructor (tickAmount: int, currentTick: int32)
      requires tickAmount >= 1
      ensures fresh(ticks) && ticks.Length == tickAmount
      ensures ticks[..] == Zeros(tickAmount) && lastTick == currentTick
    {
      ticks := new short[tickAmount](_ => 0);
      lastTick := currentTick;
    }

    /** isActive: the entry stays while it was last used less than ten windows ago, in int arithmetic. */
    predicate IsActive(currentTick: int32)
      reads this
    {
      StillActive(currentTick - lastTick, ticks.Length)
    }

    /** Brings the window up to the current tick (the first part of a check). */
    method Slide(currentTick: int32)
      requires ticks.Length >= 1 && currentTick >= ticks.Length - 1
      modifies this, ticks
      ensures lastTick == currentTick
      ensures ticks[..] == Slid(old(ticks[..]), old(lastTick), currentTick)
    {
      var n := ticks.Length;
      if currentTick - lastTick >= n {
        lastTick := currentTick;
        forall k | 0 <= k < n {
          ticks[k] := 0;
        }
      } else if lastTick > currentTick {
        lastTick := currentTick;
      } else {
        ghost var t0, last0 := ticks[..], lastTick;
        while currentTick != lastTick
          invariant last0 <= lastTick <= currentTick
          invariant ticks[..] == Advance(t0, last0, lastTick)
          decreases currentTick - lastTick
        {
          lastTick := lastTick + 1;
          ticks[lastTick % n] := 0;
        }
      }
    }

    /** The two window sums of one filter, as the inner loop of a check adds them up. */
    method WindowSums(f: Filter) returns (previousSum: int, currentSum: int)
      requires ticks.Length >= 1 && f.tickLimit < ticks.Length && f.tickLimit <= lastTick
      ensures previousSum == PreviousSum(f, ticks[..], lastTick)
      ensures currentSum == CurrentSum(f, ticks[..], lastTick)
    {
      previousSum, currentSum := 0, 0;
      var i := 0;
      while i <= f.tickLimit
        invariant 0 <= i && (i <= f.tickLimit + 1 || i == 0)
        invariant previousSum == WindowSum(ticks[..], lastTick, 1, i)
        invariant currentSum == WindowSum(ticks[..], lastTick, 0, if i <= f.tickLimit then i else f.tickLimit as int)
      {
        var value := ticks[(lastTick - i) % ticks.Length];
        if i != 0 {
          previousSum := previousSum + value;
        }
        if i != f.tickLimit {
          currentSum := currentSum + value;
        }
        i := i + 1;
      }
    }

    /** The filter loop of a check: the first filter that rejects or warns decides. */
    method Evaluate(filters: seq<Filter>) returns (r: Result)
      requires ticks.Length >= 1 && lastTick >= ticks.Length - 1
      requires forall j | 0 <= j < |filters| :: filters[j].tickLimit < ticks.Length
      ensures r == Verdict(filters, ticks[..], lastTick)
    {
      var j := 0;
      while j < |filters|
        invariant 0 <= j <= |filters|
        invariant Verdict(filters, ticks[..], lastTick) == Verdict(filters[j..], ticks[..], lastTick)
      {
        var f := filters[j];
        assert filters[j..][1..] == filters[j + 1..];
        var previousSum, currentSum := WindowSums(f);
        if previousSum > f.rejectLimit || currentSum > f.rejectLimit {
          return Rejected;
        }
        if previousSum > f.warnLimit || currentSum > f.warnLimit {
          return Warned;
        }
        j := j + 1;
      }
      return Accepted;
    }

    /** One check: slide, optionally count the event, then ask the filters. */
    method IsFlooding(filters: seq<Filter>, currentTick: int32, increment: bool) returns (r: Result)
      requires ticks.Length >= 1 && currentTick >= ticks.Length - 1
      requires forall j | 0 <= j < |filters| :: filters[j].tickLimit < ticks.Length
      modifies this, ticks
      ensures lastTick == currentTick
      ensures ticks[..] == Bumped(Slid(old(ticks[..]), old(lastTick), currentTick), currentTick, increment)
      ensures r == Verdict(filters, ticks[..], currentTick)
    {
      Slide(currentTick);
      if increment {
        var s := lastTick % ticks.Length;
        ticks[s] := Inc16(ticks[s]);
      }
      r := Evaluate(filters);
    }
  }

  // ----- The manager -----

  /** The per-key entries of one limiter and the filters they are checked against. */
  class FloodManager {
    const filters: seq<Filter>
    const tickAmount: int
    var entries: map<string, LogEntry>
    ghost var Repr: set<object>

    /** Every entry has a window of tickAmount counters of its own. */
    ghost predicate Valid()
      reads this
    {
      this in Repr &&
      tickAmount == TickAmount(filters) &&
      (forall k | k in entries :: entries[k] in Repr && entries[k].ticks in Repr) &&
      (forall k | k in entries :: entries[k].ticks.Length == tickAmount) &&
      (forall k1, k2 | k1 in entries && k2 in entries && k1 != k2 ::
        entries[k1] != entries[k2] && entries[k1].ticks != entries[k2].ticks)
    }

    /** Sizes the windows from the filters; no key has an entry yet. */
    constructor (filters: seq<Filter>)
      requires forall j | 0 <= j < |filters| :: filters[j].tickLimit < MAX_INT
      ensures Valid() && fresh(Repr)
      ensures this.filters == filters && tickAmount == TickAmount(filters) && entries == map[]
    {
      var max := 1;
      var j := 0;
      while j < |filters|
        invariant 0 <= j <= |filters|
        invariant max == TickAmount(filters[..j])
      {
        assert filters[..j + 1][..j] == filters[..j];
        max := Max(filters[j].tickLimit + 1, max);
        j := j + 1;
      }
      assert filters[..j] == filters;
      this.filters := filters;
      tickAmount := max;
      entries := map[];
      Repr := {this};
    }

    /**
     * Checks (and with increment, counts) one event of `key`; a key without an entry gets a
     * fresh one. A missing or empty key is rejected outright.
     */
    method IsFlooding(key: Option<string>, increment: bool, currentTick: int32) returns (r: Result)
      requires Valid() && currentTick >= tickAmount - 1
      modifies Repr
      ensures Valid() && fresh(Repr - old(Repr))
      ensures key.None? || key.value == [] ==> r == Rejected && entries == old(entries)
      ensures key.Some? && key.value != [] ==>
        var k := key.value;
        var before := if k in old(entries) then old(entries[k].ticks[..]) else Zeros(tickAmount);
        var beforeTick := if k in old(entries) then old(entries[k].lastTick) else currentTick;
        entries.Keys == old(entries).Keys + {k} &&
        entries[k].lastTick == currentTick &&
        entries[k].ticks[..] == Bumped(Slid(before, beforeTick, currentTick), currentTick, increment) &&
        r == Verdict(filters, entries[k].ticks[..], currentTick)
      ensures forall k | k in old(entries) && (key.None? || k != key.value) ::
        entries[k] == old(entries[k]) && entries[k].lastTick == old(entries[k].lastTick) &&
        entries[k].ticks[..] == old(entries[k].ticks[..])
    {
      if key.None? || key.value == [] {
        return Rejected;
      }
      var k := key.value;
      var entry: LogEntry;
      if k in entries {
        entry := entries[k];
      } else {
        entry := new LogEntry(tickAmount, currentTick);
        entries := entries[k := entry];
        Repr := Repr + {entry, entry.ticks};
      }
      r := entry.IsFlooding(filters, currentTick, increment);
    }

    /** The periodic sweep: drops exactly the entries that are no longer active. */
    method Flush(currentTick: int32)
      requires Valid()
      modifies this
      ensures Valid() && Repr == old(Repr)
      ensures entries == map k | k in old(entries) && old(entries)[k].IsActive(currentTick) :: old(entries)[k]
    {
      var pending := entries.Keys;
      while pending != {}
        invariant Valid() && Repr == old(Repr)
        invariant pending <= old(entries).Keys
        invariant forall k | k in entries :: k in old(entries) && entries[k] == old(entries)[k]
        invariant forall k | k in old(entries) ::
          k in entries <==> k in pending || old(entries)[k].IsActive(currentTick)
        decreases pending
      {
        var k :| k in pending;
        if !entries[k].IsActive(currentTick) {
          entries := entries - {k};
        }
        pending := pending - {k};
      }
    }
  }
}
