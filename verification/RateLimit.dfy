/**
 * The pull limiter of apps/web/src/lib/gacha-rate-limit.ts. Its pruned list of hits must decide as
 * the full history of accepted calls would.
 */
module RateLimit {

  const WINDOW_MS := 60_000
  const MAX_HITS := 20

  function ListOf(hits: map<string, seq<int>>, key: string): seq<int> {
    if key in hits then hits[key] else []
  }

  /** The hits that are less than a window old at `now`. */
  function Recent(times: seq<int>, now: int): seq<int> {
    if |times| == 0 then []
    else if now - times[0] < WINDOW_MS then [times[0]] + Recent(times[1..], now)
    else Recent(times[1..], now)
  }

  /** One call: the pruned map and the decision. */
  function Call(hits: map<string, seq<int>>, key: string, now: int): (map<string, seq<int>>, bool) {
    var recent := Recent(ListOf(hits, key), now);
    if |recent| >= MAX_HITS then (hits[key := recent], false) else (hits[key := recent + [now]], true)
  }

  class Limiter {
    var hits: map<string, seq<int>>

    constructor ()
      ensures hits == map[]
    {
      hits := map[];
    }

    /** Lines 8-18, with the hashed address and demo id as the key. */
    method AllowGachaPull(key: string, now: int) returns (ok: bool)
      modifies this
      ensures (hits, ok) == Call(old(hits), key, now)
    {
      var times := if key in hits then hits[key] else [];
      var recent: seq<int> := [];
      for i := 0 to |times|
        invariant recent + Recent(times[i..], now) == Recent(times, now)
      {
        assert times[i..][1..] == times[i + 1..];
        if now - times[i] < WINDOW_MS {
          assert recent + ([times[i]] + Recent(times[i + 1..], now)) == (recent + [times[i]]) + Recent(times[i + 1..], now);
          recent := recent + [times[i]];
        }
      }
      assert recent == Recent(times, now);
      if |recent| >= MAX_HITS {
        hits := hits[key := recent];
        return false;
      }
      recent := recent + [now];
      hits := hits[key := recent];
      return true;
    }
  }

  // ---------------------------------------------------------------- the limiter that forgets nothing

  datatype Arrival = Arrival(key: string, now: int)

  /** The reference: nothing is pruned, the recent hits are counted in the whole history. */
  function FullCall(log: map<string, seq<int>>, key: string, now: int): (map<string, seq<int>>, bool) {
    if |Recent(ListOf(log, key), now)| >= MAX_HITS then (log, false)
    else (log[key := ListOf(log, key) + [now]], true)
  }

  /** The map after a run of calls. */
  function HitsAfter(hits: map<string, seq<int>>, calls: seq<Arrival>): map<string, seq<int>>
    decreases |calls|
  {
    if |calls| == 0 then hits else HitsAfter(Call(hits, calls[0].key, calls[0].now).0, calls[1..])
  }

  function Decisions(hits: map<string, seq<int>>, calls: seq<Arrival>): seq<bool>
    decreases |calls|
  {
    if |calls| == 0 then [] else
      var (hits', ok) := Call(hits, calls[0].key, calls[0].now);
      [ok] + Decisions(hits', calls[1..])
  }

  function FullDecisions(log: map<string, seq<int>>, calls: seq<Arrival>): seq<bool>
    decreases |calls|
  {
    if |calls| == 0 then [] else
      var (log', ok) := FullCall(log, calls[0].key, calls[0].now);
      [ok] + FullDecisions(log', calls[1..])
  }

  function FullLog(log: map<string, seq<int>>, calls: seq<Arrival>): map<string, seq<int>>
    decreases |calls|
  {
    if |calls| == 0 then log else FullLog(FullCall(log, calls[0].key, calls[0].now).0, calls[1..])
  }

  // ---------------------------------------------------------------- clocks that revive no hit

  /**
   * No reading after the clock has moved a whole window past an earlier one is back within a window
   * of that earlier one.
   */
  ghost predicate NeverRevives(clock: seq<int>) {
    forall i, m, j :: 0 <= i < m < j < |clock| ==>
      clock[m] - clock[i] >= WINDOW_MS ==> clock[j] - clock[i] >= WINDOW_MS
  }

  /** The same of the calls of each key on its own, which is all the limiter needs. */
  ghost predicate CallsNeverRevive(calls: seq<Arrival>) {
    forall i, m, j :: 0 <= i < m < j < |calls| && calls[i].key == calls[m].key == calls[j].key ==>
      calls[m].now - calls[i].now >= WINDOW_MS ==> calls[j].now - calls[i].now >= WINDOW_MS
  }

  /** No hit that is kept of a key can be pruned by one of the calls and be recent at a later one. */
  ghost predicate HitsNeverRevive(hits: map<string, seq<int>>, calls: seq<Arrival>) {
    forall m, j, t :: 0 <= m < j < |calls| && calls[m].key == calls[j].key && t in ListOf(hits, calls[m].key) ==>
      calls[m].now - t >= WINDOW_MS ==> calls[j].now - t >= WINDOW_MS
  }

  /** At each call to come both lists of its key have the same recent hits. */
  ghost predicate KeepsEnough(hits: map<string, seq<int>>, log: map<string, seq<int>>, calls: seq<Arrival>) {
    forall j :: 0 <= j < |calls| ==>
      Recent(ListOf(hits, calls[j].key), calls[j].now) == Recent(ListOf(log, calls[j].key), calls[j].now)
  }

  lemma {:induction false} RecentAppend(s: seq<int>, t: int, now: int)
    ensures Recent(s + [t], now) == Recent(s, now) + if now - t < WINDOW_MS then [t] else []
  {
    if |s| == 0 {
      assert s + [t] == [t];
    } else {
      assert (s + [t])[1..] == s[1..] + [t];
      RecentAppend(s[1..], t, now);
    }
  }

  lemma {:induction false} RecentAreKept(s: seq<int>, now: int)
    ensures forall t :: t in Recent(s, now) <==> t in s && now - t < WINDOW_MS
  {
    if |s| > 0 {
      RecentAreKept(s[1..], now);
      assert s == [s[0]] + s[1..];
    }
  }

  /** Pruning at one time loses nothing that is recent at another at which no pruned hit is. */
  lemma {:induction false} PruneTwice(s: seq<int>, now: int, later: int)
    requires forall t :: t in s && now - t >= WINDOW_MS ==> later - t >= WINDOW_MS
    ensures Recent(Recent(s, now), later) == Recent(s, later)
  {
    if |s| > 0 {
      assert s[0] in s && forall t :: t in s[1..] ==> t in s;
      PruneTwice(s[1..], now, later);
    }
  }

  lemma CallKeepsEnough(hits: map<string, seq<int>>, log: map<string, seq<int>>, calls: seq<Arrival>)
    requires |calls| > 0 && KeepsEnough(hits, log, calls) && HitsNeverRevive(hits, calls)
    ensures var c := calls[0];
            && Call(hits, c.key, c.now).1 == FullCall(log, c.key, c.now).1
            && KeepsEnough(Call(hits, c.key, c.now).0, FullCall(log, c.key, c.now).0, calls[1..])
  {
    var key, now := calls[0].key, calls[0].now;
    var kept, all := ListOf(hits, key), ListOf(log, key);
    var hits', log' := Call(hits, key, now).0, FullCall(log, key, now).0;
    forall j | 0 <= j < |calls| - 1
      ensures var c := calls[1..][j]; Recent(ListOf(hits', c.key), c.now) == Recent(ListOf(log', c.key), c.now)
    {
      var c := calls[j + 1];
      if c.key == key {
        PruneTwice(kept, now, c.now);
        RecentAppend(Recent(kept, now), now, c.now);
        RecentAppend(all, now, c.now);
      }
    }
  }

  lemma CallRevivesNothing(hits: map<string, seq<int>>, calls: seq<Arrival>)
    requires |calls| > 0 && HitsNeverRevive(hits, calls) && CallsNeverRevive(calls)
    ensures HitsNeverRevive(Call(hits, calls[0].key, calls[0].now).0, calls[1..])
    ensures CallsNeverRevive(calls[1..])
  {
    var key, now := calls[0].key, calls[0].now;
    var hits' := Call(hits, key, now).0;
    RecentAreKept(ListOf(hits, key), now);
    forall m, j, t | 0 <= m < j < |calls| - 1 && calls[1..][m].key == calls[1..][j].key
                     && t in ListOf(hits', calls[1..][m].key)
      ensures calls[1..][m].now - t >= WINDOW_MS ==> calls[1..][j].now - t >= WINDOW_MS
    {
      assert calls[1..][m] == calls[m + 1] && calls[1..][j] == calls[j + 1];
      assert t in ListOf(hits, calls[m + 1].key) || (calls[m + 1].key == key && t == now);
    }
  }

  lemma {:induction false} PruningIsInvisible(hits: map<string, seq<int>>, log: map<string, seq<int>>, calls: seq<Arrival>)
    requires KeepsEnough(hits, log, calls) && HitsNeverRevive(hits, calls) && CallsNeverRevive(calls)
    ensures Decisions(hits, calls) == FullDecisions(log, calls)
    decreases |calls|
  {
    hide KeepsEnough, HitsNeverRevive, CallsNeverRevive, Call, FullCall;
    if |calls| > 0 {
      var key, now := calls[0].key, calls[0].now;
      CallKeepsEnough(hits, log, calls);
      CallRevivesNothing(hits, calls);
      PruningIsInvisible(Call(hits, key, now).0, FullCall(log, key, now).0, calls[1..]);
    }
  }

  /** From an empty map the pruned lists decide every call as the full history does, if no hit of a key is revived. */
  lemma LimiterMatchesHistory(calls: seq<Arrival>)
    requires CallsNeverRevive(calls)
    ensures Decisions(map[], calls) == FullDecisions(map[], calls)
  {
    PruningIsInvisible(map[], map[], calls);
  }

  // ---------------------------------------------------------------- the exact condition on the clock

  /** The calls come in the order of the clock's readings, any number of them at a reading. */
  ghost predicate ReadsFrom(calls: seq<Arrival>, clock: seq<int>, at: seq<nat>) {
    && |at| == |calls|
    && (forall k :: 0 <= k < |calls| ==> at[k] < |clock| && calls[k].now == clock[at[k]])
    && forall k, l :: 0 <= k < l < |calls| ==> at[k] <= at[l]
  }

  lemma CallsOfSafeClock(calls: seq<Arrival>, clock: seq<int>, at: seq<nat>)
    requires NeverRevives(clock) && ReadsFrom(calls, clock, at)
    ensures CallsNeverRevive(calls)
  {
    forall i, m, j | 0 <= i < m < j < |calls| && calls[m].now - calls[i].now >= WINDOW_MS
      ensures calls[j].now - calls[i].now >= WINDOW_MS
    {
      assert at[i] < at[m] <= at[j];
    }
  }

  function Repeat(c: Arrival, n: nat): (r: seq<Arrival>)
    ensures |r| == n && forall k :: 0 <= k < n ==> r[k] == c
  {
    if n == 0 then [] else [c] + Repeat(c, n - 1)
  }

  function Times(t: int, n: nat): (r: seq<int>)
    ensures |r| == n
  {
    if n == 0 then [] else Times(t, n - 1) + [t]
  }

  lemma {:induction false} RecentOfTimes(t: int, n: nat, now: int)
    ensures Recent(Times(t, n), now) == if now - t < WINDOW_MS then Times(t, n) else []
  {
    if n > 0 {
      RecentOfTimes(t, n - 1, now);
      RecentAppend(Times(t, n - 1), t, now);
    }
  }

  lemma {:induction false} DecisionsLength(hits: map<string, seq<int>>, log: map<string, seq<int>>, calls: seq<Arrival>)
    ensures |Decisions(hits, calls)| == |FullDecisions(log, calls)| == |calls|
    decreases |calls|
  {
    hide Call, FullCall;
    if |calls| > 0 {
      var c := calls[0];
      DecisionsLength(Call(hits, c.key, c.now).0, FullCall(log, c.key, c.now).0, calls[1..]);
    }
  }

  /** A run of two parts is decided part by part. */
  lemma {:induction false} DecisionsAppend(hits: map<string, seq<int>>, first: seq<Arrival>, rest: seq<Arrival>)
    ensures Decisions(hits, first + rest) == Decisions(hits, first) + Decisions(HitsAfter(hits, first), rest)
    decreases |first|
  {
    hide Call;
    if |first| == 0 {
      assert first + rest == rest;
    } else {
      assert (first + rest)[1..] == first[1..] + rest;
      DecisionsAppend(Call(hits, first[0].key, first[0].now).0, first[1..], rest);
    }
  }

  lemma {:induction false} FullDecisionsAppend(log: map<string, seq<int>>, first: seq<Arrival>, rest: seq<Arrival>)
    ensures FullDecisions(log, first + rest) == FullDecisions(log, first) + FullDecisions(FullLog(log, first), rest)
    decreases |first|
  {
    hide FullCall;
    if |first| == 0 {
      assert first + rest == rest;
    } else {
      assert (first + rest)[1..] == first[1..] + rest;
      FullDecisionsAppend(FullCall(log, first[0].key, first[0].now).0, first[1..], rest);
    }
  }

  /** Up to 20 calls of a key at one time are kept by both limiters. */
  lemma {:induction false} BurstIsKept(key: string, t: int, k: nat, n: nat)
    requires k >= 1 && k + n <= MAX_HITS
    ensures HitsAfter(map[key := Times(t, k)], Repeat(Arrival(key, t), n)) == map[key := Times(t, k + n)]
    ensures FullLog(map[key := Times(t, k)], Repeat(Arrival(key, t), n)) == map[key := Times(t, k + n)]
    decreases n
  {
    if n > 0 {
      var hits := map[key := Times(t, k)];
      RecentOfTimes(t, k, t);
      assert hits[key := Times(t, k + 1)] == map[key := Times(t, k + 1)];
      assert Repeat(Arrival(key, t), n)[1..] == Repeat(Arrival(key, t), n - 1);
      BurstIsKept(key, t, k + 1, n - 1);
    }
  }

  function Burst(key: string, t: int): seq<Arrival> { Repeat(Arrival(key, t), MAX_HITS) }

  lemma FirstOfBurst(key: string, t: int)
    ensures Call(map[], key, t).0 == FullCall(map[], key, t).0 == map[key := Times(t, 1)]
  {
    assert Times(t, 1) == Times(t, 0) + [t] == [t];
  }

  lemma AfterBurst(key: string, t: int)
    ensures HitsAfter(map[], Burst(key, t)) == FullLog(map[], Burst(key, t)) == map[key := Times(t, MAX_HITS)]
  {
    hide Times, Recent;
    var c := Arrival(key, t);
    assert Burst(key, t) == [c] + Repeat(c, MAX_HITS - 1) by {
      assert Repeat(c, 20) == [c] + Repeat(c, 19);
    }
    FirstOfBurst(key, t);
    assert Burst(key, t)[1..] == Repeat(c, MAX_HITS - 1);
    BurstIsKept(key, t, 1, MAX_HITS - 1);
  }

  /**
   * How a revived hit shows: 20 calls at one reading, one when they are all a window old, and one when
   * the clock is back within a window of them. The limiter has pruned them and accepts the last call.
   */
  function Witness(key: string, t: int, pruned: int, back: int): seq<Arrival> {
    Burst(key, t) + [Arrival(key, pruned), Arrival(key, back)]
  }

  lemma OneCall(hits: map<string, seq<int>>, c: Arrival)
    ensures Decisions(hits, [c]) == [Call(hits, c.key, c.now).1]
    ensures FullDecisions(hits, [c]) == [FullCall(hits, c.key, c.now).1]
  {
    assert [c][1..] == [];
  }

  lemma TwoAfterBurst(key: string, t: int, pruned: int, back: int)
    requires pruned - t >= WINDOW_MS && back - t < WINDOW_MS
    ensures var hits, rest := map[key := Times(t, MAX_HITS)], [Arrival(key, pruned), Arrival(key, back)];
            Decisions(hits, rest) == [true, true] && FullDecisions(hits, rest) == [true, false]
  {
    var hits := map[key := Times(t, MAX_HITS)];
    var rest := [Arrival(key, pruned), Arrival(key, back)];
    RecentOfTimes(t, MAX_HITS, pruned);
    RecentOfTimes(t, MAX_HITS, back);
    RecentAppend(Times(t, MAX_HITS), pruned, back);
    assert [] + [pruned] == [pruned];
    hide Times;
    assert Call(hits, key, pruned) == (hits[key := [pruned]], true);
    assert FullCall(hits, key, pruned) == (hits[key := Times(t, MAX_HITS) + [pruned]], true);
    assert [pruned][1..] == [];
    assert |Recent([pruned], back)| <= 1;
    var kept, logged := hits[key := [pruned]], hits[key := Times(t, MAX_HITS) + [pruned]];
    assert Call(kept, key, back).1 && !FullCall(logged, key, back).1;
    hide Call, FullCall;
    assert rest[1..] == [Arrival(key, back)];
    OneCall(kept, Arrival(key, back));
    OneCall(logged, Arrival(key, back));
  }

  lemma RevivalDiffers(key: string, t: int, pruned: int, back: int)
    requires pruned - t >= WINDOW_MS && back - t < WINDOW_MS
    ensures Decisions(map[], Witness(key, t, pruned, back)) != FullDecisions(map[], Witness(key, t, pruned, back))
  {
    var rest := [Arrival(key, pruned), Arrival(key, back)];
    hide Burst, Times, Decisions, FullDecisions;
    DecisionsAppend(map[], Burst(key, t), rest);
    FullDecisionsAppend(map[], Burst(key, t), rest);
    DecisionsLength(map[], map[], Burst(key, t));
    AfterBurst(key, t);
    TwoAfterBurst(key, t, pruned, back);
    var d, e := Decisions(map[], Witness(key, t, pruned, back)), FullDecisions(map[], Witness(key, t, pruned, back));
    assert d[|d| - 1] && !e[|e| - 1];
  }

  /** For every list of calls the clock can time, the pruned lists decide as the full history does. */
  ghost predicate AlwaysMatches(clock: seq<int>) {
    forall calls, at | ReadsFrom(calls, clock, at) :: Decisions(map[], calls) == FullDecisions(map[], calls)
  }

  lemma WitnessIsTimed(key: string, clock: seq<int>, i: nat, m: nat, j: nat)
    requires i < m < j < |clock|
    ensures exists at :: ReadsFrom(Witness(key, clock[i], clock[m], clock[j]), clock, at)
  {
    var calls := Witness(key, clock[i], clock[m], clock[j]);
    var at := seq(|calls|, k => if k < MAX_HITS then i else if k == MAX_HITS then m else j);
    forall k | 0 <= k < |calls|
      ensures calls[k].now == clock[at[k]]
    {
      assert k < MAX_HITS ==> calls[k] == Burst(key, clock[i])[k];
    }
    assert ReadsFrom(calls, clock, at);
  }

  /** The clocks on which the limiter is right: exactly those that never revive a hit. */
  lemma LimiterIsRightIff(clock: seq<int>)
    ensures AlwaysMatches(clock) <==> NeverRevives(clock)
  {
    if NeverRevives(clock) {
      forall calls, at | ReadsFrom(calls, clock, at)
        ensures Decisions(map[], calls) == FullDecisions(map[], calls)
      {
        CallsOfSafeClock(calls, clock, at);
        LimiterMatchesHistory(calls);
      }
    } else {
      var i, m, j :| 0 <= i < m < j < |clock| && clock[m] - clock[i] >= WINDOW_MS && clock[j] - clock[i] < WINDOW_MS;
      WitnessIsTimed("k", clock, i, m, j);
      RevivalDiffers("k", clock[i], clock[m], clock[j]);
    }
  }

  /** A clock that never runs backwards revives nothing. */
  lemma ForwardClockNeverRevives(clock: seq<int>)
    requires forall i, j :: 0 <= i < j < |clock| ==> clock[i] <= clock[j]
    ensures NeverRevives(clock)
  {
  }

  /** On a clock that never runs backwards the pruned lists decide every list of calls as the full history does. */
  lemma ForwardClockIsRight(clock: seq<int>)
    requires forall i, j :: 0 <= i < j < |clock| ==> clock[i] <= clock[j]
    ensures AlwaysMatches(clock)
  {
    ForwardClockNeverRevives(clock);
    LimiterIsRightIff(clock);
  }

  // ---------------------------------------------------------------- no window is overfull

  /** The times at which the limiter accepted a call of the key. */
  function AcceptedTimes(hits: map<string, seq<int>>, calls: seq<Arrival>, key: string): seq<int>
    decreases |calls|
  {
    if |calls| == 0 then [] else
      var (hits', ok) := Call(hits, calls[0].key, calls[0].now);
      (if ok && calls[0].key == key then [calls[0].now] else []) + AcceptedTimes(hits', calls[1..], key)
  }

  lemma FullCallLogs(log: map<string, seq<int>>, c: Arrival, key: string)
    ensures var (log', ok) := FullCall(log, c.key, c.now);
            ListOf(log', key) == ListOf(log, key) + if ok && c.key == key then [c.now] else []
  {
  }

  /** Decided alike, the accepted calls are what the full history holds. */
  lemma {:induction false} AcceptedAreLogged(hits: map<string, seq<int>>, log: map<string, seq<int>>,
                                             calls: seq<Arrival>, key: string)
    requires Decisions(hits, calls) == FullDecisions(log, calls)
    ensures ListOf(FullLog(log, calls), key) == ListOf(log, key) + AcceptedTimes(hits, calls, key)
    decreases |calls|
  {
    hide Call, FullCall, ListOf;
    if |calls| > 0 {
      var c := calls[0];
      FullCallLogs(log, c, key);
      var (hits', ok) := Call(hits, c.key, c.now);
      var (log', ok') := FullCall(log, c.key, c.now);
      assert Decisions(hits, calls)[0] == ok && FullDecisions(log, calls)[0] == ok';
      assert Decisions(hits, calls)[1..] == Decisions(hits', calls[1..]);
      assert FullDecisions(log, calls)[1..] == FullDecisions(log', calls[1..]);
      AcceptedAreLogged(hits', log', calls[1..], key);
    }
  }

  /** How many of the times fall into the window starting at `t`. */
  function CountIn(times: seq<int>, t: int): nat {
    if |times| == 0 then 0 else (if t <= times[0] < t + WINDOW_MS then 1 else 0) + CountIn(times[1..], t)
  }

  lemma {:induction false} CountInAppend(s: seq<int>, x: int, t: int)
    ensures CountIn(s + [x], t) == CountIn(s, t) + if t <= x < t + WINDOW_MS then 1 else 0
  {
    if |s| == 0 {
      assert s + [x] == [x];
    } else {
      assert (s + [x])[1..] == s[1..] + [x];
      CountInAppend(s[1..], x, t);
    }
  }

  /** All hits in a window that holds `now` are recent at `now`. */
  lemma {:induction false} WindowIsRecent(times: seq<int>, t: int, now: int)
    requires t <= now < t + WINDOW_MS
    ensures CountIn(times, t) <= |Recent(times, now)|
  {
    if |times| > 0 {
      WindowIsRecent(times[1..], t, now);
    }
  }

  ghost predicate NoWindowFull(log: map<string, seq<int>>) {
    forall key, t :: CountIn(ListOf(log, key), t) <= MAX_HITS
  }

  /** The full history never overfills a window, on any clock. */
  lemma {:induction false} HistoryNeverOverfills(log: map<string, seq<int>>, calls: seq<Arrival>)
    requires NoWindowFull(log)
    ensures NoWindowFull(FullLog(log, calls))
    decreases |calls|
  {
    if |calls| > 0 {
      var key, now := calls[0].key, calls[0].now;
      var log' := FullCall(log, key, now).0;
      forall k, t
        ensures CountIn(ListOf(log', k), t) <= MAX_HITS
      {
        assert CountIn(ListOf(log, k), t) <= MAX_HITS;
        if k == key && |Recent(ListOf(log, key), now)| < MAX_HITS {
          CountInAppend(ListOf(log, key), now, t);
          if t <= now < t + WINDOW_MS {
            WindowIsRecent(ListOf(log, key), t, now);
          }
        }
      }
      HistoryNeverOverfills(log', calls[1..]);
    }
  }

  /** In every run that revives no hit, whatever the window, at most 20 calls of a key are accepted in it. */
  lemma NoWindowHoldsMoreThanTwenty(calls: seq<Arrival>, key: string, t: int)
    requires CallsNeverRevive(calls)
    ensures CountIn(AcceptedTimes(map[], calls, key), t) <= MAX_HITS
  {
    LimiterMatchesHistory(calls);
    AcceptedAreLogged(map[], map[], calls, key);
    HistoryNeverOverfills(map[], calls);
    assert ListOf(map[], key) + AcceptedTimes(map[], calls, key) == AcceptedTimes(map[], calls, key);
    hide AcceptedTimes, CountIn;
    assert CountIn(ListOf(FullLog(map[], calls), key), t) <= MAX_HITS;
  }
}
