/** Serial numbers: a clock reading, a server, a thread and a counter that restarts with every new reading. */
module SerialGenerators {

  const COUNTER_SPAN: nat := 0x1_0000       // m_baseId is 16 bits wide and wraps
  const CLOCK_SPAN: nat := 0x1_0000_0000    // the clock is cut to 32 bits

  datatype Generator = Generator(server: nat, thread: nat, lastTime: nat, baseId: nat)

  predicate WellFormed(g: Generator) {
    g.server < 0x100 && g.thread < 0x100 && g.lastTime < CLOCK_SPAN && g.baseId < COUNTER_SPAN
  }

  function Fresh(server: nat, thread: nat): Generator {
    Generator(server, thread, 0, 0)
  }

  /** The 64-bit layout: clock in the high half, then 8 bits each, then 16. */
  function Pack(now: nat, server: nat, thread: nat, base: nat): nat {
    now * 0x1_0000_0000 + server * 0x100_0000 + thread * 0x1_0000 + base
  }

  function Tick(g: Generator, now: nat): Generator {
    if g.lastTime != now then g.(lastTime := now, baseId := 0) else g
  }

  function Serial(g: Generator, now: nat): nat {
    Pack(now, g.server, g.thread, Tick(g, now).baseId)
  }

  function Next(g: Generator, now: nat): Generator {
    Tick(g, now).(baseId := (Tick(g, now).baseId + 1) % COUNTER_SPAN)
  }

  /** The generator after reading every clock value in turn. */
  function After(g: Generator, clock: seq<nat>): Generator {
    if clock == [] then g else Next(After(g, clock[..|clock| - 1]), clock[|clock| - 1])
  }

  /** The i-th serial a new generator hands out. */
  function SerialAt(server: nat, thread: nat, clock: seq<nat>, i: nat): nat
    requires i < |clock|
  {
    Serial(After(Fresh(server, thread), clock[..i]), clock[i])
  }

  class SerialGenerator {
    const serverID: nat
    const threadID: nat
    var lastTime: nat
    var baseId: nat

    function View(): Generator
      reads this
    {
      Generator(serverID, threadID, lastTime, baseId)
    }

    constructor (serverID: nat, threadID: nat)
      requires serverID < 0x100 && threadID < 0x100
      ensures View() == Fresh(serverID, threadID) && WellFormed(View())
    {
      this.serverID, this.threadID := serverID, threadID;
      lastTime, baseId := 0, 0;
    }

    method CreateSerial(time: int) returns (serial: nat)
      requires WellFormed(View())
      modifies this
      ensures WellFormed(View()) && View() == Next(old(View()), time % 0x1_0000_0000)
      ensures serial == Serial(old(View()), time % 0x1_0000_0000)
      ensures serial < CLOCK_SPAN * CLOCK_SPAN && serial / CLOCK_SPAN == time % 0x1_0000_0000
    {
      var now := time % CLOCK_SPAN;
      if lastTime != now {
        lastTime := now;
        baseId := 0;
      }
      serial := BitOr(BitOr(BitOr(ShiftLeft(now, 32), ShiftLeft(serverID, 24)), ShiftLeft(threadID, 16)), baseId);
      OrIsSum(now, serverID, threadID, baseId);
      PackFits(now, serverID, threadID, baseId);
      baseId := (baseId + 1) % COUNTER_SPAN;
    }
  }

  // ----- The layout -----

  function ShiftLeft(n: nat, k: nat): nat {
    if k == 0 then n else 2 * ShiftLeft(n, k - 1)
  }

  /** Bitwise "or", bit by bit. */
  function BitOr(a: nat, b: nat): nat
    decreases a + b
  {
    if a == 0 && b == 0 then 0
    else (if a % 2 == 1 || b % 2 == 1 then 1 else 0) + 2 * BitOr(a / 2, b / 2)
  }

  lemma {:induction false} OrZero(a: nat)
    ensures BitOr(a, 0) == a
  {
    if a != 0 {
      OrZero(a / 2);
    }
  }

  /** Over a number whose low k bits are clear, "or" with a k-bit number is a sum. */
  lemma {:induction false} OrOfDisjoint(a: nat, b: nat, k: nat)
    requires b < ShiftLeft(1, k)
    ensures BitOr(ShiftLeft(a, k), b) == ShiftLeft(a, k) + b
  {
    if k == 0 {
      OrZero(a);
    } else {
      OrOfDisjoint(a, b / 2, k - 1);
    }
  }

  lemma ShiftByByte(n: nat, k: nat)
    ensures ShiftLeft(n, k + 8) == 0x100 * ShiftLeft(n, k)
  {
    assert ShiftLeft(n, k + 2) == 4 * ShiftLeft(n, k);
    assert ShiftLeft(n, k + 4) == 4 * ShiftLeft(n, k + 2);
    assert ShiftLeft(n, k + 6) == 4 * ShiftLeft(n, k + 4);
  }

  lemma ShiftIsScale(n: nat)
    ensures ShiftLeft(n, 16) == n * 0x1_0000
    ensures ShiftLeft(n, 24) == n * 0x100_0000
    ensures ShiftLeft(n, 32) == n * 0x1_0000_0000
  {
    ShiftByByte(n, 0);
    ShiftByByte(n, 8);
    ShiftByByte(n, 16);
    ShiftByByte(n, 24);
  }

  /** The source's shifts and "or"s lay the fields out side by side, as Pack does. */
  lemma OrIsSum(now: nat, server: nat, thread: nat, base: nat)
    requires server < 0x100 && thread < 0x100 && base < COUNTER_SPAN
    ensures BitOr(BitOr(BitOr(ShiftLeft(now, 32), ShiftLeft(server, 24)), ShiftLeft(thread, 16)), base)
         == Pack(now, server, thread, base)
  {
    var high := now * 0x100 + server;
    var ids := high * 0x100 + thread;
    FieldsJoin(now, server, thread);
    OrOfFields(now, server, thread, base, high, ids, 32, 24, 16);
  }

  lemma OrOfFields(a: nat, b: nat, c: nat, d: nat, ab: nat, abc: nat, i: nat, j: nat, k: nat)
    requires ShiftLeft(a, i) + ShiftLeft(b, j) == ShiftLeft(ab, j) && ShiftLeft(b, j) < ShiftLeft(1, i)
    requires ShiftLeft(ab, j) + ShiftLeft(c, k) == ShiftLeft(abc, k) && ShiftLeft(c, k) < ShiftLeft(1, j)
    requires d < ShiftLeft(1, k)
    ensures BitOr(BitOr(BitOr(ShiftLeft(a, i), ShiftLeft(b, j)), ShiftLeft(c, k)), d) == ShiftLeft(abc, k) + d
  {
    assert BitOr(ShiftLeft(a, i), ShiftLeft(b, j)) == ShiftLeft(ab, j) by { OrOfDisjoint(a, ShiftLeft(b, j), i); }
    assert BitOr(ShiftLeft(ab, j), ShiftLeft(c, k)) == ShiftLeft(abc, k) by { OrOfDisjoint(ab, ShiftLeft(c, k), j); }
    OrOfDisjoint(abc, d, k);
  }

  lemma FieldsJoin(now: nat, server: nat, thread: nat)
    requires server < 0x100 && thread < 0x100
    ensures var high := now * 0x100 + server;
            var ids := high * 0x100 + thread;
            && ShiftLeft(now, 32) + ShiftLeft(server, 24) == ShiftLeft(high, 24)
            && ShiftLeft(high, 24) + ShiftLeft(thread, 16) == ShiftLeft(ids, 16) == ids * 0x1_0000
            && ShiftLeft(server, 24) < ShiftLeft(1, 32)
            && ShiftLeft(thread, 16) < ShiftLeft(1, 24)
            && ShiftLeft(1, 16) == COUNTER_SPAN
  {
    ShiftIsScale(1);
    ShiftIsScale(now);
    ShiftIsScale(server);
    ShiftIsScale(thread);
    ShiftIsScale(now * 0x100 + server);
    ShiftIsScale((now * 0x100 + server) * 0x100 + thread);
  }

  lemma PackFits(now: nat, server: nat, thread: nat, base: nat)
    requires server < 0x100 && thread < 0x100 && base < COUNTER_SPAN
    ensures now < CLOCK_SPAN ==> Pack(now, server, thread, base) < CLOCK_SPAN * CLOCK_SPAN
    ensures Pack(now, server, thread, base) / CLOCK_SPAN == now
    ensures Pack(now, server, thread, base) / COUNTER_SPAN % COUNTER_SPAN == server * 0x100 + thread
    ensures Pack(now, server, thread, base) % COUNTER_SPAN == base
  {
    var low := server * 0x100_0000 + thread * 0x1_0000 + base;
    assert Pack(now, server, thread, base) == now * CLOCK_SPAN + low && low < CLOCK_SPAN;
    var mid := server * 0x100 + thread;
    assert Pack(now, server, thread, base) == (now * COUNTER_SPAN + mid) * COUNTER_SPAN + base;
  }

  /** The layout orders serials by clock first, then by counter. */
  lemma PackOrders(now: nat, base: nat, later: nat, base': nat, server: nat, thread: nat)
    requires server < 0x100 && thread < 0x100 && base < COUNTER_SPAN && base' < COUNTER_SPAN
    requires now < later || (now == later && base < base')
    ensures Pack(now, server, thread, base) < Pack(later, server, thread, base')
  {
  }

  // ----- The counter, for every clock -----

  /** How many readings at the end of `clock` are `t` without a break. */
  function Streak(clock: seq<nat>, t: nat): nat {
    if clock == [] || clock[|clock| - 1] != t then 0 else 1 + Streak(clock[..|clock| - 1], t)
  }

  lemma CounterStep(n: nat)
    ensures (n % COUNTER_SPAN + 1) % COUNTER_SPAN == (n + 1) % COUNTER_SPAN
  {
  }

  /** The counter is the length of the current run of equal readings, modulo its width. */
  lemma {:induction false} CounterIsStreak(server: nat, thread: nat, clock: seq<nat>)
    ensures var g := After(Fresh(server, thread), clock);
            && g.server == server && g.thread == thread
            && g.lastTime == (if clock == [] then 0 else clock[|clock| - 1])
            && g.baseId == Streak(clock, g.lastTime) % COUNTER_SPAN
  {
    if clock != [] {
      var init, now := clock[..|clock| - 1], clock[|clock| - 1];
      CounterIsStreak(server, thread, init);
      CounterStep(Streak(init, now));
    }
  }

  /** A serial is its reading and its place in the run of equal readings it belongs to. */
  lemma {:induction false} SerialIsPlace(server: nat, thread: nat, clock: seq<nat>, i: nat)
    requires i < |clock|
    ensures SerialAt(server, thread, clock, i)
         == Pack(clock[i], server, thread, Streak(clock[..i], clock[i]) % 0x1_0000)
  {
    CounterIsStreak(server, thread, clock[..i]);
  }

  // ----- Uniqueness -----

  /** A reading once left is not seen again. */
  predicate NeverReturns(clock: seq<nat>) {
    forall i, j, k :: 0 <= i < j < k < |clock| && clock[i] == clock[k] ==> clock[j] == clock[i]
  }

  predicate NonDecreasing(clock: seq<nat>) {
    forall i, j :: 0 <= i <= j < |clock| ==> clock[i] <= clock[j]
  }

  /** How often the clock has shown `t`. */
  function Count(clock: seq<nat>, t: nat): nat {
    if clock == [] then 0
    else Count(clock[..|clock| - 1], t) + if clock[|clock| - 1] == t then 1 else 0
  }

  /** No reading of the clock serves more serials than the counter has values. */
  predicate WithinCounter(clock: seq<nat>) {
    forall i :: 0 <= i < |clock| ==> Count(clock, clock[i]) <= COUNTER_SPAN
  }

  lemma {:induction false} UnseenCount(clock: seq<nat>, t: nat)
    requires forall i :: 0 <= i < |clock| ==> clock[i] != t
    ensures Count(clock, t) == 0
  {
    if clock != [] {
      UnseenCount(clock[..|clock| - 1], t);
    }
  }

  lemma {:induction false} CountGrows(clock: seq<nat>, t: nat, i: nat, j: nat)
    requires i <= j <= |clock|
    ensures Count(clock[..i], t) <= Count(clock[..j], t)
    ensures i < j && clock[i] == t ==> Count(clock[..i], t) < Count(clock[..j], t)
  {
    if i < j {
      CountGrows(clock, t, i, j - 1);
      assert clock[..j][..j - 1] == clock[..j - 1];
    }
  }

  /** While no reading returns, the run of equal readings before a call holds all of that reading so far. */
  lemma {:induction false} StreakIsCount(clock: seq<nat>, i: nat, n: nat)
    requires NeverReturns(clock) && i < |clock| && n <= i
    requires forall j :: n <= j < i ==> clock[j] == clock[i]
    ensures Streak(clock[..n], clock[i]) == Count(clock[..n], clock[i])
  {
    if n > 0 {
      var t := clock[i];
      assert clock[..n][..n - 1] == clock[..n - 1];
      if clock[n - 1] == t {
        StreakIsCount(clock, i, n - 1);
      } else {
        assert forall j :: 0 <= j < n ==> clock[j] != t;
        UnseenCount(clock[..n], t);
      }
    }
  }

  /** With both conditions, calls at one reading have different places, all within the counter. */
  lemma PlacesIncrease(clock: seq<nat>, i: nat, j: nat)
    requires NeverReturns(clock) && WithinCounter(clock)
    requires i < j < |clock| && clock[i] == clock[j]
    ensures Streak(clock[..i], clock[i]) % COUNTER_SPAN < Streak(clock[..j], clock[j]) % COUNTER_SPAN
  {
    StreakIsCount(clock, i, i);
    StreakIsCount(clock, j, j);
    CountGrows(clock, clock[j], i, j);
    CountGrows(clock, clock[j], j, |clock|);
    assert clock[..|clock|] == clock;
    assert Streak(clock[..i], clock[i]) < Streak(clock[..j], clock[j]) < COUNTER_SPAN;
  }

  lemma SerialsDiffer(server: nat, thread: nat, clock: seq<nat>, i: nat, j: nat)
    requires server < 0x100 && thread < 0x100 && NeverReturns(clock) && WithinCounter(clock)
    requires i < j < |clock|
    ensures SerialAt(server, thread, clock, i) != SerialAt(server, thread, clock, j)
  {
    SerialIsPlace(server, thread, clock, i);
    SerialIsPlace(server, thread, clock, j);
    if clock[i] == clock[j] {
      PlacesIncrease(clock, i, j);
    } else {
      PackFits(clock[i], server, thread, Streak(clock[..i], clock[i]) % COUNTER_SPAN);
      PackFits(clock[j], server, thread, Streak(clock[..j], clock[j]) % COUNTER_SPAN);
    }
  }

  /** The first call of the run of equal readings that `k` is in; it comes after any other reading before `k`. */
  lemma {:induction false} RunStart(clock: seq<nat>, k: nat) returns (b: nat)
    requires k < |clock|
    ensures b <= k && clock[b] == clock[k] && Streak(clock[..b], clock[b]) == 0
    ensures forall j :: 0 <= j < k && clock[j] != clock[k] ==> j < b
  {
    if k == 0 || clock[k - 1] != clock[k] {
      b := k;
    } else {
      b := RunStart(clock, k - 1);
    }
  }

  /** A reading that returns starts the counter over, so its first serial is repeated. */
  lemma ReturnRepeats(server: nat, thread: nat, clock: seq<nat>, i: nat, j: nat, k: nat) returns (a: nat, b: nat)
    requires i < j < k < |clock| && clock[i] == clock[k] && clock[j] != clock[i]
    ensures a < b < |clock|
    ensures SerialAt(server, thread, clock, a) == SerialAt(server, thread, clock, b)
  {
    a := RunStart(clock, i);
    b := RunStart(clock, k);
    SerialIsPlace(server, thread, clock, a);
    SerialIsPlace(server, thread, clock, b);
  }

  /** Every number below the count of a reading is the number of earlier calls at it, for some call. */
  lemma {:induction false} RankIsReached(clock: seq<nat>, t: nat, n: nat) returns (i: nat)
    requires n < Count(clock, t)
    ensures i < |clock| && clock[i] == t && Count(clock[..i], t) == n
  {
    var last := |clock| - 1;
    if n < Count(clock[..last], t) {
      i := RankIsReached(clock[..last], t, n);
      assert clock[..last][..i] == clock[..i];
    } else {
      i := last;
    }
  }

  /** One call too many at some reading repeats a serial. */
  lemma OverrunRepeats(server: nat, thread: nat, clock: seq<nat>, t: nat) returns (i: nat, j: nat)
    requires NeverReturns(clock) && Count(clock, t) > COUNTER_SPAN
    ensures i < j < |clock|
    ensures SerialAt(server, thread, clock, i) == SerialAt(server, thread, clock, j)
  {
    i := RankIsReached(clock, t, 0);
    j := RankIsReached(clock, t, COUNTER_SPAN);
    SerialIsPlace(server, thread, clock, i);
    SerialIsPlace(server, thread, clock, j);
    StreakIsCount(clock, i, i);
    StreakIsCount(clock, j, j);
    if j <= i {
      CountGrows(clock, t, j, i);
    }
  }

  ghost predicate AllDistinct(server: nat, thread: nat, clock: seq<nat>) {
    forall i, j :: 0 <= i < j < |clock| ==> SerialAt(server, thread, clock, i) != SerialAt(server, thread, clock, j)
  }

  /**
   For every clock: a generator's serials are pairwise distinct exactly when no reading returns after
   another and none is used more often than the counter allows.
   */
  lemma DistinctExactly(server: nat, thread: nat, clock: seq<nat>)
    requires server < 0x100 && thread < 0x100
    ensures AllDistinct(server, thread, clock) <==> NeverReturns(clock) && WithinCounter(clock)
  {
    if NeverReturns(clock) && WithinCounter(clock) {
      forall i, j | 0 <= i < j < |clock|
        ensures SerialAt(server, thread, clock, i) != SerialAt(server, thread, clock, j)
      {
        SerialsDiffer(server, thread, clock, i, j);
      }
    } else if !NeverReturns(clock) {
      var i, j, k :| 0 <= i < j < k < |clock| && clock[i] == clock[k] && clock[j] != clock[i];
      var a, b := ReturnRepeats(server, thread, clock, i, j, k);
    } else {
      var k :| 0 <= k < |clock| && Count(clock, clock[k]) > COUNTER_SPAN;
      var i, j := OverrunRepeats(server, thread, clock, clock[k]);
    }
  }

  ghost predicate AllIncreasing(server: nat, thread: nat, clock: seq<nat>) {
    forall i, j :: 0 <= i < j < |clock| ==> SerialAt(server, thread, clock, i) < SerialAt(server, thread, clock, j)
  }

  lemma SerialsIncrease(server: nat, thread: nat, clock: seq<nat>, i: nat, j: nat)
    requires server < 0x100 && thread < 0x100 && NonDecreasing(clock) && WithinCounter(clock)
    requires i < j < |clock|
    ensures SerialAt(server, thread, clock, i) < SerialAt(server, thread, clock, j)
  {
    SerialIsPlace(server, thread, clock, i);
    SerialIsPlace(server, thread, clock, j);
    var base, base' := Streak(clock[..i], clock[i]), Streak(clock[..j], clock[j]);
    if clock[i] == clock[j] {
      PlacesIncrease(clock, i, j);
    }
    PackOrders(clock[i], base % COUNTER_SPAN, clock[j], base' % COUNTER_SPAN, server, thread);
  }

  /** For every clock: serials strictly increase exactly when it never goes back and stays within the counter. */
  lemma IncreasingExactly(server: nat, thread: nat, clock: seq<nat>)
    requires server < 0x100 && thread < 0x100
    ensures AllIncreasing(server, thread, clock) <==> NonDecreasing(clock) && WithinCounter(clock)
  {
    if NonDecreasing(clock) && WithinCounter(clock) {
      forall i, j | 0 <= i < j < |clock|
        ensures SerialAt(server, thread, clock, i) < SerialAt(server, thread, clock, j)
      {
        SerialsIncrease(server, thread, clock, i, j);
      }
    }
    if AllIncreasing(server, thread, clock) {
      DistinctExactly(server, thread, clock);
      forall i, j | 0 <= i < j < |clock|
        ensures clock[i] <= clock[j]
      {
        SerialIsPlace(server, thread, clock, i);
        SerialIsPlace(server, thread, clock, j);
      }
    }
  }

  // ----- Several generators -----

  /** The i-th serial of the g-th generator. */
  function FleetSerial(ids: seq<(nat, nat)>, clocks: seq<seq<nat>>, g: nat, i: nat): nat
    requires |ids| == |clocks| && g < |ids| && i < |clocks[g]|
  {
    SerialAt(ids[g].0, ids[g].1, clocks[g], i)
  }

  predicate DistinctIds(ids: seq<(nat, nat)>) {
    && (forall a :: 0 <= a < |ids| ==> ids[a].0 < 0x100 && ids[a].1 < 0x100)
    && (forall a, b :: 0 <= a < b < |ids| ==> ids[a] != ids[b])
  }

  /** Different ids alone keep two generators' serials apart, whatever their clocks do. */
  lemma IdsKeepApart(ids: seq<(nat, nat)>, clocks: seq<seq<nat>>, g: nat, i: nat, h: nat, j: nat)
    requires |ids| == |clocks| && DistinctIds(ids)
    requires g < |ids| && h < |ids| && g != h && i < |clocks[g]| && j < |clocks[h]|
    ensures FleetSerial(ids, clocks, g, i) != FleetSerial(ids, clocks, h, j)
  {
    assert ids[g] != ids[h];
    SerialIsPlace(ids[g].0, ids[g].1, clocks[g], i);
    SerialIsPlace(ids[h].0, ids[h].1, clocks[h], j);
    PackFits(clocks[g][i], ids[g].0, ids[g].1, Streak(clocks[g][..i], clocks[g][i]) % COUNTER_SPAN);
    PackFits(clocks[h][j], ids[h].0, ids[h].1, Streak(clocks[h][..j], clocks[h][j]) % COUNTER_SPAN);
  }

  ghost predicate FleetDistinct(ids: seq<(nat, nat)>, clocks: seq<seq<nat>>)
    requires |ids| == |clocks|
  {
    forall g, i, h, j ::
      0 <= g < |ids| && 0 <= h < |ids| && 0 <= i < |clocks[g]| && 0 <= j < |clocks[h]| && (g, i) != (h, j)
      ==> FleetSerial(ids, clocks, g, i) != FleetSerial(ids, clocks, h, j)
  }

  /**
   Across generators with different (server, thread) ids, all serials of the whole run are pairwise
   distinct exactly when each generator's own clock never returns to a reading nor overruns the counter.
   */
  lemma SerialsUniqueAcrossGenerators(ids: seq<(nat, nat)>, clocks: seq<seq<nat>>)
    requires |ids| == |clocks| && DistinctIds(ids)
    ensures FleetDistinct(ids, clocks) <==>
            forall g :: 0 <= g < |clocks| ==> NeverReturns(clocks[g]) && WithinCounter(clocks[g])
  {
    forall g | 0 <= g < |ids|
      ensures AllDistinct(ids[g].0, ids[g].1, clocks[g]) <==> NeverReturns(clocks[g]) && WithinCounter(clocks[g])
    {
      DistinctExactly(ids[g].0, ids[g].1, clocks[g]);
    }
    FleetIsEach(ids, clocks);
  }

  lemma FleetIsEach(ids: seq<(nat, nat)>, clocks: seq<seq<nat>>)
    requires |ids| == |clocks| && DistinctIds(ids)
    ensures FleetDistinct(ids, clocks) <==>
            forall g :: 0 <= g < |ids| ==> AllDistinct(ids[g].0, ids[g].1, clocks[g])
  {
    if FleetDistinct(ids, clocks) {
      forall g, i, j | 0 <= g < |ids| && 0 <= i < j < |clocks[g]|
        ensures SerialAt(ids[g].0, ids[g].1, clocks[g], i) != SerialAt(ids[g].0, ids[g].1, clocks[g], j)
      {
        assert FleetSerial(ids, clocks, g, i) != FleetSerial(ids, clocks, g, j);
      }
    } else {
      var g, i, h, j :| 0 <= g < |ids| && 0 <= h < |ids| && 0 <= i < |clocks[g]| && 0 <= j < |clocks[h]|
                        && (g, i) != (h, j)
                        && FleetSerial(ids, clocks, g, i) == FleetSerial(ids, clocks, h, j);
      if g != h {
        IdsKeepApart(ids, clocks, g, i, h, j);
      }
    }
  }
}
