/** The bank of eight debounced flow-meter pulse counters.

    Each channel keeps a pulse count and the tick at which its last pulse was accepted.
    The falling-edge handler of channel i accepts an edge when ticks_diff(now, last) is
    strictly greater than DEBOUNCE_MS; it then adds one to the count and stores now.
    Each handler invocation is one atomic step. */
module PulseCounter {
  import opened Ticks

  /** Number of flow-meter inputs (GP0 to GP7). */
  const CHANNELS: nat := 8

  /** Minimum tick difference for an edge to count as a new pulse. */
  const DEBOUNCE_MS: int := 50

  type ChannelId = i: nat | i < CHANNELS

  /** The abstract state of one channel. */
  datatype Channel = Channel(count: nat, lastPulse: nat)

  /** One falling edge seen by the handler of `channel`, at tick `time`. */
  datatype PulseEdge = PulseEdge(channel: ChannelId, time: nat)

  /** The debounce guard of the edge handler. Seen through the wrap-around, an edge is
      accepted exactly when the elapsed ticks, taken modulo the period, lie strictly between
      DEBOUNCE_MS and half the period. */
  predicate Accepts(c: Channel, now: nat, period: nat)
    requires ValidPeriod(period)
    ensures Accepts(c, now, period) <==>
      DEBOUNCE_MS < (now - c.lastPulse) % period < period / 2
  {
    TicksDiffOfElapsed(now, c.lastPulse, period);
    TicksDiff(now, c.lastPulse, period) > DEBOUNCE_MS
  }

  /** One channel after an edge at `now`: the count moves by at most one, and it moves
      exactly when the guard accepts; an accepted edge records `now`, a dropped one
      changes nothing. */
  function Edge(c: Channel, now: nat, period: nat): (r: Channel)
    requires ValidPeriod(period)
    ensures c.count <= r.count <= c.count + 1
    ensures r.count == c.count + 1 <==> Accepts(c, now, period)
    ensures r.count == c.count + 1 ==> r.lastPulse == now
    ensures r.count == c.count ==> r == c
  {
    if Accepts(c, now, period) then Channel(c.count + 1, now) else c
  }

  /** The whole bank after the handler of channel i runs at `now`. The edge is counted
      exactly when ticks_diff exceeds DEBOUNCE_MS: then the count rises by one and the
      timestamp becomes `now`; otherwise the bank is unchanged. Other channels never change,
      because each handler captures its own index. */
  function OnEdgeSpec(bank: seq<Channel>, i: ChannelId, now: nat, period: nat): (r: seq<Channel>)
    requires |bank| == CHANNELS && ValidPeriod(period)
    ensures |r| == CHANNELS
    ensures TicksDiff(now, bank[i].lastPulse, period) > DEBOUNCE_MS ==>
      r[i].count == bank[i].count + 1 && r[i].lastPulse == now
    ensures TicksDiff(now, bank[i].lastPulse, period) <= DEBOUNCE_MS ==> r == bank
    ensures forall j :: 0 <= j < CHANNELS && j != i ==> r[j] == bank[j]
  {
    bank[i := Edge(bank[i], now, period)]
  }

  /** Every channel starts with count 0 and last-pulse tick 0. */
  function InitialBank(): seq<Channel> {
    seq(CHANNELS, _ => Channel(0, 0))
  }

  /** The channel view of the two parallel lists. */
  function Zip(counts: seq<nat>, times: seq<nat>): (r: seq<Channel>)
    requires |counts| == |times|
    ensures |r| == |counts|
    ensures forall j :: 0 <= j < |r| ==> r[j].count == counts[j] && r[j].lastPulse == times[j]
  {
    seq(|counts|, j requires 0 <= j < |counts| => Channel(counts[j], times[j]))
  }

  /** The bank after a sequence of edges, each handled atomically in order. */
  function Run(bank: seq<Channel>, edges: seq<PulseEdge>, period: nat): (r: seq<Channel>)
    requires |bank| == CHANNELS && ValidPeriod(period)
    ensures |r| == CHANNELS
    decreases |edges|
  {
    if edges == [] then bank
    else Run(OnEdgeSpec(bank, edges[0].channel, edges[0].time, period), edges[1..], period)
  }

  /** One channel after the edge times it sees, in order. */
  function RunChannel(c: Channel, times: seq<nat>, period: nat): (r: Channel)
    requires ValidPeriod(period)
    ensures c.count <= r.count <= c.count + |times|
    decreases |times|
  {
    if times == [] then c else RunChannel(Edge(c, times[0], period), times[1..], period)
  }

  /** The times of the edges that reach channel j. */
  function TimesOn(edges: seq<PulseEdge>, j: ChannelId): (ts: seq<nat>)
    ensures |ts| <= |edges|
  {
    if edges == [] then []
    else (if edges[0].channel == j then [edges[0].time] else []) + TimesOn(edges[1..], j)
  }

  /** Without wrap-around (now within half a period after the last pulse) the guard is
      plain subtraction; from the initial timestamp 0, an edge at t counts iff t > 50. */
  lemma AcceptsWithoutWrap(c: Channel, now: nat, period: nat)
    requires ValidPeriod(period) && IsTick(now, period) && IsTick(c.lastPulse, period)
    requires c.lastPulse <= now < c.lastPulse + period / 2
    ensures Accepts(c, now, period) <==> now - c.lastPulse > DEBOUNCE_MS
  {
    TicksDiffOfTicks(now, c.lastPulse, period);
  }

  /** Counts never decrease over any sequence of edges. */
  lemma {:induction false} RunMonotone(bank: seq<Channel>, edges: seq<PulseEdge>, period: nat)
    requires |bank| == CHANNELS && ValidPeriod(period)
    ensures forall j :: 0 <= j < CHANNELS ==> Run(bank, edges, period)[j].count >= bank[j].count
    decreases |edges|
  {
    if edges != [] {
      var next := OnEdgeSpec(bank, edges[0].channel, edges[0].time, period);
      RunMonotone(next, edges[1..], period);
    }
  }

  /** Channels are independent: channel j ends exactly as if it had seen only its own edges. */
  lemma {:induction false} RunIndependent(bank: seq<Channel>, edges: seq<PulseEdge>, period: nat, j: ChannelId)
    requires |bank| == CHANNELS && ValidPeriod(period)
    ensures Run(bank, edges, period)[j] == RunChannel(bank[j], TimesOn(edges, j), period)
    decreases |edges|
  {
    if edges != [] {
      var e := edges[0];
      var next := OnEdgeSpec(bank, e.channel, e.time, period);
      RunIndependent(next, edges[1..], period, j);
      var rest := TimesOn(edges[1..], j);
      if e.channel == j {
        assert TimesOn(edges, j) == [e.time] + rest;
        assert ([e.time] + rest)[1..] == rest;
        assert next[j] == Edge(bank[j], e.time, period);
      } else {
        assert TimesOn(edges, j) == rest;
        assert next[j] == bank[j];
      }
    }
  }

  /** A channel's count grows by at most the number of edges it receives. */
  lemma RunCountBound(bank: seq<Channel>, edges: seq<PulseEdge>, period: nat, j: ChannelId)
    requires |bank| == CHANNELS && ValidPeriod(period)
    ensures bank[j].count <= Run(bank, edges, period)[j].count <= bank[j].count + |TimesOn(edges, j)|
  {
    RunIndependent(bank, edges, period, j);
  }

  /** Edges at 60, 70 and 120 after boot give a count of 2: the edge at 70 is within
      the debounce window of the one at 60. */
  lemma ExampleSixtySeventyHundredTwenty()
    ensures Run(InitialBank(), [PulseEdge(0, 60), PulseEdge(0, 70), PulseEdge(0, 120)], TICKS_PERIOD)[0].count == 2
  {
    var edges := [PulseEdge(0, 60), PulseEdge(0, 70), PulseEdge(0, 120)];
    RunIndependent(InitialBank(), edges, TICKS_PERIOD, 0);
    assert TimesOn(edges, 0) == [60, 70, 120] by {
      assert edges[1..][1..][1..] == [];
    }
    var c0 := Channel(0, 0);
    assert TicksDiff(60, 0, TICKS_PERIOD) == 60;
    var c1 := Edge(c0, 60, TICKS_PERIOD);
    assert c1 == Channel(1, 60);
    assert TicksDiff(70, 60, TICKS_PERIOD) == 10;
    var c2 := Edge(c1, 70, TICKS_PERIOD);
    assert c2 == c1;
    assert TicksDiff(120, 60, TICKS_PERIOD) == 60;
    var c3 := Edge(c2, 120, TICKS_PERIOD);
    assert c3 == Channel(2, 120);
    assert [60, 70, 120][1..][1..][1..] == [];
  }

  /** Edges at 0, 10 and 60 after boot give a count of 1: the timestamps start at 0,
      so the edges at 0 and 10 are inside the debounce window of that initial value. */
  lemma ExampleZeroTenSixty()
    ensures Run(InitialBank(), [PulseEdge(0, 0), PulseEdge(0, 10), PulseEdge(0, 60)], TICKS_PERIOD)[0].count == 1
  {
    var edges := [PulseEdge(0, 0), PulseEdge(0, 10), PulseEdge(0, 60)];
    RunIndependent(InitialBank(), edges, TICKS_PERIOD, 0);
    assert TimesOn(edges, 0) == [0, 10, 60] by {
      assert edges[1..][1..][1..] == [];
    }
    var c0 := Channel(0, 0);
    assert TicksDiff(0, 0, TICKS_PERIOD) == 0;
    assert Edge(c0, 0, TICKS_PERIOD) == c0;
    assert TicksDiff(10, 0, TICKS_PERIOD) == 10;
    assert Edge(c0, 10, TICKS_PERIOD) == c0;
    assert TicksDiff(60, 0, TICKS_PERIOD) == 60;
    assert Edge(c0, 60, TICKS_PERIOD) == Channel(1, 60);
    assert [0, 10, 60][1..][1..][1..] == [];
  }

  /** The two global lists pulse_counts and last_pulse_time, updated in place by the
      eight edge handlers. */
  class PulseCounterBank {
    const period: nat
    var pulseCounts: array<nat>
    var lastPulseTime: array<nat>

    ghost predicate Valid()
      reads this, pulseCounts, lastPulseTime
    {
      ValidPeriod(period) &&
      pulseCounts.Length == CHANNELS && lastPulseTime.Length == CHANNELS &&
      pulseCounts != lastPulseTime &&
      forall j :: 0 <= j < CHANNELS ==> IsTick(lastPulseTime[j], period)
    }

    /** The abstract value: one Channel per index. */
    ghost function Channels(): (r: seq<Channel>)
      reads this, pulseCounts, lastPulseTime
      requires Valid()
      ensures |r| == CHANNELS
    {
      Zip(pulseCounts[..], lastPulseTime[..])
    }

    /** All eight counts and timestamps start at 0. */
    constructor (period: nat)
      requires ValidPeriod(period)
      ensures Valid() && this.period == period
      ensures fresh(pulseCounts) && fresh(lastPulseTime)
      ensures Channels() == InitialBank()
    {
      this.period := period;
      pulseCounts := new nat[CHANNELS](_ => 0);
      lastPulseTime := new nat[CHANNELS](_ => 0);
      new;
      assert Channels() == InitialBank();
    }

    /** The handler built by make_counter(i), run at tick `now`. */
    method OnEdge(i: ChannelId, now: nat)
      requires Valid() && IsTick(now, period)
      modifies pulseCounts, lastPulseTime
      ensures Valid()
      ensures Channels() == OnEdgeSpec(old(Channels()), i, now, period)
    {
      if TicksDiff(now, lastPulseTime[i], period) > DEBOUNCE_MS {
        pulseCounts[i] := pulseCounts[i] + 1;
        lastPulseTime[i] := now;
      }
    }

    /** The count of channel i, as read by the status page. */
    method Count(i: ChannelId) returns (c: nat)
      requires Valid()
      ensures c == Channels()[i].count
    {
      c := pulseCounts[i];
    }
  }
}
