/** Station connection, access-point fallback and the boot-time choice between them.

    The platform's wlan.status() is an oracle: `statuses` is the sequence of answers it
    gives, consumed one read at a time. */
module Connectivity {

  datatype Option<T> = None | Some(value: T)

  type Address = string

  /** The tuple passed to wlan.ifconfig(): address, subnet mask, gateway, DNS server. */
  datatype IfConfig = IfConfig(address: Address, subnet: Address, gateway: Address, dns: Address)

  /** Which interface ended up serving the device. */
  datatype Mode = Station | AccessPoint

  const STATIC_IP: Address := "172.20.10.5"
  const SUBNET: Address := "255.255.255.240"
  const GATEWAY: Address := "172.20.10.1"
  const DNS: Address := "8.8.8.8"

  const AP_IP: Address := "192.168.4.1"
  const AP_SUBNET: Address := "255.255.255.0"
  const AP_GATEWAY: Address := "192.168.4.1"

  /** Static profile applied after a station connection succeeds. */
  const STATION_PROFILE: IfConfig := IfConfig(STATIC_IP, SUBNET, GATEWAY, DNS)

  /** Profile of the fallback access point (its gateway doubles as DNS server). */
  const AP_PROFILE: IfConfig := IfConfig(AP_IP, AP_SUBNET, AP_GATEWAY, AP_GATEWAY)

  /** Initial value of max_wait: the number of status polls before giving up. */
  const MAX_WAIT: nat := 30

  /** The status value meaning "connected, address obtained". */
  const STAT_GOT_IP: int := 3

  /** A polled status that ends the wait early: an error (negative) or at least STAT_GOT_IP.
      The wait goes on exactly on the three in-progress statuses 0, 1 and 2. */
  predicate EndsWait(status: int)
    ensures !EndsWait(status) <==> status in {0, 1, 2}
  {
    status < 0 || status >= STAT_GOT_IP
  }

  /** Number of statuses the wait loop reads when it has `budget` polls left. */
  function PollsUsed(statuses: seq<int>, budget: nat): (n: nat)
    requires |statuses| >= budget
    ensures n <= budget
    ensures budget > 0 ==> n >= 1
    decreases budget
  {
    if budget == 0 then 0
    else if EndsWait(statuses[0]) then 1
    else 1 + PollsUsed(statuses[1..], budget - 1)
  }

  /** The wait loop reads statuses up to and including the first one that ends the wait,
      and reads all `budget` of them when none does. */
  lemma {:induction false} PollsUsedStopsAtFirst(statuses: seq<int>, budget: nat)
    requires |statuses| >= budget > 0
    ensures var n := PollsUsed(statuses, budget);
      (forall j :: 0 <= j < n - 1 ==> !EndsWait(statuses[j])) &&
      (EndsWait(statuses[n - 1]) || n == budget)
    decreases budget
  {
    if !EndsWait(statuses[0]) && budget > 1 {
      PollsUsedStopsAtFirst(statuses[1..], budget - 1);
      var n := PollsUsed(statuses, budget);
      assert forall j :: 1 <= j < n - 1 ==> statuses[j] == statuses[1..][j - 1];
    }
  }

  /** Conversely, any poll count with that shape is the one the loop produces. */
  lemma {:induction false} PollsUsedUnique(statuses: seq<int>, budget: nat, k: nat)
    requires |statuses| >= budget
    requires 1 <= k <= budget
    requires forall j :: 0 <= j < k - 1 ==> !EndsWait(statuses[j])
    requires EndsWait(statuses[k - 1]) || k == budget
    ensures PollsUsed(statuses, budget) == k
    decreases budget
  {
    if k > 1 {
      assert !EndsWait(statuses[0]);
      var rest := statuses[1..];
      assert forall j :: 0 <= j < k - 2 ==> rest[j] == statuses[j + 1];
      PollsUsedUnique(rest, budget - 1, k - 1);
    }
  }

  /** What connect_wifi returns for a given stream of status answers: STATIC_IP when the
      read after the wait loop is STAT_GOT_IP, None otherwise. Success therefore needs a
      STAT_GOT_IP among reads 2 to MAX_WAIT + 1; the very first read never decides it. */
  function StationOutcome(statuses: seq<int>): (r: Option<Address>)
    requires |statuses| > MAX_WAIT
    ensures r.Some? <==> statuses[PollsUsed(statuses, MAX_WAIT)] == STAT_GOT_IP
    ensures r.Some? ==> r.value == STATIC_IP
    ensures r.Some? ==> exists k :: 1 <= k <= MAX_WAIT && statuses[k] == STAT_GOT_IP
  {
    var n := PollsUsed(statuses, MAX_WAIT);
    if statuses[n] == STAT_GOT_IP then Some(STATIC_IP) else None
  }

  /** connect_wifi(): poll the status at most MAX_WAIT times, stopping early on an error
      or on success, then read it once more and succeed only if that read is STAT_GOT_IP,
      in which case the static profile is applied and its address returned.
      `statusReads` is the number of status reads; `applied` the profile written to the interface. */
  method ConnectWifi(statuses: seq<int>) returns (ip: Option<Address>, applied: Option<IfConfig>, statusReads: nat)
    requires |statuses| > MAX_WAIT
    ensures 2 <= statusReads <= MAX_WAIT + 1
    ensures statusReads == PollsUsed(statuses, MAX_WAIT) + 1
    ensures ip.None? <==> statuses[statusReads - 1] != STAT_GOT_IP
    ensures ip.Some? ==> ip.value == STATIC_IP && applied == Some(STATION_PROFILE)
    ensures ip.None? ==> applied.None?
    ensures ip == StationOutcome(statuses)
  {
    var maxWait := MAX_WAIT;
    var polls := 0;
    while maxWait > 0
      invariant 0 <= maxWait <= MAX_WAIT && polls == MAX_WAIT - maxWait
      invariant PollsUsed(statuses, MAX_WAIT) == polls + PollsUsed(statuses[polls..], maxWait)
      decreases maxWait
    {
      var status := statuses[polls];
      polls := polls + 1;
      if status < 0 || status >= 3 {
        break;
      }
      assert statuses[polls - 1..][1..] == statuses[polls..];
      maxWait := maxWait - 1;
    }
    var final := statuses[polls];
    statusReads := polls + 1;
    if final != 3 {
      ip, applied := None, None;
    } else {
      applied := Some(IfConfig(STATIC_IP, SUBNET, GATEWAY, DNS));
      ip := Some(applied.value.address);
    }
  }

  /** start_ap_mode(): bring up the access point with its fixed profile and return AP_IP. */
  method StartApMode() returns (ip: Address, applied: IfConfig)
    ensures ip == AP_IP && applied == AP_PROFILE
  {
    applied := IfConfig(AP_IP, AP_SUBNET, AP_GATEWAY, AP_GATEWAY);
    ip := AP_IP;
  }

  /** The boot sequence: try the station connection and fall back to the access point
      only when it returned None. Exactly one profile is applied, and the address handed
      to the server is STATIC_IP in station mode and AP_IP in access-point mode. */
  method Boot(statuses: seq<int>) returns (ip: Address, mode: Mode, profile: IfConfig)
    requires |statuses| > MAX_WAIT
    ensures mode == Station <==> StationOutcome(statuses).Some?
    ensures mode == Station <==> statuses[PollsUsed(statuses, MAX_WAIT)] == STAT_GOT_IP
    ensures mode == Station ==> ip == STATIC_IP && profile == STATION_PROFILE
    ensures mode == AccessPoint ==> ip == AP_IP && profile == AP_PROFILE
    ensures ip == profile.address
    ensures ip == AP_IP <==> mode == AccessPoint
  {
    var station, applied, _ := ConnectWifi(statuses);
    if station.None? {
      ip, profile := StartApMode();
      mode := AccessPoint;
    } else {
      ip, profile, mode := station.value, applied.value, Station;
    }
    assert STATIC_IP != AP_IP;
  }

  /** Success is decided by the read after the loop alone: even when all MAX_WAIT polls
      reported "still connecting", a final STAT_GOT_IP read succeeds. */
  lemma LateSuccess(statuses: seq<int>)
    requires |statuses| > MAX_WAIT
    requires forall j :: 0 <= j < MAX_WAIT ==> 0 <= statuses[j] < STAT_GOT_IP
    requires statuses[MAX_WAIT] == STAT_GOT_IP
    ensures StationOutcome(statuses) == Some(STATIC_IP)
  {
    PollsUsedUnique(statuses, MAX_WAIT, MAX_WAIT);
  }

  /** An error status on the first poll ends the wait after one read, and the outcome
      is then whatever the very next read says. */
  lemma EarlyErrorThenNextRead(statuses: seq<int>)
    requires |statuses| > MAX_WAIT
    requires statuses[0] < 0
    ensures StationOutcome(statuses).Some? <==> statuses[1] == STAT_GOT_IP
  {
    PollsUsedUnique(statuses, MAX_WAIT, 1);
  }

  /** A connection reported on poll k + 1 ends the wait there and succeeds if the
      confirming read agrees. */
  lemma ConnectedOnPoll(statuses: seq<int>, k: nat)
    requires |statuses| > MAX_WAIT && k < MAX_WAIT
    requires forall j :: 0 <= j < k ==> 0 <= statuses[j] < STAT_GOT_IP
    requires statuses[k] == STAT_GOT_IP && statuses[k + 1] == STAT_GOT_IP
    ensures PollsUsed(statuses, MAX_WAIT) == k + 1
    ensures StationOutcome(statuses) == Some(STATIC_IP)
  {
    PollsUsedUnique(statuses, MAX_WAIT, k + 1);
  }
}
