# Ballast flow-meter firmware: a Dafny model of main.py

The firmware runs on a MicroPython board that monitors a boat's ballast pumps. It counts
pulses from eight flow meters on GPIO pins GP0 to GP7. It joins one WiFi network in
station mode and falls back to its own access point when that fails. It then serves the
counts on a web page. This project models the two parts of `main.py` whose behaviour can be stated:

- **The debounced pulse-counter bank** (`pulse_counter.dfy`, module `PulseCounter`). The
  global lists `pulse_counts` and `last_pulse_time` become the two `array<nat>` fields of the
  class `PulseCounterBank`. The handler that `make_counter(i)` builds becomes the method
  `OnEdge(i, now)`. It is proved against the specification function `OnEdgeSpec` on an
  abstract `seq<Channel>`. `Run` folds that function over a sequence of edges, and the lemmas
  about edge sequences are stated over `Run`. Each handler call is one atomic step.
- **MicroPython's `ticks_diff`** (`ticks.dfy`, module `Ticks`). It is the wrap-safe signed
  difference `((now - before + P/2) mod P) - P/2` over a tick period `P`, which is a
  parameter. `TICKS_PERIOD` (2^30) is the value on the 32-bit port. For a power-of-two
  period, the port's bit mask `& (P - 1)` is the non-negative remainder written `%`.
- **Connection and fallback** (`connectivity.dfy`, module `Connectivity`). `connect_wifi`
  becomes the method `ConnectWifi`, which keeps its `while max_wait > 0` loop. The platform's
  `wlan.status()` is an oracle: a sequence of integers consumed one read at a time.
  `start_ap_mode` becomes `StartApMode`, and the top-level `if ip is None` fallback becomes `Boot`.

Edges at ticks 0, 10 and 60 after boot give a count of 1. `last_pulse_time` starts at 0, so
the edges at 0 and 10 fall inside the debounce window and are dropped. `ExampleZeroTenSixty`
proves this.

The guard only sees the elapsed time modulo the tick period P, as the contract of `Accepts`
states. An edge is dropped when the elapsed ticks modulo P lie in [P/2, P). It is also dropped
when it falls within 50 ticks after a whole number of periods.

## Model

| member | source | states |
|---|---|---|
| `Ticks.TicksDiff` | main.py:40 | the wrapped difference lies in [-P/2, P/2) and is congruent to now - before modulo P |
| `Ticks.TicksDiffOfTicks` | main.py:40 | on two tick values the difference is now - before when that lies in [-P/2, P/2), and is otherwise corrected by exactly one period |
| `Ticks.TicksDiffOfElapsed` | main.py:40 | the difference depends only on e = (now - before) mod P: it is e below P/2 and e - P from P/2 on |
| `PulseCounter.Accepts` | main.py:40 | the debounce guard holds exactly when the elapsed ticks modulo P lie strictly between 50 and P/2 |
| `PulseCounter.Edge` | main.py:40-42 | one edge raises a channel's count by at most 1, and by exactly 1 iff the guard accepts; an accepted edge records now, and a dropped edge changes nothing |
| `PulseCounter.OnEdgeSpec` | main.py:34-43 | when ticks_diff > 50, channel i's count rises by exactly 1 and its timestamp becomes now; when ticks_diff <= 50 (negative values included), the whole bank is unchanged; no other channel ever changes |
| `PulseCounter.AcceptsWithoutWrap` | main.py:30-42 | without wrap-around, an edge is accepted iff now - last > 50; from the initial timestamp 0, an edge at t counts iff t > 50 |
| `PulseCounter.Run` | main.py:34-48 | processing any sequence of edges keeps exactly eight channels |
| `PulseCounter.RunChannel` | main.py:34-43 | a channel's count after a sequence of edges never decreases and grows by at most the number of edges |
| `PulseCounter.RunMonotone` | main.py:41 | over any sequence of edges no channel's count decreases |
| `PulseCounter.RunIndependent` | main.py:34-48 | channel j ends exactly as if it had seen only the edges of its own pin: handlers of other pins never touch it |
| `PulseCounter.RunCountBound` | main.py:40-42 | a channel's count grows by at most the number of edges on that channel |
| `PulseCounter.ExampleSixtySeventyHundredTwenty` | main.py:29-42 | from boot, edges at ticks 60, 70 and 120 give a count of 2 |
| `PulseCounter.ExampleZeroTenSixty` | main.py:29-42 | from boot, edges at ticks 0, 10 and 60 give a count of 1 |
| `PulseCounter.PulseCounterBank.constructor` | main.py:29-30 | all eight counts and timestamps start at 0 |
| `PulseCounter.PulseCounterBank.OnEdge` | main.py:35-42 | the arrays after the handler of channel i are exactly OnEdgeSpec of the arrays before, and the timestamps stay tick values |
| `PulseCounter.PulseCounterBank.Count` | main.py:117 | the value read for the status page is channel i's current count |
| `Connectivity.EndsWait` | main.py:67 | the wait continues exactly on the in-progress statuses 0, 1 and 2, and ends on any other status |
| `Connectivity.StationOutcome` | main.py:64-84 | the outcome is STATIC_IP exactly when the read after the wait loop is 3, and None otherwise; success needs a 3 among reads 2 to 31 |
| `Connectivity.PollsUsed` | main.py:64-71 | the wait loop reads at least one and at most max_wait statuses |
| `Connectivity.PollsUsedStopsAtFirst` | main.py:64-71 | every polled status except the last one is "still connecting" (0 to 2), and the last one is an error or at least 3 unless all 30 polls were used |
| `Connectivity.PollsUsedUnique` | main.py:64-71 | any poll count with that shape is the loop's count: the loop stops at the first status that is negative or at least 3 |
| `Connectivity.ConnectWifi` | main.py:54-84 | reads between 2 and 31 statuses: the loop's polls plus one final read; returns None exactly when the final read is not 3, and otherwise applies (STATIC_IP, SUBNET, GATEWAY, DNS) and returns STATIC_IP |
| `Connectivity.StartApMode` | main.py:87-104 | applies (AP_IP, AP_SUBNET, AP_GATEWAY, AP_GATEWAY) and returns AP_IP |
| `Connectivity.Boot` | main.py:187-196 | the access point is started exactly when the station connection returned None; the server address is STATIC_IP with the station profile or AP_IP with the access-point profile, never both |
| `Connectivity.LateSuccess` | main.py:64-76 | when all 30 polls report "still connecting", a final read of 3 still succeeds |
| `Connectivity.EarlyErrorThenNextRead` | main.py:64-76 | a negative first status ends the wait after one poll, and the outcome is decided by the very next read |
| `Connectivity.ConnectedOnPoll` | main.py:64-84 | a status of 3 on poll k+1 ends the wait after k+1 polls, and the connection succeeds when the confirming read is also 3 |

## Left out

- `get_html` and `start_server` (main.py:107-184) are left out. They render HTML and run the socket loop. `Count` models only their read of a count.
- Hardware and platform calls are left out: `network.WLAN`, `active`, `connect`, `disconnect`, `config`, `Pin` and `irq` registration, `sleep`, and every `print`. The eight IRQ registrations become eight independent channels of one bank.
- The `while not ap.active()` wait (main.py:95-96) is left out. It polls hardware with no bound and no termination guarantee, so `StartApMode` returns as soon as the profile is applied.
- The third `wlan.status()` call site (main.py:75) is left out. It only feeds a diagnostic message, so it is not consumed from the oracle.
- `wlan.ifconfig()` read-back (main.py:82-84) is not modelled as a separate read. The model assumes the interface reports the address that was just applied.
- ConnectWifi and Boot require at least 31 oracle answers. This is the most the model reads, and the real platform always answers.
- Interrupt preemption is left out. Each handler call is one atomic step.
- The top-level `except`, `sleep(5)` and `machine.reset()` path (main.py:198-201) is an opaque restart and is left out.
- Nothing from `config.py` is modelled. It only declares constants, and main.py does not import it. Its `DEFAULT_WIFI_NETWORKS` list is not iterated anywhere.
- Trying several credentials in order, over-the-air update, and backup/rollback of program files are left out. main.py contains none of them.
- The tick period is a parameter, not a platform constant. Its 32-bit-port value is `Ticks.TICKS_PERIOD`.
