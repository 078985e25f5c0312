# frame-analyzer, modelled in Dafny

frame-analyzer measures the frametimes of Android applications. A kernel
uprobe fires whenever a process queues a graphics buffer (`Surface::queueBuffer`
in `libgui.so`) and pushes a timestamped record into a per-process ring
buffer. User space turns successive timestamps into frametimes.

This project models the sequential logic under the eBPF and mio plumbing, in
four modules:

- `Types` (`types.dfy`): the crate's fixed-width integers (`u8`, `u64`,
  `usize`, `i32`) as subset types of `int`, and `Option`.
- `Signal` (`frame_signal.dfy`): the wire record `FrameSignal` and its
  eight-byte little-endian layout. `Encode` models the bytes the sensor
  writes. `Trans` is the decoder. It reads the first eight bytes and has no
  length check, so it requires at least eight.
- `Target` (`analyze_target.dfy`): the per-process tracker `AnalyzeTarget`,
  a class with two fields:
  - `buffers`: buffer id → last timestamp and frametime history (newest first,
    at most 144 entries);
  - `ring`: the kernel ring of decoded events.

  `Update` pops at most one event. The pure function `Record` gives the new
  buffer map. The result is given by the "active buffer" rule: the longest
  history and, among those, the smallest sum. The source breaks ties by hash
  map iteration order, which is unspecified, so `Updated` admits every
  buffer that `min_by_key` may pick.
- `FrameAnalyzer` (`analyzer.dfy`): the façade `Analyzer`, with three fields:
  - the pid → tracker map;
  - the FIFO of polled readiness tokens;
  - the set of tokens registered with the poller.

Foreign calls are oracle parameters. Probe attach, poll registration and
deregistration are each a success flag. A poll is the sequence of tokens the
poller reports.

Facts about the code that the model keeps:

- Re-attaching an attached pid loads a new probe and replaces its entry
  (`lib.rs:58-69`).
- `trans` has no length check (`analyze_target.rs:80-82`).
- `update` pops one ring item per call (`analyze_target.rs:44`).
- `detach_app` does not purge pending events. A stale event is consumed by
  `recv` and yields `None` (`lib.rs:88-91`).

## Model

| member | source | states |
|---|---|---|
| `Signal.New` | frame-analyzer-ebpf-common/src/lib.rs:9-11 | `FrameSignal::new` is total and stores its timestamp unchanged |
| `Signal.Encode` | frame-analyzer-ebpf-common/src/lib.rs:3-6 | the `#[repr(C)]` record with one `u64` field is exactly 8 bytes, no padding |
| `Signal.FromToLittleEndian` | frame-analyzer/build.rs:41 | on the little-endian BPF target, reading back the bytes of a value that fits gives the value |
| `Signal.ToFromLittleEndian` | frame-analyzer/build.rs:41 | writing out the little-endian value of a byte string gives the same bytes |
| `Signal.Trans` | frame-analyzer/src/analyze_target.rs:80-82 | the decoder needs at least 8 bytes, ignores the rest, and returns the record whose encoding is those first 8 bytes |
| `Signal.DecodeEncode` | frame-analyzer-ebpf-common/src/lib.rs:3-11 | decoding the bytes written for `FrameSignal::new(k)` gives `ktime_ns == k` |
| `Signal.TransInjective` | frame-analyzer/src/analyze_target.rs:80-82 | two items decode to the same record if and only if their first 8 bytes agree |
| `Target.SaturatingSub` | frame-analyzer/src/analyze_target.rs:47 | the frametime is the difference when the new timestamp is not smaller, otherwise 0; it is never a wrapped value |
| `Target.Push` | frame-analyzer/src/analyze_target.rs:50-54 | a full history (144 entries) drops its oldest, back entry; the new frametime goes to the front; the rest keeps its order |
| `Target.Record` | frame-analyzer/src/analyze_target.rs:46-58 | an unseen buffer id is entered with its timestamp and an empty history; a known id gets the saturating frametime pushed and the new timestamp; every other id keeps its entry |
| `Target.RecordKeepsBounded` | frame-analyzer/src/analyze_target.rs:50-54 | no history ever exceeds 144 entries |
| `Target.ActiveExists` | frame-analyzer/src/analyze_target.rs:60-71 | after an insert the map is non-empty, so `max` and `min_by_key` always find a candidate buffer |
| `Target.ReportedOnlyIfActive` | frame-analyzer/src/analyze_target.rs:60-76 | a reported `d` means: an event was consumed; its buffer's history has the maximum length; its sum is minimal among buffers of that length; `d` is its front |
| `Target.SoleActiveIsReported` | frame-analyzer/src/analyze_target.rs:60-76 | if the event's buffer is active, its history is non-empty, and every active buffer has the same entry, then the front is reported |
| `Target.FirstEventIsSilent` | frame-analyzer/src/analyze_target.rs:55-57 | the first event of a buffer stores its timestamp with an empty history and reports nothing |
| `Target.Sum` | frame-analyzer/src/analyze_target.rs:71 | the `sum::<Duration>()` of a history is at least each of its frametimes and at most 144 maximal `u64` values |
| `Target.IsActive` | frame-analyzer/src/analyze_target.rs:60-71 | a buffer `max`/`filter`/`min_by_key` may pick is exactly one that ranks first among all buffers by "longer history, then smaller sum" |
| `Target.Report` | frame-analyzer/src/analyze_target.rs:66-76 | a reported value is the front of the chosen entry's history; when the chosen key is the event's own buffer, its front is reported whenever its history is non-empty |
| `Target.ReportUnambiguous` | frame-analyzer/src/analyze_target.rs:66-73 | the unspecified tie-break never decides the new map or ring; two outcomes that both report agree on the value |
| `Target.TieBreakDecidesReporting` | frame-analyzer/src/analyze_target.rs:60-76 | the tie-break can decide whether anything is reported: with entries `1 ↦ (200, [5])`, `2 ↦ (100, [])` and an event `(105, 2)`, both `Some(5)` and `None` are admissible results |
| `Target.UpdateKeepsBounded` | frame-analyzer/src/analyze_target.rs:42-58 | every update keeps all histories within 144 entries |
| `Target.SingleBufferReports` | frame-analyzer/src/analyze_target.rs:46-76 | with a single buffer, every event after the first is reported with the saturating delta to the previous timestamp |
| `Target.SingleBufferBurst` | frame-analyzer/src/analyze_target.rs:42-76 | events at 1000, 1016 and 1033 ns on one buffer give None, then 16, then 17, and empty the ring |
| `Target.AnalyzeTarget.constructor` | frame-analyzer/src/analyze_target.rs:35-40 | a new tracker has no buffer entries and an empty ring |
| `Target.AnalyzeTarget.Emit` | frame-analyzer-ebpf/src/main.rs:24-33 | the sensor appends one event when its ring reservation succeeds and drops it otherwise; the buffer map is untouched |
| `Target.AnalyzeTarget.Update` | frame-analyzer/src/analyze_target.rs:42-77 | an empty ring gives None and changes nothing; otherwise exactly one event is popped, the map becomes `Record` of the old map, and the result is what `update` returns for some admissible `min_by_key` choice |
| `FrameAnalyzer.PidToToken` | frame-analyzer/src/lib.rs:63 | `pid as usize` sign-extends: the low 32 bits are the pid's, and a non-negative pid is its own token |
| `FrameAnalyzer.TokenToPid` | frame-analyzer/src/lib.rs:89-90 | `usize as Pid` keeps the low 32 bits as a signed value |
| `FrameAnalyzer.TokenRoundTrip` | frame-analyzer/src/lib.rs:63 | converting a pid to its token and back gives the original pid |
| `FrameAnalyzer.TokensDistinct` | frame-analyzer/src/lib.rs:63 | distinct pids register distinct tokens |
| `FrameAnalyzer.Polled` | frame-analyzer/src/lib.rs:82-85 | one poll delivers at most `EVENT_MAX` (1024) events, as a prefix of the poller's report in reported order |
| `FrameAnalyzer.QueueAfterPoll` | frame-analyzer/src/lib.rs:81-86 | a non-empty queue is kept without polling; an empty one becomes the first min(reported, 1024) polled tokens in reported order; the queue stays within 1024 |
| `FrameAnalyzer.Analyzer.constructor` | frame-analyzer/src/lib.rs:50-56 | a new analyzer has an empty pid map, an empty pending queue and no registrations |
| `FrameAnalyzer.Analyzer.AttachApp` | frame-analyzer/src/lib.rs:58-69 | if probe attach or registration fails: `Err`, with map and registry unchanged; on success: `pid` maps to a fresh empty tracker (replacing any earlier one), its token is registered, and other pids keep their trackers |
| `FrameAnalyzer.Analyzer.DetachApp` | frame-analyzer/src/lib.rs:71-78 | an absent pid gives `AppNotFound` and changes nothing; a present pid is removed even when deregistration then fails; its token is deregistered only on success |
| `FrameAnalyzer.Analyzer.Dispatch` | frame-analyzer/src/lib.rs:88-93 | handling one event updates only the token's pid's tracker; an unknown pid gives None; a result is tagged with that pid and is exactly what `update` yields |
| `FrameAnalyzer.Analyzer.Recv` | frame-analyzer/src/lib.rs:80-94 | polls only when nothing is pending; pops exactly one event when there is one; keeps the queue within `EVENT_MAX`; a result is attributed to the pid that registered the popped token |
| `FrameAnalyzer.Analyzer.RecvTimeout` | frame-analyzer/src/lib.rs:96-110 | the same contract as `Recv`: the two differ only in how long the poll may wait |

## Left out

- Recv: a poll is an oracle `reported`. The model requires every reported
  token to be registered, as a real poller only reports registered sources.
  The mio `Poll`, epoll, file descriptors and the wait itself are not
  modelled.
- RecvTimeout: the timeout `time` is not interpreted. A poll that times out
  is the oracle reporting nothing.
- Analyzer.constructor: `Poll::new` failing is an OS error and is not
  modelled. The constructor is the success path.
- AttachApp: `UprobeHandler::attach_app` (`uprobe.rs:40-58`), that is the
  program load and the uprobe attach with its primary-then-secondary symbol
  fallback, is one success flag (`attachOk`). The ring lookup `ring()`
  (`uprobe.rs:60-63`, called at `lib.rs:62`) and `register` together are the
  second flag (`registerOk`).
- DetachApp: `ring()` and `deregister` together are one flag
  (`deregisterOk`). Unloading the program when the handler is dropped
  (`uprobe.rs:31-37`) is a kernel call and is not modelled.
- The registry is a set of tokens. The kernel removes a closed descriptor
  from epoll by itself, for example the old descriptor of a replaced
  tracker; the model does not capture that.
- Errors: the variants of `frame-analyzer/src/error.rs` become
  `AppNotFound` and one opaque `SystemError`.
- The `unwrap()` panics on ring and program lookup
  (`analyze_target.rs:43`) are out of scope.
- Ring items: the tracker reads `event.buffer`, but the shown `FrameSignal`
  has only `ktime_ns`. The byte layout of the richer record is therefore not
  known. The ring holds decoded `FrameEvent(ktimeNs, buffer)` values, and the
  codec round trip covers only the 8-byte `ktime_ns` layout.
- Emit: the sensor's `bpf_ktime_get_ns` is the `ktimeNs` parameter. Whether
  the ring reservation succeeds is the `reserved` parameter. The ring's byte
  capacity is not modelled.
- `frame-analyzer/src/ebpf.rs`: the memlock `setrlimit` and the embedded
  bytecode are process-wide OS setup, not modelled.
- `frame-analyzer/build.rs` is a build script, not modelled. It matters only
  because its `bpfel` target fixes the little-endian layout.
- `frame-analyzer-ebpf/src/lib.rs` and `frame-analyzer-ebpf-ebpf/src/main.rs`
  contain only foreign calls or a stub, so they are not modelled.
- `examples/simple-analyzer/src/main.rs`: the CLI, its Ctrl-C handler and
  printing are not modelled.
- Durations are `u64` nanoseconds, as in `Duration::from_nanos`. History sums
  are unbounded naturals. A `Duration` sum of at most 144 such values cannot
  overflow, so nothing is lost.
