/** The per-process frametime tracker (`AnalyzeTarget`).

    A tracker keeps, for every graphics buffer id it has seen, the timestamp of
    that buffer's last queue event and a bounded history of frametimes, newest
    first. Each `Update` takes at most one event from the attachment's ring and
    reports a frametime only when the event's buffer is the "active" one: the
    buffer with the longest history and, among those, the smallest total. */
module Target {
  import opened Types

  /** Capacity of a buffer's frametime history. */
  const HISTORY_MAX: nat := 144

  /** One ring item as the tracker reads it: the probe's kernel timestamp and
      the id of the graphics buffer that was queued. */
  datatype FrameEvent = FrameEvent(ktimeNs: u64, buffer: usize)

  /** What the tracker remembers about one buffer: the timestamp of its last
      event and the frametimes (nanoseconds) seen since, newest first. */
  datatype BufferState = BufferState(lastTimestamp: u64, frametimes: seq<u64>)

  type Buffers = map<usize, BufferState>

  /** `u64::saturating_sub`: the difference when it is not negative, else 0,
      never a wrapped value. */
  function SaturatingSub(a: u64, b: u64): (r: u64)
    ensures r <= a
    ensures b <= a ==> r + b == a
    ensures a < b ==> r == 0
  {
    if b <= a then a - b else 0
  }

  /** Pushing a frametime onto a history: when the history is full its oldest
      (last) entry is dropped, then the new frametime goes to the front. */
  function Push(history: seq<u64>, frametime: u64): (r: seq<u64>)
    ensures |r| == if |history| < HISTORY_MAX then |history| + 1 else |history|
    ensures r[0] == frametime
    ensures r[1..] == history[..|r| - 1]
  {
    if |history| >= HISTORY_MAX then [frametime] + history[..|history| - 1]
    else [frametime] + history
  }

  /** The buffer map after one event: an unseen buffer id is entered with the
      event's timestamp and an empty history; a known one gets the saturating
      difference to its stored timestamp pushed onto its history and stores
      the new timestamp. Every other id keeps its entry. */
  function Record(m: Buffers, e: FrameEvent): (m': Buffers)
    ensures m'.Keys == m.Keys + {e.buffer}
    ensures forall k :: k in m && k != e.buffer ==> m'[k] == m[k]
    ensures m'[e.buffer].lastTimestamp == e.ktimeNs
    ensures e.buffer !in m ==> m'[e.buffer].frametimes == []
    ensures e.buffer in m ==>
      m'[e.buffer].frametimes
        == Push(m[e.buffer].frametimes, SaturatingSub(e.ktimeNs, m[e.buffer].lastTimestamp))
  {
    if e.buffer in m then
      var prev := m[e.buffer];
      m[e.buffer := BufferState(e.ktimeNs, Push(prev.frametimes, SaturatingSub(e.ktimeNs, prev.lastTimestamp)))]
    else
      m[e.buffer := BufferState(e.ktimeNs, [])]
  }

  /** Every history is within its capacity. */
  ghost predicate Bounded(m: Buffers) {
    forall k :: k in m ==> |m[k].frametimes| <= HISTORY_MAX
  }

  lemma RecordKeepsBounded(m: Buffers, e: FrameEvent)
    requires Bounded(m)
    ensures Bounded(Record(m, e))
  {
  }

  /** Sum of a history, in nanoseconds (`Iterator::sum::<Duration>`). */
  function Sum(s: seq<u64>): (total: nat)
    ensures forall i :: 0 <= i < |s| ==> s[i] <= total
    ensures total <= |s| * (U64_LIMIT - 1)
  {
    if s == [] then 0 else s[0] + Sum(s[1..])
  }

  /** `k`'s history is as long as any (its length is `max_len`). */
  predicate IsLongest(m: Buffers, k: usize) {
    k in m && forall j :: j in m ==> |m[j].frametimes| <= |m[k].frametimes|
  }

  /** `k` is a buffer that `min_by_key` may pick: among the longest histories,
      one with the smallest sum. Which of several equal ones it picks depends
      on the hash map's iteration order, so every such `k` is admitted. */
  predicate IsActive(m: Buffers, k: usize): (active: bool)
    ensures active <==> k in m && forall j :: j in m ==> RanksFirst(m, k, j)
  {
    IsLongest(m, k)
    && forall j :: j in m && |m[j].frametimes| == |m[k].frametimes| ==> Sum(m[k].frametimes) <= Sum(m[j].frametimes)
  }

  /** `k` comes no later than `j` in the order "longer history first, then
      smaller sum". */
  predicate RanksFirst(m: Buffers, k: usize, j: usize)
    requires k in m && j in m
  {
    |m[j].frametimes| < |m[k].frametimes|
    || (|m[j].frametimes| == |m[k].frametimes| && Sum(m[k].frametimes) <= Sum(m[j].frametimes))
  }

  /** What `update` returns once `chosen` was picked: the front of `id`'s
      history when `id`'s entry equals the chosen entry (`update` compares
      the entries, not their keys), and nothing when they differ or the
      history is empty. */
  function Report(m: Buffers, id: usize, chosen: usize): (r: Option<u64>)
    requires id in m && chosen in m
    ensures r.Some? ==> m[chosen].frametimes != [] && r.value == m[chosen].frametimes[0]
    ensures id == chosen ==> r == if m[id].frametimes == [] then None else Some(m[id].frametimes[0])
  {
    if m[chosen] == m[id] && m[id].frametimes != [] then Some(m[id].frametimes[0]) else None
  }

  /** The relation between the state before and after `update`, and its result. */
  ghost predicate Updated(b0: Buffers, ring0: seq<FrameEvent>, b1: Buffers, ring1: seq<FrameEvent>, r: Option<u64>) {
    if ring0 == [] then
      b1 == b0 && ring1 == [] && r == None
    else
      && ring1 == ring0[1..]
      && b1 == Record(b0, ring0[0])
      && exists c :: IsActive(b1, c) && r == Report(b1, ring0[0].buffer, c)
  }

  /** A finite non-empty set has an element on which `f` is smallest. */
  lemma {:induction false} MinimizerExists<K>(s: set<K>, f: K -> int)
    requires s != {}
    ensures exists k :: k in s && forall j :: j in s ==> f(k) <= f(j)
  {
    var x :| x in s;
    if s == {x} {
      assert forall j :: j in s ==> f(x) <= f(j);
    } else {
      var rest := s - {x};
      MinimizerExists(rest, f);
      var k :| k in rest && forall j :: j in rest ==> f(k) <= f(j);
      if f(x) <= f(k) {
        assert forall j :: j in s ==> f(x) <= f(j);
      } else {
        assert forall j :: j in s ==> f(k) <= f(j);
      }
    }
  }

  /** A non-empty buffer map always has an active buffer, so the selection in
      `update` (which runs after an entry was inserted) always picks one. */
  lemma ActiveExists(m: Buffers)
    requires m != map[]
    ensures exists c :: IsActive(m, c)
  {
    var some :| some in m;
    assert some in m.Keys;
    var negLength := (k: usize) => if k in m then -|m[k].frametimes| else 0;
    MinimizerExists<usize>(m.Keys, negLength);
    var l :| l in m.Keys && forall j :: j in m.Keys ==> negLength(l) <= negLength(j);
    assert IsLongest(m, l);
    var longest := set k | k in m && |m[k].frametimes| == |m[l].frametimes|;
    assert l in longest;
    var total := (k: usize) => if k in m then Sum(m[k].frametimes) else 0;
    MinimizerExists<usize>(longest, total);
    var c :| c in longest && forall j :: j in longest ==> total(c) <= total(j);
    forall j | j in m && |m[j].frametimes| == |m[c].frametimes|
      ensures Sum(m[c].frametimes) <= Sum(m[j].frametimes)
    {
      assert j in longest;
    }
    assert IsActive(m, c);
  }

  /** An update that reports `d` consumed an event whose buffer is active
      (longest history, smallest sum among those), and `d` is the front of
      that buffer's history. */
  lemma ReportedOnlyIfActive(b0: Buffers, ring0: seq<FrameEvent>, b1: Buffers, ring1: seq<FrameEvent>, d: u64)
    requires Updated(b0, ring0, b1, ring1, Some(d))
    ensures ring0 != []
    ensures IsActive(b1, ring0[0].buffer)
    ensures b1[ring0[0].buffer].frametimes != [] && d == b1[ring0[0].buffer].frametimes[0]
  {
    var id := ring0[0].buffer;
    var c :| IsActive(b1, c) && Some(d) == Report(b1, id, c);
    assert b1[c] == b1[id];
  }

  /** Conversely, when the event's buffer is active and no other active
      buffer holds a different entry, the update reports the new front. */
  lemma SoleActiveIsReported(b0: Buffers, ring0: seq<FrameEvent>, b1: Buffers, ring1: seq<FrameEvent>, r: Option<u64>)
    requires Updated(b0, ring0, b1, ring1, r)
    requires ring0 != [] && IsActive(b1, ring0[0].buffer)
    requires forall j :: IsActive(b1, j) ==> b1[j] == b1[ring0[0].buffer]
    requires b1[ring0[0].buffer].frametimes != []
    ensures r == Some(b1[ring0[0].buffer].frametimes[0])
  {
  }

  /** The first event of a buffer only seeds its timestamp: nothing is reported. */
  lemma FirstEventIsSilent(b0: Buffers, ring0: seq<FrameEvent>, b1: Buffers, ring1: seq<FrameEvent>, r: Option<u64>)
    requires Updated(b0, ring0, b1, ring1, r)
    requires ring0 != [] && ring0[0].buffer !in b0
    ensures r == None
    ensures b1[ring0[0].buffer] == BufferState(ring0[0].ktimeNs, [])
  {
  }

  /** The tie-break of `min_by_key` never decides the new state, and two
      admissible outcomes that both report agree on the value. */
  lemma ReportUnambiguous(b0: Buffers, ring0: seq<FrameEvent>, b1: Buffers, ring1: seq<FrameEvent>, r: Option<u64>,
                          b1': Buffers, ring1': seq<FrameEvent>, r': Option<u64>)
    requires Updated(b0, ring0, b1, ring1, r)
    requires Updated(b0, ring0, b1', ring1', r')
    ensures b1 == b1' && ring1 == ring1'
    ensures r.Some? && r'.Some? ==> r == r'
  {
    if r.Some? && r'.Some? {
      ReportedOnlyIfActive(b0, ring0, b1, ring1, r.value);
      ReportedOnlyIfActive(b0, ring0, b1', ring1', r'.value);
    }
  }

  /** The tie-break can decide whether a value is reported at all: buffers 1
      and 2 end with histories of the same length and sum but different
      timestamps, so `min_by_key` may return either entry, and only the one
      equal to the event's entry yields its front. */
  lemma TieBreakDecidesReporting()
    ensures Updated(map[1 := BufferState(200, [5]), 2 := BufferState(100, [])], [FrameEvent(105, 2)],
                    map[1 := BufferState(200, [5]), 2 := BufferState(105, [5])], [], Some(5))
    ensures Updated(map[1 := BufferState(200, [5]), 2 := BufferState(100, [])], [FrameEvent(105, 2)],
                    map[1 := BufferState(200, [5]), 2 := BufferState(105, [5])], [], None)
  {
    var b0 := map[1 := BufferState(200, [5]), 2 := BufferState(100, [])];
    var b1 := map[1 := BufferState(200, [5]), 2 := BufferState(105, [5])];
    assert Push([], SaturatingSub(105, 100)) == [5];
    assert b1 == Record(b0, FrameEvent(105, 2));
    assert b1.Keys == {1, 2};
    assert IsActive(b1, 2);
    assert Report(b1, 2, 2) == Some(5);
    assert IsActive(b1, 1);
    assert Report(b1, 2, 1) == None;
  }

  /** An update keeps every history within its capacity. */
  lemma UpdateKeepsBounded(b0: Buffers, ring0: seq<FrameEvent>, b1: Buffers, ring1: seq<FrameEvent>, r: Option<u64>)
    requires Bounded(b0) && Updated(b0, ring0, b1, ring1, r)
    ensures Bounded(b1)
  {
    if ring0 != [] {
      RecordKeepsBounded(b0, ring0[0]);
    }
  }

  /** With a single buffer, every event for it after the first is reported,
      with the saturating difference to the previous timestamp. */
  lemma SingleBufferReports(id: usize, s: BufferState, ring0: seq<FrameEvent>,
                            b1: Buffers, ring1: seq<FrameEvent>, r: Option<u64>)
    requires ring0 != [] && ring0[0].buffer == id
    requires Updated(map[id := s], ring0, b1, ring1, r)
    ensures b1 == map[id := BufferState(ring0[0].ktimeNs, Push(s.frametimes, SaturatingSub(ring0[0].ktimeNs, s.lastTimestamp)))]
    ensures r == Some(SaturatingSub(ring0[0].ktimeNs, s.lastTimestamp))
  {
    var e := ring0[0];
    var next := BufferState(e.ktimeNs, Push(s.frametimes, SaturatingSub(e.ktimeNs, s.lastTimestamp)));
    assert b1.Keys == {id};
    assert b1 == map[id := next];
    SoleActiveIsReported(map[id := s], ring0, b1, ring1, r);
  }

  /** Three queue events of one buffer, 1000, 1016 and 1033 ns, handled by
      three updates: the first seeds the timestamp, the next two report 16
      and 17 ns, and the ring is then empty. */
  lemma SingleBufferBurst(b1: Buffers, q1: seq<FrameEvent>, r1: Option<u64>,
                          b2: Buffers, q2: seq<FrameEvent>, r2: Option<u64>,
                          b3: Buffers, q3: seq<FrameEvent>, r3: Option<u64>)
    requires Updated(map[], [FrameEvent(1000, 7), FrameEvent(1016, 7), FrameEvent(1033, 7)], b1, q1, r1)
    requires Updated(b1, q1, b2, q2, r2)
    requires Updated(b2, q2, b3, q3, r3)
    ensures r1 == None && r2 == Some(16) && r3 == Some(17) && q3 == []
  {
    assert b1 == map[7 := BufferState(1000, [])];
    SingleBufferReports(7, b1[7], q1, b2, q2, r2);
    SingleBufferReports(7, b2[7], q2, b3, q3, r3);
  }

  /** One process's tracker. `ring` stands for the kernel ring buffer of the
      process's probe attachment: the items the sensor submitted that user
      space has not read yet, oldest first. */
  class AnalyzeTarget {
    var ring: seq<FrameEvent>
    var buffers: Buffers

    ghost predicate Valid()
      reads this
    {
      Bounded(buffers)
    }

    /** `AnalyzeTarget::new`: a fresh attachment, no buffers seen yet. */
    constructor ()
      ensures Valid()
      ensures buffers == map[] && ring == []
    {
      ring := [];
      buffers := map[];
    }

    /** The sensor firing in the target process: it reserves a ring slot and
        submits one event, or drops the event when the reservation fails. */
    method Emit(ktimeNs: u64, buffer: usize, reserved: bool)
      modifies this
      ensures buffers == old(buffers)
      ensures ring == if reserved then old(ring) + [FrameEvent(ktimeNs, buffer)] else old(ring)
    {
      if reserved {
        ring := ring + [FrameEvent(ktimeNs, buffer)];
      }
    }

    /** `AnalyzeTarget::update`: consume at most one ring item and report the
        frametime of the active buffer. */
    method Update() returns (r: Option<u64>)
      requires Valid()
      modifies this
      ensures Valid()
      ensures Updated(old(buffers), old(ring), buffers, ring, r)
    {
      if ring == [] {
        return None;
      }
      var event := ring[0];
      ring := ring[1..];
      ghost var before := buffers;
      if event.buffer in buffers {
        var prev := buffers[event.buffer];
        var frametime := SaturatingSub(event.ktimeNs, prev.lastTimestamp);
        var history := prev.frametimes;
        if |history| >= HISTORY_MAX {
          history := history[..|history| - 1];
        }
        history := [frametime] + history;
        buffers := buffers[event.buffer := BufferState(event.ktimeNs, history)];
      } else {
        buffers := buffers[event.buffer := BufferState(event.ktimeNs, [])];
      }
      assert buffers == Record(before, event);
      RecordKeepsBounded(before, event);

      ActiveExists(buffers);
      var chosen :| IsActive(buffers, chosen);
      if buffers[chosen] == buffers[event.buffer] && buffers[event.buffer].frametimes != [] {
        r := Some(buffers[event.buffer].frametimes[0]);
      } else {
        r := None;
      }
      assert r == Report(buffers, event.buffer, chosen);
    }
  }
}
