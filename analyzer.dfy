/** The analyzer façade (`Analyzer`): a map from process id to its tracker,
    the registration set of the readiness poller, and a queue of readiness
    events that were polled but not yet handled.

    The kernel and the poller are oracles: `attach_app`'s probe attachment and
    poll registration, and `detach_app`'s deregistration, each take a flag
    saying whether the foreign call succeeded; a poll takes the sequence of
    tokens the poller reports. */
module FrameAnalyzer {
  import opened Types
  import opened Target

  /** Capacity of the `Events` list handed to one poll. */
  const EVENT_MAX: nat := 1024

  datatype AnalyzerError =
    | AppNotFound
      /** Any failure of a foreign call: loading or attaching the probe,
          fetching its ring, registering or deregistering with the poller. */
    | SystemError

  datatype Status = Ok | Err(error: AnalyzerError)

  /** `pid as usize`: a 32-bit pid sign-extended to a 64-bit poll token. */
  function PidToToken(pid: i32): (t: usize)
    ensures t % U32_LIMIT == pid % U32_LIMIT
    ensures pid >= 0 ==> t == pid
    ensures pid < 0 ==> t >= U64_LIMIT - U32_LIMIT
  {
    if pid >= 0 then pid else pid + U64_LIMIT
  }

  /** `token as Pid`: the low 32 bits of a token read as a signed integer. */
  function TokenToPid(t: usize): (pid: i32)
    ensures pid % U32_LIMIT == t % U32_LIMIT
  {
    var low := t % U32_LIMIT;
    if low >= I32_LIMIT then low - U32_LIMIT else low
  }

  /** Converting a pid to its token and back recovers the pid. */
  lemma TokenRoundTrip(pid: i32)
    ensures TokenToPid(PidToToken(pid)) == pid
  {
    if pid < 0 {
      var t := PidToToken(pid);
      assert t == (pid + U32_LIMIT) + (U32_LIMIT - 1) * U32_LIMIT;
      assert t % U32_LIMIT == pid + U32_LIMIT;
    }
  }

  /** Distinct pids register distinct tokens. */
  lemma TokensDistinct(p: i32, q: i32)
    requires p != q
    ensures PidToToken(p) != PidToToken(q)
  {
    TokenRoundTrip(p);
    TokenRoundTrip(q);
  }

  /** A token some pid registers under. */
  predicate IsPidToken(t: usize) {
    PidToToken(TokenToPid(t)) == t
  }

  /** The events one poll delivers: the poller's report in its own order,
      cut to the capacity of the event list. */
  function Polled(reported: seq<usize>): (events: seq<usize>)
    ensures |events| <= EVENT_MAX && |events| <= |reported|
    ensures events == reported[..|events|]
    ensures |events| == |reported| || |events| == EVENT_MAX
  {
    if |reported| <= EVENT_MAX then reported else reported[..EVENT_MAX]
  }

  function Min(a: nat, b: nat): nat {
    if a <= b then a else b
  }

  /** The pending queue once `recv` has polled if, and only if, it was empty. */
  function QueueAfterPoll(pending: seq<usize>, reported: seq<usize>): (queue: seq<usize>)
    ensures pending != [] ==> queue == pending
    ensures pending == [] ==> |queue| == Min(|reported|, EVENT_MAX) && queue == reported[..|queue|]
    ensures |pending| <= EVENT_MAX ==> |queue| <= EVENT_MAX
  {
    if pending == [] then Polled(reported) else pending
  }

  class Analyzer {
    var targets: map<i32, AnalyzeTarget>
    var pending: seq<usize>
    /** The tokens registered with the poller. */
    var registered: set<usize>

    /** Every tracker keeps its invariant and no two pids share one. */
    ghost predicate TargetsValid()
      reads this, targets.Values
    {
      && (forall p :: p in targets ==> targets[p].Valid())
      && (forall p, q :: p in targets && q in targets && p != q ==> targets[p] != targets[q])
    }

    ghost predicate Valid()
      reads this, targets.Values
    {
      && TargetsValid()
      && (forall p :: p in targets ==> PidToToken(p) in registered)
      && (forall t :: t in registered ==> IsPidToken(t))
      && (forall t :: t in pending ==> IsPidToken(t))
      && |pending| <= EVENT_MAX
    }

    /** `Analyzer::new`: no process attached, nothing registered or pending. */
    constructor ()
      ensures Valid()
      ensures targets == map[] && pending == [] && registered == {}
    {
      targets := map[];
      pending := [];
      registered := {};
    }

    /** `attach_app`: attach the probe to `pid` (`attachOk` says whether that
        succeeded), register its ring under the pid's token (`registerOk`),
        and only then enter a fresh tracker for `pid`, replacing any earlier
        one. */
    method AttachApp(pid: i32, attachOk: bool, registerOk: bool) returns (status: Status)
      requires Valid()
      modifies this
      ensures Valid()
      ensures pending == old(pending)
      ensures status == if attachOk && registerOk then Ok else Err(SystemError)
      ensures status.Err? ==> targets == old(targets) && registered == old(registered)
      ensures status.Ok? ==>
        && targets.Keys == old(targets.Keys) + {pid}
        && (forall q :: q in old(targets) && q != pid ==> targets[q] == old(targets[q]))
        && fresh(targets[pid]) && targets[pid].buffers == map[] && targets[pid].ring == []
        && registered == old(registered) + {PidToToken(pid)}
    {
      if !attachOk {
        status := Err(SystemError);
      } else if !registerOk {
        // The probe handler goes out of scope here and unloads itself.
        status := Err(SystemError);
      } else {
        TokenRoundTrip(pid);
        assert IsPidToken(PidToToken(pid));
        registered := registered + {PidToToken(pid)};
        var target := new AnalyzeTarget();
        targets := targets[pid := target];
        status := Ok;
      }
    }

    /** `detach_app`: an absent pid is `AppNotFound`; a present one is removed
        from the map first and then deregistered (`deregisterOk`), so it is
        gone even when deregistration fails. */
    method DetachApp(pid: i32, deregisterOk: bool) returns (status: Status)
      requires Valid()
      modifies this
      ensures Valid()
      ensures pending == old(pending)
      ensures pid !in old(targets) ==>
        status == Err(AppNotFound) && targets == old(targets) && registered == old(registered)
      ensures pid in old(targets) ==>
        && targets == old(targets) - {pid}
        && status == (if deregisterOk then Ok else Err(SystemError))
        && registered == if deregisterOk then old(registered) - {PidToToken(pid)} else old(registered)
    {
      if pid !in targets {
        return Err(AppNotFound);
      }
      targets := targets - {pid};
      if !deregisterOk {
        return Err(SystemError);
      }
      forall q | q in targets
        ensures PidToToken(q) != PidToToken(pid)
      {
        TokensDistinct(q, pid);
      }
      registered := registered - {PidToToken(pid)};
      status := Ok;
    }

    /** Handling one popped readiness event: update the tracker of the
        token's pid, if that pid is still attached; no other tracker changes. */
    twostate predicate Dispatched(token: usize, new r: Option<(i32, u64)>)
      reads this`targets, targets.Values
    {
      var pid := TokenToPid(token);
      && targets == old(targets)
      && (forall q :: q in targets && q != pid ==>
            targets[q].buffers == old(targets[q].buffers) && targets[q].ring == old(targets[q].ring))
      && (pid !in targets ==> r == None)
      && (pid in targets ==>
            Updated(old(targets[pid].buffers), old(targets[pid].ring),
                    targets[pid].buffers, targets[pid].ring,
                    if r.Some? then Some(r.value.1) else None))
      && (r.Some? ==> r.value.0 == pid)
    }

    /** What one `recv` does: poll if, and only if, nothing is pending, pop
        one event and dispatch it. The result is attributed to the pid that
        registered the popped token. */
    twostate predicate Received(reported: seq<usize>, new r: Option<(i32, u64)>)
      reads this, targets.Values
    {
      var queue := QueueAfterPoll(old(pending), reported);
      && targets == old(targets)
      && registered == old(registered)
      && (queue == [] ==> pending == [] && r == None && unchanged(targets.Values))
      && (queue != [] ==>
            && pending == queue[1..]
            && Dispatched(queue[0], r)
            && (r.Some? ==> PidToToken(r.value.0) == queue[0]))
    }

    /** The pid-to-target lookup and `update` call of `recv`. */
    method Dispatch(token: usize) returns (r: Option<(i32, u64)>)
      requires TargetsValid()
      modifies targets.Values
      ensures TargetsValid()
      ensures Dispatched(token, r)
    {
      var pid := TokenToPid(token);
      if pid !in targets {
        return None;
      }
      var target := targets[pid];
      assert forall q :: q in targets && q != pid ==> targets[q] != target;
      var frametime := target.Update();
      if frametime.None? {
        return None;
      }
      r := Some((pid, frametime.value));
    }

    /** `recv`: `reported` is what the blocking poll would report. */
    method Recv(reported: seq<usize>) returns (r: Option<(i32, u64)>)
      requires Valid()
      requires forall t :: t in reported ==> t in registered
      modifies this, targets.Values
      ensures Valid()
      ensures Received(reported, r)
    {
      var queue := QueueAfterPoll(pending, reported);
      if queue == [] {
        pending := [];
        r := None;
      } else {
        // Which tracker is updated depends only on the popped event, so the
        // update is done before the queue field is written back.
        var token := queue[0];
        assert IsPidToken(token) by {
          if pending == [] {
            assert token in reported;
          }
        }
        r := Dispatch(token);
        pending := queue[1..];
      }
    }

    /** `recv_timeout`: the same as `recv`; the timeout only bounds how long
        the poll waits, and `reported` is what it reports within that bound
        (nothing when it times out). */
    method RecvTimeout(time: nat, reported: seq<usize>) returns (r: Option<(i32, u64)>)
      requires Valid()
      requires forall t :: t in reported ==> t in registered
      modifies this, targets.Values
      ensures Valid()
      ensures Received(reported, r)
    {
      r := Recv(reported);
    }
  }
}

