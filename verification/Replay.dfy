/** The bounded, purging replay cache, and the log that never forgets. */
module Replay {
  import opened Wrappers
  import opened Bytes
  import opened Constants

  datatype Limits = Limits(windowMs: int, skewMs: int, maxEntries: int)

  datatype Verdict = Accepted | InvalidNonce | Expired | FromFuture | Replayed | Full

  /** One call of `CheckAndStore`: a packet's nonce and timestamp, and the clock reading. */
  datatype Call = Call(nonceId: bytes, timestampMs: int, nowMs: int) {
    predicate WellFormed() {
      |nonceId| == NONCE_ID_SIZE
    }
  }

  type Seen = map<bytes, int>

  function Purged(seen: Seen, cutoff: int): Seen {
    map n | n in seen && seen[n] >= cutoff :: seen[n]
  }

  /** What one call answers, and the table it leaves behind. */
  function Judge(limits: Limits, seen: Seen, call: Call): (Verdict, Seen) {
    if !call.WellFormed() then (InvalidNonce, seen)
    else
      var kept := Purged(seen, call.nowMs - limits.windowMs);
      var v := Decide(limits, kept, call);
      (v, if v == Accepted then kept[call.nonceId := call.timestampMs] else kept)
  }

  function Decide(limits: Limits, kept: Seen, call: Call): Verdict {
    if call.timestampMs < call.nowMs - limits.windowMs then Expired
    else if call.timestampMs > call.nowMs + limits.skewMs then FromFuture
    else if call.nonceId in kept then Replayed
    else if |kept| >= limits.maxEntries then Full
    else Accepted
  }

  /** The nonce is in the table with a timestamp no older than the cutoff. */
  predicate Remembers(seen: Seen, nonceId: bytes, cutoff: int) {
    nonceId in seen && seen[nonceId] >= cutoff
  }

  /** The verdict in each case, in the order the checks are made. */
  lemma VerdictExactly(limits: Limits, seen: Seen, call: Call)
    requires call.WellFormed()
    ensures var cutoff := call.nowMs - limits.windowMs;
      Judge(limits, seen, call).0 ==
      if call.timestampMs < cutoff then Expired
      else if call.timestampMs > call.nowMs + limits.skewMs then FromFuture
      else if Remembers(seen, call.nonceId, cutoff) then Replayed
      else if |Purged(seen, cutoff)| >= limits.maxEntries then Full
      else Accepted
  {
  }

  /** The exception a refused call raises. */
  function ErrorOf(v: Verdict): ErrorKind
    requires v != Accepted
  {
    match v
    case InvalidNonce => ProtocolError
    case Expired => PacketExpired
    case FromFuture => PacketFromFuture
    case Replayed => ReplayDetected
    case Full => ReplayCacheFull
  }

  class ReplayCache {
    const limits: Limits
    var seen: Seen

    constructor (windowSeconds: int, maxEntries: int, allowedClockSkewSeconds: int)
      ensures limits == Limits(windowSeconds * 1000, allowedClockSkewSeconds * 1000, maxEntries)
      ensures seen == map[]
    {
      limits := Limits(windowSeconds * 1000, allowedClockSkewSeconds * 1000, maxEntries);
      seen := map[];
    }

    method CheckAndStore(nonceId: bytes, timestampMs: int, nowMs: int) returns (v: Verdict)
      modifies this`seen
      ensures (v, seen) == Judge(limits, old(seen), Call(nonceId, timestampMs, nowMs))
    {
      if |nonceId| != NONCE_ID_SIZE {
        return InvalidNonce;
      }
      Purge(nowMs);
      if timestampMs < nowMs - limits.windowMs {
        return Expired;
      }
      if timestampMs > nowMs + limits.skewMs {
        return FromFuture;
      }
      if nonceId in seen {
        return Replayed;
      }
      if |seen| >= limits.maxEntries {
        return Full;
      }
      seen := seen[nonceId := timestampMs];
      return Accepted;
    }

    method Purge(nowMs: int)
      modifies this`seen
      ensures seen == Purged(old(seen), nowMs - limits.windowMs)
    {
      var cutoff := nowMs - limits.windowMs;
      var expired := set n | n in seen && seen[n] < cutoff;
      while expired != {}
        invariant forall n :: n in expired <==> n in seen && seen[n] < cutoff
        invariant Purged(seen, cutoff) == Purged(old(seen), cutoff)
        decreases expired
      {
        var nonce :| nonce in expired;
        seen := seen - {nonce};
        expired := expired - {nonce};
      }
      assert Purged(seen, cutoff) == seen;
    }
  }

  // ---- Whole runs -------------------------------------------------------

  /** The table after a run that began with an empty one. */
  ghost function SeenAfter(limits: Limits, calls: seq<Call>): Seen {
    if calls == [] then map[]
    else Judge(limits, SeenAfter(limits, calls[..|calls| - 1]), calls[|calls| - 1]).1
  }

  ghost function VerdictAt(limits: Limits, calls: seq<Call>, i: nat): Verdict
    requires i < |calls|
  {
    Judge(limits, SeenAfter(limits, calls[..i]), calls[i]).0
  }

  // ---- The log that never forgets ---------------------------------------

  /** The entries of a log with a timestamp no older than `cutoff`. */
  ghost function Live(log: seq<Call>, cutoff: int): seq<Call> {
    if log == [] then []
    else
      var last := log[|log| - 1];
      Live(log[..|log| - 1], cutoff) + if last.timestampMs >= cutoff then [last] else []
  }

  ghost predicate HoldsNonce(log: seq<Call>, cutoff: int, n: bytes) {
    exists e :: e in log && e.timestampMs >= cutoff && e.nonceId == n
  }

  /** The verdict of a cache that keeps every accepted call and judges by the live ones. */
  ghost function LogVerdict(limits: Limits, log: seq<Call>, call: Call): Verdict {
    var cutoff := call.nowMs - limits.windowMs;
    if !call.WellFormed() then InvalidNonce
    else if call.timestampMs < cutoff then Expired
    else if call.timestampMs > call.nowMs + limits.skewMs then FromFuture
    else if HoldsNonce(log, cutoff, call.nonceId) then Replayed
    else if |Live(log, cutoff)| >= limits.maxEntries then Full
    else Accepted
  }

  /** The log after a run: every call the log itself accepted, in order. */
  ghost function LogAfter(limits: Limits, calls: seq<Call>): seq<Call> {
    if calls == [] then []
    else LogStep(limits, LogAfter(limits, calls[..|calls| - 1]), calls[|calls| - 1])
  }

  ghost function LogStep(limits: Limits, log: seq<Call>, call: Call): seq<Call> {
    if LogVerdict(limits, log, call) == Accepted then log + [call] else log
  }

  /** Readings taken by calls that reach the clock never go back by more than `d`. */
  ghost predicate ClockSlipsAtMost(calls: seq<Call>, d: nat) {
    forall i, j :: 0 <= i < j < |calls| && calls[i].WellFormed() && calls[j].WellFormed() ==>
      calls[j].nowMs >= calls[i].nowMs - d
  }

  ghost predicate Monotone(calls: seq<Call>) {
    ClockSlipsAtMost(calls, 0)
  }

  // ---- Cache and log agree ----------------------------------------------

  /** The table and the log agree on every entry at or above `cutoff`, where nonces are distinct. */
  ghost predicate Agree(seen: Seen, log: seq<Call>, cutoff: int) {
    && (forall e :: e in log && e.timestampMs >= cutoff ==>
      e.nonceId in seen && seen[e.nonceId] == e.timestampMs)
    && (forall n :: n in seen && seen[n] >= cutoff ==> Logged(log, n, seen[n]))
    && DistinctLive(log, cutoff)
  }

  ghost predicate Logged(log: seq<Call>, n: bytes, ts: int) {
    exists e :: e in log && e.nonceId == n && e.timestampMs == ts
  }

  ghost predicate DistinctLive(log: seq<Call>, cutoff: int) {
    forall i, j :: 0 <= i < j < |log| && log[i].timestampMs >= cutoff && log[j].timestampMs >= cutoff ==>
      log[i].nonceId != log[j].nonceId
  }

  ghost function LiveNonces(log: seq<Call>, cutoff: int): set<bytes> {
    set e | e in log && e.timestampMs >= cutoff :: e.nonceId
  }

  lemma LiveNoncesGrow(front: seq<Call>, last: Call, cutoff: int)
    ensures LiveNonces(front + [last], cutoff) ==
      LiveNonces(front, cutoff) + if last.timestampMs >= cutoff then {last.nonceId} else {}
  {
    assert forall e :: e in front + [last] <==> e in front || e == last;
  }

  lemma {:induction false} LiveCount(log: seq<Call>, cutoff: int)
    requires DistinctLive(log, cutoff)
    ensures |LiveNonces(log, cutoff)| == |Live(log, cutoff)|
  {
    if log != [] {
      var front, last := log[..|log| - 1], log[|log| - 1];
      LiveCount(front, cutoff);
      assert log == front + [last];
      LiveNoncesGrow(front, last, cutoff);
      assert last.timestampMs >= cutoff ==> last.nonceId !in LiveNonces(front, cutoff);
    }
  }

  lemma AgreeWhenPurged(seen: Seen, log: seq<Call>, cutoff: int)
    requires Agree(seen, log, cutoff)
    ensures Agree(Purged(seen, cutoff), log, cutoff)
  {
  }

  lemma PurgedCount(seen: Seen, log: seq<Call>, cutoff: int)
    requires Agree(seen, log, cutoff)
    ensures |Purged(seen, cutoff)| == |Live(log, cutoff)|
  {
    LiveCount(log, cutoff);
    var kept := Purged(seen, cutoff);
    assert kept.Keys == LiveNonces(log, cutoff);
    assert |kept| == |kept.Keys|;
  }

  lemma AgreeWhenStored(kept: Seen, log: seq<Call>, call: Call, cutoff: int)
    requires Agree(kept, log, cutoff)
    requires call.nonceId !in kept && call.timestampMs >= cutoff
    ensures Agree(kept[call.nonceId := call.timestampMs], log + [call], cutoff)
  {
    var log' := log + [call];
    assert forall e :: e in log' <==> e in log || e == call;
    assert call in log';
  }

  lemma AgreeWhenPurgedAndStored(seen: Seen, log: seq<Call>, call: Call, cutoff: int, after: Seen)
    requires Agree(seen, log, cutoff)
    requires call.nonceId !in Purged(seen, cutoff) && call.timestampMs >= cutoff
    requires after == Purged(seen, cutoff)[call.nonceId := call.timestampMs]
    ensures Agree(after, log + [call], cutoff)
  {
    AgreeWhenPurged(seen, log, cutoff);
    AgreeWhenStored(Purged(seen, cutoff), log, call, cutoff);
  }

  lemma LiveNonceAgrees(seen: Seen, log: seq<Call>, cutoff: int, n: bytes)
    requires Agree(seen, log, cutoff)
    ensures n in Purged(seen, cutoff) <==> HoldsNonce(log, cutoff, n)
  {
    if n in Purged(seen, cutoff) {
      assert Logged(log, n, seen[n]);
    }
  }

  lemma DecidesAlike(limits: Limits, seen: Seen, log: seq<Call>, call: Call, cutoff: int)
    requires call.WellFormed() && cutoff == call.nowMs - limits.windowMs
    requires |Purged(seen, cutoff)| == |Live(log, cutoff)|
    requires call.nonceId in Purged(seen, cutoff) <==> HoldsNonce(log, cutoff, call.nonceId)
    ensures Judge(limits, seen, call).0 == LogVerdict(limits, log, call)
  {
  }

  /** One call gives the log's verdict. */
  lemma VerdictsAgree(limits: Limits, seen: Seen, log: seq<Call>, call: Call)
    requires call.WellFormed()
    requires Agree(seen, log, call.nowMs - limits.windowMs)
    ensures Judge(limits, seen, call).0 == LogVerdict(limits, log, call)
  {
    var cutoff := call.nowMs - limits.windowMs;
    PurgedCount(seen, log, cutoff);
    LiveNonceAgrees(seen, log, cutoff, call.nonceId);
    DecidesAlike(limits, seen, log, call, cutoff);
  }

  lemma AcceptedStores(limits: Limits, seen: Seen, call: Call, cutoff: int, after: Seen)
    requires cutoff == call.nowMs - limits.windowMs && Judge(limits, seen, call) == (Accepted, after)
    ensures call.nonceId !in Purged(seen, cutoff) && call.timestampMs >= cutoff
    ensures after == Purged(seen, cutoff)[call.nonceId := call.timestampMs]
  {
  }

  lemma AgreeWhenAccepted(limits: Limits, seen: Seen, log: seq<Call>, call: Call, cutoff: int, after: Seen)
    requires cutoff == call.nowMs - limits.windowMs && Judge(limits, seen, call) == (Accepted, after)
    requires Agree(seen, log, cutoff)
    ensures Agree(after, log + [call], cutoff)
  {
    AcceptedStores(limits, seen, call, cutoff, after);
    AgreeWhenPurgedAndStored(seen, log, call, cutoff, after);
  }

  lemma AgreeWhenRefused(limits: Limits, seen: Seen, log: seq<Call>, call: Call)
    requires call.WellFormed()
    requires Agree(seen, log, call.nowMs - limits.windowMs)
    requires Judge(limits, seen, call).0 != Accepted
    ensures Agree(Judge(limits, seen, call).1, log, call.nowMs - limits.windowMs)
  {
    AgreeWhenPurged(seen, log, call.nowMs - limits.windowMs);
  }

  /** One call keeps the agreement. */
  lemma JudgeAgrees(limits: Limits, seen: Seen, log: seq<Call>, call: Call)
    requires call.WellFormed()
    requires Agree(seen, log, call.nowMs - limits.windowMs)
    ensures Agree(Judge(limits, seen, call).1, LogStep(limits, log, call), call.nowMs - limits.windowMs)
  {
    VerdictsAgree(limits, seen, log, call);
    if Judge(limits, seen, call).0 == Accepted {
      AgreeWhenAccepted(limits, seen, log, call, call.nowMs - limits.windowMs, Judge(limits, seen, call).1);
    } else {
      AgreeWhenRefused(limits, seen, log, call);
    }
  }

  /** An accepted call is for a packet the log does not hold, live or not. */
  lemma AcceptedIsNew(limits: Limits, seen: Seen, log: seq<Call>, cutoff: int, call: Call)
    requires Agree(seen, log, cutoff) && cutoff <= call.nowMs - limits.windowMs
    requires Judge(limits, seen, call).0 == Accepted
    ensures !Logged(log, call.nonceId, call.timestampMs)
  {
  }

  // ---- Refinement over whole runs ---------------------------------------

  /** `cutoff` is no older than the cutoff of any reading the run took. */
  ghost predicate PastEveryCutoff(limits: Limits, calls: seq<Call>, cutoff: int) {
    forall i :: 0 <= i < |calls| && calls[i].WellFormed() ==> calls[i].nowMs - limits.windowMs <= cutoff
  }

  lemma AgreesFrom(limits: Limits, seen: Seen, log: seq<Call>, call: Call, cutoff: int)
    requires call.WellFormed() && call.nowMs - limits.windowMs <= cutoff
    requires Agree(seen, log, call.nowMs - limits.windowMs)
    ensures Agree(Judge(limits, seen, call).1, LogStep(limits, log, call), cutoff)
  {
    JudgeAgrees(limits, seen, log, call);
    AgreeLater(Judge(limits, seen, call).1, LogStep(limits, log, call), call.nowMs - limits.windowMs, cutoff);
  }

  lemma {:induction false} RunAgrees(limits: Limits, calls: seq<Call>, cutoff: int)
    requires Monotone(calls) && PastEveryCutoff(limits, calls, cutoff)
    ensures Agree(SeenAfter(limits, calls), LogAfter(limits, calls), cutoff)
  {
    if calls != [] {
      var front, last := calls[..|calls| - 1], calls[|calls| - 1];
      if last.WellFormed() {
        var c := last.nowMs - limits.windowMs;
        assert PastEveryCutoff(limits, front, c);
        RunAgrees(limits, front, c);
        AgreesFrom(limits, SeenAfter(limits, front), LogAfter(limits, front), last, cutoff);
      } else {
        RunAgrees(limits, front, cutoff);
      }
    }
  }

  lemma AgreeLater(seen: Seen, log: seq<Call>, c: int, c': int)
    requires Agree(seen, log, c) && c <= c'
    ensures Agree(seen, log, c')
  {
  }

  /**
   * With a clock that never goes back, every call of every run gets the verdict of the log that
   * never forgets, so purging loses nothing.
   */
  lemma CacheRefinesLog(limits: Limits, calls: seq<Call>, i: nat)
    requires Monotone(calls) && i < |calls|
    ensures VerdictAt(limits, calls, i) == LogVerdict(limits, LogAfter(limits, calls[..i]), calls[i])
  {
    if calls[i].WellFormed() {
      RunAgrees(limits, calls[..i], calls[i].nowMs - limits.windowMs);
      VerdictsAgree(limits, SeenAfter(limits, calls[..i]), LogAfter(limits, calls[..i]), calls[i]);
    }
  }

  /** After a well-formed call the table holds exactly the live entries of the log. */
  lemma TableIsLiveLog(limits: Limits, calls: seq<Call>)
    requires Monotone(calls) && calls != [] && calls[|calls| - 1].WellFormed()
    ensures var cutoff := calls[|calls| - 1].nowMs - limits.windowMs;
      var seen, log := SeenAfter(limits, calls), LogAfter(limits, calls);
      && |seen| == |Live(log, cutoff)|
      && forall n, ts :: (n in seen && seen[n] == ts) <==> (ts >= cutoff && Logged(log, n, ts))
  {
    var cutoff := calls[|calls| - 1].nowMs - limits.windowMs;
    var seen, log := SeenAfter(limits, calls), LogAfter(limits, calls);
    assert PastEveryCutoff(limits, calls, cutoff);
    RunAgrees(limits, calls, cutoff);
    assert Purged(seen, cutoff) == seen;
    PurgedCount(seen, log, cutoff);
  }

  // ---- At most once, and what a clock that slips costs -------------------

  lemma {:induction false} StaysUntilPurged(limits: Limits, calls: seq<Call>, i: nat, k: nat)
    requires i < k <= |calls|
    requires VerdictAt(limits, calls, i) == Accepted
    requires forall m :: i < m < k && calls[m].WellFormed() ==>
      calls[m].nowMs - limits.windowMs <= calls[i].timestampMs
    ensures var seen := SeenAfter(limits, calls[..k]);
      calls[i].nonceId in seen && seen[calls[i].nonceId] == calls[i].timestampMs
  {
    assert calls[..k][..k - 1] == calls[..k - 1];
    if k > i + 1 {
      StaysUntilPurged(limits, calls, i, k - 1);
    }
  }

  /**
   * When no reading is ever more than `d` below an earlier one, the same packet is accepted twice
   * only at an age above window - d.
   */
  lemma SecondAcceptanceAge(limits: Limits, calls: seq<Call>, d: nat, i: nat, j: nat)
    requires ClockSlipsAtMost(calls, d) && i < j < |calls|
    requires VerdictAt(limits, calls, i) == VerdictAt(limits, calls, j) == Accepted
    requires calls[i].nonceId == calls[j].nonceId && calls[i].timestampMs == calls[j].timestampMs
    ensures limits.windowMs - d < calls[j].nowMs - calls[j].timestampMs <= limits.windowMs
  {
    if calls[j].nowMs - calls[j].timestampMs <= limits.windowMs - d {
      forall m | i < m < j && calls[m].WellFormed()
        ensures calls[m].nowMs - limits.windowMs <= calls[i].timestampMs
      {
        assert calls[j].nowMs >= calls[m].nowMs - d;
      }
      StaysUntilPurged(limits, calls, i, j);
    }
  }

  /**
   * With a clock that never goes back, an accepted packet offered again is refused, as expired or
   * as a replay, whatever was offered in between.
   */
  lemma ResubmissionRefused(limits: Limits, calls: seq<Call>, i: nat, j: nat)
    requires Monotone(calls) && i < j < |calls|
    requires VerdictAt(limits, calls, i) == Accepted
    requires calls[i].nonceId == calls[j].nonceId && calls[i].timestampMs == calls[j].timestampMs
    ensures VerdictAt(limits, calls, j) ==
      if calls[j].timestampMs < calls[j].nowMs - limits.windowMs then Expired else Replayed
  {
    if calls[j].timestampMs >= calls[j].nowMs - limits.windowMs {
      StaysUntilPurged(limits, calls, i, j);
    }
  }

  /** Three readings of one packet: in time, one past the window, and back by up to `d`. */
  ghost function SlippingRun(limits: Limits, nonceId: bytes, timestampMs: int, age: int): seq<Call> {
    [ Call(nonceId, timestampMs, timestampMs + age),
      Call(nonceId, timestampMs, timestampMs + limits.windowMs + 1),
      Call(nonceId, timestampMs, timestampMs + age) ]
  }

  /**
   * The bound is exact: a call can be the second acceptance of its packet, under some run whose
   * clock slips by at most `d`, exactly when it is well formed, the table has room for one entry,
   * and its age lies above window - d, within the window and not beyond the skew.
   */
  lemma SecondAcceptanceExact(limits: Limits, second: Call, d: nat)
    ensures var age := second.nowMs - second.timestampMs;
      Reacceptable(limits, d, second) <==>
        && second.WellFormed() && limits.maxEntries > 0
        && limits.windowMs - d < age <= limits.windowMs && -limits.skewMs <= age
  {
    var age := second.nowMs - second.timestampMs;
    forall calls, i, j | AcceptsTwice(limits, calls, d, i, j, second)
      ensures second.WellFormed() && limits.maxEntries > 0
      ensures limits.windowMs - d < age <= limits.windowMs && -limits.skewMs <= age
    {
      SecondAcceptanceAge(limits, calls, d, i, j);
    }
    if && second.WellFormed() && limits.maxEntries > 0
       && limits.windowMs - d < age <= limits.windowMs && -limits.skewMs <= age {
      var calls := SlippingRun(limits, second.nonceId, second.timestampMs, age);
      SlippingRunAccepts(limits, second.nonceId, second.timestampMs, age);
      assert AcceptsTwice(limits, calls, d, 0, 2, second);
    }
  }

  ghost predicate AcceptsTwice(limits: Limits, calls: seq<Call>, d: nat, i: int, j: int, second: Call) {
    && ClockSlipsAtMost(calls, d) && 0 <= i < j < |calls|
    && calls[j] == second
    && (calls[i].nonceId, calls[i].timestampMs) == (second.nonceId, second.timestampMs)
    && VerdictAt(limits, calls, i) == VerdictAt(limits, calls, j) == Accepted
  }

  /** Some run whose clock slips by at most `d` accepts this call as the second time for its packet. */
  ghost predicate Reacceptable(limits: Limits, d: nat, second: Call) {
    exists calls, i, j :: AcceptsTwice(limits, calls, d, i, j, second)
  }

  lemma SlippingRunAccepts(limits: Limits, nonceId: bytes, timestampMs: int, age: int)
    requires |nonceId| == NONCE_ID_SIZE && limits.maxEntries > 0
    requires -limits.skewMs <= age <= limits.windowMs
    ensures var calls := SlippingRun(limits, nonceId, timestampMs, age);
      VerdictAt(limits, calls, 0) == VerdictAt(limits, calls, 2) == Accepted && VerdictAt(limits, calls, 1) == Expired
  {
    var calls := SlippingRun(limits, nonceId, timestampMs, age);
    assert SeenAfter(limits, calls[..0]) == map[];
    assert calls[..1][..0] == calls[..0] && calls[..2][..1] == calls[..1];
    assert Purged(map[], timestampMs + age - limits.windowMs) == map[];
    assert SeenAfter(limits, calls[..1]) == map[nonceId := timestampMs];
    assert SeenAfter(limits, calls[..2]) == map[];
  }

  // ---- Capacity ---------------------------------------------------------

  /** The table never holds more than the configured number of entries, whatever the clock does. */
  lemma {:induction false} NeverOverCapacity(limits: Limits, calls: seq<Call>)
    requires limits.maxEntries >= 0
    ensures |SeenAfter(limits, calls)| <= limits.maxEntries
  {
    if calls != [] {
      var front, last := calls[..|calls| - 1], calls[|calls| - 1];
      NeverOverCapacity(limits, front);
      PurgedNoLarger(SeenAfter(limits, front), last.nowMs - limits.windowMs);
    }
  }

  lemma PurgedNoLarger(seen: Seen, cutoff: int)
    ensures |Purged(seen, cutoff)| <= |seen|
  {
    SubsetSize(Purged(seen, cutoff).Keys, seen.Keys);
    assert |Purged(seen, cutoff).Keys| == |Purged(seen, cutoff)|;
  }

  lemma SubsetSize<T>(a: set<T>, b: set<T>)
    requires a <= b
    ensures |a| <= |b|
  {
    assert b == a + (b - a);
  }

  /** Entries of a log accepted at a reading within [lo, hi]. */
  ghost function AcceptedWithin(log: seq<Call>, lo: int, hi: int): nat {
    if log == [] then 0
    else
      AcceptedWithin(log[..|log| - 1], lo, hi) +
      if lo <= log[|log| - 1].nowMs <= hi then 1 else 0
  }

  lemma {:induction false} LogEntriesInTime(limits: Limits, calls: seq<Call>, now: int)
    requires forall i :: 0 <= i < |calls| && calls[i].WellFormed() ==> calls[i].nowMs <= now
    ensures forall e :: e in LogAfter(limits, calls) ==> e.timestampMs <= e.nowMs + limits.skewMs && e.nowMs <= now
  {
    if calls != [] {
      LogEntriesInTime(limits, calls[..|calls| - 1], now);
    }
  }

  lemma {:induction false} LiveWereRecent(limits: Limits, log: seq<Call>, now: int)
    requires forall e :: e in log ==> e.timestampMs <= e.nowMs + limits.skewMs && e.nowMs <= now
    ensures |Live(log, now - limits.windowMs)| <= AcceptedWithin(log, now - limits.windowMs - limits.skewMs, now)
  {
    if log != [] {
      LiveWereRecent(limits, log[..|log| - 1], now);
    }
  }

  lemma {:induction false} AcceptedWithinPrefix(limits: Limits, calls: seq<Call>, i: nat, lo: int, hi: int)
    requires i <= |calls|
    ensures AcceptedWithin(LogAfter(limits, calls[..i]), lo, hi) <= AcceptedWithin(LogAfter(limits, calls), lo, hi)
    decreases |calls|
  {
    if i == |calls| {
      assert calls[..i] == calls;
    } else {
      var front := calls[..|calls| - 1];
      assert front[..i] == calls[..i];
      AcceptedWithinPrefix(limits, front, i, lo, hi);
      var log := LogAfter(limits, front);
      assert (log + [calls[|calls| - 1]])[..|log|] == log;
    }
  }

  ghost predicate NeverBusy(limits: Limits, calls: seq<Call>) {
    forall lo, hi :: hi - lo == limits.windowMs + limits.skewMs ==>
      AcceptedWithin(LogAfter(limits, calls), lo, hi) < limits.maxEntries
  }

  lemma LiveBelowCapacity(limits: Limits, calls: seq<Call>, i: nat)
    requires Monotone(calls) && NeverBusy(limits, calls) && i < |calls| && calls[i].WellFormed()
    ensures |Live(LogAfter(limits, calls[..i]), calls[i].nowMs - limits.windowMs)| < limits.maxEntries
  {
    var now := calls[i].nowMs;
    LogEntriesInTime(limits, calls[..i], now);
    LiveWereRecent(limits, LogAfter(limits, calls[..i]), now);
    AcceptedWithinPrefix(limits, calls, i, now - limits.windowMs - limits.skewMs, now);
  }

  /**
   * The table is never full when fewer than `maxEntries` packets are accepted in every closed
   * interval of length window + skew.
   */
  lemma NeverFull(limits: Limits, calls: seq<Call>, i: nat)
    requires Monotone(calls) && NeverBusy(limits, calls) && i < |calls|
    ensures VerdictAt(limits, calls, i) != Full
  {
    CacheRefinesLog(limits, calls, i);
    if calls[i].WellFormed() {
      LiveBelowCapacity(limits, calls, i);
    }
  }

  /** A reading more than window + skew after every acceptance finds the table purged to empty. */
  lemma PurgedToEmpty(limits: Limits, calls: seq<Call>, call: Call)
    requires Monotone(calls + [call]) && call.WellFormed()
    requires forall e :: e in LogAfter(limits, calls) ==> call.nowMs > e.nowMs + limits.windowMs + limits.skewMs
    ensures Purged(SeenAfter(limits, calls), call.nowMs - limits.windowMs) == map[]
  {
    var all := calls + [call];
    assert forall i, j :: 0 <= i < j < |calls| ==> calls[i] == all[i] && calls[j] == all[j];
    assert forall i :: 0 <= i < |calls| ==> calls[i] == all[i] && all[|calls|] == call;
    RunAgrees(limits, calls, call.nowMs - limits.windowMs);
    LogEntriesInTime(limits, calls, call.nowMs);
    var seen := SeenAfter(limits, calls);
    forall n | n in seen
      ensures seen[n] < call.nowMs - limits.windowMs
    {
      assert seen[n] >= call.nowMs - limits.windowMs ==> Logged(LogAfter(limits, calls), n, seen[n]);
    }
  }
}
