/** The failed-login limiter: a fixed one-minute window per peer, where every failure
    also drops the windows of other peers that are over. */
module RateLimit {
  import opened Clock
  import opened Text

  datatype Bucket = Bucket(windowStart: int, count: int)

  datatype Failure = Failure(peer: string, at: int)

  predicate Over(b: Bucket, now: int) {
    now - b.windowStart >= MINUTE
  }

  function Current(buckets: map<string, Bucket>, now: int): map<string, Bucket> {
    map p | p in buckets && !Over(buckets[p], now) :: buckets[p]
  }

  /** One peer's window after one more failure. */
  function Counted(b: Option<Bucket>, now: int): Bucket {
    if b == None || Over(b.value, now) then Bucket(now, 1)
    else b.value.(count := b.value.count + 1)
  }

  function Get(buckets: map<string, Bucket>, peer: string): Option<Bucket> {
    if peer in buckets then Some(buckets[peer]) else None
  }

  /** All windows after one more failure. */
  function After(buckets: map<string, Bucket>, f: Failure): map<string, Bucket> {
    Current(buckets, f.at)[f.peer := Counted(Get(buckets, f.peer), f.at)]
  }

  class FailureLimiter {
    const enabled: bool
    const max: int
    var buckets: map<string, Bucket>

    constructor (enabled: bool, max: int)
      ensures this.enabled == enabled && this.max == max && buckets == map[]
    {
      this.enabled := enabled;
      this.max := max;
      buckets := map[];
    }

    /** Counts a failure and reports whether it is over the budget. */
    method Blocked(peer: string, now: int) returns (blocked: bool)
      modifies this
      ensures !enabled || max <= 0 ==> !blocked && buckets == old(buckets)
      ensures enabled && max > 0 ==>
                && buckets == After(old(buckets), Failure(peer, now))
                && blocked == (buckets[peer].count > max)
    {
      if !enabled || max <= 0 {
        return false;
      }
      CleanupExpired(now);
      if peer !in buckets || Over(buckets[peer], now) {
        buckets := buckets[peer := Bucket(now, 0)];
      }
      buckets := buckets[peer := buckets[peer].(count := buckets[peer].count + 1)];
      blocked := buckets[peer].count > max;
    }

    /** Deletes while ranging over the map, in any order. */
    method CleanupExpired(now: int)
      modifies this
      ensures buckets == Current(old(buckets), now)
    {
      var todo := buckets.Keys;
      while todo != {}
        invariant todo <= buckets.Keys <= old(buckets).Keys
        invariant forall p :: p in buckets ==> buckets[p] == old(buckets)[p]
        invariant forall p :: p in old(buckets) && p !in todo ==>
                    (p in buckets <==> !Over(old(buckets)[p], now))
        decreases |todo|
      {
        var p :| p in todo;
        if Over(buckets[p], now) {
          buckets := buckets - {p};
        }
        todo := todo - {p};
      }
    }
  }

  // ---------------------------------------------------------------- whole traces

  /** The buckets after a trace of failures, and which of them were blocked. */
  function Buckets(trace: seq<Failure>): map<string, Bucket> {
    if trace == [] then map[]
    else
      var f, before := trace[|trace| - 1], Buckets(trace[..|trace| - 1]);
      After(before, f)
  }

  /** What the peer was answered, failure by failure. */
  function Answers(trace: seq<Failure>, peer: string, max: int): seq<bool> {
    if trace == [] then []
    else
      var f, before := trace[|trace| - 1], trace[..|trace| - 1];
      Answers(before, peer, max)
      + if f.peer == peer then [Counted(Get(Buckets(before), peer), f.at).count > max] else []
  }

  /** When the peer failed. */
  function Of(trace: seq<Failure>, peer: string): seq<int> {
    if trace == [] then []
    else
      var f := trace[|trace| - 1];
      Of(trace[..|trace| - 1], peer) + if f.peer == peer then [f.at] else []
  }

  ghost predicate Monotone(trace: seq<Failure>) {
    forall i, j :: 0 <= i < j < |trace| ==> trace[i].at <= trace[j].at
  }

  /** A counter for one peer alone, which nothing else cleans up. */
  function Private(times: seq<int>): Option<Bucket> {
    if times == [] then None
    else Some(Counted(Private(times[..|times| - 1]), times[|times| - 1]))
  }

  function PrivateAnswers(times: seq<int>, max: int): (r: seq<bool>)
    ensures |r| == |times|
  {
    if times == [] then []
    else PrivateAnswers(times[..|times| - 1], max) + [Private(times).value.count > max]
  }

  function Last(trace: seq<Failure>): int
    requires trace != []
  {
    trace[|trace| - 1].at
  }

  lemma OfLast(trace: seq<Failure>, peer: string)
    requires trace != []
    ensures var own, f := Of(trace[..|trace| - 1], peer), trace[|trace| - 1];
            && Of(trace, peer) == (if f.peer == peer then own + [f.at] else own)
            && Private(Of(trace, peer)) == if f.peer == peer then Some(Counted(Private(own), f.at)) else Private(own)
  {
    var own, f := Of(trace[..|trace| - 1], peer), trace[|trace| - 1];
    assert (own + [f.at])[..|own|] == own && own + [] == own;
  }

  // ---------------------------------------------------------------- each peer alone

  /** The clock readings of a trace. */
  function Times(trace: seq<Failure>): (r: seq<int>)
    ensures |r| == |trace|
  {
    seq(|trace|, i requires 0 <= i < |trace| => trace[i].at)
  }

  /** Once a reading has passed the end of a window that another could have opened, no
      later one falls back into it. */
  ghost predicate InStep(times: seq<int>) {
    forall i, j, k :: 0 <= i < j < k < |times| && times[j] - times[i] >= 60_000_000_000 ==>
      times[k] - times[i] >= 60_000_000_000
  }

  /** The window opened by a reading, and another reading has passed its end. */
  ghost predicate Ended(times: seq<int>, start: int) {
    exists i, j :: 0 <= i < j < |times| && times[i] == start && times[j] - times[i] >= MINUTE
  }

  /** The peer has the same window in both, or one that is over and has been dropped. */
  ghost predicate Agree(shared: Option<Bucket>, own: Option<Bucket>, times: seq<int>) {
    && (own.Some? ==> own.value.windowStart in times)
    && (shared == own || (shared == None && own.Some? && Ended(times, own.value.windowStart)))
  }

  lemma OverAfterEnd(times: seq<int>, at: int, start: int)
    requires InStep(times + [at]) && Ended(times, start)
    ensures at - start >= MINUTE
  {
    var i, j :| 0 <= i < j < |times| && times[i] == start && times[j] - times[i] >= MINUTE;
    var all := times + [at];
    assert all[i] == start && all[j] == times[j] && all[|times|] == at;
  }

  lemma StillEnded(times: seq<int>, at: int, start: int)
    ensures Ended(times, start) ==> Ended(times + [at], start)
    ensures start in times && at - start >= MINUTE ==> Ended(times + [at], start)
  {
    var all := times + [at];
    if i, j :| 0 <= i < j < |times| && times[i] == start && times[j] - times[i] >= MINUTE {
      assert all[i] == start && all[j] == times[j];
    }
    if start in times && at - start >= MINUTE {
      var i :| 0 <= i < |times| && times[i] == start;
      assert all[i] == start && all[|times|] == at;
    }
  }

  lemma AgreeStep(before: map<string, Bucket>, f: Failure, peer: string, own: Option<Bucket>, times: seq<int>)
    requires InStep(times + [f.at]) && Agree(Get(before, peer), own, times)
    ensures Counted(Get(before, peer), f.at) == Counted(own, f.at)
    ensures Agree(Get(After(before, f), peer), if f.peer == peer then Some(Counted(own, f.at)) else own, times + [f.at])
  {
    if own.Some? {
      if Get(before, peer) == None {
        OverAfterEnd(times, f.at, own.value.windowStart);
      }
      StillEnded(times, f.at, own.value.windowStart);
    }
  }

  lemma TimesLast(trace: seq<Failure>)
    requires trace != []
    ensures Times(trace) == Times(trace[..|trace| - 1]) + [trace[|trace| - 1].at]
    ensures InStep(Times(trace)) ==> InStep(Times(trace[..|trace| - 1]))
  {
    var n := |trace| - 1;
    var before, all := Times(trace[..n]), Times(trace);
    assert all == before + [trace[n].at];
    assert forall i :: 0 <= i < n ==> all[i] == before[i];
  }

  lemma {:induction false} AgreeAt(trace: seq<Failure>, peer: string)
    requires InStep(Times(trace))
    ensures Agree(Get(Buckets(trace), peer), Private(Of(trace, peer)), Times(trace))
  {
    if trace != [] {
      var before, f := trace[..|trace| - 1], trace[|trace| - 1];
      TimesLast(trace);
      AgreeAt(before, peer);
      AgreeStep(Buckets(before), f, peer, Private(Of(before, peer)), Times(before));
      OfLast(trace, peer);
    }
  }

  /** What one more failure adds to the answers, on both sides. */
  lemma AnswersStep(trace: seq<Failure>, peer: string, max: int)
    requires trace != [] && InStep(Times(trace))
    ensures var before := trace[..|trace| - 1];
            Answers(before, peer, max) == PrivateAnswers(Of(before, peer), max) ==>
              Answers(trace, peer, max) == PrivateAnswers(Of(trace, peer), max)
  {
    var before, f := trace[..|trace| - 1], trace[|trace| - 1];
    var own := Of(before, peer);
    OfLast(trace, peer);
    if f.peer == peer {
      TimesLast(trace);
      AgreeAt(before, peer);
      AgreeStep(Buckets(before), f, peer, Private(own), Times(before));
      OneMorePrivate(own, f.at, max);
    } else {
      assert Answers(before, peer, max) + [] == Answers(before, peer, max);
    }
  }

  lemma OneMorePrivate(times: seq<int>, at: int, max: int)
    ensures Private(times + [at]) == Some(Counted(Private(times), at))
    ensures PrivateAnswers(times + [at], max) == PrivateAnswers(times, max) + [Counted(Private(times), at).count > max]
  {
    assert (times + [at])[..|times|] == times;
  }

  /** However the peers' failures are interleaved, each is answered as by a counter that
      sees only its own: the cleanup that others trigger is invisible. */
  lemma {:induction false} AloneInStep(trace: seq<Failure>, peer: string, max: int)
    requires InStep(Times(trace))
    ensures Answers(trace, peer, max) == PrivateAnswers(Of(trace, peer), max)
  {
    if trace != [] {
      TimesLast(trace);
      AloneInStep(trace[..|trace| - 1], peer, max);
      AnswersStep(trace, peer, max);
    }
  }

  /** In particular where the readings come in order. */
  lemma EachPeerAlone(trace: seq<Failure>, peer: string, max: int)
    requires Monotone(trace)
    ensures Answers(trace, peer, max) == PrivateAnswers(Of(trace, peer), max)
  {
    assert forall i, j :: 0 <= i < j < |trace| ==> Times(trace)[i] <= Times(trace)[j];
    AloneInStep(trace, peer, max);
  }

  // ---------------------------------------------------------------- readings out of step

  /** `p` fails at readings `i` and `k`, and `q` at all others. */
  function TwoOf(times: seq<int>, i: nat, k: nat, p: string, q: string): (r: seq<Failure>)
    ensures |r| == |times|
  {
    seq(|times|, n requires 0 <= n < |times| => Failure(if n == i || n == k then p else q, times[n]))
  }

  /** After `n` failures: what `p` has been answered, and its window, which the failure at
      `j` has dropped. */
  ghost predicate Forgiven(times: seq<int>, i: nat, j: nat, k: nat, p: string, q: string, n: nat)
    requires i < j < k < |times| && n <= |times|
  {
    var trace := TwoOf(times, i, k, p, q)[..n];
    var window := Get(Buckets(trace), p);
    && Of(trace, p) == (if n <= i then [] else if n <= k then [times[i]] else [times[i], times[k]])
    && Answers(trace, p, 1) == (if n <= i then [] else if n <= k then [false] else [false, false])
    && (n <= i || j < n <= k ==> window == None)
    && (i < n <= j ==> window == None || window == Some(Bucket(times[i], 1)))
  }

  lemma OneMoreFailure(trace: seq<Failure>, f: Failure, peer: string, max: int)
    ensures Buckets(trace + [f]) == After(Buckets(trace), f)
    ensures Answers(trace + [f], peer, max) ==
            Answers(trace, peer, max) + if f.peer == peer then [Counted(Get(Buckets(trace), peer), f.at).count > max] else []
    ensures Of(trace + [f], peer) == Of(trace, peer) + if f.peer == peer then [f.at] else []
  {
    assert (trace + [f])[..|trace|] == trace;
  }

  lemma ForgivenStep(times: seq<int>, i: nat, j: nat, k: nat, p: string, q: string, n: nat)
    requires i < j < k < |times| && n < |times| && p != q
    requires times[j] - times[i] >= MINUTE
    ensures Forgiven(times, i, j, k, p, q, n) ==> Forgiven(times, i, j, k, p, q, n + 1)
  {
    hide Buckets, Answers, Of;
    var all := TwoOf(times, i, k, p, q);
    assert all[..n + 1] == all[..n] + [all[n]];
    OneMoreFailure(all[..n], all[n], p, 1);
  }

  lemma {:induction false} ForgivenAt(times: seq<int>, i: nat, j: nat, k: nat, p: string, q: string, n: nat)
    requires i < j < k < |times| && n <= |times| && p != q
    requires times[j] - times[i] >= MINUTE
    ensures Forgiven(times, i, j, k, p, q, n)
  {
    if n == 0 {
      assert TwoOf(times, i, k, p, q)[..0] == [];
    } else {
      ForgivenAt(times, i, j, k, p, q, n - 1);
      ForgivenStep(times, i, j, k, p, q, n - 1);
    }
  }

  /** Otherwise the clean-up shows: a request that has read the clock within its peer's window
      gets the lock after another peer's request that has read it past the end. It finds the
      window dropped, and a blocked peer starts over. */
  lemma LateReadingForgives(times: seq<int>, i: nat, j: nat, k: nat, p: string, q: string) returns (trace: seq<Failure>)
    requires i < j < k < |times| && p != q
    requires times[j] - times[i] >= MINUTE > times[k] - times[i]
    ensures Times(trace) == times
    ensures Answers(trace, p, 1) == [false, false]
    ensures PrivateAnswers(Of(trace, p), 1) == [false, true]
  {
    trace := TwoOf(times, i, k, p, q);
    ForgivenAt(times, i, j, k, p, q, |times|);
    assert trace[..|times|] == trace;
    TwoFailures(times[i], times[k]);
  }

  lemma TwoFailures(first: int, second: int)
    requires second - first < MINUTE
    ensures PrivateAnswers([first, second], 1) == [false, true]
  {
    OneMorePrivate([], first, 1);
    OneMorePrivate([first], second, 1);
    assert [] + [first] == [first] && [first] + [second] == [first, second];
  }

  ghost predicate AllAlone(times: seq<int>) {
    forall trace, peer, max | Times(trace) == times :: Answers(trace, peer, max) == PrivateAnswers(Of(trace, peer), max)
  }

  /** Exactly when the readings let every peer be answered as if alone, whoever the failures
      are of and whatever the budget is: when they are in step. */
  lemma AloneExactly(times: seq<int>)
    ensures InStep(times) <==> AllAlone(times)
  {
    if InStep(times) {
      forall trace, peer, max | Times(trace) == times
        ensures Answers(trace, peer, max) == PrivateAnswers(Of(trace, peer), max)
      {
        AloneInStep(trace, peer, max);
      }
    } else {
      var i, j, k :| 0 <= i < j < k < |times| && times[j] - times[i] >= MINUTE && times[k] - times[i] < MINUTE;
      var trace := LateReadingForgives(times, i, j, k, "p", "q");
      assert Answers(trace, "p", 1) != PrivateAnswers(Of(trace, "p"), 1);
    }
  }

  // ---------------------------------------------------------------- the bound

  function Passed(answers: seq<bool>): nat {
    if answers == [] then 0
    else Passed(answers[..|answers| - 1]) + if answers[|answers| - 1] then 0 else 1
  }

  function Least(a: int, b: int): int {
    if a <= b then a else b
  }

  ghost predicate Rising(times: seq<int>) {
    forall i, j :: 0 <= i < j < |times| ==> times[i] <= times[j]
  }

  /** The window that failure `i` falls in, and how many it has counted there. */
  function At(times: seq<int>, i: nat): Bucket
    requires i < |times|
  {
    Private(times[..i + 1]).value
  }

  lemma AtNext(times: seq<int>, i: nat)
    requires i < |times|
    ensures At(times, i) == if i == 0 then Bucket(times[0], 1) else Counted(Some(At(times, i - 1)), times[i])
  {
    var upTo := times[..i + 1];
    assert upTo[..i] == times[..i];
    if i == 0 {
      assert Private(upTo[..0]) == None;
    }
  }

  /** A window starts at a failure, which it counts; later ones come after it. */
  lemma {:induction false} WindowStarts(times: seq<int>, i: nat)
    requires Rising(times) && i < |times|
    ensures At(times, i).windowStart <= times[i] && At(times, i).count >= 1
    ensures At(times, i).count > 1 || At(times, i).windowStart == times[i]
  {
    AtNext(times, i);
    if i > 0 {
      WindowStarts(times, i - 1);
    }
  }

  lemma {:induction false} AnswerAt(times: seq<int>, max: int, i: nat)
    requires i < |times|
    ensures PrivateAnswers(times, max)[i] == (At(times, i).count > max)
  {
    var n := |times| - 1;
    if i == n {
      assert times[..i + 1] == times;
    } else {
      AnswerAt(times[..n], max, i);
      assert times[..n][..i + 1] == times[..i + 1];
    }
  }

  lemma PassedNext(answers: seq<bool>, lo: nat, hi: nat)
    requires lo <= hi < |answers|
    ensures Passed(answers[lo..hi + 1]) == Passed(answers[lo..hi]) + if answers[hi] then 0 else 1
  {
    assert answers[lo..hi + 1][..hi - lo] == answers[lo..hi];
  }

  /** How many of failures `lo..hi` can have passed: those of the window `lo` is in,
      without its first if that came earlier, and those of one more window. */
  ghost predicate Room(times: seq<int>, max: int, lo: nat, hi: nat, passed: nat)
    requires lo <= hi < |times|
  {
    var first, last := At(times, lo), At(times, hi);
    if last.windowStart == first.windowStart then
      && passed <= Least(last.count, max)
      && (first.windowStart < times[lo] ==> passed < Least(last.count, max))
    else
      && first.windowStart < times[lo] <= last.windowStart
      && passed < max + Least(last.count, max)
  }

  lemma {:induction false} RoomUpTo(times: seq<int>, max: int, lo: nat, hi: nat)
    requires Rising(times) && max > 0 && lo <= hi < |times|
    requires times[hi] - times[lo] < MINUTE
    ensures Room(times, max, lo, hi, Passed(PrivateAnswers(times, max)[lo..hi + 1]))
    decreases hi
  {
    var answers := PrivateAnswers(times, max);
    AtNext(times, hi);
    AnswerAt(times, max, hi);
    PassedNext(answers, lo, hi);
    WindowStarts(times, lo);
    WindowStarts(times, hi);
    if lo < hi {
      RoomUpTo(times, max, lo, hi - 1);
      WindowStarts(times, hi - 1);
    } else {
      assert answers[lo..lo] == [];
    }
  }

  /** Over any span shorter than a minute a peer gets at most twice the budget past the
      limiter, less one: the earlier window has counted a failure before the span. */
  lemma SpanBound(trace: seq<Failure>, peer: string, max: int, lo: nat, hi: nat)
    requires Monotone(trace) && max > 0
    requires lo < hi <= |Of(trace, peer)|
    requires Of(trace, peer)[hi - 1] - Of(trace, peer)[lo] < 60_000_000_000
    ensures |Answers(trace, peer, max)| == |Of(trace, peer)|
    ensures Passed(Answers(trace, peer, max)[lo..hi]) <= 2 * max - 1
  {
    hide Answers, Of, Monotone, Passed;
    EachPeerAlone(trace, peer, max);
    OfRising(trace, peer);
    RoomUpTo(Of(trace, peer), max, lo, hi - 1);
  }

  /** Within one window the budget itself is the bound. */
  lemma WindowBound(trace: seq<Failure>, peer: string, max: int, lo: nat, hi: nat)
    requires Monotone(trace) && max > 0
    requires lo <= hi < |Of(trace, peer)|
    requires At(Of(trace, peer), lo).windowStart == At(Of(trace, peer), hi).windowStart
    ensures |Answers(trace, peer, max)| == |Of(trace, peer)|
    ensures Passed(Answers(trace, peer, max)[lo..hi + 1]) <= max
  {
    var times := Of(trace, peer);
    EachPeerAlone(trace, peer, max);
    OfRising(trace, peer);
    AtNext(times, hi);
    WindowStarts(times, lo);
    if hi > lo {
      WindowStarts(times, hi - 1);
    }
    RoomUpTo(times, max, lo, hi);
  }

  lemma {:induction false} OfRising(trace: seq<Failure>, peer: string)
    requires Monotone(trace)
    ensures Rising(Of(trace, peer))
    ensures trace != [] ==> forall k :: 0 <= k < |Of(trace, peer)| ==> Of(trace, peer)[k] <= Last(trace)
  {
    if trace != [] {
      OfRising(trace[..|trace| - 1], peer);
    }
  }

  // ---------------------------------------------------------------- the bound is reached

  /** One failure, the rest of the budget at the end of its minute, and a new budget as
      the next minute starts. */
  function Burst(max: nat): seq<int> {
    seq(2 * max, i => if i == 0 then 0 else if i < max then MINUTE - 1 else MINUTE)
  }

  lemma {:induction false} BurstAt(max: nat, i: nat)
    requires i < 2 * max
    ensures At(Burst(max), i) == if i < max then Bucket(0, i + 1) else Bucket(MINUTE, i - max + 1)
  {
    AtNext(Burst(max), i);
    if i > 0 {
      BurstAt(max, i - 1);
    }
  }

  lemma {:induction false} AllPassed(answers: seq<bool>)
    requires forall i :: 0 <= i < |answers| ==> !answers[i]
    ensures Passed(answers) == |answers|
  {
    if answers != [] {
      AllPassed(answers[..|answers| - 1]);
    }
  }

  function ByOne(peer: string, times: seq<int>): seq<Failure> {
    seq(|times|, i requires 0 <= i < |times| => Failure(peer, times[i]))
  }

  lemma {:induction false} OfByOne(peer: string, times: seq<int>)
    ensures Of(ByOne(peer, times), peer) == times
  {
    if times != [] {
      var n := |times| - 1;
      OfByOne(peer, times[..n]);
      assert ByOne(peer, times)[..n] == ByOne(peer, times[..n]);
    }
  }

  lemma BurstPasses(max: nat)
    requires max > 0
    ensures Passed(PrivateAnswers(Burst(max), max)[1..]) == 2 * max - 1
  {
    var answers := PrivateAnswers(Burst(max), max);
    forall i | 0 <= i < 2 * max ensures !answers[i] {
      AnswerAt(Burst(max), max, i);
      BurstAt(max, i);
    }
    AllPassed(answers[1..]);
  }

  /** No smaller bound holds: within a nanosecond, twice the budget less one can pass. */
  lemma SpanBoundReached(peer: string, max: nat) returns (trace: seq<Failure>)
    requires max > 0
    ensures Monotone(trace) && |Of(trace, peer)| == |Answers(trace, peer, max)| == 2 * max
    ensures Of(trace, peer)[2 * max - 1] - Of(trace, peer)[1] <= 1
    ensures Passed(Answers(trace, peer, max)[1..]) == 2 * max - 1
  {
    trace := TraceOf(peer, Burst(max), max);
    BurstPasses(max);
  }

  lemma TraceOf(peer: string, times: seq<int>, max: nat) returns (trace: seq<Failure>)
    requires Rising(times)
    ensures Monotone(trace) && Of(trace, peer) == times
    ensures Answers(trace, peer, max) == PrivateAnswers(times, max)
  {
    trace := ByOne(peer, times);
    OfByOne(peer, times);
    EachPeerAlone(trace, peer, max);
  }
}
