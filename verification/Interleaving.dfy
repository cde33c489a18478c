/** The protocol with its receivers taken apart: the server and its ledger, and on every
    receiver any number of processes interleaved at single file operations. */
module Interleaving {
  import opened Text
  import opened Signer
  import opened Store
  import opened Pipeline
  import opened AtomicFile
  import D = Delivery
  import P = Publication
  import PR = PublicationRuns
  import R = Receive

  /** The server's side, and the settings and temp names of each receiver. */
  datatype Net = Net(setup: D.Setup, places: map<string, P.System>)

  /** Paths are distinct and temp names unique, and verification uses the receiver's settings. */
  ghost predicate Sound(net: Net) {
    && net.places.Keys == net.setup.receivers.Keys
    && forall r :: r in net.places ==>
         && R.Distinct(net.places[r].cfg) && P.Unique(net.places[r].names)
         && net.places[r].cfg.params == net.setup.receivers[r]
  }

  /** What a process makes of its input: it reads its clock at `now`, decodes `env`, and sets
      out to publish `cidrs` and to write `job`. */
  datatype Start = Start(input: R.Stream, env: Envelope, now: int, pulledAt: string, cidrs: seq<string>, job: P.Job)

  datatype Event =
    | Server(move: D.Move)
    | Accepts(receiver: string, pid: nat, start: Start)
    | Acts(receiver: string, turn: P.Turn)

  /** The outer world's `allow` is the list a receiver last set out to publish; its files
      are those of the inner world. */
  datatype World = World(outer: D.World, inner: map<string, P.World>)

  function MoveOf(w: World, e: Event): D.Move {
    match e
    case Server(move) => move
    case Accepts(r, _, start) => D.Receive(r, start.env, start.now, true, start.cidrs, true)
    case Acts(_, _) => D.Tick(w.outer.clock)
  }

  function TurnOf(e: Event): P.Turn
    requires !e.Server?
  {
    if e.Acts? then e.turn else P.Turn(e.pid, P.Accept(e.start.job))
  }

  function InnerAfter(net: Net, inner: map<string, P.World>, e: Event): map<string, P.World> {
    if e.Server? || e.receiver !in inner || e.receiver !in net.places then inner
    else inner[e.receiver := P.Step(net.places[e.receiver], inner[e.receiver], TurnOf(e))]
  }

  ghost predicate Step(net: Net, w: World, e: Event, w': World) {
    D.Effect(net.setup, w.outer, MoveOf(w, e), w'.outer) && w'.inner == InnerAfter(net, w.inner, e)
  }

  /** A new process whose input verification accepts, with an envelope that was not forged. */
  ghost predicate Begins(net: Net, w: World, r: string, pid: nat, start: Start) {
    && r in net.places && r in w.inner && P.ProcOf(w.inner[r], pid) == P.IDLE
    && D.Unforged(w.outer, start.env)
    && R.Judge(start.input, net.places[r].cfg, net.setup.mac, start.now) == R.Proceed(start.env)
    && P.AcceptedInput(net.places[r].cfg, net.setup.mac, start.job, start.input, start.now, start.pulledAt, start.cidrs)
  }

  ghost predicate Honest(net: Net, w: World, e: Event) {
    match e
    case Server(move) => !move.Receive? && D.Honest(net.setup, w.outer, move)
    case Accepts(r, pid, start) => Begins(net, w, r, pid, start)
    case Acts(r, turn) => r in net.places && !turn.choice.Accept?
  }

  ghost predicate Initial(net: Net, w: World) {
    && w.outer.sent == [] && Keyed(w.outer.store.entries) && w.outer.allow.Keys == net.setup.receivers.Keys
    && w.inner.Keys == net.places.Keys
    && forall r :: r in w.inner ==> w.inner[r].procs == map[] && w.inner[r].log == []
  }

  ghost predicate Run(net: Net, events: seq<Event>, worlds: seq<World>) {
    && Sound(net) && |worlds| == |events| + 1 && Initial(net, worlds[0])
    && (forall i :: 0 <= i < |events| ==> Step(net, worlds[i], events[i], worlds[i + 1]))
    && (forall i :: 0 <= i < |events| ==> Honest(net, worlds[i], events[i]))
  }

  // ---------------------------------------------------------------- the outer run

  function Moves(events: seq<Event>, worlds: seq<World>): (r: seq<D.Move>)
    requires |worlds| == |events| + 1
    ensures |r| == |events|
  {
    seq(|events|, i requires 0 <= i < |events| => MoveOf(worlds[i], events[i]))
  }

  function Outers(worlds: seq<World>): (r: seq<D.World>)
    ensures |r| == |worlds|
  {
    seq(|worlds|, i requires 0 <= i < |worlds| => worlds[i].outer)
  }

  /** An accepted input is one that a receiver of the outer protocol applies. */
  lemma AcceptedApplies(net: Net, w: World, r: string, pid: nat, start: Start)
    requires Sound(net) && Begins(net, w, r, pid, start)
    ensures var m := D.Receive(r, start.env, start.now, true, start.cidrs, true);
            D.Applies(net.setup, m) && D.Honest(net.setup, w.outer, m)
  {
    hide Publishes, D.Unforged, Decode;
    var p := net.setup.receivers[r];
    assert Verify(start.env, p.secret, net.setup.mac) && Refusal(true, start.env, p, start.now) == None by {
      Proceeds(start.input, net.places[r].cfg, net.setup.mac, start.now);
    }
  }

  lemma Proceeds(s: R.Stream, cfg: R.Config, mac: Mac, now: int)
    requires R.Judge(s, cfg, mac, now).Proceed?
    ensures var env := R.Judge(s, cfg, mac, now).env;
            Verify(env, cfg.params.secret, mac) && Refusal(true, env, cfg.params, now) == None
  {
    hide Decode, Verify;
  }

  lemma MoveHonest(net: Net, w: World, e: Event)
    requires Sound(net) && Honest(net, w, e)
    ensures D.Honest(net.setup, w.outer, MoveOf(w, e))
  {
    if e.Accepts? {
      AcceptedApplies(net, w, e.receiver, e.pid, e.start);
    }
  }

  /** What the server and the ledger see is a run of the protocol. */
  lemma OuterRun(net: Net, events: seq<Event>, worlds: seq<World>)
    requires Run(net, events, worlds)
    ensures D.Run(net.setup, Moves(events, worlds), Outers(worlds))
  {
    hide D.Effect, D.Honest, MoveOf;
    var moves, outers := Moves(events, worlds), Outers(worlds);
    forall i | 0 <= i < |moves|
      ensures D.Effect(net.setup, outers[i], moves[i], outers[i + 1]) && D.Honest(net.setup, outers[i], moves[i])
    {
      StepAt(net, events, worlds, i);
      MoveHonest(net, worlds[i], events[i]);
    }
  }

  lemma StepAt(net: Net, events: seq<Event>, worlds: seq<World>, i: nat)
    requires Run(net, events, worlds) && i < |events|
    ensures Step(net, worlds[i], events[i], worlds[i + 1]) && Honest(net, worlds[i], events[i])
  {
  }

  // ---------------------------------------------------------------- the inner runs

  lemma {:induction false} InnerKeys(net: Net, events: seq<Event>, worlds: seq<World>, n: nat)
    requires Run(net, events, worlds) && n <= |events|
    ensures worlds[n].inner.Keys == net.places.Keys
  {
    if n > 0 {
      InnerKeys(net, events, worlds, n - 1);
      StepAt(net, events, worlds, n - 1);
    }
  }

  /** The turns of one receiver's processes. */
  function Turns(events: seq<Event>, r: string): seq<P.Turn> {
    if events == [] then []
    else
      var e := events[|events| - 1];
      Turns(events[..|events| - 1], r) + if !e.Server? && e.receiver == r then [TurnOf(e)] else []
  }

  lemma TurnsLast(events: seq<Event>, r: string, n: nat)
    requires 0 < n <= |events|
    ensures var e := events[n - 1];
            Turns(events[..n], r) ==
            if !e.Server? && e.receiver == r then Turns(events[..n - 1], r) + [TurnOf(e)] else Turns(events[..n - 1], r)
  {
    assert events[..n][..n - 1] == events[..n - 1];
    assert Turns(events[..n - 1], r) + [] == Turns(events[..n - 1], r);
  }

  lemma RunLonger(sys: P.System, mac: Mac, turns: seq<P.Turn>, ws: seq<P.World>, t: P.Turn)
    requires P.Run(sys, mac, turns, ws)
    requires t.choice.Accept? ==> P.Accepted(sys.cfg, mac, t.choice.job)
    ensures P.Run(sys, mac, turns + [t], ws + [P.Step(sys, ws[|turns|], t)])
  {
    hide P.Step, P.Accepted;
    var ts, all := turns + [t], ws + [P.Step(sys, ws[|turns|], t)];
    forall i | 0 <= i < |ts| ensures all[i + 1] == P.Step(sys, all[i], ts[i]) {
      if i < |turns| {
        P.StepOf(sys, mac, turns, ws, i);
      }
    }
  }

  lemma BeginsAccepted(net: Net, w: World, r: string, pid: nat, start: Start)
    requires Begins(net, w, r, pid, start)
    ensures P.Accepted(net.places[r].cfg, net.setup.mac, start.job)
  {
    hide P.AcceptedInput;
  }

  /** What happens on one receiver is a run of its processes. */
  lemma {:induction false} InnerRun(net: Net, events: seq<Event>, worlds: seq<World>, r: string, n: nat)
    returns (ws: seq<P.World>)
    requires Run(net, events, worlds) && n <= |events| && r in net.places
    ensures r in worlds[0].inner && r in worlds[n].inner
    ensures P.Run(net.places[r], net.setup.mac, Turns(events[..n], r), ws)
    ensures ws[0] == worlds[0].inner[r] && ws[|Turns(events[..n], r)|] == worlds[n].inner[r]
  {
    hide P.Run, P.Step, P.Accepted, Run, Turns, TurnOf;
    WorldsLength(net, events, worlds);
    InnerKeys(net, events, worlds, n);
    InnerKeys(net, events, worlds, 0);
    if n == 0 {
      ws := [worlds[0].inner[r]];
      InnerStart(net, events, worlds, r);
    } else {
      var before := InnerRun(net, events, worlds, r, n - 1);
      InnerStep(net, events, worlds, r, n - 1);
      TurnsLast(events, r, n);
      var e := events[n - 1];
      if !e.Server? && e.receiver == r {
        RunLonger(net.places[r], net.setup.mac, Turns(events[..n - 1], r), before, TurnOf(e));
        ws := before + [worlds[n].inner[r]];
        RunLength(net.places[r], net.setup.mac, Turns(events[..n - 1], r), before);
      } else {
        ws := before;
      }
    }
  }

  lemma WorldsLength(net: Net, events: seq<Event>, worlds: seq<World>)
    requires Run(net, events, worlds)
    ensures |worlds| == |events| + 1
  {
  }

  lemma InnerStart(net: Net, events: seq<Event>, worlds: seq<World>, r: string)
    requires Run(net, events, worlds) && r in worlds[0].inner && r in net.places
    ensures Turns(events[..0], r) == [] && P.Run(net.places[r], net.setup.mac, [], [worlds[0].inner[r]])
  {
  }

  lemma InnerStep(net: Net, events: seq<Event>, worlds: seq<World>, r: string, i: nat)
    requires Run(net, events, worlds) && i < |events| && r in net.places
    requires r in worlds[i].inner && r in worlds[i + 1].inner
    ensures var e := events[i];
            if !e.Server? && e.receiver == r then
              && worlds[i + 1].inner[r] == P.Step(net.places[r], worlds[i].inner[r], TurnOf(e))
              && (TurnOf(e).choice.Accept? ==> P.Accepted(net.places[r].cfg, net.setup.mac, TurnOf(e).choice.job))
            else worlds[i + 1].inner[r] == worlds[i].inner[r]
  {
    hide P.Step, P.Accepted, Begins;
    StepAt(net, events, worlds, i);
    if events[i].Accepts? && events[i].receiver == r {
      BeginsAccepted(net, worlds[i], r, events[i].pid, events[i].start);
    }
  }

  lemma RunLength(sys: P.System, mac: Mac, turns: seq<P.Turn>, ws: seq<P.World>)
    requires P.Run(sys, mac, turns, ws)
    ensures |ws| == |turns| + 1
  {
  }

  /** Every receiver's processes keep the invariant of publication. */
  lemma InnerInv(net: Net, events: seq<Event>, worlds: seq<World>, r: string, n: nat)
    requires Run(net, events, worlds) && n <= |events| && r in net.places
    ensures r in worlds[0].inner && r in worlds[n].inner
    ensures P.Inv(net.places[r], worlds[n].inner[r], worlds[0].inner[r].dir.files)
  {
    hide P.Inv;
    var ws := InnerRun(net, events, worlds, r, n);
    var turns := Turns(events[..n], r);
    P.InvAt(net.places[r], net.setup.mac, turns, ws, |turns|);
  }

  /** A process of which nothing fails has, after its twenty-fifth turn, replaced allow.txt
      and returned with success, whatever else goes on anywhere. */
  lemma CompletesInterleaved(net: Net, events: seq<Event>, worlds: seq<World>, r: string, pid: nat, n: nat)
    requires Run(net, events, worlds) && n <= |events| && r in net.places
    requires r in worlds[0].inner && PR.NoTemps(worlds[0].inner[r].dir.files)
    requires var turns := Turns(events[..n], r); PR.Smooth(turns, pid) && PR.Own(turns, pid, |turns|) >= 25
    ensures r in worlds[n].inner
    ensures P.ProcOf(worlds[n].inner[r], pid).pc == P.Returned(true) && pid in worlds[n].inner[r].log
  {
    hide PR.Smooth, PR.NoTemps, P.Run;
    var ws := InnerRun(net, events, worlds, r, n);
    var turns := Turns(events[..n], r);
    PR.Completes(net.places[r], net.setup.mac, turns, ws, pid, |turns|);
  }

  /** The job was accepted by that receiver before world `n`. */
  ghost predicate AcceptedBefore(events: seq<Event>, r: string, job: P.Job, n: nat) {
    exists j :: 0 <= j < n && j < |events| && events[j].Accepts? && events[j].receiver == r && events[j].start.job == job
  }

  ghost predicate JobFrom(events: seq<Event>, w: World, r: string, q: nat, n: nat)
    requires r in w.inner
  {
    var p := P.ProcOf(w.inner[r], q);
    P.UnderWay(p) ==> AcceptedBefore(events, r, p.job, n)
  }

  lemma JobFromStep(net: Net, events: seq<Event>, w: World, w': World, r: string, q: nat, n: nat)
    requires n < |events| && r in net.places && r in w.inner && w'.inner == InnerAfter(net, w.inner, events[n])
    requires Honest(net, w, events[n])
    ensures JobFrom(events, w, r, q, n) ==> JobFrom(events, w', r, q, n + 1)
  {
    hide P.Step, P.UnderWay, AcceptedBefore, Begins, D.Honest;
    var e := events[n];
    BeforeLater(events, r, P.ProcOf(w.inner[r], q).job, n);
    if !e.Server? && e.receiver == r {
      P.JobKeptBy(net.places[r], w.inner[r], TurnOf(e), q);
    }
  }

  lemma BeforeLater(events: seq<Event>, r: string, job: P.Job, n: nat)
    requires n < |events|
    ensures AcceptedBefore(events, r, job, n) ==> AcceptedBefore(events, r, job, n + 1)
    ensures events[n].Accepts? && events[n].receiver == r ==> AcceptedBefore(events, r, events[n].start.job, n + 1)
  {
    if j :| 0 <= j < n && events[j].Accepts? && events[j].receiver == r && events[j].start.job == job {
      assert AcceptedBefore(events, r, job, n + 1);
    }
  }

  lemma {:induction false} JobFromAt(net: Net, events: seq<Event>, worlds: seq<World>, r: string, q: nat, n: nat)
    requires Run(net, events, worlds) && n <= |events| && r in net.places
    ensures r in worlds[n].inner && JobFrom(events, worlds[n], r, q, n)
  {
    InnerKeys(net, events, worlds, n);
    if n > 0 {
      hide JobFrom, InnerAfter, Honest;
      JobFromAt(net, events, worlds, r, q, n - 1);
      StepAt(net, events, worlds, n - 1);
      JobFromStep(net, events, worlds[n - 1], worlds[n], r, q, n - 1);
    }
  }

  // ---------------------------------------------------------------- bounded staleness

  /** allow.txt is the original, or what a store snapshot gave. */
  ghost predicate OriginalOrSnapshot(net: Net, events: seq<Event>, worlds: seq<World>, r: string, n: nat)
    requires |worlds| == |events| + 1 && n <= |events| && r in net.places
    requires r in worlds[0].inner && r in worlds[n].inner && r in net.setup.receivers
  {
    var allow, files := net.places[r].cfg.allow, worlds[n].inner[r].dir.files;
    || P.SameAt(worlds[0].inner[r].dir.files, files, allow)
    || (allow in files && D.FromSnapshot(net.setup, Moves(events, worlds), Outers(worlds), r, files[allow], n))
  }

  /** The list of an accepted job comes from a snapshot. */
  lemma AcceptedFromSnapshot(net: Net, events: seq<Event>, worlds: seq<World>, r: string, job: P.Job, n: nat)
    requires Run(net, events, worlds) && n <= |events| && r in net.places && AcceptedBefore(events, r, job, n)
    ensures D.FromSnapshot(net.setup, Moves(events, worlds), Outers(worlds), r, job.allow, n)
  {
    var j: nat :| j < n && events[j].Accepts? && events[j].receiver == r && events[j].start.job == job;
    var start := events[j].start;
    OuterRun(net, events, worlds);
    StepAt(net, events, worlds, j);
    AcceptedApplies(net, worlds[j], r, events[j].pid, start);
    hide D.Run, D.Applies, D.Explains, Honest, Step, Run;
    var i := D.AppliedExplained(net.setup, Moves(events, worlds), Outers(worlds), j);
    assert job.allow == AllowText(start.cidrs);
  }

  /** Bounded staleness down to the file operations: at every instant of every interleaving
      of the server, the network, and on each receiver any number of processes that may fail
      or die at any operation, allow.txt is the original or, complete, what a store snapshot
      gave that was less than five minutes old when a process of that receiver read its
      clock. */
  lemma StalenessInterleaved(net: Net, events: seq<Event>, worlds: seq<World>, r: string, n: nat)
    requires Run(net, events, worlds) && n <= |events| && r in net.places
    ensures r in worlds[0].inner && r in worlds[n].inner
    ensures OriginalOrSnapshot(net, events, worlds, r, n)
  {
    InnerInv(net, events, worlds, r, n);
    var w, start := worlds[n].inner[r], worlds[0].inner[r].dir.files;
    if w.log != [] {
      var last := P.LastReplaced(net.places[r], w, start);
      JobFromAt(net, events, worlds, r, last, n);
      AcceptedFromSnapshot(net, events, worlds, r, P.ProcOf(w, last).job, n);
    }
  }
}
