/** Runs of receive processes: that an undisturbed process finishes, what it leaves, and
    two runs that show why the premises of the publication theorem are needed. */
module PublicationRuns {
  import opened Text
  import opened Signer
  import opened Pipeline
  import opened AtomicFile
  import opened Receive
  import opened Publication
  import P = Publication
  import Json
  import Ipx

  // ---------------------------------------------------------------- progress

  function OpRank(op: Op): nat {
    match op
    case Mkdir => 8
    case Create => 7
    case Write(_, _) => 6
    case Sync(_) => 5
    case Close(_) => 4
    case Chmod(_) => 3
    case Rename(_) => 2
    case Cleanup(_, _) => 1
  }

  function StageRank(stage: Stage): nat {
    match stage
    case Inbox => 16
    case State => 8
    case Allow => 0
  }

  /** How many operations are left. */
  function Rank(pc: Pc): nat {
    if pc.At? then StageRank(pc.stage) + OpRank(pc.op) else 0
  }

  /** No operation has failed so far. */
  predicate OnTrack(pc: Pc) {
    pc == Returned(true) || (pc.At? && (pc.op.Cleanup? ==> pc.op.renamed))
  }

  ghost predicate NoTemps(files: Files) {
    forall p :: p in files ==> p.Named?
  }

  predicate NamedPaths(cfg: Config) {
    cfg.inbox.Named? && cfg.state.Named? && cfg.allow.Named?
  }

  /** The names still to be given out are free. */
  ghost predicate Fresh(sys: System, d: Dir) {
    forall k: nat :: k >= d.next ==> sys.TempPath(k) !in d.files
  }

  lemma ActFresh(sys: System, d: Dir, p: Proc, c: Choice)
    requires Unique(sys.names) && NamedPaths(sys.cfg) && Fresh(sys, d) && ProcOk(sys, d, p)
    ensures Fresh(sys, Act(sys, d, p, c).0)
  {
    var d' := Act(sys, d, p, c).0;
    forall k: nat | k >= d'.next ensures sys.TempPath(k) !in d'.files {
      assert sys.TempPath(k) !in d.files;
    }
  }

  lemma {:induction false} FreshAt(sys: System, mac: Mac, turns: seq<Turn>, worlds: seq<World>, n: nat)
    requires Distinct(sys.cfg) && Unique(sys.names) && P.Run(sys, mac, turns, worlds) && n <= |turns|
    requires NoTemps(worlds[0].dir.files)
    ensures Fresh(sys, worlds[n].dir)
  {
    if n > 0 {
      hide Fresh, Inv, ProcOk, P.Step, Act;
      FreshAt(sys, mac, turns, worlds, n - 1);
      InvAt(sys, mac, turns, worlds, n - 1);
      ProcOfOk(sys, worlds[n - 1], turns[n - 1].pid, worlds[0].dir.files);
      StepOf(sys, mac, turns, worlds, n - 1);
      ActFresh(sys, worlds[n - 1].dir, ProcOf(worlds[n - 1], turns[n - 1].pid), turns[n - 1].choice);
    }
  }

  /** An operation that does not fail brings a process one step nearer to its end. */
  lemma OneNearer(sys: System, d: Dir, p: Proc)
    requires ProcOk(sys, d, p) && OnTrack(p.pc)
    requires sys.TempPath(d.next) !in d.files
    ensures var p' := Act(sys, d, p, Succeed).1;
            OnTrack(p'.pc) && Rank(p'.pc) == if p.pc.At? then Rank(p.pc) - 1 else 0
  {
  }

  /** How many of the first `n` turns are the process's own. */
  function Own(turns: seq<Turn>, pid: nat, n: nat): nat
    requires n <= |turns|
  {
    if n == 0 then 0 else Own(turns, pid, n - 1) + if turns[n - 1].pid == pid then 1 else 0
  }

  /** The process's input is accepted and none of its operations fails. */
  ghost predicate Smooth(turns: seq<Turn>, pid: nat) {
    forall i :: 0 <= i < |turns| && turns[i].pid == pid ==>
      if Own(turns, pid, i) == 0 then turns[i].choice.Accept? else turns[i].choice.Succeed?
  }

  /** A process after `own` turns of its own: as many operations left as are missing. */
  predicate OnCourse(p: Proc, own: nat) {
    if own == 0 then p == IDLE
    else OnTrack(p.pc) && Rank(p.pc) == if own <= 25 then 25 - own else 0
  }

  /** What a turn needs of the world it is taken in. */
  lemma ReadyAt(sys: System, mac: Mac, turns: seq<Turn>, worlds: seq<World>, pid: nat, i: nat)
    requires Distinct(sys.cfg) && Unique(sys.names) && P.Run(sys, mac, turns, worlds) && i < |turns|
    requires NoTemps(worlds[0].dir.files)
    ensures Fresh(sys, worlds[i].dir) && ProcOk(sys, worlds[i].dir, ProcOf(worlds[i], pid))
    ensures worlds[i + 1] == P.Step(sys, worlds[i], turns[i])
  {
    StepOf(sys, mac, turns, worlds, i);
    InvAt(sys, mac, turns, worlds, i);
    ProcOfOk(sys, worlds[i], pid, worlds[0].dir.files);
    FreshAt(sys, mac, turns, worlds, i);
  }

  lemma TurnOnCourse(sys: System, mac: Mac, turns: seq<Turn>, worlds: seq<World>, pid: nat, i: nat)
    requires Distinct(sys.cfg) && Unique(sys.names) && P.Run(sys, mac, turns, worlds) && i < |turns|
    requires NoTemps(worlds[0].dir.files) && Smooth(turns, pid)
    ensures OnCourse(ProcOf(worlds[i], pid), Own(turns, pid, i)) ==>
              OnCourse(ProcOf(worlds[i + 1], pid), Own(turns, pid, i + 1))
  {
    ReadyAt(sys, mac, turns, worlds, pid, i);
    AnyTurn(sys, worlds[i], turns[i], pid, Own(turns, pid, i)) by {
      assert turns[i].pid == pid ==> if Own(turns, pid, i) == 0 then turns[i].choice.Accept? else turns[i].choice.Succeed?;
    }
  }

  lemma AnyTurn(sys: System, w: World, t: Turn, pid: nat, own: nat)
    requires Fresh(sys, w.dir) && ProcOk(sys, w.dir, ProcOf(w, pid))
    requires t.pid == pid ==> if own == 0 then t.choice.Accept? else t.choice.Succeed?
    ensures OnCourse(ProcOf(w, pid), own) ==>
              OnCourse(ProcOf(P.Step(sys, w, t), pid), own + if t.pid == pid then 1 else 0)
  {
    if t.pid == pid && OnCourse(ProcOf(w, pid), own) {
      OwnTurn(sys, w, t, own);
    }
  }

  lemma CourseStart(sys: System, mac: Mac, turns: seq<Turn>, worlds: seq<World>, pid: nat)
    requires P.Run(sys, mac, turns, worlds)
    ensures OnCourse(ProcOf(worlds[0], pid), Own(turns, pid, 0))
  {
  }

  lemma {:induction false} CourseAt(sys: System, mac: Mac, turns: seq<Turn>, worlds: seq<World>, pid: nat, n: nat)
    requires Distinct(sys.cfg) && Unique(sys.names) && P.Run(sys, mac, turns, worlds) && n <= |turns|
    requires NoTemps(worlds[0].dir.files) && Smooth(turns, pid)
    ensures OnCourse(ProcOf(worlds[n], pid), Own(turns, pid, n))
  {
    hide P.Run, OnCourse, Smooth, Distinct, Unique, NoTemps, ProcOf;
    if n == 0 {
      CourseStart(sys, mac, turns, worlds, pid);
    } else {
      var i: nat := n - 1;
      CourseAt(sys, mac, turns, worlds, pid, i);
      TurnOnCourse(sys, mac, turns, worlds, pid, i);
    }
  }

  /** Progress, in any company: whatever the other processes do, crash or fail at, a process
      of which nothing fails has as many operations left as it still misses turns, and
      after twenty-five turns has returned with success and replaced allow.txt. */
  lemma Completes(sys: System, mac: Mac, turns: seq<Turn>, worlds: seq<World>, pid: nat, n: nat)
    requires Distinct(sys.cfg) && Unique(sys.names) && P.Run(sys, mac, turns, worlds) && n <= |turns|
    requires NoTemps(worlds[0].dir.files) && Smooth(turns, pid)
    ensures 0 < Own(turns, pid, n) <= 25 ==> Rank(ProcOf(worlds[n], pid).pc) == 25 - Own(turns, pid, n)
    ensures Own(turns, pid, n) >= 25 ==> ProcOf(worlds[n], pid).pc == Returned(true) && pid in worlds[n].log
  {
    CourseAt(sys, mac, turns, worlds, pid, n);
    if Own(turns, pid, n) >= 25 {
      Finished(ProcOf(worlds[n], pid), Own(turns, pid, n));
      ReportsTruth(sys, mac, turns, worlds, n, pid);
    }
  }

  /** After its twenty-fifth turn it has returned with success. */
  lemma Finished(p: Proc, own: nat)
    requires OnCourse(p, own) && own >= 25
    ensures p.pc == Returned(true)
  {
  }

  lemma OwnTurn(sys: System, w: World, t: Turn, own: nat)
    requires OnCourse(ProcOf(w, t.pid), own) && Fresh(sys, w.dir) && ProcOk(sys, w.dir, ProcOf(w, t.pid))
    requires if own == 0 then t.choice.Accept? else t.choice.Succeed?
    ensures OnCourse(ProcOf(P.Step(sys, w, t), t.pid), own + 1)
  {
    var p := ProcOf(w, t.pid);
    if own > 0 {
      OneNearer(sys, w.dir, p);
    }
  }

  // ---------------------------------------------------------------- one process alone

  /** `n` operations in a row, none failing. */
  function Alone(sys: System, d: Dir, p: Proc, n: nat): (Dir, Proc) {
    if n == 0 then (d, p)
    else
      var (d', p') := Alone(sys, d, p, n - 1);
      Act(sys, d', p', Succeed)
  }

  ghost predicate HoldsAt(files: Files, path: Path, text: string) {
    path in files && files[path] == text
  }

  /** The files already published hold their content, each until a later one of the same
      path replaces it. */
  ghost predicate Landed(sys: System, files: Files, rank: nat, job: Job) {
    && (rank <= 17 && (Distinct(sys.cfg) || rank > 9) ==> HoldsAt(files, sys.cfg.inbox, job.inbox))
    && (rank <= 9 && (Distinct(sys.cfg) || rank > 1) ==> HoldsAt(files, sys.cfg.state, job.state))
    && (rank <= 1 ==> HoldsAt(files, sys.cfg.allow, job.allow))
  }

  /** A process alone in its directory, whatever the temp names are. */
  ghost predicate Solo(sys: System, start: Files, d: Dir, p: Proc, job: Job) {
    && p.job == job && OnTrack(p.pc) && (p.replaced <==> Rank(p.pc) <= 1)
    && (forall q :: q in d.files && q.Temp? ==> p.pc.At? && Holds(p.pc.op) && q == sys.TempPath(p.pc.op.slot))
    && (p.pc.At? && Holds(p.pc.op) ==>
          && sys.TempPath(p.pc.op.slot) in d.files
          && (p.pc.op.Write? || d.files[sys.TempPath(p.pc.op.slot)] == job.Content(p.pc.stage)))
    && Landed(sys, d.files, Rank(p.pc), job)
    && (forall q: Path :: q.Named? && q !in {sys.cfg.inbox, sys.cfg.state, sys.cfg.allow} ==> SameAt(start, d.files, q))
  }

  /** Operations that change no file. */
  lemma SoloQuiet(sys: System, start: Files, d: Dir, p: Proc, job: Job)
    requires Solo(sys, start, d, p, job) && p.pc.At?
    requires p.pc.op.Mkdir? || p.pc.op.Sync? || p.pc.op.Close? || p.pc.op.Chmod?
    ensures SoloNext(sys, start, d, p, job)
  {
  }

  lemma SoloCreate(sys: System, start: Files, d: Dir, p: Proc, job: Job)
    requires NamedPaths(sys.cfg) && Solo(sys, start, d, p, job) && p.pc.At? && p.pc.op.Create?
    ensures SoloNext(sys, start, d, p, job)
  {
  }

  lemma SoloWrite(sys: System, start: Files, d: Dir, p: Proc, job: Job)
    requires NamedPaths(sys.cfg) && Solo(sys, start, d, p, job) && p.pc.At? && p.pc.op.Write?
    ensures SoloNext(sys, start, d, p, job)
  {
  }

  lemma SoloRename(sys: System, start: Files, d: Dir, p: Proc, job: Job)
    requires NamedPaths(sys.cfg) && Solo(sys, start, d, p, job) && p.pc.At? && p.pc.op.Rename?
    ensures SoloNext(sys, start, d, p, job)
  {
    match p.pc.stage
    case Inbox =>
    case State =>
    case Allow =>
  }

  lemma SoloCleanup(sys: System, start: Files, d: Dir, p: Proc, job: Job)
    requires NamedPaths(sys.cfg) && Solo(sys, start, d, p, job) && p.pc.At? && p.pc.op.Cleanup?
    ensures SoloNext(sys, start, d, p, job)
  {
  }

  ghost predicate SoloNext(sys: System, start: Files, d: Dir, p: Proc, job: Job) {
    var (d', p') := Act(sys, d, p, Succeed);
    Solo(sys, start, d', p', job) && Rank(p'.pc) == if p.pc.At? then Rank(p.pc) - 1 else 0
  }

  lemma SoloStep(sys: System, start: Files, d: Dir, p: Proc, job: Job)
    requires NamedPaths(sys.cfg) && Solo(sys, start, d, p, job) && p.pc.At?
    ensures SoloNext(sys, start, d, p, job)
  {
    match p.pc.op
    case Create => SoloCreate(sys, start, d, p, job);
    case Write(_, _) => SoloWrite(sys, start, d, p, job);
    case Rename(_) => SoloRename(sys, start, d, p, job);
    case Cleanup(_, _) => SoloCleanup(sys, start, d, p, job);
    case _ => SoloQuiet(sys, start, d, p, job);
  }

  function Started(job: Job): Proc {
    Proc(At(Inbox, Mkdir), job, false)
  }

  lemma {:induction false} SoloAt(sys: System, d: Dir, job: Job, n: nat)
    requires NamedPaths(sys.cfg) && NoTemps(d.files) && n <= 24
    ensures var (d', p') := Alone(sys, d, Started(job), n);
            Solo(sys, d.files, d', p', job) && Rank(p'.pc) == 24 - n
  {
    if n > 0 {
      SoloAt(sys, d, job, n - 1);
      var (d', p') := Alone(sys, d, Started(job), n - 1);
      SoloStep(sys, d.files, d', p', job);
    }
  }

  /** A process alone and undisturbed ends with success and leaves what `Receive.Run`
      promises of a successful run: the three files complete, and nothing else changed. */
  lemma AloneSucceeds(sys: System, mac: Mac, d: Dir, job: Job)
    requires Distinct(sys.cfg) && NoTemps(d.files)
    ensures var (d', p') := Alone(sys, d, Started(job), 24);
            && p'.pc == Returned(true) && NoTemps(d'.files)
            && HoldsAt(d'.files, sys.cfg.inbox, job.inbox)
            && HoldsAt(d'.files, sys.cfg.state, job.state)
            && HoldsAt(d'.files, sys.cfg.allow, job.allow)
            && Frame(d.files, d'.files, {sys.cfg.inbox, sys.cfg.state, sys.cfg.allow})
  {
    SoloAt(sys, d, job, 24);
    var (d', p') := Alone(sys, d, Started(job), 24);
    forall q | q in d.files && q !in {sys.cfg.inbox, sys.cfg.state, sys.cfg.allow}
      ensures SameAt(d.files, d'.files, q)
    {
    }
  }

  // ---------------------------------------------------------------- playing turns

  function Play(sys: System, w: World, turns: seq<Turn>): World {
    if turns == [] then w
    else P.Step(sys, Play(sys, w, turns[..|turns| - 1]), turns[|turns| - 1])
  }

  function Worlds(sys: System, w: World, turns: seq<Turn>): (ws: seq<World>)
    ensures |ws| == |turns| + 1 && ws[0] == w && ws[|turns|] == Play(sys, w, turns)
  {
    if turns == [] then [w]
    else Worlds(sys, w, turns[..|turns| - 1]) + [Play(sys, w, turns)]
  }

  lemma {:induction false} WorldsStep(sys: System, w: World, turns: seq<Turn>, i: nat)
    requires i < |turns|
    ensures Worlds(sys, w, turns)[i + 1] == P.Step(sys, Worlds(sys, w, turns)[i], turns[i])
  {
    hide P.Step;
    var n := |turns| - 1;
    if i < n {
      WorldsStep(sys, w, turns[..n], i);
    }
  }

  lemma WorldsRun(sys: System, mac: Mac, w: World, turns: seq<Turn>)
    requires w.procs == map[] && w.log == []
    requires forall i :: 0 <= i < |turns| && turns[i].choice.Accept? ==> P.Accepted(sys.cfg, mac, turns[i].choice.job)
    ensures P.Run(sys, mac, turns, Worlds(sys, w, turns))
  {
    forall i | 0 <= i < |turns| ensures Worlds(sys, w, turns)[i + 1] == P.Step(sys, Worlds(sys, w, turns)[i], turns[i]) {
      WorldsStep(sys, w, turns, i);
    }
  }

  lemma PlayLast(sys: System, w: World, turns: seq<Turn>, t: Turn)
    ensures Play(sys, w, turns + [t]) == P.Step(sys, Play(sys, w, turns), t)
  {
    assert (turns + [t])[..|turns|] == turns;
  }

  lemma LastApart(a: seq<Turn>, b: seq<Turn>)
    requires b != []
    ensures var init, t := b[..|b| - 1], b[|b| - 1]; a + b == (a + init) + [t] && b == init + [t]
  {
  }

  lemma {:induction false} PlayBoth(sys: System, w: World, a: seq<Turn>, b: seq<Turn>)
    ensures Play(sys, w, a + b) == Play(sys, Play(sys, w, a), b)
  {
    if b == [] {
      assert a + b == a;
    } else {
      hide P.Step, Play;
      var init, t := b[..|b| - 1], b[|b| - 1];
      PlayBoth(sys, w, a, init);
      PlayLast(sys, w, a + init, t);
      PlayLast(sys, Play(sys, w, a), init, t);
      LastApart(a, b);
    }
  }

  lemma PlayOne(sys: System, w: World, t: Turn)
    ensures Play(sys, w, [t]) == P.Step(sys, w, t)
  {
    assert [t][..0] == [];
  }

  /** The process takes `n` turns of which none fails. */
  function Goes(pid: nat, n: nat): seq<Turn> {
    if n == 0 then [] else Goes(pid, n - 1) + [Turn(pid, Succeed)]
  }

  lemma {:induction false} PlayGoes(sys: System, w: World, pid: nat, n: nat)
    requires pid in w.procs && !Alone(sys, w.dir, w.procs[pid], n).1.replaced
    ensures var (d', p') := Alone(sys, w.dir, w.procs[pid], n);
            Play(sys, w, Goes(pid, n)) == World(d', w.procs[pid := p'], w.log)
  {
    if n > 0 {
      PlayGoes(sys, w, pid, n - 1);
      PlayBoth(sys, w, Goes(pid, n - 1), [Turn(pid, Succeed)]);
      PlayOne(sys, Play(sys, w, Goes(pid, n - 1)), Turn(pid, Succeed));
    } else {
      assert w.procs[pid := w.procs[pid]] == w.procs;
    }
  }

  /** A new process is accepted and takes `n` turns of which none fails. */
  function Starts(pid: nat, job: Job, n: nat): seq<Turn> {
    [Turn(pid, Accept(job))] + Goes(pid, n)
  }

  lemma PlayStarts(sys: System, w: World, pid: nat, job: Job, n: nat)
    requires pid !in w.procs && NamedPaths(sys.cfg) && NoTemps(w.dir.files) && n <= 22
    ensures var (d', p') := Alone(sys, w.dir, Started(job), n);
            Play(sys, w, Starts(pid, job, n)) == World(d', w.procs[pid := p'], w.log)
  {
    var w1 := World(w.dir, w.procs[pid := Started(job)], w.log);
    PlayBoth(sys, w, [Turn(pid, Accept(job))], Goes(pid, n));
    PlayOne(sys, w, Turn(pid, Accept(job)));
    SoloAt(sys, w.dir, job, n);
    PlayGoes(sys, w1, pid, n);
    assert w1.procs[pid := Alone(sys, w.dir, Started(job), n).1] == w.procs[pid := Alone(sys, w.dir, Started(job), n).1];
  }

  // ---------------------------------------------------------------- what is no list

  /** A published list is empty or ends with the end of its last line, and does not start
      with a brace. */
  lemma ListShape(cidrs: seq<string>, es: seq<Entry>, p: Params, now: int)
    requires Publishes(cidrs, es, CanonFor(p), now)
    ensures var t := AllowText(cidrs); t == "" || (t[|t| - 1] == '\n' && t[0] != '{')
  {
    if cidrs != [] {
      assert PublishedBy(cidrs[0], es, CanonFor(p), now);
      var e :| e in es && Keeps(e, CanonFor(p), now) && CanonFor(p)(e.cidr).value == cidrs[0];
      NoBrace(e.cidr, p);
      assert AllowText(cidrs)[0] == cidrs[0][0];
    }
  }

  lemma NoBrace(s: string, p: Params)
    requires CanonFor(p)(s).Some?
    ensures CanonFor(p)(s).value != "" && CanonFor(p)(s).value[0] != '{'
  {
    var n := Ipx.ParseCIDR(TrimSpace(s)).value;
    Ipx.NetTextChars(n, '{');
    assert Ipx.NetText(n)[|Ipx.IpString(Ipx.IpOf(n))|] == '/' && Ipx.NetText(n)[0] in Ipx.NetText(n);
  }

  lemma NotAList(cfg: Config, mac: Mac, text: string)
    requires text != "" && (text[|text| - 1] != '\n' || text[0] == '{')
    ensures !CompleteList(cfg, mac, text)
  {
    if job: Job :| job.allow == text && P.Accepted(cfg, mac, job) {
      var s, now, pulledAt, cidrs :| AcceptedInput(cfg, mac, job, s, now, pulledAt, cidrs);
      ListShape(cidrs, Judge(s, cfg, mac, now).env.entries, cfg.params, now);
    }
  }

  lemma StateStarts(cfg: Config, mac: Mac, job: Job)
    requires P.Accepted(cfg, mac, job)
    ensures job.state != "" && job.state[0] == '{'
  {
    var s, now, pulledAt, cidrs :| AcceptedInput(cfg, mac, job, s, now, pulledAt, cidrs);
    IndentedStarts(StateValue(pulledAt, "stdin", KeptOf(Judge(s, cfg, mac, now).env.entries, CanonFor(cfg.params), now)));
  }

  lemma IndentedStarts(v: Json.Value)
    requires v.Obj?
    ensures Json.Indented(v) != "" && Json.Indented(v)[0] == '{'
  {
    assert Json.Laid(v, "", 0, [])[0] == Json.Spaced("", Json.LBrace);
  }

  // ---------------------------------------------------------------- the premises

  /** Why the paths must be distinct: with the state record on allow.txt, one process of
      which nothing fails has, sixteen turns on, put its state record there. No process
      has replaced allow.txt, and what it holds is no list. */
  lemma CollidingPathsClobber(sys: System, mac: Mac, d: Dir, job: Job) returns (turns: seq<Turn>, worlds: seq<World>)
    requires NamedPaths(sys.cfg) && sys.cfg.state == sys.cfg.allow && NoTemps(d.files)
    requires P.Accepted(sys.cfg, mac, job)
    ensures P.Run(sys, mac, turns, worlds) && |turns| == 16 && worlds[0].dir == d && worlds[16].log == []
    ensures HoldsAt(worlds[16].dir.files, sys.cfg.allow, job.state)
    ensures !HoldsAt(d.files, sys.cfg.allow, job.state) ==>
              !AllowWhole(sys.cfg, mac, d.files, worlds[16].dir.files)
  {
    hide P.Run, Play, Worlds, Goes, AllowWhole, P.Accepted, HoldsAt, SameAt, NoTemps;
    var w := World(d, map[], []);
    turns, worlds := Starts(0, job, 15), Worlds(sys, w, Starts(0, job, 15));
    StartsTurns(0, job, 15);
    WorldsRun(sys, mac, w, turns);
    StateClobbered(sys, w, job);
    StateStarts(sys.cfg, mac, job);
    NotAList(sys.cfg, mac, job.state);
    NotWhole(sys.cfg, mac, d.files, worlds[16].dir.files, job.state);
  }

  lemma StartsTurns(pid: nat, job: Job, n: nat)
    ensures var turns := Starts(pid, job, n);
            |turns| == n + 1 && forall i :: 0 <= i <= n ==> turns[i].choice == Accept(job) || turns[i].choice == Succeed
  {
    GoesLength(pid, n);
  }

  lemma StateClobbered(sys: System, w: World, job: Job)
    requires NamedPaths(sys.cfg) && sys.cfg.state == sys.cfg.allow && NoTemps(w.dir.files)
    requires w.procs == map[] && w.log == []
    ensures var w' := Play(sys, w, Starts(0, job, 15));
            w'.log == [] && HoldsAt(w'.dir.files, sys.cfg.allow, job.state)
  {
    hide Play, Alone, Starts;
    PlayStarts(sys, w, 0, job, 15);
    SoloAt(sys, w.dir, job, 15);
  }

  /** What is neither the original nor a list. */
  lemma NotWhole(cfg: Config, mac: Mac, start: Files, files: Files, text: string)
    requires HoldsAt(files, cfg.allow, text) && !CompleteList(cfg, mac, text)
    ensures !HoldsAt(start, cfg.allow, text) ==> !AllowWhole(cfg, mac, start, files)
  {
    hide CompleteList;
  }

  lemma {:induction false} GoesLength(pid: nat, n: nat)
    ensures |Goes(pid, n)| == n && forall i :: 0 <= i < n ==> Goes(pid, n)[i] == Turn(pid, Succeed)
  {
    if n > 0 {
      GoesLength(pid, n - 1);
    }
  }

  /** Three processes under one temp name. The first has published its inbox file and still
      has its clean-up to do when the second has its list ready to be renamed. */
  function Overtaking(job: Job): seq<Turn> {
    Starts(0, job, 7) + Starts(1, job, 22)
  }

  /** The clean-up removes that file, and a third process begins its own under the name. */
  function Interference(job: Job): seq<Turn> {
    ([Turn(0, Succeed)] + (Starts(2, job, 2) + [Turn(2, Partial(1))])) + [Turn(1, Succeed)]
  }

  /** The inbox file is published and the clean-up is next. */
  predicate Sweeping(p: Proc) {
    p.pc.At? && p.pc.stage == Inbox && p.pc.op.Cleanup? && p.pc.op.renamed && !p.replaced
  }

  /** The list is complete in its temp file and the rename is next. */
  predicate Ready(p: Proc) {
    p.pc.At? && p.pc.stage == Allow && p.pc.op.Rename? && !p.replaced
  }

  ghost predicate OneTemp(files: Files, path: Path) {
    forall q :: q in files && q.Temp? ==> q == path
  }

  ghost predicate OneName(sys: System) {
    forall k :: sys.names(k) == sys.names(0)
  }

  lemma AloneToSweep(sys: System, d: Dir, job: Job)
    requires NamedPaths(sys.cfg) && NoTemps(d.files)
    ensures var (d', p') := Alone(sys, d, Started(job), 7); Sweeping(p') && NoTemps(d'.files)
  {
    SoloAt(sys, d, job, 7);
  }

  lemma AloneToRename(sys: System, d: Dir, job: Job)
    requires NamedPaths(sys.cfg) && NoTemps(d.files) && OneName(sys)
    ensures var (d', p') := Alone(sys, d, Started(job), 22); Ready(p') && OneTemp(d'.files, sys.TempPath(0))
  {
    SoloAt(sys, d, job, 22);
  }

  lemma AloneToWrite(sys: System, d: Dir, job: Job)
    requires NamedPaths(sys.cfg) && NoTemps(d.files) && OneName(sys)
    ensures var (d', p') := Alone(sys, d, Started(job), 2);
            && p'.pc.At? && p'.pc.stage == Inbox && p'.pc.op.Write? && p'.pc.op.done == 0 && p'.job == job && !p'.replaced
            && sys.TempPath(0) in d'.files
  {
    SoloAt(sys, d, job, 2);
    var (d1, p1) := Alone(sys, d, Started(job), 1);
    assert Alone(sys, d, Started(job), 0) == (d, Started(job));
    assert p1.pc == At(Inbox, Create) && d1 == d;
  }

  lemma Overtaken(sys: System, d: Dir, job: Job) returns (w: World)
    requires NamedPaths(sys.cfg) && NoTemps(d.files) && OneName(sys)
    ensures w == Play(sys, World(d, map[], []), Overtaking(job))
    ensures w.procs.Keys == {0, 1} && w.log == [] && OneTemp(w.dir.files, sys.TempPath(0))
    ensures Sweeping(w.procs[0]) && Ready(w.procs[1])
  {
    var start := World(d, map[], []);
    AloneToSweep(sys, d, job);
    PlayStarts(sys, start, 0, job, 7);
    var first := Play(sys, start, Starts(0, job, 7));
    AloneToRename(sys, first.dir, job);
    PlayStarts(sys, first, 1, job, 22);
    PlayBoth(sys, start, Starts(0, job, 7), Starts(1, job, 22));
    w := Play(sys, start, Overtaking(job));
  }

  /** The clean-up takes away a file of the name that is not its own. */
  lemma Swept(sys: System, w: World)
    requires OneName(sys) && OneTemp(w.dir.files, sys.TempPath(0))
    requires w.procs.Keys == {0, 1} && Sweeping(w.procs[0]) && Ready(w.procs[1])
    ensures var w' := P.Step(sys, w, Turn(0, Succeed));
            NoTemps(w'.dir.files) && w'.procs.Keys == {0, 1} && w'.procs[1] == w.procs[1]
  {
    assert sys.TempPath(w.procs[0].pc.op.slot) == sys.TempPath(0);
  }

  lemma Begun(sys: System, w: World, job: Job)
    requires NamedPaths(sys.cfg) && NoTemps(w.dir.files) && OneName(sys) && w.procs.Keys == {0, 1}
    requires Ready(w.procs[1]) && job.inbox != ""
    ensures var w' := Play(sys, w, Starts(2, job, 2) + [Turn(2, Partial(1))]);
            1 in w'.procs && w'.procs[1] == w.procs[1] && HoldsAt(w'.dir.files, sys.TempPath(0), job.inbox[..1])
  {
    AloneToWrite(sys, w.dir, job);
    PlayStarts(sys, w, 2, job, 2);
    PlayLast(sys, w, Starts(2, job, 2), Turn(2, Partial(1)));
    var begun := Play(sys, w, Starts(2, job, 2));
    var p := begun.procs[2];
    assert sys.TempPath(p.pc.op.slot) == sys.TempPath(0);
    assert Act(sys, begun.dir, p, Partial(1)) == WritesSome(sys, begun.dir, p, Inbox, p.pc.op, 1);
  }

  lemma Renames(sys: System, w: World, text: string)
    requires OneName(sys) && 1 in w.procs && Ready(w.procs[1]) && HoldsAt(w.dir.files, sys.TempPath(0), text)
    ensures HoldsAt(P.Step(sys, w, Turn(1, Succeed)).dir.files, sys.cfg.allow, text)
  {
    assert sys.TempPath(w.procs[1].pc.op.slot) == sys.TempPath(0);
  }

  /** A part of a file is under the name when the second process renames it. */
  lemma Interfered(sys: System, w: World, job: Job)
    requires NamedPaths(sys.cfg) && OneName(sys) && job.inbox != ""
    requires w.procs.Keys == {0, 1} && OneTemp(w.dir.files, sys.TempPath(0))
    requires Sweeping(w.procs[0]) && Ready(w.procs[1])
    ensures HoldsAt(Play(sys, w, Interference(job)).dir.files, sys.cfg.allow, job.inbox[..1])
  {
    var begins := Starts(2, job, 2) + [Turn(2, Partial(1))];
    PlayOne(sys, w, Turn(0, Succeed));
    var swept := P.Step(sys, w, Turn(0, Succeed));
    Swept(sys, w);
    Begun(sys, swept, job);
    PlayBoth(sys, w, [Turn(0, Succeed)], begins);
    PlayLast(sys, w, [Turn(0, Succeed)] + begins, Turn(1, Succeed));
    Renames(sys, Play(sys, swept, begins), job.inbox[..1]);
  }

  /** Why temp names must not be reused: under one name for all, three processes of which
      nothing fails and nobody dies publish a part of a file as allow.txt. */
  lemma ReusedNamePublishesPart(sys: System, mac: Mac, d: Dir, job: Job) returns (turns: seq<Turn>, worlds: seq<World>)
    requires Distinct(sys.cfg) && NoTemps(d.files) && OneName(sys)
    requires P.Accepted(sys.cfg, mac, job) && job.inbox != "" && job.inbox[0] != '\n'
    ensures P.Run(sys, mac, turns, worlds) && worlds[0].dir == d
    ensures forall i :: 0 <= i < |turns| ==> turns[i].choice.Accept? || turns[i].choice.Succeed? || turns[i].choice.Partial?
    ensures HoldsAt(worlds[|turns|].dir.files, sys.cfg.allow, job.inbox[..1])
    ensures !HoldsAt(d.files, sys.cfg.allow, job.inbox[..1]) ==>
              !AllowWhole(sys.cfg, mac, d.files, worlds[|turns|].dir.files)
  {
    hide P.Run, Play, Worlds, Overtaking, Interference, AllowWhole, P.Accepted, HoldsAt, NoTemps, OneName;
    var start := World(d, map[], []);
    turns := Overtaking(job) + Interference(job);
    worlds := Worlds(sys, start, turns);
    TurnsAccepted(job);
    WorldsRun(sys, mac, start, turns);
    var w := Overtaken(sys, d, job);
    Interfered(sys, w, job);
    PlayBoth(sys, start, Overtaking(job), Interference(job));
    NotAList(sys.cfg, mac, job.inbox[..1]);
    NotWhole(sys.cfg, mac, d.files, worlds[|turns|].dir.files, job.inbox[..1]);
  }

  lemma TurnsAccepted(job: Job)
    ensures var turns := Overtaking(job) + Interference(job);
            forall i :: 0 <= i < |turns| ==>
              turns[i].choice == Accept(job) || turns[i].choice.Succeed? || turns[i].choice.Partial?
  {
    GoesLength(0, 7);
    GoesLength(1, 22);
    GoesLength(2, 2);
  }
}
