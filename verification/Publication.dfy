/** Any number of receive processes on the same three files, interleaved at single
    file operations, each of which may fail; a process may also die at any point. */
module Publication {
  import opened Text
  import opened Signer
  import opened Store
  import opened Pipeline
  import opened AtomicFile
  import opened Receive
  import Json
  import Ipx

  /** The files a run writes, in order; allow.txt is the last. */
  datatype Stage = Inbox | State | Allow

  /** The settings, and the temp names in the order they are given out. */
  datatype System = System(cfg: Config, names: nat -> nat) {
    function PathOf(stage: Stage): Path {
      match stage
      case Inbox => cfg.inbox
      case State => cfg.state
      case Allow => cfg.allow
    }

    function TempPath(slot: nat): Path {
      Temp(names(slot))
    }
  }

  /** No temp name is given out twice. */
  ghost predicate Unique(names: nat -> nat) {
    forall a: nat, b: nat :: a != b ==> names(a) != names(b)
  }

  /** What an accepted run sets out to write. */
  datatype Job = Job(inbox: string, state: string, allow: string) {
    function Content(stage: Stage): string {
      match stage
      case Inbox => inbox
      case State => state
      case Allow => allow
    }
  }

  /** The next operation of atomicfile.write, with the slot of its temp name. */
  datatype Op =
    | Mkdir
    | Create
    | Write(slot: nat, done: nat)
    | Sync(slot: nat)
    | Close(slot: nat)
    | Chmod(slot: nat)
    | Rename(slot: nat)
    | Cleanup(slot: nat, renamed: bool)

  datatype Pc = Begin | At(stage: Stage, op: Op) | Returned(ok: bool) | Dead

  /** `replaced` records whether this process has renamed its allow.txt into place. */
  datatype Proc = Proc(pc: Pc, job: Job, replaced: bool)

  /** The directory: its files and how many temp names have been given out. */
  datatype Dir = Dir(files: Files, next: nat)

  /** `log` lists the processes that replaced allow.txt, in order. */
  datatype World = World(dir: Dir, procs: map<nat, Proc>, log: seq<nat>)

  /** How the operation goes. Accept and Refuse end the verification. */
  datatype Choice =
    | Accept(job: Job)
    | Refuse
    | Succeed
    | Fail
    | Partial(more: nat)
    | Die

  /** The job of some input that verification accepts. */
  ghost predicate Accepted(cfg: Config, mac: Mac, job: Job) {
    exists s: Stream, now: int, pulledAt: string, cidrs: seq<string> :: AcceptedInput(cfg, mac, job, s, now, pulledAt, cidrs)
  }

  ghost predicate AcceptedInput(
      cfg: Config, mac: Mac, job: Job, s: Stream, now: int, pulledAt: string, cidrs: seq<string>) {
    && Judge(s, cfg, mac, now).Proceed?
    && job.inbox == s.data
    && job.allow == AllowText(cidrs)
    && Publishes(cidrs, Judge(s, cfg, mac, now).env.entries, CanonFor(cfg.params), now)
    && StateText(job.state, pulledAt, KeptOf(Judge(s, cfg, mac, now).env.entries, CanonFor(cfg.params), now))
  }

  ghost predicate StateText(text: string, pulledAt: string, kept: seq<Entry>) {
    WritableEntries(kept) && text == Json.Indented(StateValue(pulledAt, "stdin", kept))
  }

  // ---------------------------------------------------------------- steps

  function TempOf(pc: Pc): Option<nat> {
    if !pc.At? || pc.op.Mkdir? || pc.op.Create? then None else Some(pc.op.slot)
  }

  /** Where a process goes after the clean-up of one file. */
  function AfterCleanup(stage: Stage, renamed: bool): Pc {
    if !renamed then Returned(false)
    else
      match stage
      case Inbox => At(Stage.State, Mkdir)
      case State => At(Allow, Mkdir)
      case Allow => Returned(true)
  }

  function Min(a: nat, b: nat): nat {
    if a <= b then a else b
  }

  /** One operation of a process: the directory and the process after it. */
  function Act(sys: System, d: Dir, p: Proc, c: Choice): (Dir, Proc) {
    match p.pc
    case Returned(_) => (d, p)
    case Dead => (d, p)
    case Begin =>
      (match c
       case Accept(job) => (d, p.(pc := At(Inbox, Mkdir), job := job))
       case Refuse => (d, p.(pc := Returned(false)))
       case Die => (d, p.(pc := Dead))
       case _ => (d, p))
    case At(stage, op) =>
      (match c
       case Die => (d, p.(pc := Dead))
       case Succeed => Succeeds(sys, d, p, stage, op)
       case Fail => (d, p.(pc := AfterFailure(stage, op)))
       case Partial(more) => if op.Write? then WritesSome(sys, d, p, stage, op, more) else (d, p)
       case _ => (d, p))
  }

  /** A write goes to the file that was created; one whose name is gone stays out of sight. */
  function Written(sys: System, d: Dir, slot: nat, text: string): Dir {
    if sys.TempPath(slot) in d.files then d.(files := d.files[sys.TempPath(slot) := text]) else d
  }

  function WritesSome(sys: System, d: Dir, p: Proc, stage: Stage, op: Op, more: nat): (Dir, Proc)
    requires op.Write?
  {
    var done := Min(op.done + more, |p.job.Content(stage)|);
    (Written(sys, d, op.slot, p.job.Content(stage)[..done]), p.(pc := At(stage, Write(op.slot, done))))
  }

  /** The temp file is created only under a name that is free; otherwise the next is tried.
      Chmod and rename go by name and need the file to be there. */
  function Succeeds(sys: System, d: Dir, p: Proc, stage: Stage, op: Op): (Dir, Proc) {
    match op
    case Mkdir => (d, p.(pc := At(stage, Create)))
    case Create =>
      if sys.TempPath(d.next) in d.files then (d.(next := d.next + 1), p)
      else (Dir(d.files[sys.TempPath(d.next) := ""], d.next + 1), p.(pc := At(stage, Write(d.next, 0))))
    case Write(slot, _) => (Written(sys, d, slot, p.job.Content(stage)), p.(pc := At(stage, Sync(slot))))
    case Sync(slot) => (d, p.(pc := At(stage, Close(slot))))
    case Close(slot) => (d, p.(pc := At(stage, Chmod(slot))))
    case Chmod(slot) =>
      if sys.TempPath(slot) in d.files then (d, p.(pc := At(stage, Rename(slot))))
      else (d, p.(pc := At(stage, Cleanup(slot, false))))
    case Rename(slot) =>
      if sys.TempPath(slot) !in d.files then (d, p.(pc := At(stage, Cleanup(slot, false))))
      else
        (d.(files := Renamed(d.files, sys.TempPath(slot), sys.PathOf(stage))),
         p.(pc := At(stage, Cleanup(slot, true)), replaced := p.replaced || stage == Allow))
    case Cleanup(slot, renamed) =>
      (d.(files := d.files - {sys.TempPath(slot)}), p.(pc := AfterCleanup(stage, renamed)))
  }

  /** A failure before the rename is cleaned up; a failing clean-up is ignored. */
  function AfterFailure(stage: Stage, op: Op): Pc {
    match op
    case Mkdir => Returned(false)
    case Create => Returned(false)
    case Cleanup(_, renamed) => AfterCleanup(stage, renamed)
    case _ => At(stage, Cleanup(op.slot, false))
  }

  datatype Turn = Turn(pid: nat, choice: Choice)

  const IDLE := Proc(Begin, Job("", "", ""), false)

  /** A process not seen before has not begun. */
  function ProcOf(w: World, pid: nat): Proc {
    if pid in w.procs then w.procs[pid] else IDLE
  }

  /** A process takes its next operation. */
  function Step(sys: System, w: World, t: Turn): World {
    var p := ProcOf(w, t.pid);
    var (d, p') := Act(sys, w.dir, p, t.choice);
    World(d, w.procs[t.pid := p'], if p'.replaced && !p.replaced then w.log + [t.pid] else w.log)
  }

  ghost predicate Run(sys: System, mac: Mac, turns: seq<Turn>, worlds: seq<World>) {
    && |worlds| == |turns| + 1
    && worlds[0].procs == map[] && worlds[0].log == []
    && (forall i :: 0 <= i < |turns| ==> worlds[i + 1] == Step(sys, worlds[i], turns[i]))
    && (forall i :: 0 <= i < |turns| && turns[i].choice.Accept? ==> Accepted(sys.cfg, mac, turns[i].choice.job))
  }

  // ------------------------------------------------------- one process at a time

  /** The temp file exists from its creation to its rename. */
  predicate Holds(op: Op) {
    op.Write? || op.Sync? || op.Close? || op.Chmod? || op.Rename?
  }

  /** A process's temp file is one already given out, and from the end of the write
      to the rename it holds the whole content. */
  ghost predicate ProcOk(sys: System, d: Dir, p: Proc) {
    && (TempOf(p.pc).Some? ==> TempOf(p.pc).value < d.next)
    && (p.pc.At? && Holds(p.pc.op) ==>
          && sys.TempPath(p.pc.op.slot) in d.files
          && (p.pc.op.Write? || d.files[sys.TempPath(p.pc.op.slot)] == p.job.Content(p.pc.stage)))
    && (Replaced(p.pc) ==> p.replaced) && (p.replaced ==> Replaced(p.pc) || p.pc == Dead)
  }

  /** The places in the program after the rename of allow.txt. */
  predicate Replaced(pc: Pc) {
    pc == Returned(true) || (pc.At? && pc.stage == Allow && pc.op.Cleanup? && pc.op.renamed)
  }

  ghost predicate SameAt(a: Files, b: Files, p: Path) {
    (p in a <==> p in b) && (p in a ==> a[p] == b[p])
  }

  /** The files a process may touch: its own temp file, a new one, and one target,
      which is allow.txt only when it replaces it. */
  ghost predicate Touches(sys: System, d: Dir, p: Proc, d': Dir, p': Proc) {
    && d.next <= d'.next
    && (forall k: nat :: k < d.next && TempOf(p.pc) != Some(k) ==> SameAt(d.files, d'.files, sys.TempPath(k)))
    && (TempOf(p'.pc) == TempOf(p.pc) || TempOf(p'.pc) == None || TempOf(p'.pc) == Some(d.next))
    && (p'.replaced == p.replaced ==> SameAt(d.files, d'.files, sys.cfg.allow))
    && (p'.replaced != p.replaced ==>
          p'.replaced && sys.cfg.allow in d'.files && d'.files[sys.cfg.allow] == p.job.allow && p'.job == p.job)
    && (p.replaced ==> p'.job == p.job)
  }

  lemma SucceedsOk(sys: System, d: Dir, p: Proc, stage: Stage, op: Op)
    requires Distinct(sys.cfg) && Unique(sys.names) && ProcOk(sys, d, p) && p.pc == At(stage, op)
    ensures var (d', p') := Succeeds(sys, d, p, stage, op); ProcOk(sys, d', p') && Touches(sys, d, p, d', p')
  {
    match op {
      case Rename(slot) =>
        RenameOk(sys, d, p, stage, slot);
      case _ =>
    }
  }

  lemma RenameOk(sys: System, d: Dir, p: Proc, stage: Stage, slot: nat)
    requires Distinct(sys.cfg) && Unique(sys.names) && ProcOk(sys, d, p) && p.pc == At(stage, Op.Rename(slot))
    ensures var (d', p') := Succeeds(sys, d, p, stage, p.pc.op); ProcOk(sys, d', p') && Touches(sys, d, p, d', p')
  {
    assert stage != Allow ==> sys.PathOf(stage) != sys.cfg.allow;
  }

  /** An operation that needs the temp file and does not find it fails the write. */
  lemma MissingTempFails(sys: System, d: Dir, p: Proc, stage: Stage, op: Op)
    requires (op.Chmod? || op.Rename?) && sys.TempPath(op.slot) !in d.files
    ensures var (d', p') := Succeeds(sys, d, p, stage, op);
            && d' == d && p'.pc == At(stage, Cleanup(op.slot, false)) && p'.replaced == p.replaced
            && Succeeds(sys, d', p', stage, p'.pc.op).1.pc == Returned(false)
  {
  }

  lemma ActOk(sys: System, d: Dir, p: Proc, c: Choice)
    requires Distinct(sys.cfg) && Unique(sys.names) && ProcOk(sys, d, p)
    ensures var (d', p') := Act(sys, d, p, c); ProcOk(sys, d', p') && Touches(sys, d, p, d', p')
  {
    match p.pc {
      case At(stage, op) =>
        if c.Succeed? {
          SucceedsOk(sys, d, p, stage, op);
        }
      case _ =>
    }
  }

  // ---------------------------------------------------------------- all of them

  ghost predicate ProcsOk(sys: System, d: Dir, procs: map<nat, Proc>) {
    && (forall q :: q in procs ==> ProcOk(sys, d, procs[q]))
    && (forall a, b :: a in procs && b in procs && a != b && TempOf(procs[a].pc).Some? ==>
          TempOf(procs[a].pc) != TempOf(procs[b].pc))
  }

  /** allow.txt is what the last process to replace it wrote, or as at the start. */
  ghost predicate AllowIs(cfg: Config, w: World, start: Files) {
    if w.log == [] then SameAt(start, w.dir.files, cfg.allow)
    else
      var last := w.log[|w.log| - 1];
      last in w.procs && cfg.allow in w.dir.files && w.dir.files[cfg.allow] == w.procs[last].job.allow
  }

  ghost predicate Inv(sys: System, w: World, start: Files) {
    && ProcsOk(sys, w.dir, w.procs)
    && (forall q :: q in w.log <==> q in w.procs && w.procs[q].replaced)
    && AllowIs(sys.cfg, w, start)
  }

  /** Another process does not notice. */
  lemma OthersOk(sys: System, d: Dir, p: Proc, d': Dir, p': Proc, q: Proc)
    requires Touches(sys, d, p, d', p') && ProcOk(sys, d, q)
    requires TempOf(q.pc).Some? ==> TempOf(q.pc) != TempOf(p.pc)
    ensures ProcOk(sys, d', q)
    ensures TempOf(q.pc).Some? ==> TempOf(q.pc) != TempOf(p'.pc)
  {
    if TempOf(q.pc).Some? {
      assert SameAt(d.files, d'.files, sys.TempPath(TempOf(q.pc).value));
    }
  }

  lemma ProcsStep(sys: System, d: Dir, procs: map<nat, Proc>, pid: nat, p: Proc, d': Dir, p': Proc)
    requires ProcsOk(sys, d, procs) && Touches(sys, d, p, d', p') && ProcOk(sys, d', p')
    requires if pid in procs then p == procs[pid] else TempOf(p.pc) == None
    ensures ProcsOk(sys, d', procs[pid := p'])
  {
    forall q | q in procs && q != pid
      ensures ProcOk(sys, d', procs[q])
      ensures TempOf(procs[q].pc).Some? ==> TempOf(procs[q].pc) != TempOf(p'.pc)
    {
      OthersOk(sys, d, p, d', p', procs[q]);
    }
  }

  lemma LogStep(sys: System, w: World, pid: nat, p: Proc, d': Dir, p': Proc, start: Files)
    requires Inv(sys, w, start) && Touches(sys, w.dir, p, d', p') && p == ProcOf(w, pid)
    ensures var w' := World(d', w.procs[pid := p'], if p'.replaced && !p.replaced then w.log + [pid] else w.log);
            && AllowIs(sys.cfg, w', start)
            && forall q :: q in w'.log <==> q in w'.procs && w'.procs[q].replaced
  {
    if w.log != [] {
      assert w.log[|w.log| - 1] in w.log;
    }
  }

  lemma ProcOfOk(sys: System, w: World, pid: nat, start: Files)
    requires Inv(sys, w, start)
    ensures ProcOk(sys, w.dir, ProcOf(w, pid))
  {
  }

  lemma StepInv(sys: System, w: World, t: Turn, start: Files)
    requires Distinct(sys.cfg) && Unique(sys.names) && Inv(sys, w, start)
    ensures Inv(sys, Step(sys, w, t), start)
  {
    var p := ProcOf(w, t.pid);
    var (d', p') := Act(sys, w.dir, p, t.choice);
    ProcOfOk(sys, w, t.pid, start);
    ActOk(sys, w.dir, p, t.choice);
    ProcsStep(sys, w.dir, w.procs, t.pid, p, d', p');
    LogStep(sys, w, t.pid, p, d', p', start);
  }

  lemma {:induction false} InvAt(sys: System, mac: Mac, turns: seq<Turn>, worlds: seq<World>, n: nat)
    requires Distinct(sys.cfg) && Unique(sys.names) && Run(sys, mac, turns, worlds) && n <= |turns|
    ensures Inv(sys, worlds[n], worlds[0].dir.files)
  {
    if n > 0 {
      hide Inv, Step, Unique, Distinct;
      InvAt(sys, mac, turns, worlds, n - 1);
      StepInv(sys, worlds[n - 1], turns[n - 1], worlds[0].dir.files);
      StepOf(sys, mac, turns, worlds, n - 1);
    }
  }

  lemma StepOf(sys: System, mac: Mac, turns: seq<Turn>, worlds: seq<World>, i: nat)
    requires Run(sys, mac, turns, worlds) && i < |turns|
    ensures worlds[i + 1] == Step(sys, worlds[i], turns[i])
    ensures turns[i].choice.Accept? ==> Accepted(sys.cfg, mac, turns[i].choice.job)
  {
  }

  predicate UnderWay(p: Proc) {
    p.pc.At? || p.replaced
  }

  /** A job under way was just accepted, or was under way before. */
  lemma JobKept(sys: System, d: Dir, p: Proc, c: Choice)
    ensures var p' := Act(sys, d, p, c).1;
            UnderWay(p') ==> (c.Accept? && p'.job == c.job) || (UnderWay(p) && p'.job == p.job)
  {
  }

  lemma JobKeptBy(sys: System, w: World, t: Turn, q: nat)
    ensures var p, p' := ProcOf(w, q), ProcOf(Step(sys, w, t), q);
            UnderWay(p') ==>
              (t.pid == q && t.choice.Accept? && p'.job == t.choice.job) || (UnderWay(p) && p'.job == p.job)
  {
    if t.pid == q {
      JobKept(sys, w.dir, ProcOf(w, q), t.choice);
    }
  }

  /** A process under way is about an accepted input. */
  ghost predicate JobOk(cfg: Config, mac: Mac, p: Proc) {
    UnderWay(p) ==> Accepted(cfg, mac, p.job)
  }

  lemma JobStep(sys: System, mac: Mac, w: World, t: Turn, q: nat)
    requires t.choice.Accept? ==> Accepted(sys.cfg, mac, t.choice.job)
    ensures JobOk(sys.cfg, mac, ProcOf(w, q)) ==> JobOk(sys.cfg, mac, ProcOf(Step(sys, w, t), q))
  {
    if t.pid == q {
      JobKept(sys, w.dir, ProcOf(w, q), t.choice);
    }
  }

  lemma JobNext(sys: System, mac: Mac, turns: seq<Turn>, worlds: seq<World>, i: nat, q: nat)
    requires Run(sys, mac, turns, worlds) && i < |turns|
    ensures JobOk(sys.cfg, mac, ProcOf(worlds[i], q)) ==> JobOk(sys.cfg, mac, ProcOf(worlds[i + 1], q))
  {
    StepOf(sys, mac, turns, worlds, i);
    JobStep(sys, mac, worlds[i], turns[i], q);
  }

  /** The jobs of the processes under way are accepted ones. */
  lemma {:induction false} JobsAccepted(sys: System, mac: Mac, turns: seq<Turn>, worlds: seq<World>, n: nat, q: nat)
    requires Run(sys, mac, turns, worlds) && n <= |turns|
    ensures JobOk(sys.cfg, mac, ProcOf(worlds[n], q))
  {
    if n > 0 {
      JobsAccepted(sys, mac, turns, worlds, n - 1, q);
      JobNext(sys, mac, turns, worlds, n - 1, q);
    }
  }

  // ------------------------------------------------------------- main results

  /** The complete list of some accepted envelope. */
  ghost predicate CompleteList(cfg: Config, mac: Mac, text: string) {
    exists job: Job :: job.allow == text && Accepted(cfg, mac, job)
  }

  lemma AcceptedComplete(cfg: Config, mac: Mac, job: Job)
    requires Accepted(cfg, mac, job)
    ensures CompleteList(cfg, mac, job.allow)
  {
  }

  /** allow.txt is the original or one complete list. */
  ghost predicate AllowWhole(cfg: Config, mac: Mac, start: Files, files: Files) {
    SameAt(start, files, cfg.allow) || (cfg.allow in files && CompleteList(cfg, mac, files[cfg.allow]))
  }

  /** At every instant of every interleaving, allow.txt is the original or the
      complete list of one accepted envelope: never a mixture, a part or nothing. */
  lemma AllowAlwaysComplete(sys: System, mac: Mac, turns: seq<Turn>, worlds: seq<World>, n: nat)
    requires Distinct(sys.cfg) && Unique(sys.names) && Run(sys, mac, turns, worlds) && n <= |turns|
    ensures AllowWhole(sys.cfg, mac, worlds[0].dir.files, worlds[n].dir.files)
  {
    InvAt(sys, mac, turns, worlds, n);
    if worlds[n].log != [] {
      var last := LastReplaced(sys, worlds[n], worlds[0].dir.files);
      JobsAccepted(sys, mac, turns, worlds, n, last);
      AcceptedComplete(sys.cfg, mac, ProcOf(worlds[n], last).job);
    }
  }

  lemma LastReplaced(sys: System, w: World, start: Files) returns (q: nat)
    requires Inv(sys, w, start) && w.log != []
    ensures ProcOf(w, q).replaced
    ensures sys.cfg.allow in w.dir.files && w.dir.files[sys.cfg.allow] == ProcOf(w, q).job.allow
  {
    q := w.log[|w.log| - 1];
    assert q in w.log;
  }

  /** A run that reports success has replaced allow.txt; one that reports an error,
      of verification or of any write, has not. */
  lemma ReportsTruth(sys: System, mac: Mac, turns: seq<Turn>, worlds: seq<World>, n: nat, q: nat)
    requires Distinct(sys.cfg) && Unique(sys.names) && Run(sys, mac, turns, worlds) && n <= |turns|
    requires q in worlds[n].procs && worlds[n].procs[q].pc.Returned?
    ensures q in worlds[n].log <==> worlds[n].procs[q].pc.ok
  {
    InvAt(sys, mac, turns, worlds, n);
    assert ProcOk(sys, worlds[n].dir, worlds[n].procs[q]);
  }

  /** The process is between the creation of this temp file and the end of its clean-up. */
  ghost predicate HasTemp(sys: System, p: Proc, f: Path) {
    TempOf(p.pc).Some? && sys.TempPath(TempOf(p.pc).value) == f
  }

  /** It dies there, or its clean-up fails. */
  ghost predicate Abandons(sys: System, w: World, t: Turn, f: Path) {
    var p := ProcOf(w, t.pid);
    HasTemp(sys, p, f) && (t.choice.Die? || (t.choice.Fail? && p.pc.op.Cleanup?))
  }

  /** A temp file that is not new is handed on, or abandoned by its process. */
  lemma TempStep(sys: System, w: World, t: Turn, f: Path, q: nat)
    requires Distinct(sys.cfg) && f.Temp? && HasTemp(sys, ProcOf(w, q), f) && f in Step(sys, w, t).dir.files
    ensures HasTemp(sys, ProcOf(Step(sys, w, t), q), f) || Abandons(sys, w, t, f)
  {
  }

  lemma TempNew(sys: System, w: World, t: Turn, f: Path)
    requires Distinct(sys.cfg) && f.Temp? && f !in w.dir.files && f in Step(sys, w, t).dir.files
    ensures HasTemp(sys, ProcOf(Step(sys, w, t), t.pid), f)
  {
  }

  /** No temp file is left behind: one that was not there at the start belongs to a process that
      is still writing, or one that died while it had it or failed to remove it. */
  lemma {:induction false} TempsHeld(sys: System, mac: Mac, turns: seq<Turn>, worlds: seq<World>, n: nat, f: Path)
    requires Distinct(sys.cfg) && Run(sys, mac, turns, worlds) && n <= |turns|
    requires f.Temp? && f in worlds[n].dir.files && f !in worlds[0].dir.files
    ensures || (exists q :: HasTemp(sys, ProcOf(worlds[n], q), f))
            || (exists i :: 0 <= i < n && Abandons(sys, worlds[i], turns[i], f))
  {
    hide Distinct, Step, HasTemp, Abandons;
    var m := n - 1;
    StepOf(sys, mac, turns, worlds, m);
    if f !in worlds[m].dir.files {
      TempNew(sys, worlds[m], turns[m], f);
    } else {
      TempsHeld(sys, mac, turns, worlds, m, f);
      if q :| HasTemp(sys, ProcOf(worlds[m], q), f) {
        TempStep(sys, worlds[m], turns[m], f, q);
      }
    }
  }

  /** Only a process that logs it changes allow.txt, and it writes its own list. */
  lemma ChangesAreLogged(sys: System, mac: Mac, turns: seq<Turn>, worlds: seq<World>, n: nat)
    requires Distinct(sys.cfg) && Unique(sys.names) && Run(sys, mac, turns, worlds) && n < |turns|
    ensures worlds[n + 1].log == worlds[n].log ==> SameAt(worlds[n].dir.files, worlds[n + 1].dir.files, sys.cfg.allow)
    ensures worlds[n + 1].log != worlds[n].log ==>
              && worlds[n + 1].log == worlds[n].log + [turns[n].pid]
              && turns[n].pid !in worlds[n].log
              && sys.cfg.allow in worlds[n + 1].dir.files
              && worlds[n + 1].dir.files[sys.cfg.allow] == worlds[n + 1].procs[turns[n].pid].job.allow
  {
    InvAt(sys, mac, turns, worlds, n);
    StepOf(sys, mac, turns, worlds, n);
    ProcOfOk(sys, worlds[n], turns[n].pid, worlds[0].dir.files);
    ActOk(sys, worlds[n].dir, ProcOf(worlds[n], turns[n].pid), turns[n].choice);
  }
}
