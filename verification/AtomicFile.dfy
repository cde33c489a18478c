/** Publishing a file through a temp file in its directory and a rename. */
module AtomicFile {
  /** Temp names come from a counter: none is ever given out twice. */
  datatype Path = Named(name: string) | Temp(n: nat)

  type Files = map<Path, string>

  function Renamed(files: Files, from: Path, to: Path): Files
    requires from in files
  {
    (files - {from})[to := files[from]]
  }

  /** None of `n` operations from number `from` on fails. */
  ghost predicate NoFault(fails: nat -> bool, from: nat, n: nat) {
    forall i :: from <= i < from + n ==> !fails(i)
  }

  /** One directory's worth of a file system. Its operations are numbered as they happen;
      `fails` says which of them fail and `parts` how much a failing write leaves. */
  class FileSystem {
    const fails: nat -> bool
    const parts: nat -> nat
    var ops: nat
    var files: Files
    var next: nat

    ghost predicate Valid()
      reads this
    {
      forall p :: p in files && p.Temp? ==> p.n < next
    }

    constructor (found: Files, from: nat, fails: nat -> bool, parts: nat -> nat)
      requires forall p :: p in found && p.Temp? ==> p.n < from
      ensures Valid() && files == found && ops == 0
      ensures this.fails == fails && this.parts == parts
    {
      files, next, ops := found, from, 0;
      this.fails, this.parts := fails, parts;
    }

    /** An operation without effect on file contents: mkdir, fsync, close, chmod. */
    method Attempt() returns (ok: bool)
      modifies this`ops
      ensures ops == old(ops) + 1 && ok == !fails(old(ops))
    {
      ok := !fails(ops);
      ops := ops + 1;
    }

    method CreateTemp() returns (ok: bool, tmp: Path)
      requires Valid()
      modifies this
      ensures Valid() && ops == old(ops) + 1 && ok == !fails(old(ops))
      ensures ok ==> tmp.Temp? && tmp !in old(files) && files == old(files)[tmp := ""]
      ensures !ok ==> files == old(files)
    {
      ok := Attempt();
      tmp := Temp(next);
      if ok {
        files, next := files[tmp := ""], next + 1;
      }
    }

    /** A failed write may leave any part of the data. */
    method WriteData(tmp: Path, data: string) returns (ok: bool)
      requires Valid() && tmp in files
      modifies this`files, this`ops
      ensures Valid() && ops == old(ops) + 1 && ok == !fails(old(ops))
      ensures exists k :: 0 <= k <= |data| && files == old(files)[tmp := data[..k]] && (ok ==> k == |data|)
    {
      var left := parts(ops);
      ok := Attempt();
      var k := if ok || left > |data| then |data| else left;
      files := files[tmp := data[..k]];
    }

    method Rename(from: Path, to: Path) returns (ok: bool)
      requires Valid() && from in files && to.Named?
      modifies this`files, this`ops
      ensures Valid() && ops == old(ops) + 1 && ok == !fails(old(ops))
      ensures files == if ok then Renamed(old(files), from, to) else old(files)
    {
      ok := Attempt();
      if ok {
        files := (files - {from})[to := files[from]];
      }
    }

    /** Errors are ignored, and so is a file that is no longer there. */
    method Remove(p: Path)
      requires Valid()
      modifies this`files, this`ops
      ensures Valid() && ops == old(ops) + 1
      ensures files == if fails(old(ops)) then old(files) else old(files) - {p}
    {
      var ok := Attempt();
      if ok {
        files := files - {p};
      }
    }

    /** Succeeds exactly when none of its operations up to the rename fails. Success means
        that the whole of `data` is at `path` and nothing else has changed; failure changes
        nothing but for a new temp file, which stays only if its removal fails too. */
    method Write(path: Path, data: string) returns (ok: bool)
      requires Valid() && path.Named?
      modifies this
      ensures Valid()
      ensures ok <==> NoFault(fails, old(ops), 6)
      ensures ok ==> ops == old(ops) + 7
      ensures ok ==> files == old(files)[path := data]
      ensures !ok ==> files == old(files) || (ops > 0 && fails(ops - 1) && LeftOver(old(files), files))
      ensures Frame(old(files), files, if ok then {path} else {})
    {
      var tmp: Path;
      ok, tmp := CreateTemp();
      if !ok {
        return;
      }
      ghost var before := old(files);
      assert tmp !in before && files - {tmp} == before;
      ok := WriteTemp(tmp, data);
      if ok {
        ok := Rename(tmp, path);
      }
      ghost var last := files;
      assert last - {tmp} == if ok then before[path := data] else before;
      assert ok ==> tmp !in last;
      Remove(tmp);  // deferred
    }

    /** The same, creating the directory first. */
    method WriteWithDir(path: Path, data: string) returns (ok: bool)
      requires Valid() && path.Named?
      modifies this
      ensures Valid()
      ensures ok <==> NoFault(fails, old(ops), 7)
      ensures ok ==> ops == old(ops) + 8
      ensures ok ==> files == old(files)[path := data]
      ensures !ok ==> files == old(files) || (ops > 0 && fails(ops - 1) && LeftOver(old(files), files))
      ensures Frame(old(files), files, if ok then {path} else {})
    {
      ok := Attempt();
      if ok {
        ok := Write(path, data);
      }
    }

    /** Everything between the creation and the rename. */
    method WriteTemp(tmp: Path, data: string) returns (ok: bool)
      requires Valid() && tmp in files
      modifies this`files, this`ops
      ensures Valid() && tmp in files
      ensures files - {tmp} == old(files) - {tmp}
      ensures ok <==> NoFault(fails, old(ops), 4)
      ensures ok ==> files[tmp] == data && ops == old(ops) + 4
    {
      ok := WriteData(tmp, data);
      if !ok {
        var _ := Attempt();  // close
        return;
      }
      ok := Attempt();  // fsync
      if !ok {
        var _ := Attempt();  // close
        return;
      }
      ok := Attempt();  // close
      if !ok {
        return;
      }
      ok := Attempt();  // chmod
    }
  }

  /** Named files outside `changed`, and temp files that existed, are as before. */
  ghost predicate Frame(before: Files, after: Files, changed: set<Path>) {
    && (forall p :: p in before && p !in changed ==> p in after && after[p] == before[p])
    && (forall p :: p in after && p.Named? && p !in changed ==> p in before)
  }

  /** One temp file more than before. */
  ghost predicate LeftOver(before: Files, after: Files) {
    exists p: Path :: p.Temp? && p !in before && after - {p} == before
  }

  lemma FrameThen(a: Files, b: Files, c: Files, s: set<Path>, t: set<Path>)
    requires Frame(a, b, s) && Frame(b, c, t)
    ensures Frame(a, c, s + t)
  {
  }

  lemma FrameGrows(a: Files, b: Files, s: set<Path>, t: set<Path>)
    requires Frame(a, b, s) && s <= t
    ensures Frame(a, b, t)
  {
  }
}
