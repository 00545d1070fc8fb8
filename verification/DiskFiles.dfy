/**
 Saving the accounts file atomically. The disk keeps a trace of every state it goes through,
 so that a crash at any moment can be spoken about.
 */
module DiskFiles {
  import opened Basics
  import opened Accounts
  import opened AccountsFile
  import opened AccountsMeaning

  type Files = map<string, string>

  function FileAt(files: Files, path: string): Option<string> {
    if path in files then Some(files[path]) else None
  }

  /** Which operations fail in a run; a failing write stops after some of the data. */
  datatype Faults = Faults(
    create: bool, chmod: bool, write: Option<nat>, close: bool, rename: bool, remove: bool)

  predicate Clean(f: Faults, data: string) {
    !f.create && !f.chmod && (f.write.None? || f.write.value >= |data|) && !f.close && !f.rename
  }

  /** In this state `path` holds the old file or the complete new one, and only `tmp` differs otherwise. */
  ghost predicate OldOrNew(state: Files, before: Files, path: string, tmp: string, data: string) {
    && (FileAt(state, path) == FileAt(before, path) || FileAt(state, path) == Some(data))
    && state - {path, tmp} == before - {path, tmp}
  }

  /** In this state the accounts load as before, or as before with exactly the given addresses rebound. */
  ghost predicate LoadsOldOrNew(state: Files, before: Files, path: string, servers: seq<Server>, acc: Account) {
    var was, now := Loaded(FileAt(before, path)), Loaded(FileAt(state, path));
    now == was || now == was + (map a | a in AddrsOf(servers) :: acc)
  }

  lemma CrashLeavesOldOrNewBindings(state: Files, before: Files, path: string, tmp: string,
                                    servers: seq<Server>, acc: Account)
    requires servers != [] && Overrides(FileAt(before, path), servers, acc)
    requires OldOrNew(state, before, path, tmp, SavedText(FileAt(before, path), servers, acc))
    ensures LoadsOldOrNew(state, before, path, servers, acc)
  {
    SaveOverridesIff(FileAt(before, path), servers, acc);
  }

  /** The primitive operations; each is atomic. */
  datatype Op = Create(path: string) | Append(path: string, c: char)
    | Rename(path: string, to: string) | Remove(path: string)

  function Apply(op: Op, files: Files): Files {
    match op
    case Create(p) => files[p := ""]
    case Append(p, c) => if p in files then files[p := files[p] + [c]] else files
    case Rename(p, q) => if p in files then (files - {p})[q := files[p]] else files
    case Remove(p) => files - {p}
  }

  /** One primitive operation leads from `a` to `b`. */
  ghost predicate IsStep(a: Files, b: Files) {
    exists op :: b == Apply(op, a)
  }

  class Disk {
    var files: Files
    ghost var trace: seq<Files>

    /** The trace is a history of primitive operations that ends in the present state. */
    ghost predicate Valid()
      reads this
    {
      && trace != [] && trace[|trace| - 1] == files
      && forall k :: 0 <= k < |trace| - 1 ==> IsStep(trace[k], trace[k + 1])
    }

    constructor (initial: Files)
      ensures Valid() && files == initial && trace == [initial]
    {
      files := initial;
      trace := [initial];
    }

    /** All states since `from` satisfy OldOrNew. */
    ghost predicate Safe(from: nat, before: Files, path: string, tmp: string, data: string)
      reads this
    {
      && from <= |trace|
      && forall k :: from <= k < |trace| ==> OldOrNew(trace[k], before, path, tmp, data)
    }

    method Do(op: Op)
      requires Valid()
      modifies this
      ensures Valid()
      ensures files == Apply(op, old(files)) && trace == old(trace) + [files]
    {
      files := Apply(op, files);
      assert IsStep(trace[|trace| - 1], files);
      trace := trace + [files];
    }

    /** tmp.Write: the data reaches the file piece by piece. */
    method Write(tmp: string, data: string, fault: Option<nat>) returns (err: bool)
      requires Valid() && tmp in files && files[tmp] == ""
      modifies this
      ensures Valid()
      ensures err <==> fault.Some? && fault.value < |data|
      ensures exists n :: 0 <= n <= |data| && files == old(files)[tmp := data[..n]] && (!err ==> n == |data|)
      ensures |old(trace)| <= |trace| && trace[..|old(trace)|] == old(trace)
      ensures forall k :: |old(trace)| <= k < |trace| ==> trace[k] - {tmp} == old(files) - {tmp}
    {
      assert files == files[tmp := data[..0]];
      for i := 0 to |data|
        invariant Valid()
        invariant files == old(files)[tmp := data[..i]]
        invariant fault.Some? ==> i <= fault.value
        invariant |old(trace)| <= |trace| && trace[..|old(trace)|] == old(trace)
        invariant forall k :: |old(trace)| <= k < |trace| ==> trace[k] - {tmp} == old(files) - {tmp}
      {
        if fault.Some? && fault.value == i {
          return true;
        }
        assert data[..i + 1] == data[..i] + [data[i]];
        Do(Append(tmp, data[i]));
      }
      return false;
    }

    /** What writeFileAtomic does once the temporary file exists. */
    method FillAndRename(path: string, tmp: string, data: string, f: Faults, ghost before: Files) returns (err: bool)
      requires Valid() && tmp != path && tmp !in before && files == before[tmp := ""]
      modifies this
      ensures Valid()
      ensures err <==> f.chmod || (f.write.Some? && f.write.value < |data|) || f.close || f.rename
      ensures err ==> tmp in files && files - {tmp} == before
      ensures !err ==> files == before[path := data]
      ensures |old(trace)| <= |trace| && trace[..|old(trace)|] == old(trace)
      ensures Safe(|old(trace)|, before, path, tmp, data)
    {
      assert files - {tmp} == before;
      if f.chmod {
        return true;
      }
      var failed := Write(tmp, data, f.write);
      assert files - {tmp} == before;
      forall k | |old(trace)| <= k < |trace| ensures OldOrNew(trace[k], before, path, tmp, data) {
        OnlyTemp(trace[k], before, path, tmp, data);
      }
      if failed {
        return true;
      }
      assert data[..|data|] == data;
      if f.close {
        return true;
      }
      if f.rename {
        return true;
      }
      Do(Rename(tmp, path));
      return false;
    }

    /** writeFileAtomic: `tmp` is the name os.CreateTemp comes up with. */
    method WriteFileAtomic(path: string, tmp: string, data: string, f: Faults) returns (err: bool)
      requires Valid() && tmp != path
      modifies this
      ensures Valid()
      ensures err <==> tmp in old(files) || !Clean(f, data)
      ensures FileAt(files, path) == if err then FileAt(old(files), path) else Some(data)
      ensures err && (!f.remove || tmp in old(files)) ==> files == old(files)
      ensures !err ==> files == old(files)[path := data]
      ensures files - {path, tmp} == old(files) - {path, tmp}
      ensures |old(trace)| <= |trace| && trace[..|old(trace)|] == old(trace)
      ensures Safe(|old(trace)|, old(files), path, tmp, data)
    {
      ghost var before := files;
      if f.create || tmp in files {
        return true;
      }
      Do(Create(tmp));
      assert files - {tmp} == before;
      OnlyTemp(files, before, path, tmp, data);
      err := FillAndRename(path, tmp, data, f, before);
      // the deferred removal: nothing to do once the file is renamed
      if tmp in files && !f.remove {
        Do(Remove(tmp));
      }
    }

    /** SaveAccount, for a given outcome of the directory creation, of the read, and of the write. */
    method SaveAccount(homedir: string, servers: seq<Server>, acc: Account,
                       mkdirFails: bool, readFails: bool, suffix: string, f: Faults)
      returns (r: Saved)
      requires Valid()
      modifies this
      ensures Valid()
      ensures r.Path? <==>
                && homedir != "" && servers != [] && acc.username != "" && !mkdirFails
                && !(readFails && PathIn(homedir) in old(files))
                && TempIn(homedir, suffix) !in old(files)
                && Clean(f, SavedText(FileAt(old(files), PathIn(homedir)), servers, acc))
      ensures r.Path? ==>
                && r.path == homedir + "/accounts"
                && files == old(files)[r.path := SavedText(FileAt(old(files), r.path), servers, acc)]
      ensures !r.Path? ==> FileAt(files, homedir + "/accounts") == FileAt(old(files), homedir + "/accounts")
      ensures !r.Path? && !f.remove ==> files == old(files)
      ensures |old(trace)| <= |trace| && trace[..|old(trace)|] == old(trace)
      ensures Safe(|old(trace)|, old(files), PathIn(homedir), TempIn(homedir, suffix),
                   SavedText(FileAt(old(files), PathIn(homedir)), servers, acc))
      ensures Overrides(FileAt(old(files), PathIn(homedir)), servers, acc) ==>
                forall k :: |old(trace)| <= k < |trace| ==>
                  LoadsOldOrNew(trace[k], old(files), PathIn(homedir), servers, acc)
    {
      if homedir == "" {
        return EmptyHomedir;
      }
      if servers == [] {
        return NoServers;
      }
      if acc.username == "" {
        return EmptyUsername;
      }
      if mkdirFails {
        return MkdirFailed;
      }
      var path := PathIn(homedir);
      if readFails && path in files {
        return ReadFailed;
      }
      var text := EditAccounts(FileAt(files, path), servers, acc);
      TempIsNotPath(homedir, suffix);
      var err := WriteFileAtomic(path, TempIn(homedir, suffix), text, f);
      forall k | |old(trace)| <= k < |trace| && Overrides(FileAt(old(files), path), servers, acc)
        ensures LoadsOldOrNew(trace[k], old(files), path, servers, acc)
      {
        CrashLeavesOldOrNewBindings(trace[k], old(files), path, TempIn(homedir, suffix), servers, acc);
      }
      if err {
        return WriteFailed;
      }
      return Path(path);
    }
  }

  datatype Saved = Path(path: string)
    | EmptyHomedir | NoServers | EmptyUsername | MkdirFailed | ReadFailed | WriteFailed

  function PathIn(homedir: string): string {
    homedir + "/accounts"
  }

  function TempIn(homedir: string, suffix: string): string {
    homedir + "/.accounts-" + suffix
  }

  lemma TempIsNotPath(homedir: string, suffix: string)
    ensures TempIn(homedir, suffix) != PathIn(homedir)
  {
    assert TempIn(homedir, suffix)[|homedir| + 1] == '.';
    assert PathIn(homedir)[|homedir| + 1] == 'a';
  }

  /** A state that differs from the one before in the temporary file only is safe. */
  lemma OnlyTemp(state: Files, before: Files, path: string, tmp: string, data: string)
    requires tmp != path && tmp !in before && state - {tmp} == before
    ensures OldOrNew(state, before, path, tmp, data)
  {
    assert FileAt(state, path) == FileAt(state - {tmp}, path);
    assert state - {path, tmp} == (state - {tmp}) - {path};
  }
}
