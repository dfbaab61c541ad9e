/** The machine the package manager runs on, as abstract state: the file
    system (path to contents), the installed-package database (name to
    record), the manifest of cached repository hashes, the tokens still to be
    read from the terminal, the lock marker, and a journal of the I/O calls
    made, in order. `Host` holds that state in fields and offers the I/O
    primitives the commands call; `Machine` is a snapshot of it that the
    specification functions work on. */
module Host {
  import opened Prelude

  type Path = string

  type FileSystem = map<Path, seq<byte>>

  /** A package record in the installed-package database. */
  datatype Record = Record(
    name: string,
    version: string,
    epoch: int,
    groups: seq<string>,
    installedFiles: seq<Path>,
    provisions: seq<string>,   // the `provides` list
    conflicts: seq<string>,
    source: string)

  /** One entry of a tar archive. A path ending in `/` is a directory. */
  datatype Entry = Entry(path: string, content: seq<byte>)

  /** The I/O calls the commands make, as they are logged in the journal. */
  datatype Event =
    | Fetched(url: string)               // an HTTP GET
    | Created(path: Path)                // `File::create`: created, or truncated to zero bytes
    | Copied(path: Path, bytes: seq<byte>) // bytes appended by `io::copy`
    | CacheRecorded(name: string, hash: string)
    | Unpacked(dir: Path)                // a tar archive extracted under `dir`
    | Removed(path: Path)                // `fs::remove_file`
    | RecordWritten(name: string)
    | RecordDeleted(name: string)
    | TreeRemoved(dir: Path)             // `fs::remove_dir_all`
    | LockCreated
    | LockRemoved

  datatype Machine = Machine(
    files: FileSystem,
    installed: map<string, Record>,
    cachedRepos: map<string, string>,
    stdin: seq<string>,
    locked: bool,
    journal: seq<Event>)

  /** Exit status of a Rust process that panicked (`expect`, `unwrap`). */
  const PanicStatus := 101

  predicate IsDirectory(e: Entry)
  {
    EndsWith(e.path, "/")
  }

  /** Where `unpack(dir)` puts an entry. */
  function Target(dir: Path, e: Entry): Path
  {
    dir + "/" + e.path
  }

  /** Extraction of a tar archive under `dir`: every file entry is written, in
      archive order, so a later entry for the same path wins. Directories are
      not represented in the file map. */
  function Unpack(fs: FileSystem, dir: Path, entries: seq<Entry>): (r: FileSystem)
    ensures forall p :: p in r ==> p in fs || exists i :: 0 <= i < |entries| && !IsDirectory(entries[i]) && Target(dir, entries[i]) == p
    decreases |entries|
  {
    if entries == [] then fs
    else
      var e := entries[0];
      var fs' := if IsDirectory(e) then fs else fs[Target(dir, e) := e.content];
      var r := Unpack(fs', dir, entries[1..]);
      assert forall i :: 0 <= i < |entries[1..]| ==> entries[1..][i] == entries[i + 1];
      r
  }

  /** Extraction touches no path other than the targets of its file entries. */
  lemma {:induction false} UnpackFrame(fs: FileSystem, dir: Path, entries: seq<Entry>, p: Path)
    requires forall i :: 0 <= i < |entries| && !IsDirectory(entries[i]) ==> Target(dir, entries[i]) != p
    ensures (p in Unpack(fs, dir, entries) <==> p in fs)
    ensures p in fs ==> Unpack(fs, dir, entries)[p] == fs[p]
    decreases |entries|
  {
    if entries != [] {
      var e := entries[0];
      var fs' := if IsDirectory(e) then fs else fs[Target(dir, e) := e.content];
      forall i | 0 <= i < |entries[1..]| && !IsDirectory(entries[1..][i])
        ensures Target(dir, entries[1..][i]) != p
      {
        assert entries[1..][i] == entries[i + 1];
      }
      UnpackFrame(fs', dir, entries[1..], p);
    }
  }

  /** Every file entry of the archive is present after extraction. */
  lemma {:induction false} UnpackWrites(fs: FileSystem, dir: Path, entries: seq<Entry>, i: nat)
    requires i < |entries| && !IsDirectory(entries[i])
    ensures Target(dir, entries[i]) in Unpack(fs, dir, entries)
    decreases |entries|
  {
    var e := entries[0];
    var fs' := if IsDirectory(e) then fs else fs[Target(dir, e) := e.content];
    if i > 0 {
      assert entries[1..][i - 1] == entries[i];
      UnpackWrites(fs', dir, entries[1..], i - 1);
    } else {
      UnpackKeeps(fs', dir, entries[1..], Target(dir, e));
    }
  }

  /** A file entry that no later file entry overwrites leaves its content at
      its target. */
  lemma {:induction false} UnpackLast(fs: FileSystem, dir: Path, entries: seq<Entry>, i: nat)
    requires i < |entries| && !IsDirectory(entries[i])
    requires forall j :: i < j < |entries| && !IsDirectory(entries[j]) ==> Target(dir, entries[j]) != Target(dir, entries[i])
    ensures Target(dir, entries[i]) in Unpack(fs, dir, entries)
    ensures Unpack(fs, dir, entries)[Target(dir, entries[i])] == entries[i].content
    decreases |entries|
  {
    var e := entries[0];
    var fs' := if IsDirectory(e) then fs else fs[Target(dir, e) := e.content];
    forall j | 0 <= j < |entries[1..]| && i <= j && !IsDirectory(entries[1..][j])
      ensures Target(dir, entries[1..][j]) != Target(dir, entries[i])
    {
      assert entries[1..][j] == entries[j + 1];
    }
    if i > 0 {
      assert entries[1..][i - 1] == entries[i];
      UnpackLast(fs', dir, entries[1..], i - 1);
    } else {
      UnpackFrame(fs', dir, entries[1..], Target(dir, e));
    }
  }

  /** Extraction never removes a path. */
  lemma {:induction false} UnpackKeeps(fs: FileSystem, dir: Path, entries: seq<Entry>, p: Path)
    requires p in fs
    ensures p in Unpack(fs, dir, entries)
    decreases |entries|
  {
    if entries != [] {
      var e := entries[0];
      UnpackKeeps(if IsDirectory(e) then fs else fs[Target(dir, e) := e.content], dir, entries[1..], p);
    }
  }

  /** `fs::remove_dir_all(dir)`: every path below `dir` goes. */
  function RemoveTree(fs: FileSystem, dir: Path): (r: FileSystem)
    ensures forall p :: p in r <==> p in fs && !StartsWith(p, dir + "/")
    ensures forall p :: p in r ==> r[p] == fs[p]
  {
    map p | p in fs && !StartsWith(p, dir + "/") :: fs[p]
  }

  /** Reading one answer from the terminal: the token is taken, and it means
      yes exactly when it lower-cases to `y`. An exhausted input reads as an
      empty token. */
  function Ask(m: Machine): (r: (Machine, bool))
    ensures r.1 <==> m.stdin != [] && Lower(m.stdin[0]) == "y"
    ensures r.0 == m.(stdin := if m.stdin == [] then [] else m.stdin[1..])
  {
    if m.stdin == [] then (m, false)
    else (m.(stdin := m.stdin[1..]), Lower(m.stdin[0]) == "y")
  }

  class Host {
    var files: FileSystem
    var installed: map<string, Record>
    var cachedRepos: map<string, string>
    var stdin: seq<string>
    var locked: bool
    var journal: seq<Event>

    function State(): Machine
      reads this
    {
      Machine(files, installed, cachedRepos, stdin, locked, journal)
    }

    constructor (m: Machine)
      ensures State() == m
    {
      files, installed, cachedRepos := m.files, m.installed, m.cachedRepos;
      stdin, locked, journal := m.stdin, m.locked, m.journal;
    }

    /** An HTTP GET through the given transport. */
    method Get<R>(url: string, transport: string -> R) returns (r: R)
      modifies this
      ensures r == transport(url)
      ensures State() == old(State()).(journal := old(journal) + [Fetched(url)])
    {
      r := transport(url);
      journal := journal + [Fetched(url)];
    }

    /** `File::create`: the file exists afterwards and is empty. */
    method Create(path: Path)
      modifies this
      ensures State() == old(State()).(files := old(files)[path := []], journal := old(journal) + [Created(path)])
    {
      files := files[path := []];
      journal := journal + [Created(path)];
    }

    method Append(path: Path, bytes: seq<byte>)
      requires path in files
      modifies this
      ensures State() == old(State()).(files := old(files)[path := old(files)[path] + bytes],
                                       journal := old(journal) + [Copied(path, bytes)])
    {
      files := files[path := files[path] + bytes];
      journal := journal + [Copied(path, bytes)];
    }

    method Exists(path: Path) returns (b: bool)
      ensures b <==> path in files
    {
      b := path in files;
    }

    method ReadFile(path: Path) returns (contents: Option<seq<byte>>)
      ensures contents == if path in files then Some(files[path]) else None
    {
      contents := if path in files then Some(files[path]) else None;
    }

    /** `fs::remove_file`: fails when there is no such file. */
    method RemoveFile(path: Path) returns (ok: bool)
      modifies this
      ensures ok <==> path in old(files)
      ensures ok ==> State() == old(State()).(files := old(files) - {path}, journal := old(journal) + [Removed(path)])
      ensures !ok ==> State() == old(State())
    {
      ok := path in files;
      if ok {
        files := files - {path};
        journal := journal + [Removed(path)];
      }
    }

    method UnpackArchive(dir: Path, entries: seq<Entry>)
      modifies this
      ensures State() == old(State()).(files := Unpack(old(files), dir, entries), journal := old(journal) + [Unpacked(dir)])
    {
      files := Unpack(files, dir, entries);
      journal := journal + [Unpacked(dir)];
    }

    method RemoveDirAll(dir: Path)
      modifies this
      ensures State() == old(State()).(files := RemoveTree(old(files), dir), journal := old(journal) + [TreeRemoved(dir)])
    {
      files := RemoveTree(files, dir);
      journal := journal + [TreeRemoved(dir)];
    }

    method PutRecord(r: Record)
      modifies this
      ensures State() == old(State()).(installed := old(installed)[r.name := r], journal := old(journal) + [RecordWritten(r.name)])
    {
      installed := installed[r.name := r];
      journal := journal + [RecordWritten(r.name)];
    }

    method DeleteRecord(name: string)
      modifies this
      ensures State() == old(State()).(installed := old(installed) - {name}, journal := old(journal) + [RecordDeleted(name)])
    {
      installed := installed - {name};
      journal := journal + [RecordDeleted(name)];
    }

    method RecordCache(name: string, hash: string)
      modifies this
      ensures State() == old(State()).(cachedRepos := old(cachedRepos)[name := hash],
                                       journal := old(journal) + [CacheRecorded(name, hash)])
    {
      cachedRepos := cachedRepos[name := hash];
      journal := journal + [CacheRecorded(name, hash)];
    }

    method CreateLock()
      modifies this
      ensures State() == old(State()).(locked := true, journal := old(journal) + [LockCreated])
    {
      locked := true;
      journal := journal + [LockCreated];
    }

    /** Removing the lock file fails when it is not there. */
    method RemoveLock() returns (ok: bool)
      modifies this
      ensures ok == old(locked)
      ensures ok ==> State() == old(State()).(locked := false, journal := old(journal) + [LockRemoved])
      ensures !ok ==> State() == old(State())
    {
      ok := locked;
      if ok {
        locked := false;
        journal := journal + [LockRemoved];
      }
    }

    /** `read!()` followed by the comparison with `"y"`. */
    method ReadAnswer() returns (yes: bool)
      modifies this
      ensures (State(), yes) == Ask(old(State()))
    {
      if stdin == [] {
        yes := false;
      } else {
        yes := Lower(stdin[0]) == "y";
        stdin := stdin[1..];
      }
    }
  }
}
