/** The install and remove transactions of `src/util/packaging/fns.rs`, run
    against the abstract machine of `Host`. Archive decoding, descriptor
    parsing, the conflict checker and the version ordering are services the
    transactions call; they are parameters here. */
module Packaging {
  import opened Prelude
  import opened Host
  import Macros

  /** The `PKG` descriptor of a package archive. `provisions` and `conflicts`
      are comma-joined lists. */
  datatype Package = Package(
    name: string,
    version: string,
    epoch: int,
    groups: seq<string>,
    provisions: string,
    conflicts: string)

  /** What the conflict checker reports. */
  datatype ConflictReport = ConflictReport(isConflict: bool, files: seq<Path>)

  /** The services the transactions call without defining them: xz + tar
      decoding of an archive into its entries, JSON decoding of a `PKG` file,
      the conflict checker (candidate files, whether a record exists, root,
      and the live file system it inspects), and the `>` of two parsed
      versions. */
  datatype Env = Env(
    decompressXz: seq<byte> -> seq<Entry>,
    decodePkg: seq<byte> -> Option<Package>,
    conflictCheck: (seq<Path>, bool, string, FileSystem) -> ConflictReport,
    versionGreater: (string, string) -> bool)

  /** How a transaction ends: normally, or with the exit status of
      `process::exit` or of a panic. */
  datatype Outcome = Done | Aborted(status: int)

  const DeclinedStatus := 1

  // ---------------------------------------------------------------------
  // check_if_package

  /** Position `i` of `p` is a component separator or a lone `.` component,
      both of which a path comparison ignores. */
  predicate Vanishes(p: string, i: int)
    requires 0 < i < |p|
  {
    p[i] == '/' || (p[i] == '.' && p[i - 1] == '/' && (i + 1 == |p| || p[i + 1] == '/'))
  }

  /** `Path::new(p) == Path::new("PKG")`: paths compare by components, so
      `PKG` followed by separators and `.` components is the same path;
      `./PKG`, `/PKG` and `PKG/..` are not. */
  predicate IsPkgPath(p: string)
  {
    && |p| >= 3 && p[..3] == "PKG"
    && (|p| == 3 || p[3] == '/')
    && forall i :: 3 <= i < |p| ==> Vanishes(p, i)
  }

  lemma PkgPathExamples()
    ensures IsPkgPath("PKG") && IsPkgPath("PKG/") && IsPkgPath("PKG/./")
    ensures !IsPkgPath("./PKG") && !IsPkgPath("/PKG") && !IsPkgPath("PKG.json")
    ensures !IsPkgPath("PKG/..") && !IsPkgPath("data/PKG") && !IsPkgPath("pkg")
  {
    assert "PKG/.."[5] == '.' && "PKG/.."[4] == '.';
    assert !Vanishes("PKG/..", 5);
    assert "PKG.json"[3] == '.';
    assert "./PKG"[..3][0] == '.' && "data/PKG"[..3][0] == 'd';
    assert "pkg"[..3][0] == 'p';
  }

  /** `check_if_package`: the entries are read in order until one is `PKG`.
      The ghost result is the number of entries read. */
  method CheckIfPackage(entries: seq<Entry>) returns (found: bool, ghost examined: nat)
    ensures found <==> exists i :: 0 <= i < |entries| && IsPkgPath(entries[i].path)
    ensures examined <= |entries|
    ensures found ==> 0 < examined && IsPkgPath(entries[examined - 1].path)
    ensures !found ==> examined == |entries|
    ensures forall j :: 0 <= j < examined - 1 ==> !IsPkgPath(entries[j].path)
  {
    for i := 0 to |entries|
      invariant forall j :: 0 <= j < i ==> !IsPkgPath(entries[j].path)
    {
      if IsPkgPath(entries[i].path) {
        return true, i + 1;
      }
    }
    return false, |entries|;
  }

  // ---------------------------------------------------------------------
  // The candidate file list

  /** The files a payload installs: its entries in archive order, directories
      skipped, each made absolute with a leading `/`. */
  function Candidates(entries: seq<Entry>): seq<Path>
  {
    if entries == [] then []
    else (if IsDirectory(entries[0]) then [] else ["/" + entries[0].path]) + Candidates(entries[1..])
  }

  lemma {:induction false} CandidatesAppend(a: seq<Entry>, b: seq<Entry>)
    ensures Candidates(a + b) == Candidates(a) + Candidates(b)
    decreases |a|
  {
    if a == [] {
      assert a + b == b;
    } else {
      assert (a + b)[0] == a[0] && (a + b)[1..] == a[1..] + b;
      CandidatesAppend(a[1..], b);
    }
  }

  /** A path is a candidate exactly when it is `/` followed by the path of a
      file entry. */
  lemma {:induction false} CandidatesMembers(entries: seq<Entry>, p: Path)
    ensures p in Candidates(entries) <==>
            exists i :: 0 <= i < |entries| && !IsDirectory(entries[i]) && p == "/" + entries[i].path
    decreases |entries|
  {
    if entries != [] {
      CandidatesMembers(entries[1..], p);
      if p in Candidates(entries[1..]) {
        var i :| 0 <= i < |entries[1..]| && !IsDirectory(entries[1..][i]) && p == "/" + entries[1..][i].path;
        assert entries[i + 1] == entries[1..][i];
      }
      if exists i :: 0 <= i < |entries| && !IsDirectory(entries[i]) && p == "/" + entries[i].path {
        var i :| 0 <= i < |entries| && !IsDirectory(entries[i]) && p == "/" + entries[i].path;
        if i > 0 {
          assert entries[1..][i - 1] == entries[i];
        }
      }
    }
  }

  /** Without directory entries the list has one path per entry, in order. */
  lemma {:induction false} CandidatesOfFiles(entries: seq<Entry>)
    requires forall i :: 0 <= i < |entries| ==> !IsDirectory(entries[i])
    ensures |Candidates(entries)| == |entries|
    ensures forall i :: 0 <= i < |entries| ==> Candidates(entries)[i] == "/" + entries[i].path
    decreases |entries|
  {
    if entries != [] {
      CandidatesOfFiles(entries[1..]);
      forall i | 0 < i < |entries|
        ensures Candidates(entries)[i] == "/" + entries[i].path
      {
        assert entries[1..][i - 1] == entries[i];
      }
    }
  }

  /** The `for_each` that pushes every non-directory entry onto `files`. */
  method CandidateFiles(entries: seq<Entry>) returns (files: seq<Path>)
    ensures files == Candidates(entries)
  {
    files := [];
    for i := 0 to |entries|
      invariant files == Candidates(entries[..i])
    {
      CandidatesAppend(entries[..i], [entries[i]]);
      assert entries[..i + 1] == entries[..i] + [entries[i]];
      if !EndsWith(entries[i].path, "/") {
        files := files + ["/" + entries[i].path];
      }
    }
    assert entries[..|entries|] == entries;
  }

  // ---------------------------------------------------------------------
  // Deleting files

  /** The set of paths in a list. */
  function PathSet(paths: seq<Path>): set<Path>
  {
    set p | p in paths
  }

  predicate Distinct(paths: seq<Path>)
  {
    forall i, j :: 0 <= i < j < |paths| ==> paths[i] != paths[j]
  }

  function RemovedEvents(paths: seq<Path>): seq<Event>
    decreases |paths|
  {
    if paths == [] then [] else [Removed(paths[0])] + RemovedEvents(paths[1..])
  }

  /** `for i in files { fs::remove_file(i).expect(..) }`: the flag is false when
      a removal failed, which panics. */
  function DeleteEach(m: Machine, paths: seq<Path>): (r: (Machine, bool))
    ensures r.0.installed == m.installed && r.0.locked == m.locked && r.0.stdin == m.stdin
    ensures r.0.files.Keys <= m.files.Keys
    decreases |paths|
  {
    if paths == [] then (m, true)
    else if paths[0] !in m.files then (m, false)
    else DeleteEach(m.(files := m.files - {paths[0]}, journal := m.journal + [Removed(paths[0])]), paths[1..])
  }

  /** The deletion loop succeeds exactly when every listed path exists and none
      is listed twice. */
  lemma {:induction false} DeleteEachSucceeds(m: Machine, paths: seq<Path>)
    ensures DeleteEach(m, paths).1 <==> (forall i :: 0 <= i < |paths| ==> paths[i] in m.files) && Distinct(paths)
    decreases |paths|
  {
    if paths != [] && paths[0] in m.files {
      var p0 := paths[0];
      var rest := paths[1..];
      var m' := m.(files := m.files - {p0}, journal := m.journal + [Removed(p0)]);
      DeleteEachSucceeds(m', rest);
      assert forall i :: 0 < i < |paths| ==> paths[i] == rest[i - 1];
      if !Distinct(paths) {
        var i, j :| 0 <= i < j < |paths| && paths[i] == paths[j];
        if i > 0 {
          assert rest[i - 1] == rest[j - 1];
        } else {
          assert rest[j - 1] == p0 && rest[j - 1] !in m'.files;
        }
      }
    }
  }

  /** A deletion loop that succeeds removes exactly the listed paths, in list
      order, and changes nothing else. */
  lemma {:induction false} DeleteEachResult(m: Machine, paths: seq<Path>)
    requires DeleteEach(m, paths).1
    ensures DeleteEach(m, paths).0 == m.(files := m.files - PathSet(paths), journal := m.journal + RemovedEvents(paths))
    decreases |paths|
  {
    if paths != [] {
      var p0 := paths[0];
      var rest := paths[1..];
      var m' := m.(files := m.files - {p0}, journal := m.journal + [Removed(p0)]);
      DeleteEachResult(m', rest);
      assert PathSet(paths) == {p0} + PathSet(rest);
      assert m.files - PathSet(paths) == m'.files - PathSet(rest);
      assert m.journal + RemovedEvents(paths) == m'.journal + RemovedEvents(rest);
    }
  }

  /** Whether or not it succeeds, the deletion loop touches no path outside
      the list, and no state but the files and the journal. */
  lemma {:induction false} DeleteEachFrame(m: Machine, paths: seq<Path>)
    ensures var r := DeleteEach(m, paths).0;
            && (forall p :: p !in paths ==> (p in r.files <==> p in m.files) && (p in m.files ==> r.files[p] == m.files[p]))
            && r.installed == m.installed && r.stdin == m.stdin && r.locked == m.locked
    decreases |paths|
  {
    if paths != [] && paths[0] in m.files {
      var m' := m.(files := m.files - {paths[0]}, journal := m.journal + [Removed(paths[0])]);
      DeleteEachFrame(m', paths[1..]);
      assert forall p :: p !in paths ==> p !in paths[1..] && p != paths[0];
    }
  }

  lemma DeleteEachEffect(m: Machine, paths: seq<Path>)
    ensures var r := DeleteEach(m, paths);
            && (r.1 <==> (forall i :: 0 <= i < |paths| ==> paths[i] in m.files) && Distinct(paths))
            && (r.1 ==> r.0 == m.(files := m.files - PathSet(paths), journal := m.journal + RemovedEvents(paths)))
            && (forall p :: p !in paths ==> (p in r.0.files <==> p in m.files) && (p in m.files ==> r.0.files[p] == m.files[p]))
            && r.0.installed == m.installed && r.0.stdin == m.stdin && r.0.locked == m.locked
  {
    DeleteEachSucceeds(m, paths);
    if DeleteEach(m, paths).1 {
      DeleteEachResult(m, paths);
    }
    DeleteEachFrame(m, paths);
  }

  /** The conflict deletion loop. */
  method DeleteConflicts(h: Host, paths: seq<Path>) returns (ok: bool)
    modifies h
    ensures (h.State(), ok) == DeleteEach(old(h.State()), paths)
  {
    ghost var m0 := h.State();
    for i := 0 to |paths|
      invariant DeleteEach(h.State(), paths[i..]) == DeleteEach(m0, paths)
    {
      assert paths[i..][0] == paths[i] && paths[i..][1..] == paths[i + 1..];
      var removed := h.RemoveFile(paths[i]);
      if !removed {
        return false;
      }
    }
    ok := true;
  }

  /** The removal loop of `run_remove`: a listed path is removed only when it
      exists. */
  function DeleteExisting(m: Machine, paths: seq<Path>): (r: Machine)
    ensures r.installed == m.installed && r.locked == m.locked && r.stdin == m.stdin
    ensures r.files.Keys <= m.files.Keys
    decreases |paths|
  {
    if paths == [] then m
    else
      var p := paths[0];
      DeleteExisting(if p in m.files then m.(files := m.files - {p}, journal := m.journal + [Removed(p)]) else m, paths[1..])
  }

  /** Removing the existing paths of a list takes exactly the listed paths off
      the file system, never fails, and journals only removals of listed paths
      that existed. */
  lemma {:induction false} DeleteExistingEffect(m: Machine, paths: seq<Path>)
    ensures var r := DeleteExisting(m, paths);
            && r.files == m.files - PathSet(paths)
            && r.installed == m.installed && r.stdin == m.stdin && r.locked == m.locked
            && m.journal <= r.journal
            && forall k :: |m.journal| <= k < |r.journal| ==>
                 r.journal[k].Removed? && r.journal[k].path in paths && r.journal[k].path in m.files
    decreases |paths|
  {
    if paths != [] {
      var p := paths[0];
      var m' := if p in m.files then m.(files := m.files - {p}, journal := m.journal + [Removed(p)]) else m;
      DeleteExistingEffect(m', paths[1..]);
      assert PathSet(paths) == {p} + PathSet(paths[1..]);
      var r := DeleteExisting(m', paths[1..]);
      forall k | |m.journal| <= k < |r.journal|
        ensures r.journal[k].Removed? && r.journal[k].path in paths && r.journal[k].path in m.files
      {
        if k >= |m'.journal| {
          assert r.journal[k].path in paths[1..];
        }
      }
    }
  }

  // ---------------------------------------------------------------------
  // run_install

  /** `<root>/tmp/bulge/<tmp_path>` */
  function TmpDir(root: string, tmpPath: string): Path
  {
    root + "/tmp/bulge/" + tmpPath
  }

  function PkgFile(tmp: Path): Path
  {
    tmp + "/PKG"
  }

  function DataFile(tmp: Path): Path
  {
    tmp + "/data.tar.xz"
  }

  /** The database record the install writes: every candidate file, and the
      descriptor's lists split at their commas. */
  function NewRecord(pkg: Package, files: seq<Path>, source: string): (r: Record)
    ensures r.name == pkg.name && r.installedFiles == files
    ensures Macros.Join(r.provisions) == pkg.provisions && Macros.Join(r.conflicts) == pkg.conflicts
    ensures r.provisions != [] && forall i :: 0 <= i < |r.provisions| ==> ',' !in r.provisions[i]
    ensures r.conflicts != [] && forall i :: 0 <= i < |r.conflicts| ==> ',' !in r.conflicts[i]
    ensures r.version == pkg.version && r.epoch == pkg.epoch && r.groups == pkg.groups && r.source == source
  {
    Macros.JoinOfSplit(pkg.provisions);
    Macros.JoinOfSplit(pkg.conflicts);
    Record(pkg.name, pkg.version, pkg.epoch, pkg.groups, files,
           Macros.StringToVec(pkg.provisions), Macros.StringToVec(pkg.conflicts), source)
  }

  /** The package archive unpacked into the temporary directory. */
  function IntoTemp(m: Machine, tmp: Path, entries: seq<Entry>): Machine
  {
    m.(files := Unpack(m.files, tmp, entries), journal := m.journal + [Unpacked(tmp)])
  }

  /** The whole install: unpack into the temporary directory, read `PKG`,
      then the prompts and the payload. */
  function InstallSpec(m: Machine, root: string, tmpPath: string, archive: seq<byte>, source: string, env: Env): (r: (Machine, Outcome))
    ensures r.1 == Done ==> m.stdin != [] && Lower(m.stdin[0]) == "y" && r.0.locked == m.locked
  {
    var tmp := TmpDir(root, tmpPath);
    var m1 := IntoTemp(m, tmp, env.decompressXz(archive));
    if PkgFile(tmp) !in m1.files then (m1, Aborted(PanicStatus))
    else
      match env.decodePkg(m1.files[PkgFile(tmp)])
      case None => (m1, Aborted(PanicStatus))
      case Some(pkg) => Confirm(m1, root, tmp, pkg, source, env)
  }

  /** The confirmation, and the second one asked when a record of the same
      name exists and the new version compares greater. */
  function Confirm(m: Machine, root: string, tmp: Path, pkg: Package, source: string, env: Env): (r: (Machine, Outcome))
    ensures r.1 == Done ==> m.stdin != [] && Lower(m.stdin[0]) == "y" && r.0.locked == m.locked && pkg.name in r.0.installed
  {
    var first := Ask(m);
    if !first.1 then (first.0, Aborted(DeclinedStatus))
    else
      var installed := pkg.name in first.0.installed;
      if installed && env.versionGreater(pkg.version, first.0.installed[pkg.name].version) then
        var second := Ask(first.0);
        if !second.1 then (second.0, Aborted(DeclinedStatus))
        else Payload(second.0, root, tmp, pkg, installed, source, env)
      else Payload(first.0, root, tmp, pkg, installed, source, env)
  }

  /** The candidate list, the conflict check and its prompt. */
  function Payload(m: Machine, root: string, tmp: Path, pkg: Package, installed: bool, source: string, env: Env): (r: (Machine, Outcome))
    ensures r.1 == Done ==> DataFile(tmp) in m.files && r.0.locked == m.locked && pkg.name in r.0.installed
  {
    if DataFile(tmp) !in m.files then (m, Aborted(PanicStatus))
    else
      var files := Candidates(env.decompressXz(m.files[DataFile(tmp)]));
      var report := env.conflictCheck(files, installed, root, m.files);
      if !report.isConflict then Commit(m, root, tmp, pkg, files, source, env)
      else
        var answer := Ask(m);
        if !answer.1 then
          if answer.0.locked then (answer.0.(locked := false, journal := answer.0.journal + [LockRemoved]), Aborted(DeclinedStatus))
          else (answer.0, Aborted(PanicStatus))
        else
          var deleted := DeleteEach(answer.0, report.files);
          if !deleted.1 then (deleted.0, Aborted(PanicStatus))
          else Commit(deleted.0, root, tmp, pkg, files, source, env)
  }

  /** The record is written, then the payload is read again and extracted
      onto the root, then the temporary directory is removed. */
  function Commit(m: Machine, root: string, tmp: Path, pkg: Package, files: seq<Path>, source: string, env: Env): (r: (Machine, Outcome))
    ensures r.1 == Done <==> DataFile(tmp) in m.files
    ensures r.0.locked == m.locked && r.0.stdin == m.stdin && pkg.name in r.0.installed
  {
    var m1 := m.(installed := m.installed[pkg.name := NewRecord(pkg, files, source)],
                 journal := m.journal + [RecordWritten(pkg.name)]);
    if DataFile(tmp) !in m1.files then (m1, Aborted(PanicStatus))
    else
      var m2 := m1.(files := Unpack(m1.files, root, env.decompressXz(m1.files[DataFile(tmp)])),
                    journal := m1.journal + [Unpacked(root)]);
      (m2.(files := RemoveTree(m2.files, tmp), journal := m2.journal + [TreeRemoved(tmp)]), Done)
  }

  /** `run_install`. */
  method RunInstall(h: Host, root: string, tmpPath: string, archive: seq<byte>, source: string, env: Env)
    returns (outcome: Outcome)
    modifies h
    ensures (h.State(), outcome) == InstallSpec(old(h.State()), root, tmpPath, archive, source, env)
  {
    var tmp := TmpDir(root, tmpPath);
    h.UnpackArchive(tmp, env.decompressXz(archive));
    var pkgFile := h.ReadFile(PkgFile(tmp));
    if pkgFile.None? {
      return Aborted(PanicStatus);
    }
    var decoded := env.decodePkg(pkgFile.value);
    if decoded.None? {
      return Aborted(PanicStatus);
    }
    outcome := ConfirmInstall(h, root, tmp, decoded.value, source, env);
  }

  method ConfirmInstall(h: Host, root: string, tmp: Path, pkg: Package, source: string, env: Env) returns (outcome: Outcome)
    modifies h
    ensures (h.State(), outcome) == Confirm(old(h.State()), root, tmp, pkg, source, env)
  {
    var yes := h.ReadAnswer();
    if !yes {
      return Aborted(DeclinedStatus);
    }
    var installed := pkg.name in h.installed;
    if installed && env.versionGreater(pkg.version, h.installed[pkg.name].version) {
      yes := h.ReadAnswer();
      if !yes {
        return Aborted(DeclinedStatus);
      }
    }
    outcome := InstallPayload(h, root, tmp, pkg, installed, source, env);
  }

  method InstallPayload(h: Host, root: string, tmp: Path, pkg: Package, installed: bool, source: string, env: Env)
    returns (outcome: Outcome)
    modifies h
    ensures (h.State(), outcome) == Payload(old(h.State()), root, tmp, pkg, installed, source, env)
  {
    var data := h.ReadFile(DataFile(tmp));
    if data.None? {
      return Aborted(PanicStatus);
    }
    var files := CandidateFiles(env.decompressXz(data.value));
    var report := env.conflictCheck(files, installed, root, h.files);
    if report.isConflict {
      var yes := h.ReadAnswer();
      if !yes {
        var removed := h.RemoveLock();
        if !removed {
          return Aborted(PanicStatus);
        }
        return Aborted(DeclinedStatus);
      }
      var ok := DeleteConflicts(h, report.files);
      if !ok {
        return Aborted(PanicStatus);
      }
    }
    outcome := CommitInstall(h, root, tmp, pkg, files, source, env);
  }

  method CommitInstall(h: Host, root: string, tmp: Path, pkg: Package, files: seq<Path>, source: string, env: Env)
    returns (outcome: Outcome)
    modifies h
    ensures (h.State(), outcome) == Commit(old(h.State()), root, tmp, pkg, files, source, env)
  {
    h.PutRecord(NewRecord(pkg, files, source));
    var data := h.ReadFile(DataFile(tmp));
    if data.None? {
      return Aborted(PanicStatus);
    }
    h.UnpackArchive(root, env.decompressXz(data.value));
    h.RemoveDirAll(tmp);
    outcome := Done;
  }

  // ---------------------------------------------------------------------
  // Properties of the install

  /** Declining the first prompt exits with status 1 after the archive was
      unpacked into the temporary directory, which is left behind; no record
      is written and nothing is deleted. */
  lemma DeclineFirstPrompt(m: Machine, root: string, tmpPath: string, archive: seq<byte>, source: string, env: Env)
    requires var m1 := IntoTemp(m, TmpDir(root, tmpPath), env.decompressXz(archive));
             PkgFile(TmpDir(root, tmpPath)) in m1.files && env.decodePkg(m1.files[PkgFile(TmpDir(root, tmpPath))]).Some?
    requires m.stdin == [] || Lower(m.stdin[0]) != "y"
    ensures var r := InstallSpec(m, root, tmpPath, archive, source, env);
            && r.1 == Aborted(DeclinedStatus)
            && r.0.installed == m.installed && r.0.locked == m.locked
            && r.0.files == Unpack(m.files, TmpDir(root, tmpPath), env.decompressXz(archive))
            && r.0.journal == m.journal + [Unpacked(TmpDir(root, tmpPath))]
  {
  }

  /** The second prompt is asked exactly when a record of the same name exists
      and the new version compares greater than the recorded one; otherwise
      the payload stage starts right after the first answer. */
  lemma ExtraPrompt(m: Machine, root: string, tmp: Path, pkg: Package, source: string, env: Env)
    requires m.stdin != [] && Lower(m.stdin[0]) == "y"
    ensures var installed := pkg.name in m.installed;
            var extra := installed && env.versionGreater(pkg.version, m.installed[pkg.name].version);
            var afterFirst := m.(stdin := m.stdin[1..]);
            Confirm(m, root, tmp, pkg, source, env) ==
              if !extra then Payload(afterFirst, root, tmp, pkg, installed, source, env)
              else if |m.stdin| >= 2 && Lower(m.stdin[1]) == "y" then
                Payload(m.(stdin := m.stdin[2..]), root, tmp, pkg, installed, source, env)
              else (m.(stdin := if |m.stdin| >= 2 then m.stdin[2..] else []), Aborted(DeclinedStatus))
  {
    var afterFirst := m.(stdin := m.stdin[1..]);
    if afterFirst.stdin != [] {
      assert afterFirst.stdin[0] == m.stdin[1] && afterFirst.stdin[1..] == m.stdin[2..];
    }
  }

  /** The confirmation as its warning means it: the second prompt comes when
      the recorded version compares greater than the new one, that is, when
      the install is a downgrade. */
  function ConfirmIntended(m: Machine, root: string, tmp: Path, pkg: Package, source: string, env: Env): (Machine, Outcome)
  {
    var first := Ask(m);
    if !first.1 then (first.0, Aborted(DeclinedStatus))
    else
      var installed := pkg.name in first.0.installed;
      if installed && env.versionGreater(first.0.installed[pkg.name].version, pkg.version) then
        var second := Ask(first.0);
        if !second.1 then (second.0, Aborted(DeclinedStatus))
        else Payload(second.0, root, tmp, pkg, installed, source, env)
      else Payload(first.0, root, tmp, pkg, installed, source, env)
  }

  /** As written, an upgrade is announced as a downgrade and a user who
      declines that warning loses the upgrade; the intended confirmation goes
      on to the payload. */
  lemma UpgradeWarnedAsDowngrade(m: Machine, root: string, tmp: Path, pkg: Package, source: string, env: Env)
    requires m.stdin == ["y", "n"]
    requires pkg.name in m.installed
    requires env.versionGreater(pkg.version, m.installed[pkg.name].version)
    requires !env.versionGreater(m.installed[pkg.name].version, pkg.version)
    ensures Confirm(m, root, tmp, pkg, source, env) == (m.(stdin := []), Aborted(DeclinedStatus))
    ensures ConfirmIntended(m, root, tmp, pkg, source, env) == Payload(m.(stdin := ["n"]), root, tmp, pkg, true, source, env)
  {
    assert Lower("y") == "y" && Lower("n")[0] == 'n';
    assert m.stdin[1..] == ["n"] && ["n"][1..] == [];
  }

  /** With the first prompt accepted, the intended confirmation asks again
      exactly when a record of the same name holds a version that compares
      greater than the new one, and an upgrade or a fresh install goes
      straight on to the payload. */
  lemma DowngradePromptIntended(m: Machine, root: string, tmp: Path, pkg: Package, source: string, env: Env)
    requires m.stdin != [] && Lower(m.stdin[0]) == "y"
    ensures var installed := pkg.name in m.installed;
            var downgrade := installed && env.versionGreater(m.installed[pkg.name].version, pkg.version);
            var afterFirst := m.(stdin := m.stdin[1..]);
            ConfirmIntended(m, root, tmp, pkg, source, env) ==
              if !downgrade then Payload(afterFirst, root, tmp, pkg, installed, source, env)
              else if |m.stdin| >= 2 && Lower(m.stdin[1]) == "y" then
                Payload(m.(stdin := m.stdin[2..]), root, tmp, pkg, installed, source, env)
              else (m.(stdin := if |m.stdin| >= 2 then m.stdin[2..] else []), Aborted(DeclinedStatus))
  {
    var afterFirst := m.(stdin := m.stdin[1..]);
    if afterFirst.stdin != [] {
      assert afterFirst.stdin[0] == m.stdin[1] && afterFirst.stdin[1..] == m.stdin[2..];
    }
  }

  /** Declining the conflict prompt removes the lock and exits with status 1
      (a panic when there is no lock to remove), with no file deleted and no
      record written. */
  lemma ConflictDeclined(m: Machine, root: string, tmp: Path, pkg: Package, installed: bool, source: string, env: Env)
    requires DataFile(tmp) in m.files
    requires env.conflictCheck(Candidates(env.decompressXz(m.files[DataFile(tmp)])), installed, root, m.files).isConflict
    requires m.stdin == [] || Lower(m.stdin[0]) != "y"
    ensures var r := Payload(m, root, tmp, pkg, installed, source, env);
            && r.1 == (if m.locked then Aborted(DeclinedStatus) else Aborted(PanicStatus))
            && r.0.files == m.files && r.0.installed == m.installed && !r.0.locked
            && r.0.journal == m.journal + (if m.locked then [LockRemoved] else [])
  {
  }

  /** Accepting the conflict prompt deletes exactly the reported files, in
      report order, and nothing else; the install then commits. A reported
      file that is missing, or reported twice, panics before any record is
      written. */
  lemma ConflictAccepted(m: Machine, root: string, tmp: Path, pkg: Package, installed: bool, source: string, env: Env)
    requires DataFile(tmp) in m.files
    requires var files := Candidates(env.decompressXz(m.files[DataFile(tmp)]));
             env.conflictCheck(files, installed, root, m.files).isConflict
    requires m.stdin != [] && Lower(m.stdin[0]) == "y"
    ensures var files := Candidates(env.decompressXz(m.files[DataFile(tmp)]));
            var reported := env.conflictCheck(files, installed, root, m.files).files;
            var r := Payload(m, root, tmp, pkg, installed, source, env);
            if (forall i :: 0 <= i < |reported| ==> reported[i] in m.files) && Distinct(reported) then
              r == Commit(m.(stdin := m.stdin[1..], files := m.files - PathSet(reported),
                             journal := m.journal + RemovedEvents(reported)),
                          root, tmp, pkg, files, source, env)
            else r.1 == Aborted(PanicStatus) && r.0.installed == m.installed &&
                 forall p :: p !in reported ==> (p in r.0.files <==> p in m.files)
  {
    var files := Candidates(env.decompressXz(m.files[DataFile(tmp)]));
    var reported := env.conflictCheck(files, installed, root, m.files).files;
    DeleteEachEffect(m.(stdin := m.stdin[1..]), reported);
  }

  /** The commit writes the record before it extracts anything: with the
      payload in place it records every candidate file and the descriptor's
      lists, extracts each payload file under the root, and removes the
      temporary directory, in that order; with the payload gone, the record is
      written and the process panics with nothing extracted. */
  lemma CommitOrder(m: Machine, root: string, tmp: Path, pkg: Package, files: seq<Path>, source: string, env: Env)
    ensures var r := Commit(m, root, tmp, pkg, files, source, env);
            && pkg.name in r.0.installed
            && r.0.installed == m.installed[pkg.name := r.0.installed[pkg.name]]
            && r.0.installed[pkg.name].installedFiles == files
            && Macros.Join(r.0.installed[pkg.name].provisions) == pkg.provisions
            && Macros.Join(r.0.installed[pkg.name].conflicts) == pkg.conflicts
            && (forall i :: 0 <= i < |r.0.installed[pkg.name].provisions| ==> ',' !in r.0.installed[pkg.name].provisions[i])
            && (forall i :: 0 <= i < |r.0.installed[pkg.name].conflicts| ==> ',' !in r.0.installed[pkg.name].conflicts[i])
            && r.0.installed[pkg.name].version == pkg.version && r.0.installed[pkg.name].source == source
            && r.0.locked == m.locked && r.0.stdin == m.stdin
            && if DataFile(tmp) in m.files then
                 && r.1 == Done
                 && r.0.journal == m.journal + [RecordWritten(pkg.name), Unpacked(root), TreeRemoved(tmp)]
                 && (forall p :: p in r.0.files ==> !StartsWith(p, tmp + "/"))
                 && forall e :: (e in env.decompressXz(m.files[DataFile(tmp)]) && !IsDirectory(e) &&
                                 !StartsWith(Target(root, e), tmp + "/")) ==> Target(root, e) in r.0.files
               else
                 r == (m.(installed := r.0.installed, journal := m.journal + [RecordWritten(pkg.name)]), Aborted(PanicStatus))
  {
    if DataFile(tmp) in m.files {
      var entries := env.decompressXz(m.files[DataFile(tmp)]);
      forall e | e in entries && !IsDirectory(e) && !StartsWith(Target(root, e), tmp + "/")
        ensures Target(root, e) in Commit(m, root, tmp, pkg, files, source, env).0.files
      {
        var i :| 0 <= i < |entries| && entries[i] == e;
        UnpackWrites(m.files, root, entries, i);
      }
    }
  }

  /** With the payload in place, a file entry of it that no later entry
      overwrites holds its content at its target under the root after the
      commit, unless the target lies in the temporary directory, which the
      commit removes. */
  lemma CommitWrites(m: Machine, root: string, tmp: Path, pkg: Package, files: seq<Path>, source: string, env: Env, i: nat)
    requires DataFile(tmp) in m.files
    requires var entries := env.decompressXz(m.files[DataFile(tmp)]);
             && i < |entries| && !IsDirectory(entries[i])
             && !StartsWith(Target(root, entries[i]), tmp + "/")
             && forall j :: i < j < |entries| && !IsDirectory(entries[j]) ==> Target(root, entries[j]) != Target(root, entries[i])
    ensures var r := Commit(m, root, tmp, pkg, files, source, env).0;
            var e := env.decompressXz(m.files[DataFile(tmp)])[i];
            Target(root, e) in r.files && r.files[Target(root, e)] == e.content
  {
    UnpackLast(m.files, root, env.decompressXz(m.files[DataFile(tmp)]), i);
  }

  /** The commit leaves a path that is no target of the payload and lies
      outside the temporary directory as it was. */
  lemma CommitFrame(m: Machine, root: string, tmp: Path, pkg: Package, files: seq<Path>, source: string, env: Env, p: Path)
    requires DataFile(tmp) in m.files && !StartsWith(p, tmp + "/")
    requires var entries := env.decompressXz(m.files[DataFile(tmp)]);
             forall i :: 0 <= i < |entries| && !IsDirectory(entries[i]) ==> Target(root, entries[i]) != p
    ensures var r := Commit(m, root, tmp, pkg, files, source, env).0;
            (p in r.files <==> p in m.files) && (p in m.files ==> r.files[p] == m.files[p])
  {
    UnpackFrame(m.files, root, env.decompressXz(m.files[DataFile(tmp)]), p);
  }

  /** An install that completes records the package `PKG` names, owning
      exactly the candidate files of the payload it found, and journals, after
      unpacking into the temporary directory, only conflict deletions, then the
      record, the extraction onto the root and the cleanup, in that order; it
      leaves the lock as it found it. */
  lemma InstallDone(m: Machine, root: string, tmpPath: string, archive: seq<byte>, source: string, env: Env)
    requires InstallSpec(m, root, tmpPath, archive, source, env).1 == Done
    ensures var tmp := TmpDir(root, tmpPath);
            var m1 := IntoTemp(m, tmp, env.decompressXz(archive));
            var r := InstallSpec(m, root, tmpPath, archive, source, env).0;
            && PkgFile(tmp) in m1.files && env.decodePkg(m1.files[PkgFile(tmp)]).Some?
            && DataFile(tmp) in m1.files
            && var name := env.decodePkg(m1.files[PkgFile(tmp)]).value.name;
               && name in r.installed
               && r.installed[name].installedFiles == Candidates(env.decompressXz(m1.files[DataFile(tmp)]))
               && r.locked == m.locked
               && exists deleted ::
                    r.journal == m.journal + [Unpacked(tmp)] + RemovedEvents(deleted) +
                                 [RecordWritten(name), Unpacked(root), TreeRemoved(tmp)]
  {
    var tmp := TmpDir(root, tmpPath);
    var m1 := IntoTemp(m, tmp, env.decompressXz(archive));
    var pkg := env.decodePkg(m1.files[PkgFile(tmp)]).value;
    var first := Ask(m1);
    var installed := pkg.name in first.0.installed;
    var mp := if installed && env.versionGreater(pkg.version, first.0.installed[pkg.name].version)
              then Ask(first.0).0 else first.0;
    assert mp.files == m1.files;
    assert Confirm(m1, root, tmp, pkg, source, env) == Payload(mp, root, tmp, pkg, installed, source, env);
    PayloadDone(mp, root, tmp, pkg, installed, source, env);
  }

  lemma PayloadDone(m: Machine, root: string, tmp: Path, pkg: Package, installed: bool, source: string, env: Env)
    requires Payload(m, root, tmp, pkg, installed, source, env).1 == Done
    ensures var r := Payload(m, root, tmp, pkg, installed, source, env).0;
            && DataFile(tmp) in m.files
            && r.locked == m.locked && pkg.name in r.installed
            && r.installed[pkg.name].installedFiles == Candidates(env.decompressXz(m.files[DataFile(tmp)]))
            && exists deleted :: r.journal == m.journal + RemovedEvents(deleted) +
                                              [RecordWritten(pkg.name), Unpacked(root), TreeRemoved(tmp)]
  {
    var files := Candidates(env.decompressXz(m.files[DataFile(tmp)]));
    var report := env.conflictCheck(files, installed, root, m.files);
    var mc := m;
    var deleted: seq<Path> := [];
    if report.isConflict {
      var answer := Ask(m);
      DeleteEachEffect(answer.0, report.files);
      mc := DeleteEach(answer.0, report.files).0;
      deleted := report.files;
    }
    CommitOrder(mc, root, tmp, pkg, files, source, env);
    assert m.journal + RemovedEvents([]) == m.journal;
    assert Payload(m, root, tmp, pkg, installed, source, env).0.journal ==
           m.journal + RemovedEvents(deleted) + [RecordWritten(pkg.name), Unpacked(root), TreeRemoved(tmp)];
  }

  // ---------------------------------------------------------------------
  // run_remove

  /** `run_remove`: the owned files that exist are deleted, then the record.
      Asking for a package that has no record panics. */
  function RemoveSpec(m: Machine, name: string): (r: (Machine, Outcome))
    ensures r.1 == Done <==> name in m.installed
    ensures name !in r.0.installed && r.0.locked == m.locked
  {
    if name !in m.installed then (m, Aborted(PanicStatus))
    else
      var m1 := DeleteExisting(m, m.installed[name].installedFiles);
      (m1.(installed := m1.installed - {name}, journal := m1.journal + [RecordDeleted(name)]), Done)
  }

  method RunRemove(h: Host, name: string) returns (outcome: Outcome)
    modifies h
    ensures (h.State(), outcome) == RemoveSpec(old(h.State()), name)
  {
    if name !in h.installed {
      return Aborted(PanicStatus);
    }
    ghost var m0 := h.State();
    var owned := h.installed[name].installedFiles;
    for i := 0 to |owned|
      invariant DeleteExisting(h.State(), owned[i..]) == DeleteExisting(m0, owned)
    {
      assert owned[i..][0] == owned[i] && owned[i..][1..] == owned[i + 1..];
      var present := h.Exists(owned[i]);
      if present {
        var removed := h.RemoveFile(owned[i]);
        assert removed;
      }
    }
    h.DeleteRecord(name);
    outcome := Done;
  }

  /** Removing an installed package deletes exactly its owned files that
      exist, skips the missing ones, leaves every other path as it was, and
      deletes the record last. */
  lemma RemoveEffect(m: Machine, name: string)
    ensures var r := RemoveSpec(m, name);
            if name !in m.installed then r == (m, Aborted(PanicStatus))
            else
              var owned := m.installed[name].installedFiles;
              && r.1 == Done
              && r.0.files == m.files - PathSet(owned)
              && r.0.installed == m.installed - {name}
              && r.0.stdin == m.stdin && r.0.locked == m.locked
              && |r.0.journal| > |m.journal| && r.0.journal[|r.0.journal| - 1] == RecordDeleted(name)
              && m.journal <= r.0.journal
              && forall k :: |m.journal| <= k < |r.0.journal| - 1 ==>
                   r.0.journal[k].Removed? && r.0.journal[k].path in owned && r.0.journal[k].path in m.files
  {
    if name in m.installed {
      DeleteExistingEffect(m, m.installed[name].installedFiles);
    }
  }
}
