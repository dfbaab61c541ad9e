/** Repository synchronisation, `src/commands/sync.rs`: for every active
    source, the mirrors are tried in order; a mirror passes when the SHA-512
    hex digest of its `database.db` equals the text of its `database.hash`.
    The model follows the code as written, including two defects: the cache
    file is truncated as soon as the database download succeeds, and the copy
    into it reads from a cursor the hashing loop has already drained, so it
    writes nothing. */
module Sync {
  import opened Prelude
  import opened Host
  import Conf

  /** What `get` returns: a transport error, or a status with a body. */
  datatype Response = TransportError | Reply(status: int, body: seq<byte>)

  /** The services the loop calls without defining them: HTTP GET, SHA-512
      followed by lower-case hex encoding, and `String::from_utf8`. */
  datatype Env = Env(
    get: string -> Response,
    sha512Hex: seq<byte> -> string,
    fromUtf8: seq<byte> -> Option<string>)

  const RepoToken := "$repo"

  const StatusOk := 200

  const ChunkSize := 1024

  predicate IsOk(r: Response)
  {
    r.Reply? && r.status == StatusOk
  }

  /** The base URL of a source on a mirror: the source's own URL when it has
      one, otherwise the template with every `$repo` replaced by its name. */
  function BaseUrl(src: Conf.Source, mirror: string): string
  {
    if src.url.Some? then src.url.value else ReplaceAll(mirror, RepoToken, src.name)
  }

  function DbUrl(src: Conf.Source, mirror: string): string
  {
    BaseUrl(src, mirror) + "/database.db"
  }

  function HashUrl(src: Conf.Source, mirror: string): string
  {
    BaseUrl(src, mirror) + "/database.hash"
  }

  /** `<root>/etc/bulge/databases/cache/<name>.db` */
  function CachePath(root: string, name: string): Path
  {
    root + "/etc/bulge/databases/cache/" + name + ".db"
  }

  /** How one mirror attempt ends. `HashNotUtf8` aborts the process;
      `Accepted` ends the attempts for the source; the others go on to the next
      mirror. */
  datatype Verdict = DbUnavailable | HashUnavailable | HashNotUtf8 | Mismatch | Accepted(hash: string)

  predicate Terminal(v: Verdict)
  {
    v.HashNotUtf8? || v.Accepted?
  }

  /** The checks of one attempt on its two responses: the database must have
      arrived, then the hash file, whose body must be UTF-8 text equal to the
      SHA-512 digest of the database. */
  function Judge(db: Response, hash: Response, env: Env): (r: Verdict)
    ensures r.DbUnavailable? <==> !IsOk(db)
    ensures r.HashUnavailable? <==> IsOk(db) && !IsOk(hash)
    ensures r.HashNotUtf8? <==> IsOk(db) && IsOk(hash) && env.fromUtf8(hash.body).None?
    ensures r.Accepted? <==> IsOk(db) && IsOk(hash) && env.fromUtf8(hash.body) == Some(env.sha512Hex(db.body))
    ensures r.Accepted? ==> r.hash == env.sha512Hex(db.body)
  {
    if !IsOk(db) then DbUnavailable
    else if !IsOk(hash) then HashUnavailable
    else
      match env.fromUtf8(hash.body)
      case None => HashNotUtf8
      case Some(text) => if env.sha512Hex(db.body) == text then Accepted(text) else Mismatch
  }

  /** One attempt on a mirror: the responses for its database and hash URLs,
      judged. The hash URL is fetched only once the database has arrived. */
  function MirrorVerdict(src: Conf.Source, mirror: string, env: Env): Verdict
  {
    Judge(env.get(DbUrl(src, mirror)), env.get(HashUrl(src, mirror)), env)
  }

  /** The I/O calls of one attempt, in order. Once the database download has
      succeeded, the cache file is created before the hash is even fetched;
      on acceptance the copy into it carries no bytes. */
  function AttemptEvents(root: string, src: Conf.Source, mirror: string, env: Env): seq<Event>
  {
    var db := DbUrl(src, mirror);
    var path := CachePath(root, src.name);
    match MirrorVerdict(src, mirror, env)
    case DbUnavailable => [Fetched(db)]
    case Accepted(h) => [Fetched(db), Created(path), Fetched(HashUrl(src, mirror)), Copied(path, []), CacheRecorded(src.name, h)]
    case _ => [Fetched(db), Created(path), Fetched(HashUrl(src, mirror))]
  }

  /** The machine after one attempt. */
  function Attempt(m: Machine, root: string, src: Conf.Source, mirror: string, env: Env): (r: Machine)
    ensures r.locked == m.locked && r.installed == m.installed && r.stdin == m.stdin
    ensures |r.journal| > |m.journal|
    ensures r.cachedRepos - {src.name} == m.cachedRepos - {src.name}
  {
    var v := MirrorVerdict(src, mirror, env);
    m.(files := if v.DbUnavailable? then m.files else m.files[CachePath(root, src.name) := []],
       cachedRepos := if v.Accepted? then m.cachedRepos[src.name := v.hash] else m.cachedRepos,
       journal := m.journal + AttemptEvents(root, src, mirror, env))
  }

  /** An attempt leaves the manifest entry of every other repository as it was. */
  lemma AttemptOtherSources(m: Machine, root: string, src: Conf.Source, mirror: string, env: Env, name: string)
    requires name != src.name
    ensures var r := Attempt(m, root, src, mirror, env);
            (name in r.cachedRepos <==> name in m.cachedRepos) &&
            (name in m.cachedRepos ==> r.cachedRepos[name] == m.cachedRepos[name])
  {
    var r := Attempt(m, root, src, mirror, env);
    assert (name in r.cachedRepos <==> name in r.cachedRepos - {src.name}) && (name in m.cachedRepos <==> name in m.cachedRepos - {src.name});
    if name in m.cachedRepos {
      assert r.cachedRepos[name] == (r.cachedRepos - {src.name})[name];
    }
  }

  /** The inner loop over the mirrors; the flag says whether the process aborted. */
  function TryMirrors(m: Machine, root: string, src: Conf.Source, mirrors: seq<string>, env: Env): (r: (Machine, bool))
    ensures r.0.locked == m.locked && r.0.installed == m.installed && r.0.stdin == m.stdin
    ensures r.1 ==> mirrors != []
    decreases |mirrors|
  {
    if mirrors == [] then (m, false)
    else
      var v := MirrorVerdict(src, mirrors[0], env);
      var m' := Attempt(m, root, src, mirrors[0], env);
      if Terminal(v) then (m', v.HashNotUtf8?)
      else TryMirrors(m', root, src, mirrors[1..], env)
  }

  /** The outer loop over the sources. */
  function SyncSources(m: Machine, root: string, sources: seq<Conf.Source>, mirrors: seq<string>, env: Env): (r: (Machine, bool))
    ensures r.0.locked == m.locked && r.0.installed == m.installed && r.0.stdin == m.stdin
    ensures r.1 ==> sources != [] && mirrors != []
    decreases |sources|
  {
    if sources == [] then (m, false)
    else
      var r := TryMirrors(m, root, sources[0], mirrors, env);
      if r.1 then r else SyncSources(r.0, root, sources[1..], mirrors, env)
  }

  /** The whole command: lock, the loops over the active sources, unlock. */
  function SyncSpec(m: Machine, root: string, config: Conf.Config, mirrors: seq<string>, env: Env): (r: (Machine, bool))
    ensures r.1 <==> r.0.locked
    ensures r.1 ==> Conf.ActiveSources(config.repos) != [] && mirrors != []
  {
    var start := m.(locked := true, journal := m.journal + [LockCreated]);
    var r := SyncSources(start, root, Conf.ActiveSources(config.repos), mirrors, env);
    if r.1 then r else (r.0.(locked := false, journal := r.0.journal + [LockRemoved]), false)
  }

  /** `std::io::Cursor` over a downloaded body. */
  class Cursor {
    const data: seq<byte>
    var pos: nat

    constructor (data: seq<byte>)
      ensures this.data == data && pos == 0
    {
      this.data := data;
      pos := 0;
    }

    /** `Read::read`: copies into `buf` as many of the remaining bytes as fit. */
    method Read(buf: array<byte>) returns (n: nat)
      requires pos <= |data|
      modifies this, buf
      ensures pos <= |data|
      ensures n == if buf.Length < |data| - old(pos) then buf.Length else |data| - old(pos)
      ensures pos == old(pos) + n
      ensures buf[..n] == data[old(pos)..pos]
    {
      n := if buf.Length < |data| - pos then buf.Length else |data| - pos;
      forall k | 0 <= k < n {
        buf[k] := data[pos + k];
      }
      pos := pos + n;
    }

    /** What `io::copy` reads: everything from the position to the end. */
    method ReadToEnd() returns (rest: seq<byte>)
      requires pos <= |data|
      modifies this
      ensures rest == data[old(pos)..] && pos == |data|
    {
      rest := data[pos..];
      pos := |data|;
    }
  }

  /** The bytes of a list of chunks, in order. */
  function Flatten(chunks: seq<seq<byte>>): seq<byte>
  {
    if chunks == [] then [] else Flatten(chunks[..|chunks| - 1]) + chunks[|chunks| - 1]
  }

  /** A SHA-512 `Context`: it remembers the bytes fed to it, and finishing
      digests all of them at once. `chunks` records the separate updates. */
  class Digest {
    var fed: seq<byte>
    ghost var chunks: seq<seq<byte>>

    constructor ()
      ensures fed == [] && chunks == []
    {
      fed := [];
      chunks := [];
    }

    method Update(chunk: seq<byte>)
      modifies this
      ensures fed == old(fed) + chunk && chunks == old(chunks) + [chunk]
    {
      fed := fed + chunk;
      chunks := chunks + [chunk];
    }

    function Finish(sha512Hex: seq<byte> -> string): string
      reads this
    {
      sha512Hex(fed)
    }
  }

  /** The hashing loop: reads the cursor in chunks of at most 1024 bytes until
      a read returns 0, feeding every chunk to the digest. Everything is fed,
      in order, and the cursor is left at the end of the data. */
  method HashBody(content: Cursor, sha512Hex: seq<byte> -> string) returns (digest: string, ghost chunks: seq<seq<byte>>)
    requires content.pos == 0
    modifies content
    ensures content.pos == |content.data|
    ensures digest == sha512Hex(content.data)
    ensures Flatten(chunks) == content.data
    ensures forall k :: 0 <= k < |chunks| ==> 0 < |chunks[k]| <= ChunkSize
  {
    var context := new Digest();
    var buffer := new byte[ChunkSize];
    while true
      invariant content.pos <= |content.data|
      invariant context.fed == content.data[..content.pos] == Flatten(context.chunks)
      invariant forall k :: 0 <= k < |context.chunks| ==> 0 < |context.chunks[k]| <= ChunkSize
      modifies content, buffer, context
      decreases |content.data| - content.pos
    {
      var read := FeedChunk(content, buffer, context);
      if read == 0 {
        break;
      }
    }
    assert context.fed == content.data;
    digest := context.Finish(sha512Hex);
    chunks := context.chunks;
  }

  /** One round of the hashing loop: a read into the buffer and, when it
      returned bytes, the chunk fed to the digest. A read of 0 bytes happens
      exactly at the end of the data. */
  method FeedChunk(content: Cursor, buffer: array<byte>, context: Digest) returns (read: nat)
    requires buffer.Length == ChunkSize
    requires content.pos <= |content.data|
    requires context.fed == content.data[..content.pos] == Flatten(context.chunks)
    requires forall k :: 0 <= k < |context.chunks| ==> 0 < |context.chunks[k]| <= ChunkSize
    modifies content, buffer, context
    ensures content.pos == old(content.pos) + read <= |content.data|
    ensures read == 0 <==> old(content.pos) == |content.data|
    ensures context.fed == content.data[..content.pos] == Flatten(context.chunks)
    ensures forall k :: 0 <= k < |context.chunks| ==> 0 < |context.chunks[k]| <= ChunkSize
  {
    ghost var before := content.pos;
    read := content.Read(buffer);
    if read > 0 {
      ghost var earlier := context.chunks;
      context.Update(buffer[..read]);
      assert content.data[..content.pos] == content.data[..before] + buffer[..read];
      assert context.chunks[..|context.chunks| - 1] == earlier;
    }
  }

  /** One iteration of the mirror loop for source `src`. */
  method TryMirror(h: Host, root: string, src: Conf.Source, mirror: string, env: Env) returns (v: Verdict)
    modifies h
    ensures v == MirrorVerdict(src, mirror, env)
    ensures h.State() == Attempt(old(h.State()), root, src, mirror, env)
  {
    ghost var m0 := h.State();
    var url := DbUrl(src, mirror);
    var dbResponse := h.Get(url, env.get);
    if !dbResponse.Reply? || dbResponse.status != StatusOk {
      assert MirrorVerdict(src, mirror, env) == DbUnavailable;
      return DbUnavailable;
    }
    v := CheckMirror(h, root, src, mirror, env, m0, dbResponse.body);
  }

  /** The rest of an iteration once the database download has succeeded. */
  method CheckMirror(h: Host, root: string, src: Conf.Source, mirror: string, env: Env, ghost m0: Machine, body: seq<byte>)
    returns (v: Verdict)
    requires IsOk(env.get(DbUrl(src, mirror))) && body == env.get(DbUrl(src, mirror)).body
    requires h.State() == m0.(journal := m0.journal + [Fetched(DbUrl(src, mirror))])
    modifies h
    ensures v == MirrorVerdict(src, mirror, env)
    ensures h.State() == Attempt(m0, root, src, mirror, env)
  {
    var dest := CachePath(root, src.name);
    h.Create(dest);
    var content := new Cursor(body);
    var hashUrl := HashUrl(src, mirror);
    var hashResponse := h.Get(hashUrl, env.get);
    ghost var m1 := m0.(files := m0.files[dest := []], journal := m0.journal + [Fetched(DbUrl(src, mirror)), Created(dest), Fetched(hashUrl)]);
    assert h.State() == m1;
    if !hashResponse.Reply? || hashResponse.status != StatusOk {
      assert MirrorVerdict(src, mirror, env) == HashUnavailable;
      return HashUnavailable;
    }
    var hashString := env.fromUtf8(hashResponse.body);
    if hashString.None? {
      assert MirrorVerdict(src, mirror, env) == HashNotUtf8;
      return HashNotUtf8;
    }
    var generated, _ := HashBody(content, env.sha512Hex);
    if generated != hashString.value {
      assert MirrorVerdict(src, mirror, env) == Mismatch;
      return Mismatch;
    }
    assert MirrorVerdict(src, mirror, env) == Accepted(hashString.value);
    Accept(h, dest, content, src.name, hashString.value);
    v := Accepted(hashString.value);
  }

  /** Acceptance: `copy` from the cursor into the cache file, then
      `update_cached_repos`. The cursor is already at its end, so the copy
      appends nothing. */
  method Accept(h: Host, dest: Path, content: Cursor, name: string, hash: string)
    requires dest in h.files && content.pos == |content.data|
    modifies h, content
    ensures h.State() == old(h.State()).(cachedRepos := old(h.cachedRepos)[name := hash],
                                         journal := old(h.journal) + [Copied(dest, []), CacheRecorded(name, hash)])
  {
    ghost var files := h.files;
    var rest := content.ReadToEnd();
    assert files[dest] + rest == files[dest];
    assert files[dest := files[dest] + rest] == files;
    h.Append(dest, rest);
    h.RecordCache(name, hash);
  }

  /** `sync`: returns whether the process aborted. */
  method Sync(h: Host, root: string, config: Conf.Config, mirrors: seq<string>, env: Env) returns (aborted: bool)
    modifies h
    ensures (h.State(), aborted) == SyncSpec(old(h.State()), root, config, mirrors, env)
  {
    h.CreateLock();
    var sources := Conf.GetSources(config);
    ghost var start := h.State();
    for i := 0 to |sources|
      invariant h.locked
      invariant SyncSources(h.State(), root, sources[i..], mirrors, env) == SyncSources(start, root, sources, mirrors, env)
    {
      var src := sources[i];
      ghost var before := h.State();
      assert sources[i..][0] == src && sources[i..][1..] == sources[i + 1..];
      var j := 0;
      while j < |mirrors|
        invariant j <= |mirrors| && h.locked
        invariant TryMirrors(h.State(), root, src, mirrors[j..], env) == TryMirrors(before, root, src, mirrors, env)
      {
        assert mirrors[j..][0] == mirrors[j] && mirrors[j..][1..] == mirrors[j + 1..];
        var v := TryMirror(h, root, src, mirrors[j], env);
        if v.HashNotUtf8? {
          return true;
        }
        if v.Accepted? {
          break;
        }
        j := j + 1;
      }
      assert TryMirrors(before, root, src, mirrors, env) == (h.State(), false);
    }
    var unlocked := h.RemoveLock();
    assert unlocked;
    aborted := false;
  }

  // ---------------------------------------------------------------------
  // Properties of the specification

  /** A template `p$repoq` whose fixed parts hold no `$` gives the URLs
      `p<name>q/database.db` and `p<name>q/database.hash`. */
  lemma TemplateUrls(src: Conf.Source, p: string, q: string)
    requires src.url.None? && '$' !in p && '$' !in q
    ensures DbUrl(src, p + RepoToken + q) == p + src.name + q + "/database.db"
    ensures HashUrl(src, p + RepoToken + q) == p + src.name + q + "/database.hash"
  {
    ReplaceAllAfter(p, RepoToken, q, src.name);
    ReplaceAllAbsent(q, RepoToken, src.name);
  }

  /** Number of mirrors attempted for a source: up to and including the first
      whose attempt ends the loop, or all of them. */
  function Tried(src: Conf.Source, mirrors: seq<string>, env: Env): (n: nat)
    ensures n <= |mirrors| && (mirrors != [] ==> n > 0)
    ensures forall j :: 0 <= j < n - 1 ==> !Terminal(MirrorVerdict(src, mirrors[j], env))
    ensures n == |mirrors| || Terminal(MirrorVerdict(src, mirrors[n - 1], env))
    decreases |mirrors|
  {
    if mirrors == [] then 0
    else if Terminal(MirrorVerdict(src, mirrors[0], env)) then 1
    else 1 + Tried(src, mirrors[1..], env)
  }

  /** The I/O calls of attempts on a list of mirrors, one after the other. */
  function EventsOf(root: string, src: Conf.Source, mirrors: seq<string>, env: Env): seq<Event>
    decreases |mirrors|
  {
    if mirrors == [] then [] else AttemptEvents(root, src, mirrors[0], env) + EventsOf(root, src, mirrors[1..], env)
  }

  /** Mirrors are attempted in list order, each once, up to and including the
      first one that is accepted or aborts the process; the process aborts
      exactly when that last one's hash file was not UTF-8. */
  lemma MirrorsTriedInOrder(m: Machine, root: string, src: Conf.Source, mirrors: seq<string>, env: Env)
    ensures var r := TryMirrors(m, root, src, mirrors, env);
            var n := Tried(src, mirrors, env);
            r.0.journal == m.journal + EventsOf(root, src, mirrors[..n], env) &&
            r.1 == (n > 0 && MirrorVerdict(src, mirrors[n - 1], env).HashNotUtf8?)
  {
    MirrorsJournal(m, root, src, mirrors, env);
    MirrorsEnding(m, root, src, mirrors, env);
    EndingTried(src, mirrors, env);
  }

  lemma MirrorsJournal(m: Machine, root: string, src: Conf.Source, mirrors: seq<string>, env: Env)
    ensures TryMirrors(m, root, src, mirrors, env).0.journal ==
            m.journal + EventsOf(root, src, mirrors[..Tried(src, mirrors, env)], env)
  {
    MirrorsLogged(m, root, src, mirrors, env);
    AttemptLogTried(root, src, mirrors, env);
  }

  /** The events of the attempts on `mirrors` up to the first that ends the
      loop. */
  function AttemptLog(root: string, src: Conf.Source, mirrors: seq<string>, env: Env): seq<Event>
    decreases |mirrors|
  {
    if mirrors == [] then []
    else if Terminal(MirrorVerdict(src, mirrors[0], env)) then AttemptEvents(root, src, mirrors[0], env)
    else AttemptEvents(root, src, mirrors[0], env) + AttemptLog(root, src, mirrors[1..], env)
  }

  lemma {:induction false} MirrorsLogged(m: Machine, root: string, src: Conf.Source, mirrors: seq<string>, env: Env)
    ensures TryMirrors(m, root, src, mirrors, env).0.journal == m.journal + AttemptLog(root, src, mirrors, env)
    decreases |mirrors|
  {
    if mirrors != [] && !Terminal(MirrorVerdict(src, mirrors[0], env)) {
      var m' := Attempt(m, root, src, mirrors[0], env);
      MirrorsLogged(m', root, src, mirrors[1..], env);
    }
  }

  lemma {:induction false} AttemptLogTried(root: string, src: Conf.Source, mirrors: seq<string>, env: Env)
    ensures AttemptLog(root, src, mirrors, env) == EventsOf(root, src, mirrors[..Tried(src, mirrors, env)], env)
    decreases |mirrors|
  {
    if mirrors != [] {
      var n := Tried(src, mirrors, env);
      var tried := mirrors[..n];
      assert tried[0] == mirrors[0];
      if Terminal(MirrorVerdict(src, mirrors[0], env)) {
        assert tried[1..] == [];
      } else {
        AttemptLogTried(root, src, mirrors[1..], env);
        assert tried[1..] == mirrors[1..][..n - 1];
      }
    }
  }

  /** The verdict that ends the attempts on `mirrors`, if one does. */
  function Ending(src: Conf.Source, mirrors: seq<string>, env: Env): Option<Verdict>
    decreases |mirrors|
  {
    if mirrors == [] then None
    else if Terminal(MirrorVerdict(src, mirrors[0], env)) then Some(MirrorVerdict(src, mirrors[0], env))
    else Ending(src, mirrors[1..], env)
  }

  /** The flag and the manifest after the attempts follow the ending verdict. */
  lemma {:induction false} MirrorsEnding(m: Machine, root: string, src: Conf.Source, mirrors: seq<string>, env: Env)
    ensures var r := TryMirrors(m, root, src, mirrors, env);
            var e := Ending(src, mirrors, env);
            && r.1 == (e.Some? && e.value.HashNotUtf8?)
            && r.0.cachedRepos == if e.Some? && e.value.Accepted? then m.cachedRepos[src.name := e.value.hash] else m.cachedRepos
    decreases |mirrors|
  {
    if mirrors != [] && !Terminal(MirrorVerdict(src, mirrors[0], env)) {
      MirrorsEnding(Attempt(m, root, src, mirrors[0], env), root, src, mirrors[1..], env);
    }
  }

  /** The ending verdict is the verdict of the last tried mirror, when that
      one ended the attempts. */
  lemma {:induction false} EndingTried(src: Conf.Source, mirrors: seq<string>, env: Env)
    ensures var n := Tried(src, mirrors, env);
            Ending(src, mirrors, env) ==
              if n > 0 && Terminal(MirrorVerdict(src, mirrors[n - 1], env)) then Some(MirrorVerdict(src, mirrors[n - 1], env))
              else None
    decreases |mirrors|
  {
    if mirrors != [] && !Terminal(MirrorVerdict(src, mirrors[0], env)) {
      var n := Tried(src, mirrors, env);
      EndingTried(src, mirrors[1..], env);
      if n > 1 {
        assert mirrors[1..][n - 2] == mirrors[n - 1];
      }
    }
  }

  /** Some mirror among `mirrors` delivered its database. */
  predicate SomeDelivered(src: Conf.Source, mirrors: seq<string>, env: Env)
  {
    exists j :: 0 <= j < |mirrors| && !MirrorVerdict(src, mirrors[j], env).DbUnavailable?
  }

  lemma SomeDeliveredCons(src: Conf.Source, mirrors: seq<string>, env: Env)
    requires mirrors != []
    ensures SomeDelivered(src, mirrors, env) <==>
            !MirrorVerdict(src, mirrors[0], env).DbUnavailable? || SomeDelivered(src, mirrors[1..], env)
  {
    if SomeDelivered(src, mirrors[1..], env) {
      var j :| 0 <= j < |mirrors[1..]| && !MirrorVerdict(src, mirrors[1..][j], env).DbUnavailable?;
      assert mirrors[1..][j] == mirrors[j + 1];
    }
    if SomeDelivered(src, mirrors, env) {
      var j :| 0 <= j < |mirrors| && !MirrorVerdict(src, mirrors[j], env).DbUnavailable?;
      if j > 0 {
        assert mirrors[1..][j - 1] == mirrors[j];
      }
    }
  }

  /** What the attempts on one source do to the files: the cache file is
      emptied as soon as one attempted mirror delivered its database, and every
      other path is left alone. */
  lemma MirrorsFiles(m: Machine, root: string, src: Conf.Source, mirrors: seq<string>, env: Env)
    ensures var r := TryMirrors(m, root, src, mirrors, env).0;
            r.files == (if SomeDelivered(src, mirrors[..Tried(src, mirrors, env)], env)
                        then m.files[CachePath(root, src.name) := []] else m.files)
  {
    MirrorsTouch(m, root, src, mirrors, env);
    CacheTouchedTried(src, mirrors, env);
  }

  /** Whether an attempt before the loop ends gets the database, and with it
      creates the cache file. */
  function CacheTouched(src: Conf.Source, mirrors: seq<string>, env: Env): bool
    decreases |mirrors|
  {
    if mirrors == [] then false
    else
      var v := MirrorVerdict(src, mirrors[0], env);
      !v.DbUnavailable? || (!Terminal(v) && CacheTouched(src, mirrors[1..], env))
  }

  lemma {:induction false} MirrorsTouch(m: Machine, root: string, src: Conf.Source, mirrors: seq<string>, env: Env)
    ensures TryMirrors(m, root, src, mirrors, env).0.files ==
            if CacheTouched(src, mirrors, env) then m.files[CachePath(root, src.name) := []] else m.files
    decreases |mirrors|
  {
    if mirrors != [] && !Terminal(MirrorVerdict(src, mirrors[0], env)) {
      var m' := Attempt(m, root, src, mirrors[0], env);
      MirrorsTouch(m', root, src, mirrors[1..], env);
      if !MirrorVerdict(src, mirrors[0], env).DbUnavailable? && CacheTouched(src, mirrors[1..], env) {
        assert m'.files[CachePath(root, src.name) := []] == m.files[CachePath(root, src.name) := []];
      }
    }
  }

  lemma {:induction false} CacheTouchedTried(src: Conf.Source, mirrors: seq<string>, env: Env)
    ensures CacheTouched(src, mirrors, env) == SomeDelivered(src, mirrors[..Tried(src, mirrors, env)], env)
    decreases |mirrors|
  {
    if mirrors != [] {
      var n := Tried(src, mirrors, env);
      var tried := mirrors[..n];
      assert tried[0] == mirrors[0];
      SomeDeliveredCons(src, tried, env);
      if Terminal(MirrorVerdict(src, mirrors[0], env)) {
        assert tried[1..] == [];
      } else {
        CacheTouchedTried(src, mirrors[1..], env);
        assert mirrors[1..][..n - 1] == tried[1..];
      }
    }
  }

  /** What the attempts on one source do to the manifest: it changes only
      when a mirror is accepted, and then records the text of that mirror's
      hash file, which is the digest of the database it delivered, while the
      cache file holds no bytes at all. */
  lemma MirrorsManifest(m: Machine, root: string, src: Conf.Source, mirrors: seq<string>, env: Env)
    ensures var r := TryMirrors(m, root, src, mirrors, env).0;
            var n := Tried(src, mirrors, env);
            && (if n > 0 && MirrorVerdict(src, mirrors[n - 1], env).Accepted? then
                  var hash := MirrorVerdict(src, mirrors[n - 1], env).hash;
                  && r.cachedRepos == m.cachedRepos[src.name := hash]
                  && hash == env.sha512Hex(env.get(DbUrl(src, mirrors[n - 1])).body)
                  && CachePath(root, src.name) in r.files && r.files[CachePath(root, src.name)] == []
                else r.cachedRepos == m.cachedRepos)
  {
    MirrorsEnding(m, root, src, mirrors, env);
    EndingTried(src, mirrors, env);
    var n := Tried(src, mirrors, env);
    if n > 0 && MirrorVerdict(src, mirrors[n - 1], env).Accepted? {
      MirrorsFiles(m, root, src, mirrors, env);
      assert mirrors[..n][n - 1] == mirrors[n - 1];
      assert SomeDelivered(src, mirrors[..n], env);
    }
  }

  /** A source with its own URL is fetched from that URL whatever the mirror:
      once per mirror entry when every attempt fails, and never when the
      mirror list is empty. */
  lemma {:induction false} CustomUrlRetried(src: Conf.Source, mirrors: seq<string>, env: Env)
    requires src.url.Some?
    ensures forall j :: 0 <= j < |mirrors| ==>
              DbUrl(src, mirrors[j]) == src.url.value + "/database.db" &&
              HashUrl(src, mirrors[j]) == src.url.value + "/database.hash"
    ensures Tried(src, mirrors, env) ==
            if mirrors == [] then 0
            else if Terminal(MirrorVerdict(src, mirrors[0], env)) then 1
            else |mirrors|
    decreases |mirrors|
  {
    if |mirrors| > 1 {
      CustomUrlRetried(src, mirrors[1..], env);
      assert MirrorVerdict(src, mirrors[1], env) == MirrorVerdict(src, mirrors[0], env);
    }
  }

  /** An event a mirror attempt may journal: no lock operation, and a fetch
      only of a URL built from one of the given sources and mirrors. */
  predicate FromSources(e: Event, sources: seq<Conf.Source>, mirrors: seq<string>)
  {
    && !e.LockCreated? && !e.LockRemoved?
    && (e.Fetched? ==> exists s, mirror :: s in sources && mirror in mirrors &&
                                          (e.url == DbUrl(s, mirror) || e.url == HashUrl(s, mirror)))
  }

  /** The attempts on one source append to the journal only events of that
      source, and change neither lock, database nor input. */
  lemma {:induction false} TryMirrorsEvents(m: Machine, root: string, src: Conf.Source, mirrors: seq<string>, env: Env)
    ensures var r := TryMirrors(m, root, src, mirrors, env).0;
            && m.journal <= r.journal
            && r.locked == m.locked && r.installed == m.installed && r.stdin == m.stdin
            && forall k :: |m.journal| <= k < |r.journal| ==> FromSources(r.journal[k], [src], mirrors)
    decreases |mirrors|
  {
    if mirrors != [] {
      var m' := Attempt(m, root, src, mirrors[0], env);
      assert forall k :: |m.journal| <= k < |m'.journal| ==> FromSources(m'.journal[k], [src], mirrors);
      if !Terminal(MirrorVerdict(src, mirrors[0], env)) {
        TryMirrorsEvents(m', root, src, mirrors[1..], env);
        var r := TryMirrors(m', root, src, mirrors[1..], env).0;
        forall k | |m.journal| <= k < |r.journal|
          ensures FromSources(r.journal[k], [src], mirrors)
        {
          if k >= |m'.journal| {
            assert FromSources(r.journal[k], [src], mirrors[1..]);
          }
        }
      }
    }
  }

  /** The loop over the sources appends only events of those sources. */
  lemma {:induction false} SyncSourcesEvents(m: Machine, root: string, sources: seq<Conf.Source>, mirrors: seq<string>, env: Env)
    ensures var r := SyncSources(m, root, sources, mirrors, env).0;
            && m.journal <= r.journal && r.locked == m.locked
            && forall k :: |m.journal| <= k < |r.journal| ==> FromSources(r.journal[k], sources, mirrors)
    decreases |sources|
  {
    if sources != [] {
      TryMirrorsEvents(m, root, sources[0], mirrors, env);
      var t := TryMirrors(m, root, sources[0], mirrors, env);
      forall k | |m.journal| <= k < |t.0.journal|
        ensures FromSources(t.0.journal[k], sources, mirrors)
      {
        assert FromSources(t.0.journal[k], [sources[0]], mirrors);
      }
      if !t.1 {
        SyncSourcesEvents(t.0, root, sources[1..], mirrors, env);
        var r := SyncSources(t.0, root, sources[1..], mirrors, env).0;
        forall k | |t.0.journal| <= k < |r.journal|
          ensures FromSources(r.journal[k], sources, mirrors)
        {
          assert FromSources(r.journal[k], sources[1..], mirrors);
        }
      }
    }
  }

  /** A sync run contacts only active sources; it takes the lock first and,
      unless it aborts, releases it exactly once, at the very end, even when
      every mirror failed. An abort leaves the lock behind. */
  lemma SyncLockAndSources(m: Machine, root: string, config: Conf.Config, mirrors: seq<string>, env: Env)
    ensures var r := SyncSpec(m, root, config, mirrors, env);
            var active := Conf.ActiveSources(config.repos);
            && |r.0.journal| > |m.journal| && r.0.journal[|m.journal|] == LockCreated
            && (forall k :: |m.journal| < k < |r.0.journal| && r.0.journal[k].Fetched? ==>
                  exists s, mirror :: s in active && mirror in mirrors &&
                                      (r.0.journal[k].url == DbUrl(s, mirror) || r.0.journal[k].url == HashUrl(s, mirror)))
            && (r.1 ==> r.0.locked && forall k :: |m.journal| < k < |r.0.journal| ==> !r.0.journal[k].LockRemoved?)
            && (!r.1 ==> !r.0.locked && r.0.journal[|r.0.journal| - 1] == LockRemoved &&
                         forall k :: |m.journal| < k < |r.0.journal| - 1 ==> !r.0.journal[k].LockRemoved?)
  {
    var start := m.(locked := true, journal := m.journal + [LockCreated]);
    SyncSourcesEvents(start, root, Conf.ActiveSources(config.repos), mirrors, env);
  }

  /** The scenario of a three-mirror list: the first answers 404, the second
      serves a database whose digest does not match its hash file, the third
      passes. The three are attempted once each, in order; the source ends up
      recorded with the third mirror's hash, and its cache file is empty. */
  lemma ThreeMirrors(m: Machine, root: string, src: Conf.Source, m1: string, m2: string, m3: string, env: Env,
                     db2: seq<byte>, hash2: seq<byte>, text2: string, db3: seq<byte>, hash3: seq<byte>, text3: string)
    requires env.get(DbUrl(src, m1)) == Reply(404, [])
    requires env.get(DbUrl(src, m2)) == Reply(200, db2) && env.get(HashUrl(src, m2)) == Reply(200, hash2)
    requires env.fromUtf8(hash2) == Some(text2) && env.sha512Hex(db2) != text2
    requires env.get(DbUrl(src, m3)) == Reply(200, db3) && env.get(HashUrl(src, m3)) == Reply(200, hash3)
    requires env.fromUtf8(hash3) == Some(text3) && env.sha512Hex(db3) == text3
    ensures var r := TryMirrors(m, root, src, [m1, m2, m3], env);
            var path := CachePath(root, src.name);
            && !r.1
            && r.0.journal == m.journal + [Fetched(DbUrl(src, m1)),
                                           Fetched(DbUrl(src, m2)), Created(path), Fetched(HashUrl(src, m2)),
                                           Fetched(DbUrl(src, m3)), Created(path), Fetched(HashUrl(src, m3)),
                                           Copied(path, []), CacheRecorded(src.name, text3)]
            && r.0.cachedRepos == m.cachedRepos[src.name := text3]
            && r.0.files == m.files[path := []]
  {
    var ms := [m1, m2, m3];
    assert ms[1..] == [m2, m3] && ms[1..][1..] == [m3];
    var a1 := Attempt(m, root, src, m1, env);
    var a2 := Attempt(a1, root, src, m2, env);
    assert TryMirrors(m, root, src, ms, env) == TryMirrors(a1, root, src, [m2, m3], env);
    assert TryMirrors(a1, root, src, [m2, m3], env) == TryMirrors(a2, root, src, [m3], env);
  }

  // ---------------------------------------------------------------------
  // The cache and the manifest

  /** The manifest agrees with the cache: every recorded source has a cache
      file, and the digest of that file is the recorded hash. */
  predicate CacheConsistent(m: Machine, root: string, env: Env)
  {
    forall name :: name in m.cachedRepos ==>
      CachePath(root, name) in m.files && env.sha512Hex(m.files[CachePath(root, name)]) == m.cachedRepos[name]
  }

  /** Different sources have different cache files. */
  lemma CachePathInjective(root: string, a: string, b: string)
    requires CachePath(root, a) == CachePath(root, b)
    ensures a == b
  {
    var prefix := root + "/etc/bulge/databases/cache/";
    assert CachePath(root, a) == prefix + a + ".db" && CachePath(root, b) == prefix + b + ".db";
    assert |a| == |b|;
    assert a == CachePath(root, a)[|prefix|..|prefix| + |a|];
    assert b == CachePath(root, b)[|prefix|..|prefix| + |b|];
  }

  /** As written, a mirror that delivers its database but then fails (no
      hash, or a digest mismatch) leaves the cache file of the source empty
      and the manifest as it was: a source that was consistent before is not
      any more, unless an empty file happens to have the recorded digest. */
  lemma TruncatedBeforeVerified(m: Machine, root: string, src: Conf.Source, mirror: string, env: Env)
    requires MirrorVerdict(src, mirror, env).HashUnavailable? || MirrorVerdict(src, mirror, env).Mismatch?
    requires CacheConsistent(m, root, env) && src.name in m.cachedRepos
    requires env.sha512Hex([]) != m.cachedRepos[src.name]
    ensures var r := Attempt(m, root, src, mirror, env);
            r.files[CachePath(root, src.name)] == [] && r.cachedRepos == m.cachedRepos &&
            !CacheConsistent(r, root, env)
  {
  }

  /** As written, an accepted mirror records its hash while the cache file is
      left empty, so the manifest disagrees with the cache whenever the empty
      file does not have the accepted digest. */
  lemma AcceptedCacheEmpty(m: Machine, root: string, src: Conf.Source, mirror: string, env: Env)
    requires MirrorVerdict(src, mirror, env).Accepted?
    requires env.sha512Hex([]) != MirrorVerdict(src, mirror, env).hash
    ensures var r := Attempt(m, root, src, mirror, env);
            r.files[CachePath(root, src.name)] == [] &&
            r.cachedRepos[src.name] == MirrorVerdict(src, mirror, env).hash &&
            !CacheConsistent(r, root, env)
  {
  }

  /** A mirror attempt as the cache update evidently intends it: the cache file
      is written, with the downloaded database, only once the mirror has been
      accepted; a failed attempt leaves files and manifest alone. */
  function AttemptIntended(m: Machine, root: string, src: Conf.Source, mirror: string, env: Env): Machine
  {
    var v := MirrorVerdict(src, mirror, env);
    if v.Accepted? then
      m.(files := m.files[CachePath(root, src.name) := env.get(DbUrl(src, mirror)).body],
         cachedRepos := m.cachedRepos[src.name := v.hash])
    else m
  }

  /** The intended attempt keeps the manifest consistent with the cache. */
  lemma IntendedKeepsCacheConsistent(m: Machine, root: string, src: Conf.Source, mirror: string, env: Env)
    requires CacheConsistent(m, root, env)
    ensures CacheConsistent(AttemptIntended(m, root, src, mirror, env), root, env)
  {
    var r := AttemptIntended(m, root, src, mirror, env);
    if MirrorVerdict(src, mirror, env).Accepted? {
      forall name | name in r.cachedRepos
        ensures CachePath(root, name) in r.files && env.sha512Hex(r.files[CachePath(root, name)]) == r.cachedRepos[name]
      {
        if name != src.name {
          if CachePath(root, name) == CachePath(root, src.name) {
            CachePathInjective(root, name, src.name);
          }
        }
      }
    }
  }
}
