# bulge transaction engine in Dafny

A model of the core of `bulge`, a package manager for a small Linux
distribution written in Rust. The model covers:

- `sync`: for every active repository the mirrors are tried in turn. The
  database and its SHA-512 hash file are downloaded, and the manifest of
  cached repositories is updated from the first mirror that passes.
- `run_install` / `run_remove`: installing a package archive with its prompts,
  conflict deletion, database record and extraction; removing the owned files
  and the record.
- `check_if_package`: is there a `PKG` entry in the archive?
- `get_sources` and `get_config_entry`, over an already parsed configuration.
- The comma list codec `vec_to_string` / `string_to_vec`.
- The command dispatch of `main`.

Files:

| file | models |
|---|---|
| `prelude.dfy` | `Option`, bytes, ASCII lower-casing, prefix/suffix tests, `str::replace` |
| `host.dfy` | the machine: file system, installed-package database, cached-repository manifest, terminal input, lock marker, and a journal of I/O calls; the class `Host` with the I/O primitives |
| `macros.dfy` | `src/util/macros.rs` |
| `conf.dfy` | `src/util/conf.rs` |
| `cli.dfy` | `src/main.rs` |
| `sync.dfy` | `src/commands/sync.rs` |
| `packaging.dfy` | `src/util/packaging/fns.rs` |

The imperative code is modelled imperatively. `Sync.Sync`,
`Packaging.RunInstall` and `Packaging.RunRemove` are methods on a `Host`
object that mutate its fields through the primitives. The hashing loop reads a
`Cursor` through a 1024-byte `array` and feeds a `Digest` object. Each of
these methods is proved to leave the host in exactly the state that a
specification function (`SyncSpec`, `InstallSpec`, `RemoveSpec`) computes from
the old state, and the lemmas state what those functions guarantee.

Services whose code is not part of this model are parameters, bundled in an
`Env` value: HTTP `get`, SHA-512 with hex encoding, `String::from_utf8`,
xz/tar decoding, JSON decoding of `PKG`, `run_conflict_check`, and version
comparison.

Conventions:

- A Rust panic (`expect`, `unwrap`) ends a transaction as
  `Aborted(PanicStatus)`, status 101.
- `process::exit(1)` ends it as `Aborted(1)`.
- `sync` returns whether it aborted.

The sync model follows the code as written, including two defects that break
the agreement between the manifest and the cache files (see Findings):

- the cache file is created, and so truncated, as soon as the database download
  succeeds (src/commands/sync.rs:57-59), before the hash is checked;
- the `copy` at src/commands/sync.rs:112 reads from the cursor that the hashing
  loop has already drained, so it writes nothing.

The prompt at src/util/packaging/fns.rs:65-76 announces a downgrade, but it
fires when the new version compares *greater* than the installed one. The
model follows the comparison as written (`Packaging.ExtraPrompt`).
`Packaging.ConfirmIntended` is the confirmation with the comparison turned
round, as the warning means it (see Findings).

## Model

| member | source | states |
|---|---|---|
| Macros.VecToString | src/util/macros.rs:2-13 | the result is the comma-join of the list: the elements in order, one comma between neighbours, none at either end, and "" for the empty list |
| Macros.StringToVec | src/util/macros.rs:16-18 | splitting at commas gives one more piece than there are commas, and no piece contains a comma |
| Macros.JoinOfSplit | src/util/macros.rs:2-18 | joining the pieces of any string gives the string back |
| Macros.SplitOfJoin | src/util/macros.rs:2-18 | splitting the join of comma-free strings gives the list back; the empty list comes back as [""] |
| Macros.SplitUnique | src/util/macros.rs:2-18 | a non-empty list of comma-free strings is the split of its join, so such a list is determined by its join |
| Macros.JoinSnoc | src/util/macros.rs:5-11 | one more loop round appends a comma and the next element |
| Conf.GetSources | src/util/conf.rs:108-123 | the loop returns the active repositories as sources, in configuration order |
| Conf.ActiveSourcesMembers | src/util/conf.rs:113-120 | a source is returned if and only if some active node carries its name and URL |
| Conf.ActiveSourcesAppend | src/util/conf.rs:113-120 | the filter commutes with concatenation, so the order is kept |
| Conf.ScalarEntries | src/util/conf.rs:61-70 | architecture, colour and progress bar are returned whatever the repository arguments; the booleans come back as "true"/"false" |
| Conf.ReposNeverFound | src/util/conf.rs:71-89 | as written, the Repos branch never returns a field: it is ConfigError exactly when a repository or field is named or the list is empty, and a panic otherwise |
| Conf.InvertedGuardCounterexample | src/util/conf.rs:72-88 | asking for the name of a configured repository gives ConfigError as written and the name under the corrected guard |
| Conf.IntendedRepoField | src/util/conf.rs:73-88 | with the corrected guard, the field comes from the first node of that name, an unknown name is ConfigError, and nothing panics |
| Conf.IntendedEntryFound | src/util/conf.rs:71-89 | with the corrected guard, a repository field is found if and only if a node has that name |
| Conf.ActiveSources | src/util/conf.rs:113-120 | the filter returns at most one source per node, and exactly one per node when every node is active |
| Conf.ScanRepos | src/util/conf.rs:72-88 | a field is found only when a repository and a field are named, and it is that field of a node carrying the requested name; a panic needs a non-empty list |
| Conf.GetConfigEntry | src/util/conf.rs:61-90 | architecture, colour and progress bar are always found; a panic can come only from the Repos branch over a non-empty list |
| Cli.DispatchHelpIff | src/main.rs:14-45 | help is chosen if and only if the command word is missing or, lower-cased, is none of s, sync, u, upgrade, i, install |
| Cli.DispatchAliases | src/main.rs:19-36 | s/sync select sync, u/upgrade select upgrade, i/install select install with the whole argument vector |
| Cli.DispatchIgnoresCase | src/main.rs:19 | replacing the command word by its lower-case form selects the same command |
| Cli.UnroutedCommandsShowHelp | src/main.rs:38-45 | up, r, remove, info, search and list show help |
| Cli.Dispatch | src/main.rs:14-46 | any command other than help needs a command word, and install receives the whole argument vector |
| Prelude.ReplaceAllAfter | src/commands/sync.rs:40 | the first `$repo` after a `$`-free prefix is the one replaced |
| Prelude.ReplaceAllAbsent | src/commands/sync.rs:40 | a `$`-free string is left unchanged by the replacement |
| Prelude.ReplaceAllSkip | src/commands/sync.rs:40 | a string whose first character cannot start a match keeps that character in front of the replaced rest |
| Prelude.ReplaceAll | src/commands/sync.rs:40 | `str::replace`, left to right and without overlaps; what it guarantees is stated by ReplaceAllAfter, ReplaceAllAbsent and ReplaceAllSkip |
| Host.UnpackWrites | src/util/packaging/fns.rs:145-147 | every file entry of the archive exists after extraction |
| Host.UnpackFrame | src/util/packaging/fns.rs:145-147 | extraction changes no path other than the targets of its file entries |
| Host.UnpackKeeps | src/util/packaging/fns.rs:38 | extraction never removes a path |
| Host.RemoveTree | src/util/packaging/fns.rs:150 | exactly the paths below the directory go; the others keep their contents |
| Host.Ask | src/util/packaging/fns.rs:55-56 | one token is consumed, and the answer is yes if and only if there is a token and it lower-cases to "y"; an exhausted input reads as no |
| Host.Host.RemoveFile | src/util/packaging/fns.rs:118 | removal succeeds if and only if the file exists, and then removes only that file |
| Host.Host.RemoveLock | src/util/packaging/fns.rs:110 | removing the lock succeeds if and only if it is held |
| Host.Unpack | src/util/packaging/fns.rs:145-147 | after extraction every path either existed before or is the target of a file entry |
| Host.UnpackLast | src/util/packaging/fns.rs:145-147 | a file entry that no later file entry overwrites leaves its own content at its target |
| Host.Host.Get | src/commands/sync.rs:43 | the response is the transport's answer for the URL; only the journal changes, by that fetch |
| Host.Host.Create | src/commands/sync.rs:57-59 | the file exists afterwards and is empty, whatever it held; nothing else but the journal changes |
| Host.Host.Append | src/commands/sync.rs:112 | the bytes are appended to the existing file; nothing else but the journal changes |
| Host.Host.Exists | src/util/packaging/fns.rs:158 | the answer is true if and only if the path is in the file system |
| Host.Host.ReadFile | src/util/packaging/fns.rs:83 | an existing file yields its contents, a missing one yields nothing |
| Host.Host.UnpackArchive | src/util/packaging/fns.rs:145-147 | the file system becomes the extraction of the entries into the directory; the unpack is journalled |
| Host.Host.RemoveDirAll | src/util/packaging/fns.rs:150 | the file system loses the tree below the directory; the removal is journalled |
| Host.Host.PutRecord | src/util/packaging/fns.rs:124-132 | the record is filed under its name, replacing any earlier one; the write is journalled |
| Host.Host.DeleteRecord | src/util/packaging/fns.rs:163 | the record of that name is gone; the deletion is journalled |
| Host.Host.RecordCache | src/commands/sync.rs:114 | the manifest maps the repository to the hash; the update is journalled |
| Host.Host.CreateLock | src/commands/sync.rs:25 | the lock is held afterwards; its creation is journalled |
| Host.Host.ReadAnswer | src/util/packaging/fns.rs:55-56 | the new input and the answer are those Ask computes |
| Sync.Sync | src/commands/sync.rs:20-121 | the nested loops leave the host in the state of SyncSpec and return its abort flag |
| Sync.TryMirror | src/commands/sync.rs:35-116 | one mirror iteration returns the verdict of that mirror and performs exactly its attempt |
| Sync.CheckMirror | src/commands/sync.rs:57-116 | after a good database download: create the cache file, fetch the hash, decode, hash, compare, accept |
| Sync.HashBody | src/commands/sync.rs:92-103 | the loop feeds every byte of the body, in order, in chunks of 1 to 1024 bytes, leaves the cursor at the end, and returns the digest of the whole body |
| Sync.Cursor.Read | src/commands/sync.rs:96 | a read copies the next min(buffer, remaining) bytes and advances the position by that many |
| Sync.Cursor.ReadToEnd | src/commands/sync.rs:112 | the bytes from the position to the end are returned and the cursor is left at the end |
| Sync.Digest.Update | src/commands/sync.rs:100 | the chunk is appended to the bytes fed so far |
| Sync.FeedChunk | src/commands/sync.rs:95-101 | one loop round advances the cursor by the bytes read and feeds exactly them; it reads 0 bytes if and only if the cursor was at the end |
| Sync.Accept | src/commands/sync.rs:112-114 | the copy from the drained cursor appends no bytes; the manifest records the hash |
| Sync.Judge | src/commands/sync.rs:43-108 | the database is unavailable if and only if its download failed; the hash is unavailable if and only if the database arrived and the hash download failed; the hash is not UTF-8 (the panic at line 90) if and only if both arrived and the hash body does not decode; the mirror is accepted if and only if both arrived and the hash text decodes to the digest of the database, which is then the recorded hash |
| Sync.MirrorVerdict | src/commands/sync.rs:43-108 | the verdict of one mirror is Judge of its database and hash responses; Judge states what it means |
| Sync.Attempt | src/commands/sync.rs:35-116 | one attempt leaves lock, database and input alone, journals at least one call, and leaves the manifest equal to the old one apart from the entry of its own source |
| Sync.AttemptOtherSources | src/commands/sync.rs:114 | an attempt leaves the manifest entry of every other repository, present or absent, as it was |
| Sync.TryMirrors | src/commands/sync.rs:34-117 | the mirror loop leaves lock, database and input alone, and can abort only if there is a mirror |
| Sync.SyncSources | src/commands/sync.rs:29-118 | the source loop leaves lock, database and input alone, and can abort only if there is a source and a mirror |
| Sync.SyncSpec | src/commands/sync.rs:20-121 | the run aborts if and only if the lock is still held at the end, and only when some active source and some mirror exist |
| Sync.TemplateUrls | src/commands/sync.rs:37-73 | a template p$repoq gives p<name>q/database.db and p<name>q/database.hash |
| Sync.CustomUrlRetried | src/commands/sync.rs:34-48 | a source with its own URL fetches that URL on every mirror. Under the assumption that `get` answers a URL the same way every time, it is fetched once when the first attempt ends the loop, otherwise once per mirror entry |
| Sync.Tried | src/commands/sync.rs:34-117 | the attempts stop at the first mirror that is accepted or aborts, or at the end of the list |
| Sync.MirrorsTriedInOrder | src/commands/sync.rs:34-117 | the journal records the attempts of the tried mirrors in list order, each once; the run aborts exactly when the last tried hash was not UTF-8 |
| Sync.MirrorsJournal | src/commands/sync.rs:34-117 | the journal grows by the attempts of exactly the tried mirrors |
| Sync.MirrorsLogged | src/commands/sync.rs:34-117 | the journal grows by the attempts up to the first one that ends the loop |
| Sync.AttemptLogTried | src/commands/sync.rs:34-117 | the attempts up to the first that ends the loop are those of the tried mirrors |
| Sync.MirrorsEnding | src/commands/sync.rs:45-116 | the abort flag and the manifest follow the verdict that ends the loop: abort on an undecodable hash, record on acceptance, neither otherwise |
| Sync.EndingTried | src/commands/sync.rs:34-117 | the verdict that ends the loop is that of the last tried mirror, when it is terminal |
| Sync.SomeDeliveredCons | src/commands/sync.rs:43-55 | some mirror of a list delivered its database if and only if the first one did or one of the rest did |
| Sync.MirrorsFiles | src/commands/sync.rs:57-59 | the cache file is emptied as soon as one tried mirror delivered its database, and no other path changes |
| Sync.MirrorsTouch | src/commands/sync.rs:57-59 | the loop empties the cache file exactly when an attempt before the loop ends gets the database, and changes no other path |
| Sync.CacheTouchedTried | src/commands/sync.rs:43-59 | an attempt before the loop ends gets the database if and only if one of the tried mirrors delivered it |
| Sync.MirrorsManifest | src/commands/sync.rs:92-114 | the manifest changes only on acceptance, and then records the digest of the database delivered, while the cache file is empty |
| Sync.TryMirrorsEvents | src/commands/sync.rs:34-117 | one source's attempts fetch only that source's URLs on the listed mirrors, and change neither lock, database nor input |
| Sync.SyncSourcesEvents | src/commands/sync.rs:29-118 | the loop over the sources fetches only URLs of those sources |
| Sync.SyncLockAndSources | src/commands/sync.rs:25-120 | the lock is taken first and released exactly once, at the end, unless the run aborts; only active sources are contacted |
| Sync.ThreeMirrors | src/commands/sync.rs:34-117 | with 404, mismatch, accept: three attempts in order, the exact journal, the third hash recorded, the cache file empty |
| Sync.CachePathInjective | src/commands/sync.rs:58 | different sources have different cache files |
| Sync.TruncatedBeforeVerified | src/commands/sync.rs:57-59 | as written, a mirror that fails after its database download empties the cache and breaks the manifest's agreement with it |
| Sync.AcceptedCacheEmpty | src/commands/sync.rs:112-114 | as written, acceptance records the hash while the cache file stays empty |
| Sync.IntendedKeepsCacheConsistent | src/commands/sync.rs:57-114 | the corrected attempt keeps every recorded hash equal to the digest of its cache file |
| Packaging.CheckIfPackage | src/util/packaging/fns.rs:23-33 | the result is true if and only if some entry's path is PKG; reading stops at the first such entry |
| Packaging.PkgPathExamples | src/util/packaging/fns.rs:26 | PKG, PKG/ and PKG/./ compare equal to PKG; ./PKG, /PKG, PKG.json, PKG/.., data/PKG and pkg do not |
| Packaging.CandidateFiles | src/util/packaging/fns.rs:86-95 | the loop builds exactly the candidate list |
| Packaging.CandidatesMembers | src/util/packaging/fns.rs:88-95 | a path is a candidate if and only if it is "/" followed by the path of a non-directory entry |
| Packaging.CandidatesOfFiles | src/util/packaging/fns.rs:88-95 | without directory entries, the i-th candidate is "/" + the i-th entry path |
| Packaging.CandidatesAppend | src/util/packaging/fns.rs:88-95 | the list of a concatenation is the concatenation of the lists, so archive order is kept |
| Packaging.DeleteConflicts | src/util/packaging/fns.rs:116-119 | the deletion loop performs DeleteEach |
| Packaging.DeleteEachSucceeds | src/util/packaging/fns.rs:116-119 | the conflict deletion succeeds if and only if every reported file exists and none is reported twice |
| Packaging.DeleteEachResult | src/util/packaging/fns.rs:116-119 | a successful deletion removes exactly the reported files, in report order |
| Packaging.DeleteEachFrame | src/util/packaging/fns.rs:116-119 | no path outside the report, and neither database, input nor lock, is touched |
| Packaging.DeleteEachEffect | src/util/packaging/fns.rs:116-119 | the three facts above together |
| Packaging.DeleteEach | src/util/packaging/fns.rs:116-119 | the deletion adds no path and leaves database, input and lock alone |
| Packaging.DeleteExistingEffect | src/util/packaging/fns.rs:157-161 | exactly the listed paths leave the file system; missing ones are skipped without error; only removals of listed, existing paths are journalled |
| Packaging.DeleteExisting | src/util/packaging/fns.rs:157-161 | the removal of owned files adds no path and leaves database, input and lock alone |
| Packaging.NewRecord | src/util/packaging/fns.rs:124-132 | the record copies name, version, epoch and groups from the descriptor and the source name, lists every candidate file, and holds non-empty comma-free provides/conflicts lists that join back to the descriptor's strings, which makes them exactly their splits at the commas |
| Packaging.RunInstall | src/util/packaging/fns.rs:35-154 | the install leaves the host in the state of InstallSpec and returns its outcome |
| Packaging.ConfirmInstall | src/util/packaging/fns.rs:52-80 | the prompts behave as Confirm |
| Packaging.InstallPayload | src/util/packaging/fns.rs:82-121 | candidate list, conflict check and conflict prompt behave as Payload |
| Packaging.CommitInstall | src/util/packaging/fns.rs:123-150 | record, extraction and cleanup behave as Commit |
| Packaging.InstallSpec | src/util/packaging/fns.rs:35-154 | an install completes only when the first answer was yes, and then keeps the lock |
| Packaging.Confirm | src/util/packaging/fns.rs:52-80 | the prompts let the install complete only after a first yes, and then the lock is kept and a record of the package exists |
| Packaging.Payload | src/util/packaging/fns.rs:82-121 | the payload stage completes only when the payload archive is present, and then the lock is kept and a record of the package exists |
| Packaging.Commit | src/util/packaging/fns.rs:123-150 | the commit completes if and only if the payload archive is present; the record is written either way; lock and input stay |
| Packaging.DeclineFirstPrompt | src/util/packaging/fns.rs:36-59 | declining the first prompt exits 1, with the temporary directory left behind, no record written and nothing deleted |
| Packaging.ExtraPrompt | src/util/packaging/fns.rs:61-80 | a second answer is read exactly when a record of that name exists and the new version compares greater; declining it exits 1 |
| Packaging.UpgradeWarnedAsDowngrade | src/util/packaging/fns.rs:65 | as written, answering y then n to an upgrade exits 1 after a downgrade warning; the intended confirmation goes on to the payload with the second answer unread |
| Packaging.DowngradePromptIntended | src/util/packaging/fns.rs:61-80 | with the comparison turned round, the second prompt comes exactly when the recorded version compares greater than the new one; an upgrade or fresh install goes straight on |
| Packaging.ConflictDeclined | src/util/packaging/fns.rs:101-112 | declining a conflict removes the lock and exits 1 (panics without a lock), with no file deleted and no record written |
| Packaging.ConflictAccepted | src/util/packaging/fns.rs:113-121 | accepting deletes exactly the reported files, then commits; a missing or repeated file panics before the record is written |
| Packaging.CommitOrder | src/util/packaging/fns.rs:123-150 | the record, listing every candidate with the descriptor's version, the source name and comma-free lists, is written before extraction; then the payload files appear under the root and no path under the temporary directory remains; with the payload gone, the record stays and nothing is extracted |
| Packaging.CommitWrites | src/util/packaging/fns.rs:145-150 | a payload file entry that no later entry overwrites, with its target outside the temporary directory, holds its content at that target after the commit |
| Packaging.CommitFrame | src/util/packaging/fns.rs:145-150 | a path outside the temporary directory that no payload file entry targets keeps its presence and contents |
| Packaging.PayloadDone | src/util/packaging/fns.rs:82-150 | a completed payload stage found the payload archive, records the package with exactly the candidates of that archive, journals only deletions, then record, extraction and cleanup, and keeps the lock |
| Packaging.InstallDone | src/util/packaging/fns.rs:35-154 | a completed install found a decodable `PKG` and the payload archive, records the package under the name `PKG` gives, owning exactly the candidates of the payload, journals the unpack, only deletions, then record, extraction and cleanup, in that order, and keeps the lock |
| Packaging.RunRemove | src/util/packaging/fns.rs:156-164 | the removal leaves the host in the state of RemoveSpec and returns its outcome |
| Packaging.RemoveEffect | src/util/packaging/fns.rs:156-164 | an unknown package panics with nothing changed; otherwise exactly the owned files go, missing ones are skipped, other paths are unchanged, and the record is deleted last |
| Packaging.RemoveSpec | src/util/packaging/fns.rs:156-164 | the removal completes if and only if a record of that name exists; afterwards there is none, and the lock is kept |

## Left out

- HTTP, SHA-512, hex encoding, UTF-8 decoding, xz/tar decoding, JSON decoding of `PKG` and version comparison are parameters of the model. Their results are taken as given.
- `run_conflict_check` and the database functions are not part of this model. The conflict check is a parameter that sees the candidates, the installed flag, the root and the file system. The database is a map from name to record, and `get_installed_package(..).is_ok()` is membership in it.
- Loading and parsing the configuration file (`serde_json`, `File::open`) is left out. The model starts from the parsed `Config` value.
- `load_mirrors` is left out. The mirror list is a parameter that stays the same for every source, while the code re-reads the file for each source.
- Privilege escalation, `lock_exists` and its prompt (src/commands/sync.rs:21-23) are left out. Lock handling in general (src/util/lock.rs) is reduced to a boolean and the journal.
- I/O failures of file creation, reading, extraction, directory removal, response bodies and archive entry iteration are left out. So are `filter_map(|e| e.ok())` dropping bad entries and `to_string_lossy`. The model treats these calls as succeeding.
- The file system is a map from path strings to bytes. Directories are not represented. Paths are not normalised: an archive entry `./PKG` lands at `<tmp>/./PKG`, not at `<tmp>/PKG`. Permissions and extended attributes are not modelled. Extraction onto the root uses `<root>/<entry path>`.
- Conflict deletion removes the reported paths exactly as reported, without the root prefix. This follows the code.
- `str::to_lowercase` is modelled on ASCII letters only. The only non-ASCII character that lower-cases to an ASCII letter is the Kelvin sign, which gives `k`, and no command word contains `k`.
- An exhausted terminal input reads as an empty token, which is not "y".
- Printing is left out, as are `setup`, `help`, `search`, `upgrade` and the `install` command wrapper.
- Packaging.CheckIfPackage: the ghost `examined` counts entries read. The early return matters to the source only because a later unreadable entry would panic, and that is not modelled.
- Sync.Sync: returns whether the process aborted, instead of the exit status of the panic.
- HTTP `get` is a function of the URL: it answers a URL the same way every time. A transient failure followed by a successful retry of the same URL is therefore outside the model.
- Sync.CustomUrlRetried: the count of fetches holds under the assumption above; with a real network a retry of the custom URL after a transient failure could succeed, which the model cannot show.
- Prelude.ReplaceAll: carries no contract of its own; its behaviour is stated by ReplaceAllAfter, ReplaceAllAbsent and ReplaceAllSkip.
- Sync.MirrorVerdict: carries no contract of its own; Judge states what the verdict means.
- Packaging.ConfirmIntended: carries no contract of its own; DowngradePromptIntended and UpgradeWarnedAsDowngrade state it. The rest of the model follows the comparison as written.

## Findings

| source | as written | input that shows it | evidently intended | confidence | as-written member | corrected member |
|---|---|---|---|---|---|---|
| src/util/conf.rs:72 | the loop over repositories runs only when `repo` and `repo_entry` are both `None`, and then unwraps them | config with repository "core"; ask for Repos, Some("core"), Some(Name): gives ConfigError | scan when both are `Some` and return the field of the first node with that name | high, not executed | Conf.InvertedGuardCounterexample | Conf.IntendedRepoField |
| src/commands/sync.rs:57-59 | the cache file is created (truncated) right after the database download, before the hash is fetched or checked | a source recorded with hash H; a mirror serves the database, then 404 for the hash: the cache file is empty and the manifest still says H | write the cache file only after verification succeeds | high, not executed | Sync.TruncatedBeforeVerified | Sync.IntendedKeepsCacheConsistent |
| src/util/packaging/fns.rs:65 | the downgrade warning and second prompt fire when the new version compares greater than the installed one | installed v1, archive v2, answers y then n: the upgrade is abandoned with exit status 1 after a downgrade warning | prompt when the installed version compares greater than the new one | high, not executed | Packaging.UpgradeWarnedAsDowngrade | Packaging.DowngradePromptIntended |
| src/commands/sync.rs:112 | `copy` reads from the cursor the hashing loop has already drained, so it copies nothing | any accepted mirror with a non-empty database: the cache file is empty while the manifest records the database's hash | copy the whole downloaded body into the cache file | high, not executed | Sync.AcceptedCacheEmpty | Sync.IntendedKeepsCacheConsistent |
