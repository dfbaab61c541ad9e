/** Config selection of `src/util/conf.rs`, starting from the already parsed
    JSON value: the list of active sources and the field getter. */
module Conf {
  import opened Prelude

  datatype RepoNode = RepoNode(name: string, active: bool, url: Option<string>)

  datatype Config = Config(architecture: string, colour: bool, progressbar: bool, repos: seq<RepoNode>)

  /** A repository the sync command downloads, with its optional fixed base URL. */
  datatype Source = Source(name: string, url: Option<string>)

  datatype ConfigEntry = Architecture | Colour | Progressbar | Repos

  datatype RepoEntry = Name | Active | Url

  /** What `get_config_entry` hands back: `Ok(value)`, `Err(ConfigError)`, or a
      panic from one of its `unwrap` calls. */
  datatype EntryResult = Found(value: string) | ConfigError | Panicked

  function ToSource(r: RepoNode): Source
  {
    Source(r.name, r.url)
  }

  /** The sources `get_sources` returns for a list of repository nodes. */
  function ActiveSources(repos: seq<RepoNode>): (r: seq<Source>)
    ensures |r| <= |repos|
    ensures (forall i :: 0 <= i < |repos| ==> repos[i].active) ==> |r| == |repos|
  {
    if repos == [] then []
    else
      assert forall i :: 0 <= i < |repos[1..]| ==> repos[1..][i] == repos[i + 1];
      (if repos[0].active then [ToSource(repos[0])] else []) + ActiveSources(repos[1..])
  }

  /** Filtering commutes with concatenation, so the config order is kept. */
  lemma {:induction false} ActiveSourcesAppend(a: seq<RepoNode>, b: seq<RepoNode>)
    ensures ActiveSources(a + b) == ActiveSources(a) + ActiveSources(b)
    decreases |a|
  {
    if a == [] {
      assert a + b == b;
    } else {
      assert (a + b)[0] == a[0] && (a + b)[1..] == a[1..] + b;
      ActiveSourcesAppend(a[1..], b);
    }
  }

  /** A source is returned exactly when some active node carries its name and URL. */
  lemma {:induction false} ActiveSourcesMembers(repos: seq<RepoNode>, s: Source)
    ensures s in ActiveSources(repos) <==>
            exists i :: 0 <= i < |repos| && repos[i].active && ToSource(repos[i]) == s
    decreases |repos|
  {
    if repos != [] {
      ActiveSourcesMembers(repos[1..], s);
      if s in ActiveSources(repos[1..]) {
        var i :| 0 <= i < |repos[1..]| && repos[1..][i].active && ToSource(repos[1..][i]) == s;
        assert repos[i + 1] == repos[1..][i];
      }
      if exists i :: 0 <= i < |repos| && repos[i].active && ToSource(repos[i]) == s {
        var i :| 0 <= i < |repos| && repos[i].active && ToSource(repos[i]) == s;
        if i > 0 {
          assert repos[1..][i - 1] == repos[i];
        }
      }
    }
  }

  /** `get_sources`: one pass over the repository nodes, pushing a source for
      every node whose `active` flag is set. */
  method GetSources(config: Config) returns (sources: seq<Source>)
    ensures sources == ActiveSources(config.repos)
  {
    sources := [];
    var repos := config.repos;
    for i := 0 to |repos|
      invariant sources == ActiveSources(repos[..i])
    {
      ActiveSourcesAppend(repos[..i], [repos[i]]);
      assert repos[..i + 1] == repos[..i] + [repos[i]];
      if repos[i].active {
        sources := sources + [Source(repos[i].name, repos[i].url)];
      }
    }
    assert repos[..|repos|] == repos;
  }

  /** `bool::to_string`. */
  function BoolString(b: bool): string
  {
    if b then "true" else "false"
  }

  function Field(node: RepoNode, entry: RepoEntry): string
  {
    match entry
    case Name => node.name
    case Active => BoolString(node.active)
    case Url => if node.url.Some? then node.url.value else ""
  }

  /** The `for` loop over the repository nodes: `repo.clone().unwrap()` is
      evaluated on every node, `repo_entry.unwrap()` on the first node whose
      name matches. */
  function ScanRepos(repos: seq<RepoNode>, repo: Option<string>, entry: Option<RepoEntry>): (r: EntryResult)
    ensures r.Found? ==> repo.Some? && entry.Some? &&
                         exists i :: 0 <= i < |repos| && repos[i].name == repo.value && r.value == Field(repos[i], entry.value)
    ensures r.Panicked? ==> repos != []
  {
    if repos == [] then ConfigError
    else if repo.None? then Panicked
    else if repo.value == repos[0].name then
      (if entry.None? then Panicked else Found(Field(repos[0], entry.value)))
    else ScanRepos(repos[1..], repo, entry)
  }

  /** `get_config_entry` as written: the `Repos` branch only scans when both
      `repo` and `repo_entry` are `None`. */
  function GetConfigEntry(config: Config, entry: ConfigEntry, repo: Option<string>, repoEntry: Option<RepoEntry>): (r: EntryResult)
    ensures entry != Repos ==> r.Found?
    ensures r.Panicked? ==> entry == Repos && config.repos != []
  {
    match entry
    case Architecture => Found(config.architecture)
    case Colour => Found(BoolString(config.colour))
    case Progressbar => Found(BoolString(config.progressbar))
    case Repos =>
      if repo.None? && repoEntry.None? then ScanRepos(config.repos, repo, repoEntry)
      else ConfigError
  }

  /** The three scalar fields are returned whatever the repository arguments. */
  lemma ScalarEntries(config: Config, repo: Option<string>, repoEntry: Option<RepoEntry>)
    ensures GetConfigEntry(config, Architecture, repo, repoEntry) == Found(config.architecture)
    ensures GetConfigEntry(config, Colour, repo, repoEntry) == Found(if config.colour then "true" else "false")
    ensures GetConfigEntry(config, Progressbar, repo, repoEntry) == Found(if config.progressbar then "true" else "false")
  {
  }

  /** The `Repos` branch never returns a field: it is an error whenever a
      repository or field is named or the list is empty, and a panic otherwise. */
  lemma ReposNeverFound(config: Config, repo: Option<string>, repoEntry: Option<RepoEntry>)
    ensures !GetConfigEntry(config, Repos, repo, repoEntry).Found?
    ensures GetConfigEntry(config, Repos, repo, repoEntry) == ConfigError <==>
            repo.Some? || repoEntry.Some? || config.repos == []
    ensures GetConfigEntry(config, Repos, repo, repoEntry) == Panicked <==>
            repo.None? && repoEntry.None? && config.repos != []
  {
  }

  /** A concrete call that asks for the name of a configured repository and
      gets `Err(ConfigError)` back, while the corrected guard returns it. */
  lemma InvertedGuardCounterexample()
    ensures var config := Config("x86_64", true, true, [RepoNode("core", true, None)]);
            GetConfigEntry(config, Repos, Some("core"), Some(Name)) == ConfigError &&
            GetConfigEntryIntended(config, Repos, Some("core"), Some(Name)) == Found("core")
  {
  }

  /** `get_config_entry` with the guard the loop body needs: both `repo` and
      `repo_entry` present. */
  function GetConfigEntryIntended(config: Config, entry: ConfigEntry, repo: Option<string>, repoEntry: Option<RepoEntry>): EntryResult
  {
    match entry
    case Architecture => Found(config.architecture)
    case Colour => Found(BoolString(config.colour))
    case Progressbar => Found(BoolString(config.progressbar))
    case Repos =>
      if repo.Some? && repoEntry.Some? then ScanRepos(config.repos, repo, repoEntry)
      else ConfigError
  }

  /** With the corrected guard, a repository field comes from the first node
      of that name, and a name that no node has is an error; nothing panics. */
  lemma {:induction false} IntendedRepoField(repos: seq<RepoNode>, name: string, e: RepoEntry)
    ensures var r := ScanRepos(repos, Some(name), Some(e));
            (r == ConfigError <==> forall i :: 0 <= i < |repos| ==> repos[i].name != name) &&
            (forall k :: (0 <= k < |repos| && repos[k].name == name &&
                          (forall j :: 0 <= j < k ==> repos[j].name != name)) ==> r == Found(Field(repos[k], e))) &&
            !r.Panicked?
    decreases |repos|
  {
    if repos != [] && repos[0].name != name {
      IntendedRepoField(repos[1..], name, e);
      forall k | 0 <= k < |repos| && repos[k].name == name && (forall j :: 0 <= j < k ==> repos[j].name != name)
        ensures ScanRepos(repos, Some(name), Some(e)) == Found(Field(repos[k], e))
      {
        assert k > 0;
        assert repos[1..][k - 1] == repos[k];
        forall j | 0 <= j < k - 1 ensures repos[1..][j].name != name {
          assert repos[1..][j] == repos[j + 1];
        }
      }
      if forall i :: 0 <= i < |repos[1..]| ==> repos[1..][i].name != name {
        forall i | 0 <= i < |repos| ensures repos[i].name != name {
          if i > 0 { assert repos[i] == repos[1..][i - 1]; }
        }
      }
    }
  }

  /** The corrected getter, stated at its own level: a named repository field is
      found exactly when some node has that name. */
  lemma IntendedEntryFound(config: Config, name: string, e: RepoEntry)
    ensures GetConfigEntryIntended(config, Repos, Some(name), Some(e)).Found? <==>
            exists i :: 0 <= i < |config.repos| && config.repos[i].name == name
  {
    IntendedRepoField(config.repos, name, e);
  }
}
