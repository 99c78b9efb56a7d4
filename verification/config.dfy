/** The CLI's project configuration: which server a command talks to. */
module Config {
  import opened Wrappers

  /** A decoded configuration; `remotes` is `None` when the file had no `remotes` key
      (a nil Go map, which reads as empty). */
  datatype Config = Config(name: string, defaultRemote: string, remotes: Option<map<string, string>>)

  /** Reading a Go map: a missing key, or any key of a nil map, gives "". */
  function RemoteUrl(c: Config, name: string): string {
    if c.remotes.Some? && name in c.remotes.value then c.remotes.value[name] else ""
  }

  /** `GetServerBaseURL`: an explicit name wins over the default; an empty name, or a name
      with no (or an empty) URL, is an error. */
  function GetServerBaseURL(c: Config, remoteName: string): (r: Result<string, string>)
    ensures var n := if remoteName != "" then remoteName else c.defaultRemote;
      (n == "" ==> r == Err("no remotes configured")) &&
      (n != "" ==> (r.Ok? <==> c.remotes.Some? && n in c.remotes.value && c.remotes.value[n] != "")) &&
      (n != "" && r.Err? ==> r.error == "could not find remote url for " + n) &&
      (r.Ok? ==> r.value == c.remotes.value[n])
  {
    var name := if remoteName == "" then c.defaultRemote else remoteName;
    if name == "" then Err("no remotes configured")
    else
      var u := RemoteUrl(c, name);
      if u == "" then Err("could not find remote url for " + name) else Ok(u)
  }

  /** `loadConfig`'s normalisation: a nil remotes map becomes an empty one. */
  function Normalize(c: Config): (r: Config)
    ensures r.remotes.Some? && r.name == c.name && r.defaultRemote == c.defaultRemote
    ensures c.remotes.Some? ==> r == c
  {
    if c.remotes.None? then c.(remotes := Some(map[])) else c
  }

  /** Normalising changes no lookup, because a nil map already reads as empty. */
  lemma NormalizeKeepsLookups(c: Config, remoteName: string)
    ensures GetServerBaseURL(Normalize(c), remoteName) == GetServerBaseURL(c, remoteName)
  {
  }
}
