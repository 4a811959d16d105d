/**
 * `handle_db` and `main`: the sub-command name picks the database path and
 * the handler to run, and an unusable command line ends with an exit code.
 * Argument parsing is outside the model: its outcome is the first
 * sub-command key (or `None` when `get_first_namespace_key` raises
 * `KeyError`) and the `<key>.output` values of the namespace.
 */
module Dispatch {
  import opened Wrappers

  /** The eight sub-commands. */
  datatype Command =
    | Vcs | Size | Issues | PullRequests
    | ProjectProductivity | BusFactor | IssueSpoilage | IssueDensity

  /** The sub-command's name on the command line. */
  function Name(c: Command): string {
    match c
    case Vcs => "vcs"
    case Size => "size"
    case Issues => "issues"
    case PullRequests => "pull_requests"
    case ProjectProductivity => "project_productivity"
    case BusFactor => "bus_factor"
    case IssueSpoilage => "issue_spoilage"
    case IssueDensity => "issue_density"
  }

  /** The `match namespace_key` of `handle_db` and `main`: the command a key names, if any. */
  function CommandOf(key: string): (c: Option<Command>)
    ensures c.Some? ==> Name(c.value) == key
  {
    if key == "vcs" then Some(Vcs)
    else if key == "size" then Some(Size)
    else if key == "issues" then Some(Issues)
    else if key == "pull_requests" then Some(PullRequests)
    else if key == "project_productivity" then Some(ProjectProductivity)
    else if key == "bus_factor" then Some(BusFactor)
    else if key == "issue_spoilage" then Some(IssueSpoilage)
    else if key == "issue_density" then Some(IssueDensity)
    else None
  }

  /** Every command is recognised by its own name, so a key names at most one command. */
  lemma CommandOfName(c: Command)
    ensures CommandOf(Name(c)) == Some(c)
  {
  }

  /** The keys `handle_db` opens a database for. */
  const KnownKeys: set<string> := {"vcs", "size", "issues", "pull_requests",
    "project_productivity", "bus_factor", "issue_spoilage", "issue_density"}

  /**
   * `handle_db`: for one of the eight keys, the database at the path stored
   * under `<key>.output`; for any other key, none.
   */
  function HandleDb(key: string, namespace: string -> string): (path: Option<string>)
    ensures path.Some? <==> key in KnownKeys
    ensures path.Some? ==> path.value == namespace(key + ".output")
  {
    match CommandOf(key)
    case Some(c) => Some(namespace(Name(c) + ".output"))
    case None => None
  }

  /** How `main` ends: with an exit code, or by running a handler on a database. */
  datatype Outcome = Exit(code: int) | Run(command: Command, dbPath: string)

  /**
   * `main`: exit 1 without a sub-command, exit 2 when no database can be
   * opened for it, otherwise the handler of the sub-command; exit 3 for a key
   * the second `match` does not know.
   */
  function Main(firstKey: Option<string>, namespace: string -> string): (o: Outcome)
    ensures o.Run? ==> firstKey.Some? && HandleDb(firstKey.value, namespace) == Some(o.dbPath)
  {
    if firstKey.None? then Exit(1)
    else
      var db := HandleDb(firstKey.value, namespace);
      if db.None? then Exit(2)
      else
        match CommandOf(firstKey.value)
        case Some(c) => Run(c, db.value)
        case None => Exit(3)
  }

  /**
   * The exit codes of `main`: 1 exactly without a sub-command, 2 exactly for
   * an unknown one, and otherwise the named handler runs on the database at
   * its `<key>.output` path. Exit 3 never happens, because both `match`es
   * know the same eight keys.
   */
  lemma MainOutcomes(firstKey: Option<string>, namespace: string -> string)
    ensures Main(firstKey, namespace) == Exit(1) <==> firstKey.None?
    ensures Main(firstKey, namespace) == Exit(2) <==> firstKey.Some? && firstKey.value !in KnownKeys
    ensures Main(firstKey, namespace) != Exit(3)
    ensures Main(firstKey, namespace).Run? ==>
      firstKey.Some? && Name(Main(firstKey, namespace).command) == firstKey.value
      && Main(firstKey, namespace).dbPath == namespace(firstKey.value + ".output")
  {
  }
}
