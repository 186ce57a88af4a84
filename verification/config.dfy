/**
  Start-up settings (`load_config` and the start of `main`). Values read from the
  settings file are checked one by one, and each value that is missing or out of
  range falls back to its default. A single command-line argument replaces the
  settings file altogether and names the root directory; whichever root results
  must be an existing directory or the process exits.
*/
module Config {
  import opened CString

  const DefaultPort: int := 18945
  const DefaultBacklog: int := 100
  const DefaultPoolSize: int := 64
  const DefaultRoot: string := "."

  datatype Config = Config(port: int, backlog: int, poolSize: int, rootDir: string)

  /**
    What the settings file yields once read and parsed: each key present or not.
    No file, a failed read or a failed parse is `None` at the call site.
  */
  datatype Settings = Settings(port: Option<int>, backlog: Option<int>, poolSize: Option<int>, rootDir: Option<string>)

  function Defaults(): Config {
    Config(DefaultPort, DefaultBacklog, DefaultPoolSize, DefaultRoot)
  }

  function IntOr(v: Option<int>, default: int): int {
    match v
    case Some(x) => x
    case None => default
  }

  /** A port outside 1..65535 becomes the default. */
  function CheckPort(p: int): (r: int)
    ensures 1 <= r <= 65535
    ensures r == p <==> 1 <= p <= 65535
    ensures r != p ==> r == DefaultPort
  {
    if p < 1 || p > 65535 then DefaultPort else p
  }

  /** A backlog below 1 becomes the default. */
  function CheckBacklog(b: int): (r: int)
    ensures r >= 1
    ensures r == b <==> b >= 1
    ensures r != b ==> r == DefaultBacklog
  {
    if b < 1 then DefaultBacklog else b
  }

  /** A worker count below 1 becomes the default. */
  function CheckPoolSize(n: int): (r: int)
    ensures r >= 1
    ensures r == n <==> n >= 1
    ensures r != n ==> r == DefaultPoolSize
  {
    if n < 1 then DefaultPoolSize else n
  }

  /**
    `load_config`: `dirs` is the set of paths `stat` reports as directories. A
    root directory that is not one falls back to ".", which is not checked here.
  */
  function LoadConfig(file: Option<Settings>, dirs: set<string>): (c: Config)
    ensures 1 <= c.port <= 65535 && c.backlog >= 1 && c.poolSize >= 1
    ensures c.rootDir in dirs || c.rootDir == DefaultRoot
    ensures file.None? ==> c == Defaults()
    // Each setting falls back on its own: an invalid value resets only that field.
    ensures file.Some? ==> (c.port ==
      (if file.value.port.Some? && 1 <= file.value.port.value <= 65535 then file.value.port.value else DefaultPort))
    ensures file.Some? ==> (c.backlog ==
      (if file.value.backlog.Some? && file.value.backlog.value >= 1 then file.value.backlog.value else DefaultBacklog))
    ensures file.Some? ==> (c.poolSize ==
      (if file.value.poolSize.Some? && file.value.poolSize.value >= 1 then file.value.poolSize.value else DefaultPoolSize))
    ensures file.Some? ==> (c.rootDir ==
      (if file.value.rootDir.Some? && file.value.rootDir.value in dirs then file.value.rootDir.value else DefaultRoot))
  {
    match file
    case None => Defaults()
    case Some(s) =>
      var dir := match s.rootDir case Some(d) => d case None => DefaultRoot;
      Config(
        CheckPort(IntOr(s.port, DefaultPort)),
        CheckBacklog(IntOr(s.backlog, DefaultBacklog)),
        CheckPoolSize(IntOr(s.poolSize, DefaultPoolSize)),
        if dir in dirs then dir else DefaultRoot)
  }

  /**
    The start of `main`: `args` are the command-line arguments after the program
    name. None is the process exiting because the root is not a directory.
  */
  function Startup(args: seq<string>, file: Option<Settings>, dirs: set<string>): (r: Option<Config>)
    ensures r.Some? ==> 1 <= r.value.port <= 65535 && r.value.backlog >= 1 && r.value.poolSize >= 1
    ensures r.Some? ==> r.value.rootDir in dirs
    ensures |args| == 1 ==> (r.Some? <==> args[0] in dirs)
    ensures |args| == 1 && r.Some? ==> r.value == Config(DefaultPort, DefaultBacklog, DefaultPoolSize, args[0])
    ensures |args| != 1 ==> (r.Some? <==> LoadConfig(file, dirs).rootDir in dirs)
    ensures |args| != 1 && r.Some? ==> r.value == LoadConfig(file, dirs)
  {
    var c := if |args| == 1 then Defaults().(rootDir := args[0]) else LoadConfig(file, dirs);
    if c.rootDir in dirs then Some(c) else None
  }

  /** A setting that is present and in range is kept exactly as given. */
  lemma ValidSettingsKept(s: Settings, dirs: set<string>, port: int, backlog: int, poolSize: int, dir: string)
    requires s == Settings(Some(port), Some(backlog), Some(poolSize), Some(dir))
    requires 1 <= port <= 65535 && backlog >= 1 && poolSize >= 1 && dir in dirs
    ensures LoadConfig(Some(s), dirs) == Config(port, backlog, poolSize, dir)
  {
  }
}
