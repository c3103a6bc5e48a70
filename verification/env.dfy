/** The process environment of `env/env.go`: the docker-platform flag read once at start-up,
    the application name and root path that only a non-docker process may change, and the
    directories derived from the root. */
module Env {

  const DefaultRootPath: string := "."
  const ClusterType: string := "CLUSTER_TYPE"
  const DockAppName: string := "APP_NAME"
  const DebugMode: string := "debug"
  const ReleaseMode: string := "release"

  /** The package variables. `rootPath` is "" until it is set. */
  datatype Env = Env(localIp: string, appName: string, runMode: string, rootPath: string, docker: bool)

  /** The package `init`: a non-empty CLUSTER_TYPE variable means the docker platform, in
      release mode, where the application name comes from APP_NAME when that is set.
      `getenv` and the local address stand for the process environment. */
  function Init(getenv: string -> string, localIp: string): (e: Env)
    ensures e.docker <==> getenv(ClusterType) != ""
    ensures e.runMode == (if e.docker then ReleaseMode else DebugMode)
    ensures e.appName == (if e.docker then getenv(DockAppName) else "")
    ensures e.rootPath == "" && e.localIp == localIp
  {
    var docker := getenv(ClusterType) != "";
    Env(localIp, if docker then getenv(DockAppName) else "", if docker then ReleaseMode else DebugMode, "", docker)
  }

  /** `IsDockerPlatform`: the flag fixed by `Init`. */
  function IsDockerPlatform(e: Env): (r: bool)
    ensures r <==> e.docker
  {
    e.docker
  }

  /** `SetAppName`: a docker process keeps the name its orchestration gave it. */
  function SetAppName(e: Env, name: string): (r: Env)
    ensures e.docker ==> r == e
    ensures !e.docker ==> r.appName == name && r == e.(appName := name)
  {
    if e.docker then e else e.(appName := name)
  }

  /** `GetAppName`: the name `Init` or `SetAppName` left. */
  function GetAppName(e: Env): (r: string)
    ensures r == e.appName
  {
    e.appName
  }

  /** `SetRootPath`: likewise refused on the docker platform. */
  function SetRootPath(e: Env, root: string): (r: Env)
    ensures e.docker ==> r == e
    ensures !e.docker ==> r == e.(rootPath := root)
  {
    if e.docker then e else e.(rootPath := root)
  }

  /** `GetRootPath`: the set root, or "." while none is set. */
  function GetRootPath(e: Env): (r: string)
    ensures r != ""
    ensures e.rootPath != "" ==> r == e.rootPath
    ensures e.rootPath == "" ==> r == DefaultRootPath
  {
    if e.rootPath != "" then e.rootPath else DefaultRootPath
  }

  /** `GetConfDirPath`: the root joined with "conf"; `join` stands for `filepath.Join`. */
  function GetConfDirPath(e: Env, join: (string, string) -> string): (r: string)
    ensures r == join(GetRootPath(e), "conf")
  {
    join(GetRootPath(e), "conf")
  }

  /** `GetLogDirPath`: the root joined with "log". */
  function GetLogDirPath(e: Env, join: (string, string) -> string): (r: string)
    ensures r == join(GetRootPath(e), "log")
  {
    join(GetRootPath(e), "log")
  }

  /** The docker flag never changes after start-up: no setter touches it, and on the docker
      platform no setter changes anything. */
  lemma DockerIsFixed(e: Env, name: string, root: string)
    ensures SetAppName(e, name).docker == e.docker && SetRootPath(e, root).docker == e.docker
    ensures e.docker ==> SetRootPath(SetAppName(e, name), root) == e
  {
  }

  /** Off docker, the root that was set last is the one read back, and setting "" falls
      back to "."; on docker the root stays ".". */
  lemma SetThenGetRoot(e: Env, r1: string, r2: string)
    ensures !e.docker ==> GetRootPath(SetRootPath(SetRootPath(e, r1), r2)) == (if r2 == "" then DefaultRootPath else r2)
    ensures e.docker && e.rootPath == "" ==> GetRootPath(SetRootPath(e, r1)) == DefaultRootPath
  {
  }

  /** Started inside docker, the process keeps APP_NAME whatever it later sets. */
  lemma DockerKeepsAppName(getenv: string -> string, localIp: string, name: string)
    requires getenv(ClusterType) != ""
    ensures GetAppName(SetAppName(Init(getenv, localIp), name)) == getenv(DockAppName)
  {
  }

  /** The configuration and log directories sit under the same root: the one set off
      docker, "." otherwise. */
  lemma DirsUnderRoot(e: Env, root: string, join: (string, string) -> string)
    requires e.rootPath == ""
    ensures GetConfDirPath(e, join) == join(DefaultRootPath, "conf")
    ensures GetLogDirPath(e, join) == join(DefaultRootPath, "log")
    ensures !e.docker && root != "" ==> GetConfDirPath(SetRootPath(e, root), join) == join(root, "conf")
    ensures !e.docker && root != "" ==> GetLogDirPath(SetRootPath(e, root), join) == join(root, "log")
    ensures e.docker ==> GetConfDirPath(SetRootPath(e, root), join) == join(DefaultRootPath, "conf")
    ensures IsDockerPlatform(SetRootPath(e, root)) == IsDockerPlatform(e)
  {
  }
}
