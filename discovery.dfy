/**
 * Where the client looks for the host application: one Unix socket path
 * derived from the environment, or ten fixed Windows named pipes.
 */
module Discovery {
  import opened Base
  import Utf8

  /** The environment variables `fetch_process_pathbuf` consults, in order. */
  const EnvKeys: seq<string> := ["XDG_RUNTIME_DIR", "TMPDIR", "TMP"]

  /** The socket file name joined to the base directory. */
  const SocketName := "discord-ipc-0"

  /** Windows pipe names are this prefix followed by the pipe number. */
  const PipePrefix := @"\\.\pipe\discord-ipc-"

  /** Windows `connect` probes pipes 0 to 9. */
  const PipeCount := 10

  /** The process environment: variable names to their raw (byte) values. */
  type Env = map<string, seq<Byte>>

  /**
   * `std::env::var`: the value of `key`, or None when the variable is unset
   * or its value is not valid Unicode (both are an `Err`).
   */
  function Var(env: Env, key: string): Option<string> {
    if key in env then Utf8.Decode(env[key]) else None
  }

  /** The value of the first of `keys` that `Var` finds, if any. */
  function FirstSet(env: Env, keys: seq<string>): (r: Option<string>)
    ensures r.Some? <==> exists i :: 0 <= i < |keys| && Var(env, keys[i]).Some?
    ensures r.Some? ==> exists i :: 0 <= i < |keys| && Var(env, keys[i]) == r
                          && forall j :: 0 <= j < i ==> Var(env, keys[j]).None?
  {
    if keys == [] then None
    else if Var(env, keys[0]).Some? then
      assert Var(env, keys[0]) == Var(env, keys[0]);
      Var(env, keys[0])
    else
      var r := FirstSet(env, keys[1..]);
      assert forall i :: 0 <= i < |keys| - 1 ==> keys[1..][i] == keys[i + 1];
      if r.Some? then
        var i :| 0 <= i < |keys[1..]| && Var(env, keys[1..][i]) == r
                 && forall j :: 0 <= j < i ==> Var(env, keys[1..][j]).None?;
        assert Var(env, keys[i + 1]) == r;
        r
      else
        r
  }

  /** The base directory: the first variable found, or the empty string when none is. */
  function BaseDir(env: Env): string {
    match FirstSet(env, EnvKeys)
    case Some(dir) => dir
    case None => ""
  }

  /** True when `PathBuf::push` puts a separator between `base` and the pushed name. */
  predicate NeedsSeparator(base: string) {
    base != [] && base[|base| - 1] != '/'
  }

  /**
   * `PathBuf::join` with a relative name on Unix: the name follows the base,
   * with a '/' between them unless the base is empty or already ends in '/'.
   */
  function Join(base: string, name: string): (r: string)
    ensures |r| == |base| + |name| + (if NeedsSeparator(base) then 1 else 0)
    ensures r[..|base|] == base && r[|r| - |name|..] == name
    ensures NeedsSeparator(base) ==> r[|base|] == '/'
  {
    if NeedsSeparator(base) then base + "/" + name else base + name
  }

  /** The Unix socket path `connect` opens. */
  function UnixEndpoint(env: Env): string {
    Join(BaseDir(env), SocketName)
  }

  /** `format!(r"\\.\pipe\discord-ipc-{}", i)`. */
  function PipeName(i: nat): (name: string)
    requires i < PipeCount
  {
    PipePrefix + [('0' as int + i) as char]
  }

  /** With none of the variables usable the path is the bare relative name `discord-ipc-0`. */
  lemma UnixEndpointWhenUnset(env: Env)
    requires forall i :: 0 <= i < |EnvKeys| ==> Var(env, EnvKeys[i]).None?
    ensures UnixEndpoint(env) == SocketName
  {
  }

  /**
   * A variable set to the empty string still counts as set: it hides the
   * later variables and yields the bare relative name.
   */
  lemma EmptyValueCountsAsSet(env: Env)
    requires Var(env, "XDG_RUNTIME_DIR") == Some("")
    ensures BaseDir(env) == "" && UnixEndpoint(env) == SocketName
  {
  }

  /** The first usable variable decides the base directory, whatever the later ones hold. */
  lemma BaseDirIsFirstUsable(env: Env, k: nat)
    requires k < |EnvKeys| && Var(env, EnvKeys[k]).Some?
    requires forall j :: 0 <= j < k ==> Var(env, EnvKeys[j]).None?
    ensures BaseDir(env) == Var(env, EnvKeys[k]).value
  {
    var i :| 0 <= i < |EnvKeys| && Var(env, EnvKeys[i]) == FirstSet(env, EnvKeys)
             && forall j :: 0 <= j < i ==> Var(env, EnvKeys[j]).None?;
    if i < k {
      assert Var(env, EnvKeys[i]).None?;
    }
  }

  /** The ten pipe names are pairwise different, so each probe opens a different endpoint. */
  lemma PipeNamesDistinct(i: nat, j: nat)
    requires i < PipeCount && j < PipeCount && i != j
    ensures PipeName(i) != PipeName(j)
  {
    assert PipeName(i)[|PipePrefix|] != PipeName(j)[|PipePrefix|];
  }
}
