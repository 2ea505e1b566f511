/**
 * `get_docker_secret`: resolve one configuration value from a secret file,
 * then an environment variable, then a default, and cast it to the
 * requested type, with a `safe` flag that turns I/O and cast failures into
 * fallback values.
 *
 * Reading the file and the environment are inputs here: the filesystem is
 * a map from (secrets directory, file name) to what reading that file
 * gives, and the environment is a map from variable names to values.
 */
module DockerSecret {
  import opened Wrappers
  import PyStr
  import PyInt

  /**
   * What opening and reading a file gives: the text `read()` returns in
   * text mode, after newline translation (a file holding `pw\r\n` on disk
   * is `Readable("pw\n")`), or the IOError that `open`/`read` raise.
   */
  datatype FileResult = Readable(contents: string) | IOErr

  /** Secret files by (secrets directory, file name); a name without an entry is a missing file. */
  type Filesystem = map<(string, string), FileResult>

  /** The process environment, `os.environ`. */
  type Environment = map<string, string>

  /** The `cast_to` argument: `str`, `int`, `bool`, or any other constructor given as a parser. */
  datatype CastTo<T> = Str | Int | Bool | Custom(parse: string -> Option<T>)

  /** A successfully cast value, tagged by the type it was cast to. */
  datatype Typed<T> = Text(text: string) | Integer(number: int) | Boolean(truth: bool) | Other(other: T)

  /**
   * What a call ends in: a cast value, the caller's `default`, `None`, the
   * uncast text, or one of the two exceptions that can reach the caller.
   */
  datatype Outcome<T, D> =
    | Value(cast: Typed<T>)
    | Default(given: D)
    | NoneValue
    | Raw(raw: string)
    | IOError
    | CastError

  /** The arguments of one call. */
  datatype Request<T, D> = Request(
    name: string,
    defaultValue: D,
    castTo: CastTo<T>,
    autocastName: bool,
    getenv: bool,
    envName: Option<string>,
    safe: bool,
    secretsDir: string)

  /** The default `secrets_dir` on a POSIX root. */
  const DefaultSecretsDir: string := "/var/run/secrets"

  /** A call that passes only `name` and `default` and keeps every other keyword at its default. */
  function Simple<T, D>(name: string, defaultValue: D): (r: Request<T, D>)
    ensures r.name == name && r.defaultValue == defaultValue
    ensures r.castTo.Str? && r.autocastName && r.getenv && r.envName.None? && r.safe
    ensures r.secretsDir == DefaultSecretsDir
  {
    Request(name, defaultValue, Str, true, true, None, true, DefaultSecretsDir)
  }

  /** The tokens the `bool` special case accepts (the integer token `1` can never equal a text value). */
  const BoolTokens: set<string> := {"True", "true", "False", "false", "1"}

  /** The accepted tokens that become 1 before `bool` is applied. */
  const TrueTokens: set<string> := {"True", "true"}

  /** `name_secret`: the file name probed under the secrets directory. */
  function SecretName(name: string, autocastName: bool): (r: string)
    ensures PyStr.EqualIgnoringCase(r, name)
    ensures autocastName ==> forall i :: 0 <= i < |r| ==> !PyStr.IsAsciiUpper(r[i])
    ensures !autocastName ==> r == name
  {
    if autocastName then PyStr.Lower(name) else name
  }

  /** `if not env_name: env_name = name`: an absent and an empty override both fall back to `name`. */
  function EnvBase(name: string, envName: Option<string>): (r: string)
    ensures envName.Some? && envName.value != [] ==> r == envName.value
    ensures envName.None? || envName.value == [] ==> r == name
  {
    if envName.None? || envName.value == [] then name else envName.value
  }

  /** The environment variable probed; the source computes it only when `getenv` is set. */
  function EnvName(name: string, envName: Option<string>, autocastName: bool): (r: string)
    ensures PyStr.EqualIgnoringCase(r, EnvBase(name, envName))
    ensures autocastName ==> forall i :: 0 <= i < |r| ==> !PyStr.IsAsciiLower(r[i])
    ensures !autocastName ==> r == EnvBase(name, envName)
  {
    var base := EnvBase(name, envName);
    if autocastName then PyStr.Upper(base) else base
  }

  /** Opening `secrets_dir/file`; a file that does not exist raises an IOError like any other failure. */
  function ReadFile(fs: Filesystem, dir: string, file: string): (r: FileResult)
    ensures (dir, file) !in fs ==> r == IOErr
    ensures (dir, file) in fs ==> r == fs[(dir, file)]
  {
    if (dir, file) in fs then fs[(dir, file)] else IOErr
  }

  /** The value a readable secret file supplies: its text with every trailing newline removed. */
  function FileValue(contents: string): (r: string)
    ensures r <= contents
    ensures r == [] || r[|r| - 1] != '\n'
    ensures forall i :: |r| <= i < |contents| ==> contents[i] == '\n'
  {
    PyStr.RStrip(contents, {'\n'})
  }

  /** The `bool` special case: rejected tokens are a ValueError, accepted ones go through `bool(1)` or `bool(0)`. */
  function BoolToken(value: string): (r: Option<bool>)
    ensures r == Some(true) <==> value == "True" || value == "true"
    ensures r == Some(false) <==> value == "False" || value == "false" || value == "1"
  {
    if value !in BoolTokens then None
    else
      var asInt := if value in TrueTokens then 1 else 0;
      Some(asInt != 0)
  }

  /** `cast_to(value)`: `None` stands for the TypeError or ValueError the cast raises. */
  function Convert<T>(castTo: CastTo<T>, value: string): (r: Option<Typed<T>>)
    ensures castTo.Str? ==> r == Some(Text(value))
    ensures castTo.Int? ==> (r.Some? <==> PyInt.ParseInt(value).Some?)
    ensures castTo.Int? && r.Some? ==> r.value == Integer(PyInt.ParseInt(value).value)
    ensures castTo.Bool? ==> (r.Some? <==> value in BoolTokens)
    ensures castTo.Bool? && r.Some? ==> r.value == Boolean(BoolToken(value).value)
    ensures castTo.Custom? ==> (r.Some? <==> castTo.parse(value).Some?)
    ensures castTo.Custom? && r.Some? ==> r.value == Other(castTo.parse(value).value)
  {
    match castTo
    case Str => Some(Text(value))
    case Int =>
      (match PyInt.ParseInt(value)
       case Some(n) => Some(Integer(n))
       case None => None)
    case Bool =>
      (match BoolToken(value)
       case Some(b) => Some(Boolean(b))
       case None => None)
    case Custom(parse) =>
      (match parse(value)
       case Some(x) => Some(Other(x))
       case None => None)
  }

  /** The cast step and its handler: a failed cast gives back the uncast text when `safe`, and raises otherwise. */
  function CastValue<T, D>(castTo: CastTo<T>, value: string, safe: bool): (r: Outcome<T, D>)
    ensures r.Value? <==> Convert(castTo, value).Some?
    ensures r.Value? ==> Convert(castTo, value) == Some(r.cast)
    ensures r.Raw? <==> safe && Convert(castTo, value).None?
    ensures r.Raw? ==> r.raw == value
    ensures r.CastError? <==> !safe && Convert(castTo, value).None?
  {
    match Convert(castTo, value)
    case Some(v) => Value(v)
    case None => if safe then Raw(value) else CastError
  }

  /** The key a request probes in the filesystem. */
  function FileKey<T, D>(req: Request<T, D>): (string, string)
  {
    (req.secretsDir, SecretName(req.name, req.autocastName))
  }

  /** The key a request probes in the environment. */
  function EnvKey<T, D>(req: Request<T, D>): string
  {
    EnvName(req.name, req.envName, req.autocastName)
  }

  /** What opening the probed secret file gives. */
  function ProbedFile<T, D>(req: Request<T, D>, fs: Filesystem): FileResult
  {
    ReadFile(fs, FileKey(req).0, FileKey(req).1)
  }

  /** `get_docker_secret(...)`. */
  function GetDockerSecret<T, D>(req: Request<T, D>, fs: Filesystem, env: Environment): (r: Outcome<T, D>)
    ensures r.Default? ==> r.given == req.defaultValue
    ensures req.safe ==> !r.IOError? && !r.CastError?
    ensures r.IOError? <==>
      ProbedFile(req, fs).IOErr? && !req.getenv && !req.safe
    ensures r.NoneValue? <==>
      ProbedFile(req, fs).IOErr? && !req.getenv && req.safe
  {
    match ProbedFile(req, fs)
    case Readable(contents) => CastValue(req.castTo, FileValue(contents), req.safe)
    case IOErr =>
      if req.getenv then
        var envName := EnvKey(req);
        if envName in env then CastValue(req.castTo, env[envName], req.safe)
        else Default(req.defaultValue)
      else if req.safe then NoneValue
      else IOError
  }

  /** Two environments that give the same answer for `key`. */
  ghost predicate SameAt(env1: Environment, env2: Environment, key: string)
  {
    (key in env1 <==> key in env2) && (key in env1 ==> env1[key] == env2[key])
  }

  // Source precedence

  /** A readable secret file supplies the raw value and the environment is never consulted. */
  lemma FileTakesPrecedence<T, D>(req: Request<T, D>, fs: Filesystem, env: Environment, otherEnv: Environment)
    requires ProbedFile(req, fs).Readable?
    ensures var contents := ProbedFile(req, fs).contents;
      GetDockerSecret(req, fs, env) == CastValue(req.castTo, FileValue(contents), req.safe)
    ensures GetDockerSecret(req, fs, env) == GetDockerSecret(req, fs, otherEnv)
  {
  }

  /** With the file unreadable and `getenv` set, a set environment variable supplies the raw value, unstripped. */
  lemma EnvironmentFallback<T, D>(req: Request<T, D>, fs: Filesystem, env: Environment)
    requires ProbedFile(req, fs).IOErr?
    requires req.getenv
    requires EnvKey(req) in env
    ensures GetDockerSecret(req, fs, env) == CastValue(req.castTo, env[EnvKey(req)], req.safe)
  {
  }

  /** When neither source yields a value, the result is `default` itself, uncast. */
  lemma NothingFoundGivesDefault<T, D>(req: Request<T, D>, fs: Filesystem, env: Environment)
    requires ProbedFile(req, fs).IOErr?
    requires req.getenv
    requires EnvKey(req) !in env
    ensures GetDockerSecret(req, fs, env) == Default(req.defaultValue)
  {
  }

  /**
   * With the file unreadable and `getenv` off: `safe` gives None (never
   * `default`), otherwise the IOError is raised; the environment plays no part.
   */
  lemma UnreadableWithoutEnvironment<T, D>(req: Request<T, D>, fs: Filesystem, env: Environment)
    requires ProbedFile(req, fs).IOErr?
    requires !req.getenv
    ensures GetDockerSecret(req, fs, env) == if req.safe then NoneValue else IOError
    ensures GetDockerSecret(req, fs, env) != Default(req.defaultValue)
  {
  }

  /** Without `getenv` no environment variable can influence the result. */
  lemma EnvironmentIgnoredWithoutGetenv<T, D>(req: Request<T, D>, fs: Filesystem, env1: Environment, env2: Environment)
    requires !req.getenv
    ensures GetDockerSecret(req, fs, env1) == GetDockerSecret(req, fs, env2)
  {
  }

  /**
   * The call reads exactly one file and at most one variable: filesystems
   * that agree on the probed file, and environments that agree on the
   * probed variable (when `getenv` is set), give the same result.
   */
  lemma OnlyProbedSourcesMatter<T, D>(req: Request<T, D>, fs1: Filesystem, fs2: Filesystem, env1: Environment, env2: Environment)
    requires ProbedFile(req, fs1) == ProbedFile(req, fs2)
    requires req.getenv ==> SameAt(env1, env2, EnvKey(req))
    ensures GetDockerSecret(req, fs1, env1) == GetDockerSecret(req, fs2, env2)
  {
  }

  // Name casing

  /**
   * With `autocast_name` the file probed is the lower-cased name and the
   * variable the upper-cased override, or upper-cased name when the
   * override is None or empty; without it both are used verbatim.
   */
  lemma ProbedNames<T, D>(req: Request<T, D>)
    ensures req.autocastName ==> FileKey(req) == (req.secretsDir, PyStr.Lower(req.name))
    ensures req.autocastName ==> EnvKey(req) == PyStr.Upper(EnvBase(req.name, req.envName))
    ensures !req.autocastName ==> FileKey(req) == (req.secretsDir, req.name)
    ensures !req.autocastName ==> EnvKey(req) == EnvBase(req.name, req.envName)
  {
  }

  /** `name="Db_Pass"` with the default keywords probes the file `db_pass` and the variable `DB_PASS`. */
  lemma MixedCaseNameExample<T, D>(defaultValue: D)
    ensures FileKey(Simple<T, D>("Db_Pass", defaultValue)) == (DefaultSecretsDir, "db_pass")
    ensures EnvKey(Simple<T, D>("Db_Pass", defaultValue)) == "DB_PASS"
  {
    var lower, upper := PyStr.Lower("Db_Pass"), PyStr.Upper("Db_Pass");
    assert forall i :: 0 <= i < 7 ==> lower[i] == "db_pass"[i];
    assert forall i :: 0 <= i < 7 ==> upper[i] == "DB_PASS"[i];
    assert lower == "db_pass" && upper == "DB_PASS";
    var req := Simple<T, D>("Db_Pass", defaultValue);
    assert req.name == "Db_Pass" && req.autocastName && req.envName.None?;
  }

  /**
   * With `autocast_name`, names that differ only in ASCII case resolve
   * identically, whatever the `env_name` override.
   */
  lemma NameCaseIrrelevant<T, D>(req: Request<T, D>, otherName: string, fs: Filesystem, env: Environment)
    requires req.autocastName
    requires PyStr.EqualIgnoringCase(req.name, otherName)
    ensures GetDockerSecret(req, fs, env) == GetDockerSecret(req.(name := otherName), fs, env)
  {
    PyStr.CaseFoldDetermines(req.name, otherName);
  }

  /** An empty `env_name` is treated exactly like an absent one. */
  lemma EmptyEnvNameIsAbsent<T, D>(req: Request<T, D>, fs: Filesystem, env: Environment)
    ensures GetDockerSecret(req.(envName := Some("")), fs, env) == GetDockerSecret(req.(envName := None), fs, env)
  {
  }

  // Secret file contents

  /** Every trailing newline is removed, not just one, and removing them again changes nothing. */
  lemma {:induction false} FileValueStripsAllNewlines(text: string, newlines: string)
    requires text == [] || text[|text| - 1] != '\n'
    requires forall i :: 0 <= i < |newlines| ==> newlines[i] == '\n'
    ensures FileValue(text + newlines) == text
    ensures FileValue(FileValue(text + newlines)) == FileValue(text + newlines)
  {
    PyStr.RStripAppended(text, newlines, {'\n'});
    PyStr.RStripIdempotent(text + newlines, {'\n'});
  }

  /**
   * A readable file whose contents are empty or only newlines still
   * supplies a value, "", which is cast; the default is not used.
   */
  lemma EmptyFileIsCast<T, D>(req: Request<T, D>, fs: Filesystem, env: Environment)
    requires ProbedFile(req, fs).Readable?
    requires var contents := ProbedFile(req, fs).contents;
      forall i :: 0 <= i < |contents| ==> contents[i] == '\n'
    ensures GetDockerSecret(req, fs, env) == CastValue(req.castTo, "", req.safe)
    ensures !GetDockerSecret(req, fs, env).Default?
  {
    var contents := ProbedFile(req, fs).contents;
    FileValueStripsAllNewlines([], contents);
    assert [] + contents == contents;
  }

  // Casting

  /** A file holding `str(n)` followed by newlines, read with `cast_to=int`, yields `n`. */
  lemma IntSecretRoundTrip<T, D>(req: Request<T, D>, fs: Filesystem, env: Environment, n: int, newlines: string)
    requires req.castTo.Int?
    requires forall i :: 0 <= i < |newlines| ==> newlines[i] == '\n'
    requires ProbedFile(req, fs) == Readable(PyInt.ShowInt(n) + newlines)
    ensures GetDockerSecret(req, fs, env) == Value(Integer(n))
  {
    var s := PyInt.ShowInt(n);
    assert s[|s| - 1] != '\n' by {
      if n < 0 {
        assert s[|s| - 1] == PyInt.ShowNat(-n)[|PyInt.ShowNat(-n)| - 1];
      }
    }
    FileValueStripsAllNewlines(s, newlines);
    PyInt.ParseShowInt(n);
  }

  /** Text that is not an integer literal fails the `int` cast: its text comes back under `safe`, a cast error otherwise. */
  lemma IntCastRejectsText<T, D>(value: string, safe: bool, k: nat)
    requires k < |value|
    requires !PyInt.IsDigit(value[k]) && value[k] !in PyInt.Whitespace && value[k] !in {'_', '+', '-'}
    ensures CastValue<T, D>(Int, value, safe) == if safe then Raw(value) else CastError
  {
    if PyInt.ParseInt(value).Some? {
      PyInt.ParseIntOnlyLiteralChars(value);
    }
  }

  /** `"abc"` cast to `int`. */
  lemma IntCastAbc<T, D>(safe: bool)
    ensures CastValue<T, D>(Int, "abc", safe) == if safe then Raw("abc") else CastError
  {
    IntCastRejectsText<T, D>("abc", safe, 0);
  }

  /** The `bool` cast: "True"/"true" give True, "False"/"false"/"1" give False, anything else fails the cast. */
  lemma BoolCast<T, D>(value: string, safe: bool)
    ensures CastValue<T, D>(Bool, value, safe) ==
      if value == "True" || value == "true" then Value(Boolean(true))
      else if value == "False" || value == "false" || value == "1" then Value(Boolean(false))
      else if safe then Raw(value)
      else CastError
  {
  }

  /** With the default keywords (`cast_to=str`, `safe=True`) a call ends in a text value or the caller's default, never in IOError, CastError or None. */
  lemma SimpleCallNeverFails<T, D>(name: string, defaultValue: D, fs: Filesystem, env: Environment)
    ensures var r := GetDockerSecret(Simple<T, D>(name, defaultValue), fs, env);
      (r.Value? && r.cast.Text?) || r == Default(defaultValue)
  {
  }
}
