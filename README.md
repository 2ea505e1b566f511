# get_docker_secret in Dafny

A model of `get_docker_secret`, the one function of the `get-docker-secret`
package. It resolves a named configuration value. It first reads a secret
file under a secrets directory. If that fails, it may read an environment
variable, and if that is unset too it falls back to a caller-supplied
default. It then casts the value to a requested type. A `safe` flag decides
whether an I/O failure or a failed cast reaches the caller.

The model is pure. Reading is abstracted:

- the filesystem is a `map<(string, string), FileResult>` keyed by
  (secrets directory, file name), where `FileResult` is `Readable(contents)`
  or `IOErr`, and a missing key is a missing file (an `IOError` in Python);
  `contents` is the text `read()` returns in text mode, after newline
  translation, so a file holding `pw\r\n` on disk is `Readable("pw\n")`
  and yields `"pw"`;
- the environment is a `map<string, string>`;
- `cast_to` is the closed datatype `CastTo<T> = Str | Int | Bool | Custom(parse)`,
  where `parse: string -> Option<T>` stands for any other constructor and
  `None` for the `TypeError`/`ValueError` it raises;
- the outcome is `Value(v)`, `Default(default)`, `NoneValue`, `Raw(text)`,
  `IOError` or `CastError`, the last two being the exceptions that reach the
  caller.

Modules:

- `Wrappers` (wrappers.dfy): `Option`, standing for Python's `None`.
- `PyStr` (py_str.dfy): the `str` methods used: `lower()`, `upper()`
  (ASCII letters only) and `rstrip`/`lstrip`/`strip` with a character set.
- `PyInt` (py_int.dfy): `int(text)` in base 10. It accepts surrounding
  whitespace, one sign, and digits grouped by single underscores. It has
  the decimal rendering `str(n)` as its inverse.
- `DockerSecret` (docker_secret.dfy): the resolver `GetDockerSecret` and the
  lemmas about precedence, casing, newline stripping, casting and `safe`.

Points of the code that are easy to misread:

- `rstrip('\n')` removes every trailing newline, not exactly one.
- The environment variable name is computed only when `getenv` is true.
  The name is used only then, so the model computes it only on that path.
- The boolean token list contains the integer `1`. A file or environment
  value is always text, so that token can never match, and the model
  leaves it out.
- The text `"1"` casts to `False`. This looks unintended, but the model
  keeps it as written (`DockerSecret.BoolToken`, `DockerSecret.BoolCast`).

## Model

| member | source | states |
|---|---|---|
| `DockerSecret.GetDockerSecret` | get_docker_secret.py:6-65 | A `default` result is the caller's default unchanged. With `safe` no IOError or cast error escapes. An IOError escapes exactly when the file is unreadable and both `getenv` and `safe` are off. The result is None exactly when the file is unreadable, `getenv` is off and `safe` is on. |
| `DockerSecret.Simple` | get_docker_secret.py:6-7 | The keyword defaults: `cast_to=str`, `autocast_name=True`, `getenv=True`, `env_name=None`, `safe=True`, and `secrets_dir` is `/var/run/secrets`. |
| `DockerSecret.ReadFile` | get_docker_secret.py:34-37 | Reading a file that does not exist is an IOError. Otherwise the read gives whatever the filesystem holds for (directory, name). |
| `DockerSecret.SecretName` | get_docker_secret.py:24 | The probed file name equals `name` up to ASCII case. With `autocast_name` it has no capital letters; without it, it is `name` verbatim. |
| `DockerSecret.EnvBase` | get_docker_secret.py:26-27 | The override is used when it is present and non-empty. None and `""` both fall back to `name`. |
| `DockerSecret.EnvName` | get_docker_secret.py:25-28 | The probed variable equals the override (or `name`) up to ASCII case. With `autocast_name` it has no small letters; without it, it is used verbatim. |
| `DockerSecret.FileValue` | get_docker_secret.py:36 | The raw value from a file is a prefix of its contents and does not end in a newline. Everything removed is newlines. |
| `DockerSecret.BoolToken` | get_docker_secret.py:53-56 | `"True"`/`"true"` give True. `"False"`/`"false"`/`"1"` give False. Every other text is rejected. |
| `DockerSecret.Convert` | get_docker_secret.py:51-59 | A `str` cast always succeeds and returns the text. An `int` cast succeeds exactly when `int()` parses the text, and returns the parsed number. A `bool` cast succeeds exactly on the accepted tokens, and returns the token's truth value. A custom cast succeeds exactly when its parser does, and returns the parser's value. |
| `DockerSecret.CastValue` | get_docker_secret.py:51-65 | A successful cast gives its value. A failed cast gives the uncast text when `safe` and a cast error otherwise. |
| `DockerSecret.FileTakesPrecedence` | get_docker_secret.py:34-40 | A readable file's stripped contents are cast. Any other environment gives the same result, so the file wins over the variable. |
| `DockerSecret.EnvironmentFallback` | get_docker_secret.py:37-40 | With the file unreadable and `getenv` on, a set variable's value is cast as it is, without stripping. |
| `DockerSecret.NothingFoundGivesDefault` | get_docker_secret.py:39-48 | With the file unreadable, `getenv` on and the variable unset, the result is exactly `Default(default)`, with no cast. |
| `DockerSecret.UnreadableWithoutEnvironment` | get_docker_secret.py:37-44 | With the file unreadable and `getenv` off, the result is None when `safe` (never the default) and an IOError otherwise. |
| `DockerSecret.EnvironmentIgnoredWithoutGetenv` | get_docker_secret.py:25-44 | Without `getenv` the environment cannot influence the result. |
| `DockerSecret.OnlyProbedSourcesMatter` | get_docker_secret.py:24-40 | The result depends only on the one probed file and, with `getenv`, the one probed variable. |
| `DockerSecret.ProbedNames` | get_docker_secret.py:24-28 | With `autocast_name`, the file key is `lower(name)` and the variable is `upper(env_name or name)`. Without it, both are used verbatim. |
| `DockerSecret.MixedCaseNameExample` | get_docker_secret.py:24-28 | With default keywords, `"Db_Pass"` probes file `db_pass` under `/var/run/secrets` and variable `DB_PASS`. |
| `DockerSecret.NameCaseIrrelevant` | get_docker_secret.py:24-28 | With `autocast_name`, two names that differ only in ASCII case resolve identically, whatever the `env_name` override. |
| `DockerSecret.EmptyEnvNameIsAbsent` | get_docker_secret.py:26-27 | `env_name=""` behaves exactly like `env_name=None`. |
| `DockerSecret.FileValueStripsAllNewlines` | get_docker_secret.py:36 | Text followed by any number of newlines strips back to the text. Stripping is idempotent. |
| `DockerSecret.EmptyFileIsCast` | get_docker_secret.py:36-48 | A file that is empty or holds only newlines supplies `""`. That value is cast, and the default is not used. |
| `DockerSecret.IntSecretRoundTrip` | get_docker_secret.py:36-59 | A file holding `str(n)` plus trailing newlines, read with `cast_to=int`, yields `n`. |
| `DockerSecret.IntCastRejectsText` | get_docker_secret.py:59-65 | Text with any character other than whitespace, digits, `_`, `+` and `-` fails the `int` cast. Under `safe` its text comes back; otherwise a cast error results. |
| `DockerSecret.IntCastAbc` | get_docker_secret.py:59-65 | `"abc"` cast to `int` gives `Raw("abc")` under `safe` and a cast error otherwise. |
| `DockerSecret.BoolCast` | get_docker_secret.py:53-65 | The `bool` cast outcome for every text: True, False, the raw text when `safe`, or a cast error. |
| `DockerSecret.SimpleCallNeverFails` | get_docker_secret.py:6-65 | With default keywords, a call yields either a `Text` value (the text itself, as `str(value)` returns it) or the default. It never takes the IOError branch, the cast-error branch or the None branch (line 42). The default it returns is the caller's, which in Python is None unless one is given. |
| `PyStr.Lower` | get_docker_secret.py:24 | `lower()` keeps the string up to case, leaves no ASCII capitals, and changes nothing else. |
| `PyStr.Upper` | get_docker_secret.py:28 | `upper()` keeps the string up to case, leaves no ASCII small letters, and changes nothing else. |
| `PyStr.CaseFoldDetermines` | get_docker_secret.py:24-28 | Strings equal up to ASCII case have equal `lower()` and equal `upper()`. |
| `PyStr.RStrip` | get_docker_secret.py:36 | `rstrip(chars)` gives a prefix that does not end in `chars`. Everything it removes is in `chars`. |
| `PyStr.RStripUnique` | get_docker_secret.py:36 | Those three facts determine the result of `rstrip` uniquely. |
| `PyStr.RStripIdempotent` | get_docker_secret.py:36 | `rstrip` twice is `rstrip` once. |
| `PyInt.ParseInt` | get_docker_secret.py:59 | `int()` rejects text that is empty or only whitespace. |
| `PyInt.ParseIntOnlyLiteralChars` | get_docker_secret.py:59 | Text that `int()` accepts consists only of whitespace, digits, underscores and signs. So `"abc"`, `"1.5"` and `"0x10"` are rejected. |
| `PyInt.ShowNatValue` | get_docker_secret.py:59 | The digits of `str(n)` spell `n`. |
| `PyInt.ParseShowInt` | get_docker_secret.py:59 | `int(str(n)) == n` for every integer. |
| `PyInt.ParseIgnoresWhitespace` | get_docker_secret.py:59 | Whitespace around a literal does not change what `int()` reads, so an unstripped variable such as `" 42 "` casts to 42. |

## Left out

- Opening and reading files and reading `os.environ` are inputs (the two maps), not I/O.
- Path construction is left out: `os.path.abspath(os.sep)` and `os.path.join`. The file is identified by the pair (secrets directory, name), so two pairs that join to the same path are independent entries here.
- Not-found and other I/O errors are not told apart. Both are an `IOErr` or a missing key, as for Python's `except IOError`.
- Decoding errors such as `UnicodeDecodeError` are left out. `except IOError` does not catch them.
- `DockerSecret.SimpleCallNeverFails`: the `ValueError` that `open` raises for a path it cannot encode (a name or directory holding `'\0'` or a lone surrogate) is not modelled. `except IOError` does not catch it, so in Python it escapes even with `safe=True`. `FileResult` has no case for it.
- `DockerSecret.GetDockerSecret`: an `env_name` (or `name`) holding a lone surrogate makes `os.environ.get` raise `UnicodeEncodeError` when the file is unreadable and `getenv` is on. That call is outside both `try` blocks, so the error escapes even with `safe=True`. Dafny strings cannot hold lone surrogates, so such names lie outside the model.
- Float casts are left out. Arbitrary callables become the `Custom` parser, and only their `TypeError`/`ValueError` are modelled.
- The integer token `1` in the boolean token list is left out, because a text value can never equal it.
- `PyStr.Lower` and `PyStr.Upper` change ASCII letters only. Unicode case mapping (including length-changing mappings) is not modelled.
- `PyInt.ParseInt` has no limit on the number of digits. CPython 3.11 and later, and 3.7.14+, 3.8.14+, 3.9.14+ and 3.10.7+, reject decimal literals longer than 4,300 digits by default (`sys.set_int_max_str_digits`). The model accepts them.
- `PyInt.ParseShowInt` holds for every integer in the model. Under CPython's default digit limit, `str(n)` itself raises for |n| of 10^4300 and above.
- `DockerSecret.IntSecretRoundTrip` inherits the same gap for files holding more than 4,300 digits.
- `PyInt.ParseInt` accepts ASCII digits and ASCII whitespace only. Python's `int()` also accepts other Unicode decimal digits and Unicode whitespace.
- The default for `default` is `None` in Python. Here the default value has a type parameter `D`, and `DockerSecret.Simple` takes it as an argument.
