# `.env` loader — a Dafny model

This project models the environment-variable loader of the Dedalus project
(`src/env_loader.py`) and proves properties of the model. The loader has three
operations.

- `load_env_file` reads a `.env` file line by line. Each line is stripped.
  Blank lines, `#` comments and lines without `=` are skipped. The line is
  split at its first `=`. Both halves are stripped. One pair of matching
  outer quotes is removed from the value. The key is then assigned into a
  dictionary, so a later line overwrites an earlier one. A missing file
  gives an empty dictionary.
- `get_env_var` looks a key up in that dictionary, then in the process
  environment. A missing key raises `ValueError` when it is required;
  otherwise it falls back to the default, or to the empty string.
- `setup_environment` copies every loaded key that the process environment
  lacks into it. It never overwrites an existing variable. It reports the
  number of distinct keys loaded from the file, so a key assigned twice is
  counted once.

The Dafny project has three modules.

- `Wrappers` holds the `Option` and `Result` types.
- `PyStr` models the Python string operations the loader uses:
  - `str.strip`, with the full whitespace set of `str.isspace`;
  - `in` for one character, through `Find`, the first-occurrence search
    behind both `in` and `split`;
  - `split(c, 1)`;
  - `startswith` and `endswith`;
  - the `[1:-1]` slice.
- `EnvLoader` models the loader itself, in the same form as the source.
  - Per-line parsing is a pure function, `ParseLine`.
  - The reading loop is a `method` with a `for` loop, `LoadEnvFile`. It is
    proved equal to a left fold over the lines, `ParseFile`.
  - `get_env_var` is a pure function, `GetEnvVar`.
  - `os.environ` is a class, `Environment`, whose map field is updated in
    place by `SetupEnvironment`. That method is proved against `FillGaps`.

A Python dict keeps its insertion order. The model's `EnvDict` therefore
pairs a map with the list of keys in first-insertion order. That list is the
order `items()` visits.

The model follows the code in these details a reader might not expect.

- Keys may be empty: a line `=value` assigns the key `""`.
- A required key that is missing raises `ValueError`. The message is
  `Required environment variable '<key>' not found`.
- `setup_environment` prints its count and returns nothing. The model
  returns that count as the out-parameter `loaded`.
- The dictionary lookup uses Python's `or`. A key the file sets to the empty
  string therefore falls through to the process environment, and then to the
  default.

## Model

| member | source | states |
|---|---|---|
| PyStr.Strip | src/env_loader.py:33-43 | `str.strip()`: the result is no longer than the input; `StripSpec` and `StripUnique` pin it down exactly |
| PyStr.LeadingSpaceSpec | src/env_loader.py:33 | the counted prefix is all whitespace, and the character after it is not |
| PyStr.TrailingStartSpec | src/env_loader.py:33 | the suffix cut off at the end is all whitespace, and the character before it is not |
| PyStr.StripSpec | src/env_loader.py:33 | `strip` removes only whitespace, from both ends; its result is empty or begins and ends with non-whitespace |
| PyStr.StripUnique | src/env_loader.py:33 | any split of a string into leading whitespace, a core with non-whitespace ends, and trailing whitespace gives the core `strip` returns |
| PyStr.StripIdempotent | src/env_loader.py:42-43 | stripping an already stripped string changes nothing, so re-stripping the key is harmless |
| PyStr.StripLeadingSpace | src/env_loader.py:33 | whitespace in front of a string does not change what `strip` returns |
| PyStr.StripTrailingSpace | src/env_loader.py:33 | whitespace after a string does not change what `strip` returns |
| PyStr.StripEmpty | src/env_loader.py:33-36 | a stripped line is empty exactly when the line is all whitespace |
| PyStr.StripKeeps | src/env_loader.py:33-40 | a non-whitespace character such as `=` is in the stripped line exactly when it is in the line |
| PyStr.StripStartsWith | src/env_loader.py:33-36 | the stripped line starts with `#` exactly when `#` is the line's first non-whitespace character |
| PyStr.StartsWithPrefix | src/env_loader.py:36-48 | `startswith` with one character compares the prefix `s[:1]`, which is empty for an empty string |
| PyStr.EndsWithSuffix | src/env_loader.py:46-48 | `endswith` with one character compares the suffix `s[-1:]`, which is empty for an empty string |
| PyStr.Find | src/env_loader.py:40-41 | the index of the first occurrence of the character, and `None` exactly when it does not occur |
| PyStr.SplitFirst | src/env_loader.py:41 | `split('=', 1)` gives a part before the separator that holds no `=` and a rest that may hold more; joined with the separator they give back the input |
| PyStr.FindFirst | src/env_loader.py:41 | `find` answers the first occurrence, whichever index that is |
| PyStr.SplitFirstUnique | src/env_loader.py:41 | a split whose front part holds no separator is the one `split(c, 1)` makes |
| PyStr.Inner | src/env_loader.py:47-49 | `[1:-1]` drops exactly the first and last characters, and gives the empty string for inputs shorter than two |
| EnvLoader.EnvDict.Assign | src/env_loader.py:51 | the key takes the value; a new key is listed after the existing ones and an existing key keeps its place, so the key list grows by at most one; well-formedness is preserved |
| EnvLoader.DictSize | src/env_loader.py:93-97 | the number of keys `items()` visits is `len` of the dict |
| EnvLoader.Unquote | src/env_loader.py:45-49 | one outer pair of matching `"` or `'` quotes is removed; a lone `"` or `'` becomes empty; any other value is unchanged |
| EnvLoader.UnquoteQuoted | src/env_loader.py:46-49 | for a quoted value only the quotes go; inner spaces and quotes stay, with no second strip |
| EnvLoader.ParseLine | src/env_loader.py:33-51 | a kept line's key holds no `=` and has no surrounding whitespace |
| EnvLoader.ParseLineSkips | src/env_loader.py:35-40 | a line is skipped exactly when it is blank, its first non-whitespace character is `#`, or it has no `=` |
| EnvLoader.AssignmentLineParsed | src/env_loader.py:40-51 | a line `pre=post` whose `pre` holds no `=` and does not start a comment assigns `pre` stripped to `post` stripped and unquoted; `post` may itself contain `=` |
| EnvLoader.EmptyKeyAccepted | src/env_loader.py:40-51 | a line starting with `=` is kept, with the empty key |
| EnvLoader.EntriesAppend | src/env_loader.py:32 | reading two runs of lines in turn gives the entries of each run in turn |
| EnvLoader.CollectValid | src/env_loader.py:51 | folding entries into the empty dict gives a dict whose key list has no repeats and names exactly its keys |
| EnvLoader.ParseLinesValid | src/env_loader.py:21-51 | the parsed dictionary is well formed |
| EnvLoader.ParseFile | src/env_loader.py:27-29 | a missing file gives the empty dictionary |
| EnvLoader.ParseFileValid | src/env_loader.py:53-93 | the returned dict is well formed: `items()` visits each of its keys exactly once |
| EnvLoader.LoadEnvFile | src/env_loader.py:11-53 | the loop over the lines returns the fold `ParseFile`, which is empty for a missing file |
| EnvLoader.Collect | src/env_loader.py:31-51 | the dictionary the loop builds from the per-line entries; it has at most one key per entry, and `CollectLastWins`, `CollectKeyOrigin` and `CollectSkip` characterise its contents |
| EnvLoader.ParseLines | src/env_loader.py:31-51 | the dictionary built from a file's lines has at most one key per line; `LastWriteWins`, `ParsedKeyOrigin` and `UnassignedKeyAbsent` characterise its contents |
| EnvLoader.CollectLastWins | src/env_loader.py:51 | the last entry that assigns a key gives its value |
| EnvLoader.CollectKeyOrigin | src/env_loader.py:51 | every key of the folded dict was assigned by some entry |
| EnvLoader.CollectSkip | src/env_loader.py:36-40 | an entry-less line leaves the result as it was, wherever it stands |
| EnvLoader.LastWriteWins | src/env_loader.py:31-51 | for duplicated keys the last assigning line wins |
| EnvLoader.ParsedKeyOrigin | src/env_loader.py:31-51 | every key of the result comes from a line that assigns it |
| EnvLoader.UnassignedKeyAbsent | src/env_loader.py:31-51 | a key that no line assigns is absent |
| EnvLoader.SkippedLineIgnored | src/env_loader.py:35-40 | removing a skipped line from anywhere in the file does not change the result |
| EnvLoader.Get | src/env_loader.py:75 | `dict.get` and `os.getenv`: a value exactly when the key is present, and then the key's value |
| EnvLoader.Or | src/env_loader.py:75-80 | Python's `or` on optional strings: the left operand when it is present and non-empty, otherwise the right one |
| EnvLoader.GetEnvVar | src/env_loader.py:56-82 | decision table: a non-empty file value, else the OS value (even an empty one), else `ValueError` naming the key when required, else the default or `""` |
| EnvLoader.GetEnvVarFails | src/env_loader.py:77-79 | raises exactly when the key is required and has no non-empty file value and no OS value |
| EnvLoader.RequiredIgnoresDefault | src/env_loader.py:78-80 | with `required` set, the default plays no part |
| EnvLoader.FillGaps | src/env_loader.py:93-95 | the new environment has the old keys with their old values, plus every parsed key that was missing, with its parsed value, and nothing else |
| EnvLoader.FillGapsStep | src/env_loader.py:94-95 | one loop step sets the key only if it is still missing |
| EnvLoader.FillGapsIdempotent | src/env_loader.py:93-95 | running setup a second time with the same file changes nothing |
| EnvLoader.NewlySetCount | src/env_loader.py:93-97 | the environment grows by the number of parsed keys it lacked, which is at most the count reported |
| EnvLoader.EmptyFileValueAfterSetup | src/env_loader.py:75-95 | a key set to `""` in the file falls through to the default before setup, and reads as `""` after it |
| EnvLoader.Environment.constructor | src/env_loader.py:85-89 | the environment starts as the given map |
| EnvLoader.Environment.SetupEnvironment | src/env_loader.py:85-97 | the environment becomes `FillGaps` of the old one with the parsed values, and the reported count is `len` of the loaded dict, which is also the number of keys the loop visits |
| EnvLoader.Environment.SetMissing | src/env_loader.py:93-95 | the loop over the dict's items in order fills exactly the gaps |

## Left out

- Locating the file (`Path(__file__).parent` joined with the path argument), checking that it exists and opening it are I/O. The model takes the file's contents as `Option<seq<string>>`, with `None` for a file that does not exist.
- Splitting the file into lines, including newline translation, is not modelled. Each line is given as a string. A trailing newline makes no difference, since every line is stripped first.
- Errors raised by reading the file (permissions, decoding) are not modelled.
- The warning printed for a missing file and the "Loaded N environment variables" message are not modelled as output. The count is returned as `loaded`.
- `get_env_var` and `setup_environment` each call `load_env_file` and read the real process environment. Here the file and `os.environ` are parameters (`file`, `osEnv`) or the `Environment` object.
- EnvLoader.Environment.SetupEnvironment: assumes that every write to `os.environ` succeeds and that keys are case-sensitive, as on POSIX. In CPython, `os.environ[key] = value` calls `putenv`. That call fails for an empty key (which `load_env_file` accepts) and for a key or value containing a NUL character. A failure raises an exception partway through the loop, and keys later in the file are then not set. On Windows, keys compare without regard to case. The model does not capture either behaviour.
- EnvLoader.FillGaps: describes the environment after a setup in which every write succeeds, for the same reason.
- The `__main__` demonstration block (lines 100-117) only prints, so it is not modelled.
