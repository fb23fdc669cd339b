/**
 * The `.env` configuration loader: `load_env_file` turns the lines of a
 * file into a dictionary, `get_env_var` looks a key up in that dictionary,
 * then in the process environment, then in a default, and
 * `setup_environment` copies the dictionary into the process environment
 * without overwriting what is already there.
 *
 * The file is given as its lines (`None` when it does not exist) and the
 * process environment as a map from names to values. Line numbers in the
 * comments below refer to src/env_loader.py.
 */
module EnvLoader {
  import opened Wrappers
  import opened PyStr

  /**
   * A Python dict from strings to strings. `order` lists the keys in the
   * order they were first inserted, which is the order `items()` visits.
   */
  datatype EnvDict = EnvDict(order: seq<string>, values: map<string, string>) {

    /** Each key is listed once in `order`, and `order` lists exactly the keys of `values`. */
    ghost predicate Valid() {
      Distinct() && KeysListed()
    }

    ghost predicate Distinct() {
      forall i, j | 0 <= i < j < |order| :: order[i] != order[j]
    }

    ghost predicate KeysListed() {
      forall k :: k in values <==> k in order
    }

    /** `d[key] = value`: a new key goes to the end, an existing one keeps its place. */
    function Assign(key: string, value: string): (d: EnvDict)
      ensures Valid() ==> d.Valid()
      ensures d.values == values[key := value]
      ensures order <= d.order
      ensures |d.order| <= |order| + 1
    {
      if key in values then EnvDict(order, values[key := value])
      else EnvDict(order + [key], values[key := value])
    }
  }

  const Empty := EnvDict([], map[])

  /** `len(d)` counts the same entries whether taken over the keys in order or over the mapping. */
  lemma {:induction false} DictSize(d: EnvDict)
    requires d.Valid()
    ensures |d.order| == |d.values|
  {
    DistinctCard(d.order);
    assert d.values.Keys == set k | k in d.order;
  }

  /** A sequence without repeats has as many distinct elements as positions. */
  lemma {:induction false} DistinctCard(s: seq<string>)
    requires forall i, j | 0 <= i < j < |s| :: s[i] != s[j]
    ensures |set k | k in s| == |s|
  {
    if s != [] {
      var init := s[..|s| - 1];
      DistinctCard(init);
      assert (set k | k in s) == (set k | k in init) + {s[|s| - 1]};
      assert s[|s| - 1] !in init;
    }
  }

  /** Lines 46-49: drop one outer pair of matching `"` or `'` quotes; a lone quote becomes empty. */
  function Unquote(value: string): (r: string)
    ensures |value| >= 2 && value[0] == value[|value| - 1] && value[0] in "\"'" ==>
              value == [value[0]] + r + [value[0]]
    ensures value == "\"" || value == "'" ==> r == ""
    ensures !(|value| > 0 && value[0] == value[|value| - 1] && value[0] in "\"'") ==> r == value
  {
    if StartsWith(value, '"') && EndsWith(value, '"') then Inner(value)
    else if StartsWith(value, '\'') && EndsWith(value, '\'') then Inner(value)
    else value
  }

  /** The quotes are removed and nothing else: the text between them is kept as it is, spaces and quotes included. */
  lemma UnquoteQuoted(q: char, inside: string)
    requires q == '"' || q == '\''
    ensures Unquote([q] + inside + [q]) == inside
  {
  }

  /** Lines 33-51 for one line: the entry the line assigns, or `None` when the loop skips it. */
  function ParseLine(line: string): (r: Option<(string, string)>)
    ensures r.Some? ==> '=' !in r.value.0 && Strip(r.value.0) == r.value.0
  {
    var s := Strip(line);
    if s == [] || StartsWith(s, '#') then None
    else if '=' in s then
      var parts := SplitFirst(s, '=');
      var key := Strip(parts.0);
      StripIdempotent(parts.0);
      StripKeeps(parts.0, '=');
      Some((key, Unquote(Strip(parts.1))))
    else None
  }

  /** The first character of `line` that is not whitespace is `#`. */
  ghost predicate IsComment(line: string) {
    FirstNonSpace(line, '#')
  }

  /** Lines 36-40: a line contributes nothing exactly when it is blank, a comment or has no `=`. */
  lemma ParseLineSkips(line: string)
    ensures ParseLine(line).None? <==> AllSpace(line) || IsComment(line) || '=' !in line
  {
    StripEmpty(line);
    StripStartsWith(line, '#');
    StripKeeps(line, '=');
  }

  /**
   * Lines 41-51 for a line `pre=post` whose key part holds no `=` and does not
   * start a comment: the key is `pre` stripped and the value is `post` stripped
   * and unquoted, so the value may itself contain `=` and the key may be empty.
   */
  lemma AssignmentLineParsed(pre: string, post: string)
    requires '=' !in pre
    requires Strip(pre) == [] || Strip(pre)[0] != '#'
    ensures ParseLine(pre + "=" + post) == Some((Strip(pre), Unquote(Strip(post))))
  {
    var line := pre + "=" + post;
    var n := |pre|;
    assert line[n] == '=';
    var b := StripBounds(line);
    StripSpec(line);
    NonSpaceWithin(line, b.0, b.1, n);
    var s := Strip(line);
    var key0, value0 := line[b.0..n], line[n + 1..b.1];
    assert s == key0 + ['='] + value0;
    assert pre == line[..b.0] + key0;
    assert post == value0 + line[b.1..];
    StripLeadingSpace(line[..b.0], key0);
    StripTrailingSpace(value0, line[b.1..]);
    assert forall c | c in key0 :: c in pre;
    SplitFirstUnique(s, '=', key0, value0);
    if b.0 < n {
      var kb := StripBounds(key0);
      StripSpec(key0);
      NonSpaceWithin(key0, kb.0, kb.1, 0);
      assert s[0] == key0[0] == Strip(key0)[0];
    }
  }

  /** A line that starts with `=` is kept with the empty string as its key. */
  lemma EmptyKeyAccepted(post: string)
    ensures ParseLine("=" + post) == Some(("", Unquote(Strip(post))))
  {
    StripUnique("", 0, 0);
    assert "" + "=" + post == "=" + post;
    AssignmentLineParsed("", post);
  }

  /** The entry each line assigns, in file order. */
  function Entries(lines: seq<string>): (es: seq<Option<(string, string)>>)
    ensures |es| == |lines|
    ensures forall j | 0 <= j < |lines| :: es[j] == ParseLine(lines[j])
  {
    seq(|lines|, j requires 0 <= j < |lines| => ParseLine(lines[j]))
  }

  /** The entries of two files read one after the other are the entries of each, in turn. */
  lemma EntriesAppend(a: seq<string>, b: seq<string>)
    ensures Entries(a + b) == Entries(a) + Entries(b)
  {
  }

  /** The dictionary built by assigning the entries `es` one after the other, as the loop of lines 32-51 does. */
  function Collect(es: seq<Option<(string, string)>>): (d: EnvDict)
    ensures |d.order| <= |es|
  {
    if es == [] then Empty
    else
      var d := Collect(es[..|es| - 1]);
      match es[|es| - 1]
      case None => d
      case Some((key, value)) => d.Assign(key, value)
  }

  /** The dictionary `load_env_file` builds from the lines of an existing file. */
  function ParseLines(lines: seq<string>): (d: EnvDict)
    ensures |d.order| <= |lines|
  {
    Collect(Entries(lines))
  }

  /** Assigning entries one by one keeps the dict well formed. */
  lemma {:induction false} CollectValid(es: seq<Option<(string, string)>>)
    ensures Collect(es).Valid()
  {
    if es != [] {
      CollectValid(es[..|es| - 1]);
    }
  }

  /** The parse result is a well-formed dict: each key listed once, in first-assignment order. */
  lemma ParseLinesValid(lines: seq<string>)
    ensures ParseLines(lines).Valid()
  {
    CollectValid(Entries(lines));
  }

  /** Lines 27-53: a missing file gives the empty dictionary; otherwise its lines are parsed. */
  function ParseFile(file: Option<seq<string>>): (d: EnvDict)
    ensures file.None? ==> d.values == map[]
  {
    match file
    case None => Empty
    case Some(lines) => ParseLines(lines)
  }

  /** The dict `load_env_file` returns is well formed: `items()` visits each of its keys once. */
  lemma ParseFileValid(file: Option<seq<string>>)
    ensures ParseFile(file).Valid()
  {
    if file.Some? {
      ParseLinesValid(file.value);
    }
  }

  /**
   * `load_env_file`: a missing file gives the empty dict; otherwise the lines
   * are read one after the other and each kept line's entry is assigned, the
   * body of the loop being `ParseLine`.
   */
  method LoadEnvFile(file: Option<seq<string>>) returns (envVars: EnvDict)
    ensures envVars == ParseFile(file)
    ensures file.None? ==> envVars.values == map[]
  {
    envVars := Empty;
    if file.None? {
      return;
    }
    var lines := file.value;
    ghost var es := Entries(lines);
    for n := 0 to |lines|
      invariant envVars == Collect(es[..n])
    {
      assert es[..n + 1][..n] == es[..n];
      match ParseLine(lines[n]) {
        case None =>
        case Some((key, value)) =>
          envVars := envVars.Assign(key, value);
      }
    }
    assert es[..|lines|] == es;
  }

  /** Entry `e` assigns `key`. */
  ghost predicate EntryAssigns(e: Option<(string, string)>, key: string) {
    e.Some? && e.value.0 == key
  }

  /** Entry `j` is the last of `es` that assigns `key`. */
  ghost predicate LastEntry(es: seq<Option<(string, string)>>, j: int, key: string) {
    && 0 <= j < |es|
    && EntryAssigns(es[j], key)
    && forall j' | j < j' < |es| :: !EntryAssigns(es[j'], key)
  }

  /** The last entry for a key decides its value. */
  lemma {:induction false} CollectLastWins(es: seq<Option<(string, string)>>, j: int, key: string)
    requires LastEntry(es, j, key)
    ensures key in Collect(es).values && Collect(es).values[key] == es[j].value.1
  {
    var last := |es| - 1;
    if j < last {
      assert !EntryAssigns(es[last], key);
      assert LastEntry(es[..last], j, key);
      CollectLastWins(es[..last], j, key);
    }
  }

  /** Every key in the dict was assigned by some entry. */
  lemma {:induction false} CollectKeyOrigin(es: seq<Option<(string, string)>>, key: string)
    requires key in Collect(es).values
    ensures exists j :: LastEntry(es, j, key)
  {
    var last := |es| - 1;
    if EntryAssigns(es[last], key) {
      assert LastEntry(es, last, key);
    } else {
      CollectKeyOrigin(es[..last], key);
      var j :| LastEntry(es[..last], j, key);
      assert LastEntry(es, j, key);
    }
  }

  /** An entry-less line leaves the dict as it was, wherever it stands. */
  lemma {:induction false} CollectSkip(before: seq<Option<(string, string)>>, after: seq<Option<(string, string)>>)
    ensures Collect(before + [None] + after) == Collect(before + after)
  {
    if after == [] {
      assert before + [None] + after == before + [None];
      assert (before + [None])[..|before|] == before;
      assert before + after == before;
    } else {
      var init := after[..|after| - 1];
      var x := after[|after| - 1];
      CollectSkip(before, init);
      assert before + [None] + after == (before + [None] + init) + [x];
      assert before + after == (before + init) + [x];
      assert ((before + [None] + init) + [x])[..|before + [None] + init|] == before + [None] + init;
      assert ((before + init) + [x])[..|before + init|] == before + init;
    }
  }

  /** `line` is kept and assigns `key`. */
  ghost predicate Assigns(line: string, key: string) {
    EntryAssigns(ParseLine(line), key)
  }

  /** Line `j` is the last line of `lines` that assigns `key`. */
  ghost predicate LastAssigns(lines: seq<string>, j: int, key: string) {
    && 0 <= j < |lines|
    && Assigns(lines[j], key)
    && forall j' | j < j' < |lines| :: !Assigns(lines[j'], key)
  }

  /** Last write wins: the value of a key is the one its last assigning line gives. */
  lemma LastWriteWins(lines: seq<string>, j: int, key: string)
    requires LastAssigns(lines, j, key)
    ensures key in ParseLines(lines).values
    ensures ParseLines(lines).values[key] == ParseLine(lines[j]).value.1
  {
    var es := Entries(lines);
    assert LastEntry(es, j, key);
    CollectLastWins(es, j, key);
  }

  /** Every key of the result comes from a line that assigns it, and the last such line gives its value. */
  lemma ParsedKeyOrigin(lines: seq<string>, key: string)
    requires key in ParseLines(lines).values
    ensures exists j :: LastAssigns(lines, j, key)
  {
    var es := Entries(lines);
    CollectKeyOrigin(es, key);
    var j :| LastEntry(es, j, key);
    assert LastAssigns(lines, j, key);
  }

  /** A key no line assigns is not in the result. */
  lemma UnassignedKeyAbsent(lines: seq<string>, key: string)
    requires forall j | 0 <= j < |lines| :: !Assigns(lines[j], key)
    ensures key !in ParseLines(lines).values
  {
    if key in ParseLines(lines).values {
      ParsedKeyOrigin(lines, key);
    }
  }

  /** A skipped line (blank, comment, no `=`) can be removed from anywhere in the file without changing the result. */
  lemma SkippedLineIgnored(before: seq<string>, line: string, after: seq<string>)
    requires ParseLine(line).None?
    ensures ParseLines(before + [line] + after) == ParseLines(before + after)
  {
    EntriesAppend(before + [line], after);
    EntriesAppend(before, [line]);
    EntriesAppend(before, after);
    assert Entries([line]) == [None];
    CollectSkip(Entries(before), Entries(after));
  }

  /** The error `get_env_var` raises for a required key that has no value. */
  datatype LoaderError = ValueError(message: string)

  /** `m.get(key)`, and `os.getenv(key)` on the environment map. */
  function Get(m: map<string, string>, key: string): (r: Option<string>)
    ensures r.Some? <==> key in m
    ensures r.Some? ==> r.value == m[key]
  {
    if key in m then Some(m[key]) else None
  }

  /** Python's `a or b` on two optional strings: `a` unless it is `None` or empty. */
  function Or(a: Option<string>, b: Option<string>): (r: Option<string>)
    ensures a.Some? && a.value != "" ==> r == a
    ensures a.None? || a.value == "" ==> r == b
  {
    if a.Some? && a.value != "" then a else b
  }

  /**
   * `get_env_var`: the file's value when it is non-empty, else the environment's
   * value (even an empty one), else an error when `required` (whatever the
   * default), else the default or the empty string.
   */
  function GetEnvVar(file: Option<seq<string>>, osEnv: map<string, string>, key: string,
                     default: Option<string>, required: bool): (r: Result<string, LoaderError>)
    ensures var fileVars := ParseFile(file).values;
      var fromFile := key in fileVars && fileVars[key] != "";
      && (fromFile ==> r == Ok(fileVars[key]))
      && (!fromFile && key in osEnv ==> r == Ok(osEnv[key]))
      && (!fromFile && key !in osEnv && required ==>
            r == Err(ValueError("Required environment variable '" + key + "' not found")))
      && (!fromFile && key !in osEnv && !required ==>
            r == Ok(if default.Some? then default.value else ""))
  {
    var envVars := ParseFile(file).values;
    var value := Or(Get(envVars, key), Get(osEnv, key));
    if value.None? then
      if required then Err(ValueError("Required environment variable '" + key + "' not found"))
      else Ok(Or(default, Some("")).value)
    else Ok(value.value)
  }

  /** `get_env_var` raises only for a required key found nowhere, and the message names the key. */
  lemma GetEnvVarFails(file: Option<seq<string>>, osEnv: map<string, string>, key: string,
                       default: Option<string>, required: bool)
    ensures var fileVars := ParseFile(file).values;
      GetEnvVar(file, osEnv, key, default, required).Err? <==>
        required && key !in osEnv && (key !in fileVars || fileVars[key] == "")
  {
  }

  /** With `required` set the default plays no part: a missing key raises whatever default is passed. */
  lemma RequiredIgnoresDefault(file: Option<seq<string>>, osEnv: map<string, string>, key: string,
                               default: Option<string>)
    ensures GetEnvVar(file, osEnv, key, default, true) == GetEnvVar(file, osEnv, key, None, true)
  {
  }

  /** What `setup_environment` leaves in the environment: `env` with its gaps filled from `parsed`. */
  function FillGaps(env: map<string, string>, parsed: map<string, string>): (r: map<string, string>)
    ensures r.Keys == env.Keys + parsed.Keys
    ensures forall k | k in env :: r[k] == env[k]
    ensures forall k | k in parsed && k !in env :: r[k] == parsed[k]
  {
    map k | k in env.Keys + parsed.Keys :: if k in env then env[k] else parsed[k]
  }

  /** Filling the gaps from one more entry sets that entry only where the key is still missing. */
  lemma FillGapsStep(env: map<string, string>, parsed: map<string, string>, key: string, value: string)
    requires key in parsed ==> parsed[key] == value
    ensures var before := FillGaps(env, parsed);
      FillGaps(env, parsed[key := value]) == if key in before then before else before[key := value]
  {
  }

  /** Filling the gaps a second time changes nothing. */
  lemma FillGapsIdempotent(env: map<string, string>, parsed: map<string, string>)
    ensures FillGaps(FillGaps(env, parsed), parsed) == FillGaps(env, parsed)
  {
  }

  /** The number of keys actually added is the number of parsed keys that were missing, at most the parsed count. */
  lemma NewlySetCount(env: map<string, string>, parsed: map<string, string>)
    ensures |FillGaps(env, parsed)| == |env| + |parsed.Keys - env.Keys|
    ensures |parsed.Keys - env.Keys| <= |parsed|
  {
    var r := FillGaps(env, parsed);
    assert r.Keys == env.Keys + (parsed.Keys - env.Keys);
    assert env.Keys !! (parsed.Keys - env.Keys);
    assert parsed.Keys - env.Keys <= parsed.Keys;
  }

  /**
   * A key the file sets to the empty string falls through to the default before
   * `setup_environment` runs, and reads as empty after it.
   */
  lemma EmptyFileValueAfterSetup(file: Option<seq<string>>, osEnv: map<string, string>, key: string,
                                 default: Option<string>)
    requires key in ParseFile(file).values && ParseFile(file).values[key] == ""
    requires key !in osEnv
    ensures GetEnvVar(file, osEnv, key, default, false) == Ok(if default.Some? then default.value else "")
    ensures GetEnvVar(file, FillGaps(osEnv, ParseFile(file).values), key, default, false) == Ok("")
  {
  }

  /** The process environment (`os.environ`), which `setup_environment` extends in place. */
  class Environment {
    var vars: map<string, string>

    constructor (initial: map<string, string>)
      ensures vars == initial
    {
      vars := initial;
    }

    /**
     * `setup_environment`: every parsed key that is missing from the
     * environment is added with its parsed value; present keys keep their
     * value. Returns the count line 97 reports: all parsed entries, also
     * those that were not set.
     */
    method SetupEnvironment(file: Option<seq<string>>) returns (loaded: nat)
      modifies this
      ensures vars == FillGaps(old(vars), ParseFile(file).values)
      ensures loaded == |ParseFile(file).values|
      ensures loaded == |ParseFile(file).order|
    {
      var envVars := LoadEnvFile(file);
      ParseFileValid(file);
      SetMissing(envVars);
      loaded := |envVars.values|;
      DictSize(envVars);
    }

    /** Lines 93-95: walks the loaded keys in order and sets each one the environment lacks. */
    method SetMissing(envVars: EnvDict)
      requires envVars.KeysListed()
      modifies this
      ensures vars == FillGaps(old(vars), envVars.values)
    {
      ghost var seen: map<string, string> := map[];
      for n := 0 to |envVars.order|
        invariant forall k | k in seen :: k in envVars.values && seen[k] == envVars.values[k]
        invariant forall m | 0 <= m < n :: envVars.order[m] in seen
        invariant vars == FillGaps(old(vars), seen)
      {
        var key := envVars.order[n];
        FillGapsStep(old(vars), seen, key, envVars.values[key]);
        if key !in vars {
          vars := vars[key := envVars.values[key]];
        }
        seen := seen[key := envVars.values[key]];
      }
      assert seen == envVars.values;
    }
  }
}
