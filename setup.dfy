/** The pure parts of setup.py: the `.env` template that `create_env_file`
    writes, the line parser and check of `validate_env`, and the operating
    system to requirements file mapping of `install_requirements`. */
module Setup {
  import opened Builtins

  /** REQUIRED_ENV_KEYS */
  const RequiredEnvKeys: seq<string> := ["THINGSPEAK_API_KEY"]

  /** The keys `create_env_file` writes, in order */
  const EnvTemplateKeys: seq<string> := ["THINGSPEAK_API_KEY", "SMTP_USER", "SMTP_PASS", "SMTP_RECIPIENT", "SMTP_CC"]

  /** One `KEY=` line per key, each with an empty value */
  function TemplateLines(keys: seq<string>): (lines: seq<string>)
    ensures |lines| == |keys|
    ensures forall i :: 0 <= i < |keys| ==> lines[i] == keys[i] + "=\n"
  {
    seq(|keys|, i requires 0 <= i < |keys| => keys[i] + "=\n")
  }

  /** A line as iteration over a text file yields it: non-empty, with at
      most one newline, at its end */
  predicate IsLine(line: string) {
    line != [] && '\n' !in line[..|line| - 1]
  }

  /** A line that is not the last one of its file ends with a newline */
  predicate IsClosedLine(line: string) {
    IsLine(line) && line[|line| - 1] == '\n'
  }

  /** `for line in f`: the file cut after every newline. The lines put back
      together give the file, and every line but the last ends with a
      newline */
  function FileLines(content: string): (lines: seq<string>)
    ensures Join(lines, "") == content
    ensures forall i :: 0 <= i < |lines| ==> IsLine(lines[i])
    ensures forall i :: 0 <= i < |lines| - 1 ==> IsClosedLine(lines[i])
    decreases |content|
  {
    if content == [] then []
    else
      var i := IndexOf(content, '\n');
      if i == |content| then
        assert content[..|content| - 1] == content[..i][..|content| - 1];
        [content]
      else
        var rest := FileLines(content[i + 1..]);
        FileLinesCons(content, i, rest, [content[..i + 1]] + rest);
        JoinLinesSplit(content, i, rest);
        [content[..i + 1]] + rest
  }

  /** The line up to the first newline, put in front of lines that each
      hold one line, gives lines of the same kind */
  lemma FileLinesCons(content: string, i: nat, rest: seq<string>, lines: seq<string>)
    requires i < |content| && content[i] == '\n' && '\n' !in content[..i]
    requires forall k :: 0 <= k < |rest| ==> IsLine(rest[k])
    requires forall k :: 0 <= k < |rest| - 1 ==> IsClosedLine(rest[k])
    requires lines == [content[..i + 1]] + rest
    ensures forall k :: 0 <= k < |lines| ==> IsLine(lines[k])
    ensures forall k :: 0 <= k < |lines| - 1 ==> IsClosedLine(lines[k])
  {
    var first := content[..i + 1];
    assert forall k :: 1 <= k < |lines| ==> lines[k] == rest[k - 1];
    assert first[..|first| - 1] == content[..i];
    assert IsClosedLine(first);
  }

  /** Writing the line up to the first newline and then what follows it
      gives the whole file */
  lemma JoinLinesSplit(content: string, i: nat, rest: seq<string>)
    requires i < |content| && Join(rest, "") == content[i + 1..]
    ensures Join([content[..i + 1]] + rest, "") == content
  {
    JoinLinesCons(content[..i + 1], rest);
    assert content == content[..i + 1] + content[i + 1..];
  }

  /** Writing a line and then the lines after it */
  lemma JoinLinesCons(first: string, rest: seq<string>)
    ensures Join([first] + rest, "") == first + Join(rest, "")
  {
    if rest == [] {
      assert [first] + rest == [first];
      assert first + "" == first;
    } else {
      assert ([first] + rest)[1..] == rest;
    }
  }

  /** Cutting a file into lines undoes writing those lines one after the other */
  lemma {:induction false} FileLinesJoin(lines: seq<string>)
    requires forall i :: 0 <= i < |lines| ==> IsClosedLine(lines[i])
    ensures FileLines(Join(lines, "")) == lines
    decreases |lines|
  {
    if lines != [] {
      var first := lines[0];
      var body := first[..|first| - 1];
      assert first == body + ['\n'];
      var rest := Join(lines[1..], "");
      assert Join(lines, "") == first + rest by {
        if |lines| == 1 {
          assert rest == "";
        }
      }
      IndexOfAfter(body, '\n', rest);
      assert body + ['\n'] + rest == first + rest;
      assert (first + rest)[..|first|] == first;
      assert (first + rest)[|first|..] == rest;
      FileLinesJoin(lines[1..]);
    }
  }

  /** `create_env_file`: an existing `.env` is kept, otherwise the template
      is written */
  function CreateEnvFile(existing: Option<string>): (content: string)
    ensures existing.Some? ==> content == existing.value
    ensures existing.None? ==> FileLines(content) == TemplateLines(EnvTemplateKeys)
  {
    match existing
    case Some(c) => c
    case None =>
      var lines := TemplateLines(EnvTemplateKeys);
      assert forall i :: 0 <= i < |lines| ==> lines[i][..|lines[i]| - 1] == EnvTemplateKeys[i] + "=";
      FileLinesJoin(lines);
      Join(lines, "")
  }

  /** A `key=value` definition read from `.env` */
  datatype Entry = Entry(key: string, value: string)

  /** One line of `validate_env`: a line without '=' is skipped; otherwise
      the stripped line is split at its first '=', the key is what precedes
      it and the value is the rest, stripped */
  function ParseEnvLine(line: string): (entry: Option<Entry>)
    ensures entry.None? <==> '=' !in line
    ensures entry.Some? ==> '=' !in entry.value.key && Trimmed(entry.value.value)
  {
    if '=' !in line then None
    else
      var stripped := Strip(line);
      StripKeeps(line, '=');
      var i := IndexOf(stripped, '=');
      Some(Entry(stripped[..i], Strip(stripped[i + 1..])))
  }

  /** The key is the stripped line up to its first '=', and the value is
      the rest of it, stripped */
  lemma ParseEnvLineShape(line: string)
    requires '=' in line
    ensures var stripped, e := Strip(line), ParseEnvLine(line).value;
      && |e.key| < |stripped| && stripped[..|e.key| + 1] == e.key + "="
      && e.value == Strip(stripped[|e.key| + 1..])
  {
    StripKeeps(line, '=');
    var stripped := Strip(line);
    var i := IndexOf(stripped, '=');
    assert stripped[..i + 1] == stripped[..i] + "=";
  }

  /** The dictionary `values` filled from parsed lines in order: a later
      definition of a key replaces an earlier one */
  function Collect(entries: seq<Option<Entry>>): map<string, string>
    decreases |entries|
  {
    if entries == [] then map[]
    else
      var values := Collect(entries[..|entries| - 1]);
      match entries[|entries| - 1]
      case None => values
      case Some(e) => values[e.key := e.value]
  }

  lemma CollectSnoc(entries: seq<Option<Entry>>, entry: Option<Entry>)
    ensures Collect(entries + [entry]) ==
      match entry
      case None => Collect(entries)
      case Some(e) => Collect(entries)[e.key := e.value]
  {
    assert (entries + [entry])[..|entries|] == entries;
  }

  lemma CollectPrefix(entries: seq<Option<Entry>>, n: nat)
    requires n < |entries|
    ensures Collect(entries[..n + 1]) ==
      match entries[n]
      case None => Collect(entries[..n])
      case Some(e) => Collect(entries[..n])[e.key := e.value]
  {
    assert entries[..n + 1] == entries[..n] + [entries[n]];
    CollectSnoc(entries[..n], entries[n]);
  }

  function ParseLines(lines: seq<string>): (entries: seq<Option<Entry>>)
    ensures |entries| == |lines|
    ensures forall i :: 0 <= i < |lines| ==> entries[i] == ParseEnvLine(lines[i])
  {
    seq(|lines|, i requires 0 <= i < |lines| => ParseEnvLine(lines[i]))
  }

  /** `values` after reading the lines of `.env` */
  function EnvValues(lines: seq<string>): map<string, string>
  {
    Collect(ParseLines(lines))
  }

  /** `not values.get(key)` is false for every required key */
  predicate EnvValid(values: map<string, string>) {
    forall i :: 0 <= i < |RequiredEnvKeys| ==> RequiredEnvKeys[i] in values && values[RequiredEnvKeys[i]] != ""
  }

  /** The `with open(...)` loop of `validate_env`, filling `values` */
  method ReadEnvValues(lines: seq<string>) returns (values: map<string, string>)
    ensures values == EnvValues(lines)
  {
    ghost var entries := ParseLines(lines);
    values := map[];
    for n := 0 to |lines|
      invariant values == Collect(entries[..n])
    {
      var line := lines[n];
      CollectPrefix(entries, n);
      match ParseEnvLine(line) {
        case None =>
        case Some(entry) =>
          values := values[entry.key := entry.value];
      }
    }
    assert entries[..|lines|] == entries;
  }

  /** `validate_env` on the contents of `.env`: true exactly when every
      required key is defined with a non-empty value */
  method ValidateEnv(envFile: string) returns (ok: bool)
    ensures ok == EnvValid(EnvValues(FileLines(envFile)))
  {
    var values := ReadEnvValues(FileLines(envFile));
    for k := 0 to |RequiredEnvKeys|
      invariant forall j :: 0 <= j < k ==> RequiredEnvKeys[j] in values && values[RequiredEnvKeys[j]] != ""
    {
      var key := RequiredEnvKeys[k];
      if !(key in values && values[key] != "") {
        return false;
      }
    }
    return true;
  }

  /** A line whose stripped form is `key=rest`, with no '=' in key, defines
      key as rest stripped */
  lemma ParseParts(line: string, key: string, rest: string)
    requires Strip(line) == key + "=" + rest && '=' !in key
    ensures ParseEnvLine(line) == Some(Entry(key, Strip(rest)))
  {
    var body := key + "=" + rest;
    StripKeeps(line, '=');
    assert body == key + ['='] + rest;
    IndexOfAfter(key, '=', rest);
    assert body[..|key|] == key && body[|key| + 1..] == rest;
  }

  /** The newline that ends a line is stripped with the other whitespace */
  lemma StripLineEnd(body: string)
    requires Trimmed(body)
    ensures Strip(body + "\n") == body
  {
    assert AllSpace("\n");
    StripSuffixSpace(body, "\n");
  }

  /** Text put between two trimmed ends has no whitespace at its ends,
      provided its own ends do not show where a or b is empty */
  lemma TrimmedConcat(a: string, mid: string, b: string)
    requires Trimmed(a) && Trimmed(b)
    requires a == [] ==> mid != [] && !IsSpace(mid[0])
    requires b == [] ==> mid != [] && !IsSpace(mid[|mid| - 1])
    ensures Trimmed(a + mid + b)
  {
    var s := a + mid + b;
    if s != [] {
      assert s[0] == if a == [] then mid[0] else a[0];
      assert s[|s| - 1] == if b == [] then mid[|mid| - 1] else b[|b| - 1];
    }
  }

  /** A line `key=value` parses back to key and value, whatever '=' the
      value holds: only the first '=' splits */
  lemma EnvLineRoundTrip(key: string, value: string)
    requires '=' !in key && Trimmed(key) && Trimmed(value)
    ensures ParseEnvLine(key + "=" + value + "\n") == Some(Entry(key, value))
  {
    TrimmedConcat(key, "=", value);
    StripLineEnd(key + "=" + value);
    ParseParts(key + "=" + value + "\n", key, value);
    StripTrimmed(value);
  }

  /** Spaces around '=' stay in the key: `K = v` defines the key `K `, and
      `K = ` with nothing after it defines `K ` as empty */
  lemma SpacedKeyKeepsSpace(key: string, value: string)
    requires '=' !in key && key != [] && Trimmed(key) && Trimmed(value)
    ensures ParseEnvLine(key + " = " + value + "\n") == Some(Entry(key + " ", value))
  {
    if value == [] {
      assert key + " = " + value + "\n" == key + " = " + "\n";
      SpacedKeyEmptyValue(key);
    } else {
      SpacedKeyValue(key, value);
    }
  }

  /** `K = v` with a non-empty v defines `K ` as v */
  lemma SpacedKeyValue(key: string, value: string)
    requires '=' !in key && key != [] && Trimmed(key) && value != [] && Trimmed(value)
    ensures ParseEnvLine(key + " = " + value + "\n") == Some(Entry(key + " ", value))
  {
    SpacedLineStrips(key, value);
    ParseParts(key + " = " + value + "\n", key + " ", " " + value);
    assert AllSpace(" ");
    StripPrefixSpace(" ", value);
  }

  /** `K = ` with nothing after it defines `K ` as empty */
  lemma SpacedKeyEmptyValue(key: string)
    requires '=' !in key && key != [] && Trimmed(key)
    ensures ParseEnvLine(key + " = " + "\n") == Some(Entry(key + " ", ""))
  {
    SpacedEmptyLineStrips(key);
    ParseParts(key + " = " + "\n", key + " ", "");
    StripTrimmed("");
  }

  /** Stripping `K = v` and its newline keeps the spaces around '=' */
  lemma SpacedLineStrips(key: string, value: string)
    requires key != [] && Trimmed(key) && value != [] && Trimmed(value)
    ensures Strip(key + " = " + value + "\n") == (key + " ") + "=" + (" " + value)
  {
    TrimmedConcat(key, " = ", value);
    StripLineEnd(key + " = " + value);
    assert key + " = " + value == (key + " ") + "=" + (" " + value);
  }

  /** Stripping `K = ` and its newline drops the space after '=' */
  lemma SpacedEmptyLineStrips(key: string)
    requires key != [] && Trimmed(key)
    ensures Strip(key + " = " + "\n") == (key + " ") + "=" + ""
  {
    TrimmedConcat(key, " =", "");
    assert AllSpace(" \n");
    assert key + " = " + "\n" == key + " =" + "" + " \n";
    StripSuffixSpace(key + " =" + "", " \n");
    assert key + " =" + "" == (key + " ") + "=" + "";
  }

  /** The value of a key is the one on the last line that defines it */
  lemma {:induction false} LastDefinitionWins(entries: seq<Option<Entry>>, i: int)
    requires 0 <= i < |entries| && entries[i].Some?
    requires forall j :: i < j < |entries| ==> entries[j].None? || entries[j].value.key != entries[i].value.key
    ensures entries[i].value.key in Collect(entries) && Collect(entries)[entries[i].value.key] == entries[i].value.value
    decreases |entries|
  {
    var init := entries[..|entries| - 1];
    assert entries == init + [entries[|entries| - 1]];
    CollectSnoc(init, entries[|entries| - 1]);
    if i < |entries| - 1 {
      LastDefinitionWins(init, i);
    }
  }

  /** A key is in the map exactly when some line defines it */
  lemma {:induction false} KeysFromEntries(entries: seq<Option<Entry>>, key: string)
    ensures key in Collect(entries) <==>
      exists i :: 0 <= i < |entries| && entries[i].Some? && entries[i].value.key == key
    decreases |entries|
  {
    if entries != [] {
      var init := entries[..|entries| - 1];
      var last := entries[|entries| - 1];
      assert entries == init + [last];
      CollectSnoc(init, last);
      KeysFromEntries(init, key);
      if exists i :: 0 <= i < |init| && init[i].Some? && init[i].value.key == key {
        var i :| 0 <= i < |init| && init[i].Some? && init[i].value.key == key;
        assert entries[i] == init[i];
      }
      if exists i :: 0 <= i < |entries| && entries[i].Some? && entries[i].value.key == key {
        var i :| 0 <= i < |entries| && entries[i].Some? && entries[i].value.key == key;
        if i < |init| {
          assert init[i] == entries[i];
        }
      }
    }
  }

  /** The freshly written template does not pass validation: the required
      THINGSPEAK_API_KEY is present but empty */
  lemma TemplateFailsValidation()
    ensures var values := EnvValues(FileLines(CreateEnvFile(None)));
      "THINGSPEAK_API_KEY" in values && values["THINGSPEAK_API_KEY"] == "" && !EnvValid(values)
  {
    TemplateKeysPlain();
    TemplateFirstKeyEmpty(EnvTemplateKeys);
  }

  /** A key spelled with capital letters and underscores holds no '=' and no
      surrounding whitespace */
  lemma CapitalKey(k: string)
    requires k != [] && forall i :: 0 <= i < |k| ==> 'A' <= k[i] <= 'Z' || k[i] == '_'
    ensures '=' !in k && Trimmed(k)
  {
    assert !IsSpace(k[0]) && !IsSpace(k[|k| - 1]);
  }

  /** The template keys hold no '=' and no surrounding whitespace, and the
      first one is not repeated */
  lemma TemplateKeysPlain()
    ensures forall k <- EnvTemplateKeys :: '=' !in k && Trimmed(k)
    ensures forall j :: 0 < j < |EnvTemplateKeys| ==> EnvTemplateKeys[j] != EnvTemplateKeys[0]
  {
    CapitalKey(EnvTemplateKeys[0]);
    CapitalKey(EnvTemplateKeys[1]);
    CapitalKey(EnvTemplateKeys[2]);
    CapitalKey(EnvTemplateKeys[3]);
    CapitalKey(EnvTemplateKeys[4]);
    assert forall j :: 0 < j < |EnvTemplateKeys| ==> |EnvTemplateKeys[j]| < |EnvTemplateKeys[0]|;
  }

  /** In a template whose first key is not repeated, that key is read with
      the empty value */
  lemma TemplateFirstKeyEmpty(keys: seq<string>)
    requires keys != [] && forall k <- keys :: '=' !in k && Trimmed(k)
    requires forall j :: 0 < j < |keys| ==> keys[j] != keys[0]
    ensures keys[0] in EnvValues(TemplateLines(keys)) && EnvValues(TemplateLines(keys))[keys[0]] == ""
  {
    TemplateParses(keys);
    LastDefinitionWins(ParseLines(TemplateLines(keys)), 0);
  }

  /** Each template line defines its key with the empty value */
  lemma TemplateParses(keys: seq<string>)
    requires forall k <- keys :: '=' !in k && Trimmed(k)
    ensures forall i :: 0 <= i < |keys| ==> ParseLines(TemplateLines(keys))[i] == Some(Entry(keys[i], ""))
  {
    forall i | 0 <= i < |keys|
      ensures ParseLines(TemplateLines(keys))[i] == Some(Entry(keys[i], ""))
    {
      assert keys[i] + "=\n" == keys[i] + "=" + "" + "\n";
      EnvLineRoundTrip(keys[i], "");
    }
  }

  /** `install_requirements`: the requirements file for the operating
      system `platform.system()` names, or None where the script exits */
  function InstallRequirements(system: string): (reqFile: Option<string>)
    ensures reqFile.Some? <==> system == "Linux" || system == "Windows"
    ensures system == "Linux" ==> reqFile == Some("requirements-pi.txt")
    ensures system == "Windows" ==> reqFile == Some("requirements-dev.txt")
  {
    if system == "Linux" then Some("requirements-pi.txt")
    else if system == "Windows" then Some("requirements-dev.txt")
    else None
  }
}
