/**
 * The client's configuration file: `key=value` lines folded into a
 * dictionary, then the four settings looked up, checked and adjusted by the
 * `INDEX` of the running instance. Reading the file, reading the environment
 * and creating directories are outside the model: the file text and the
 * `INDEX` string are parameters.
 */
module ConfigTypes {
  import opened Numeric
  import opened Wrappers

  const LISTEN_PORT: string := "listen_port"
  const LOG_PATH: string := "log_path"
  const DOWNLOAD_PATH: string := "download_path"
  const PERSIST_PIECES: string := "persist_pieces"
  const SEPARATOR: char := '='

  /** The keys `create_config` requires, in the order it looks them up. */
  const REQUIRED_KEYS: seq<string> := [LISTEN_PORT, LOG_PATH, DOWNLOAD_PATH, PERSIST_PIECES]

  // ---------------------------------------------------------------------
  // Lines of the file
  // ---------------------------------------------------------------------

  /** Position of the first `c` in `s`, or `|s|` when there is none. */
  function IndexOf(s: string, c: char): (i: nat)
    ensures i <= |s|
    ensures i < |s| ==> s[i] == c
    ensures forall j :: 0 <= j < i ==> s[j] != c
    ensures i == |s| <==> c !in s
  {
    if s == [] then 0
    else if s[0] == c then 0
    else 1 + IndexOf(s[1..], c)
  }

  /**
   * `str::lines`: the text cut at each `'\n'`, with one `'\r'` before the
   * `'\n'` dropped; a final line ending adds no empty line.
   */
  function Lines(text: string): (lines: seq<string>)
    ensures forall i :: 0 <= i < |lines| ==> '\n' !in lines[i]
    decreases |text|
  {
    if text == [] then []
    else
      var i := IndexOf(text, '\n');
      if i == |text| then [text]
      else
        var line := if i > 0 && text[i - 1] == '\r' then text[..i - 1] else text[..i];
        assert forall j :: 0 <= j < |line| ==> line[j] == text[j];
        [line] + Lines(text[i + 1..])
  }

  /** Every line of a text that ends each line with `'\n'` is returned unchanged. */
  lemma {:induction false} LinesOfJoined(lines: seq<string>)
    requires forall i :: 0 <= i < |lines| ==> '\n' !in lines[i]
    requires forall i :: 0 <= i < |lines| ==> lines[i] == [] || lines[i][|lines[i]| - 1] != '\r'
    ensures Lines(Joined(lines)) == lines
    decreases |lines|
  {
    if lines != [] {
      LinesStep(lines[0], Joined(lines[1..]));
      LinesOfJoined(lines[1..]);
      assert lines == [lines[0]] + lines[1..];
    }
  }

  /** A line ended by `'\n'` is cut off the front of the text whole. */
  lemma LinesStep(line: string, rest: string)
    requires '\n' !in line
    requires line == [] || line[|line| - 1] != '\r'
    ensures Lines(line + ['\n'] + rest) == [line] + Lines(rest)
  {
    var text := line + ['\n'] + rest;
    IndexOfAfter(line, '\n', rest);
    assert text[..|line|] == line;
    assert text[|line| + 1..] == rest;
  }

  /** `c` found right after a prefix that does not contain it. */
  lemma IndexOfAfter(prefix: string, c: char, suffix: string)
    requires c !in prefix
    ensures IndexOf(prefix + [c] + suffix, c) == |prefix|
  {
    var s := prefix + [c] + suffix;
    assert s[|prefix|] == c;
    assert forall j :: 0 <= j < |prefix| ==> s[j] == prefix[j];
  }

  /** Lines each followed by `'\n'`, the way a file is usually written. */
  function Joined(lines: seq<string>): string
  {
    if lines == [] then [] else lines[0] + ['\n'] + Joined(lines[1..])
  }

  // ---------------------------------------------------------------------
  // The dictionary
  // ---------------------------------------------------------------------

  /**
   * `line.split('=')` taken twice: the text before the first `'='` and the
   * text between the first and the second (or the end), provided there is a
   * first `'='` at all.
   */
  function SplitLine(line: string): (r: Option<(string, string)>)
    ensures r.Some? <==> SEPARATOR in line
    ensures r.Some? ==> SEPARATOR !in r.value.0 && SEPARATOR !in r.value.1
    ensures r.Some? ==> |r.value.0| < |line| && line[..|r.value.0|] == r.value.0 && line[|r.value.0|] == SEPARATOR
    ensures r.Some? ==>
      var start := |r.value.0| + 1;
      var end := start + |r.value.1|;
      end <= |line| && line[start..end] == r.value.1 && (end == |line| || line[end] == SEPARATOR)
  {
    var i := IndexOf(line, SEPARATOR);
    if i == |line| then None
    else
      var rest := line[i + 1..];
      var j := IndexOf(rest, SEPARATOR);
      assert line[i + 1..i + 1 + j] == rest[..j];
      Some((line[..i], rest[..j]))
  }

  /** A line written as `key=value`, or with more `=` parts after the value, yields that key and value. */
  lemma SplitLineOf(key: string, value: string, more: string)
    requires SEPARATOR !in key && SEPARATOR !in value
    requires more == [] || more[0] == SEPARATOR
    ensures SplitLine(key + [SEPARATOR] + value + more) == Some((key, value))
  {
    var line := key + [SEPARATOR] + value + more;
    assert line == key + [SEPARATOR] + (value + more);
    IndexOfAfter(key, SEPARATOR, value + more);
    assert line[..|key|] == key;
    var rest := line[|key| + 1..];
    assert rest == value + more;
    if more == [] {
      assert rest == value;
      assert IndexOf(rest, SEPARATOR) == |value|;
      assert rest[..|value|] == value;
    } else {
      assert rest == value + [SEPARATOR] + more[1..];
      IndexOfAfter(value, SEPARATOR, more[1..]);
    }
  }

  /** `create_config_dict`: each line with an `=` inserts its key and value, so a later line wins. */
  function ConfigDict(lines: seq<string>): map<string, string>
    decreases |lines|
  {
    if lines == [] then map[]
    else
      var dict := ConfigDict(lines[..|lines| - 1]);
      match SplitLine(lines[|lines| - 1])
      case None => dict
      case Some((key, value)) => dict[key := value]
  }

  /** `create_config_dict`, one line at a time. */
  method CreateConfigDict(lines: seq<string>) returns (dict: map<string, string>)
    ensures dict == ConfigDict(lines)
  {
    dict := map[];
    for i := 0 to |lines|
      invariant dict == ConfigDict(lines[..i])
    {
      assert lines[..i + 1][..i] == lines[..i];
      var split := SplitLine(lines[i]);
      if split.Some? {
        var (key, value) := split.value;
        dict := dict[key := value];
      }
    }
    assert lines[..|lines|] == lines;
  }

  /** The line has an `=` and `key` before the first one. */
  predicate SetsKey(line: string, key: string)
  {
    SplitLine(line).Some? && SplitLine(line).value.0 == key
  }

  /** Line `i` is the last one that sets `key`. */
  predicate LastSetting(lines: seq<string>, i: int, key: string)
  {
    0 <= i < |lines| && SetsKey(lines[i], key)
    && forall j :: i < j < |lines| ==> !SetsKey(lines[j], key)
  }

  /** The newest line decides whether it adds `key`; otherwise the earlier lines do. */
  lemma ConfigDictLast(lines: seq<string>, key: string)
    requires lines != []
    ensures key in ConfigDict(lines) <==>
      SetsKey(lines[|lines| - 1], key) || key in ConfigDict(lines[..|lines| - 1])
  {
  }

  /** A line that sets `key` puts it in the dictionary, whatever follows. */
  lemma {:induction false} KeyFromLine(lines: seq<string>, i: int, key: string)
    requires 0 <= i < |lines| && SetsKey(lines[i], key)
    ensures key in ConfigDict(lines)
    decreases |lines|
  {
    var n := |lines| - 1;
    ConfigDictLast(lines, key);
    if i < n {
      assert lines[..n][i] == lines[i];
      KeyFromLine(lines[..n], i, key);
    }
  }

  /** Every key in the dictionary comes from a line that sets it. */
  lemma {:induction false} LineOfKey(lines: seq<string>, key: string)
    requires key in ConfigDict(lines)
    ensures exists i :: 0 <= i < |lines| && SetsKey(lines[i], key)
    decreases |lines|
  {
    var n := |lines| - 1;
    ConfigDictLast(lines, key);
    if !SetsKey(lines[n], key) {
      LineOfKey(lines[..n], key);
      var i :| 0 <= i < n && SetsKey(lines[..n][i], key);
      assert lines[i] == lines[..n][i];
    }
  }

  /** A key is in the dictionary exactly when some line sets it. */
  lemma ConfigDictKeys(lines: seq<string>, key: string)
    ensures key in ConfigDict(lines) <==> exists i :: 0 <= i < |lines| && SetsKey(lines[i], key)
  {
    if key in ConfigDict(lines) {
      LineOfKey(lines, key);
    }
    if i :| 0 <= i < |lines| && SetsKey(lines[i], key) {
      KeyFromLine(lines, i, key);
    }
  }

  /** The value stored for a key is the one on the last line that sets it. */
  lemma {:induction false} ConfigDictLastWins(lines: seq<string>, i: int, key: string)
    requires LastSetting(lines, i, key)
    ensures key in ConfigDict(lines)
    ensures ConfigDict(lines)[key] == SplitLine(lines[i]).value.1
    decreases |lines|
  {
    var n := |lines| - 1;
    if i < n {
      var init := lines[..n];
      assert init[i] == lines[i];
      assert LastSetting(init, i, key) by {
        forall j | i < j < |init|
          ensures !SetsKey(init[j], key)
        {
          assert init[j] == lines[j];
        }
      }
      ConfigDictLastWins(init, i, key);
    }
  }

  /** A line without `=` leaves the dictionary as it was. */
  lemma LineWithoutSeparator(lines: seq<string>, line: string)
    requires SEPARATOR !in line
    ensures ConfigDict(lines + [line]) == ConfigDict(lines)
  {
    assert (lines + [line])[..|lines|] == lines;
  }

  // ---------------------------------------------------------------------
  // Parsing a port number
  // ---------------------------------------------------------------------

  /** Why `str::parse::<u16>` fails. */
  datatype ParseError = Empty | InvalidDigit | PosOverflow

  predicate IsDigitChar(c: char)
  {
    '0' <= c <= '9'
  }

  function DigitOf(c: char): nat
    requires IsDigitChar(c)
  {
    (c as int) - ('0' as int)
  }

  /**
   * The digit loop of `u16::from_str`: multiply by ten and add the next
   * digit, with a checked operation at each step; the first failure wins.
   */
  function ParseDigits(s: string, acc: u16): (r: Result<u16, ParseError>)
    decreases |s|
  {
    if s == [] then Ok(acc)
    else if !IsDigitChar(s[0]) then Err(InvalidDigit)
    else if acc * 10 >= U16_LIMIT then Err(PosOverflow)
    else if acc * 10 + DigitOf(s[0]) >= U16_LIMIT then Err(PosOverflow)
    else ParseDigits(s[1..], acc * 10 + DigitOf(s[0]))
  }

  /** `str::parse::<u16>`: an optional leading `+`, then at least one decimal digit. */
  function ParseU16(s: string): (r: Result<u16, ParseError>)
  {
    if s == [] then Err(Empty)
    else if s == "+" then Err(InvalidDigit)
    else if s[0] == '+' then ParseDigits(s[1..], 0)
    else ParseDigits(s, 0)
  }

  predicate AllDigitChars(s: string)
  {
    forall i :: 0 <= i < |s| ==> IsDigitChar(s[i])
  }

  /** The number a string of decimal digits denotes, most significant first. */
  function DecimalValue(s: string): nat
    requires AllDigitChars(s)
  {
    if s == [] then 0 else DecimalValue(s[..|s| - 1]) * 10 + DigitOf(s[|s| - 1])
  }

  /** The text after an optional `+`. */
  function Unsigned(s: string): string
  {
    if s != [] && s[0] == '+' then s[1..] else s
  }

  /** Text that `parse::<u16>` accepts: an optional `+`, one or more digits, a value below 2^16. */
  predicate U16Text(s: string)
  {
    var digits := Unsigned(s);
    digits != [] && AllDigitChars(digits) && DecimalValue(digits) < U16_LIMIT
  }

  lemma {:induction false} DecimalValueCons(c: char, s: string)
    requires IsDigitChar(c) && AllDigitChars(s)
    ensures AllDigitChars([c] + s)
    ensures DecimalValue([c] + s) == DigitOf(c) * Pow10(|s|) + DecimalValue(s)
    decreases |s|
  {
    var t := [c] + s;
    if s != [] {
      var n := |s| - 1;
      assert t[..|t| - 1] == [c] + s[..n];
      assert t[|t| - 1] == s[n];
      DecimalValueCons(c, s[..n]);
      ScaleByTen(DigitOf(c), Pow10(n), DecimalValue(s[..n]));
    }
  }

  lemma ScaleByTen(h: nat, p: nat, v: nat)
    ensures (h * p + v) * 10 == h * (10 * p) + v * 10
  {
  }

  lemma Regroup(acc: nat, d: nat, p: nat, v: nat)
    ensures acc * (10 * p) + (d * p + v) == (acc * 10 + d) * p + v
  {
  }

  lemma AtLeastWhenScaled(x: nat, p: nat)
    requires p >= 1
    ensures x * p >= x
  {
  }

  /**
   * On digits, the loop started at `acc` yields `acc * 10^|s| + value` when
   * that fits in 16 bits, and an overflow when it does not.
   */
  lemma {:induction false} ParseDigitsValue(s: string, acc: u16)
    requires AllDigitChars(s)
    ensures acc * Pow10(|s|) + DecimalValue(s) < U16_LIMIT
      ==> ParseDigits(s, acc) == Ok(acc * Pow10(|s|) + DecimalValue(s))
    ensures acc * Pow10(|s|) + DecimalValue(s) >= U16_LIMIT
      ==> ParseDigits(s, acc) == Err(PosOverflow)
    decreases |s|
  {
    if s != [] {
      var d := DigitOf(s[0]);
      var tl := s[1..];
      assert s == [s[0]] + tl;
      DecimalValueCons(s[0], tl);
      var p := Pow10(|tl|);
      var v := DecimalValue(tl);
      assert Pow10(|s|) == 10 * p;
      Regroup(acc, d, p, v);
      var next := acc * 10 + d;
      AtLeastWhenScaled(next, p);
      if next < U16_LIMIT {
        ParseDigitsValue(tl, next);
      }
    }
  }

  /** The loop succeeds only on digits. */
  lemma {:induction false} ParseDigitsOnlyDigits(s: string, acc: u16)
    ensures ParseDigits(s, acc).Ok? ==> AllDigitChars(s)
    decreases |s|
  {
    if s != [] && IsDigitChar(s[0]) && acc * 10 + DigitOf(s[0]) < U16_LIMIT {
      ParseDigitsOnlyDigits(s[1..], acc * 10 + DigitOf(s[0]));
      assert s == [s[0]] + s[1..];
    }
  }

  /** `parse::<u16>` succeeds exactly on `U16Text`, with the number the digits denote. */
  lemma ParseU16Correct(s: string)
    ensures ParseU16(s).Ok? <==> U16Text(s)
    ensures ParseU16(s).Ok? ==> ParseU16(s).value == DecimalValue(Unsigned(s))
  {
    var digits := Unsigned(s);
    ParseDigitsOnlyDigits(digits, 0);
    if AllDigitChars(digits) {
      ParseDigitsValue(digits, 0);
    }
    if s == "+" {
      assert digits == [];
    }
  }

  /** The decimal text of a 16-bit number reads back as that number. */
  lemma ParseU16OfDecimal(n: u16)
    ensures ParseU16(DecimalText(n)) == Ok(n)
  {
    var text := DecimalText(n);
    DigitsCorrect(n);
    DecimalTextValue(Digits(n));
    ParseU16Correct(text);
  }

  /** `n.to_string()` for a non-negative `n`, as characters. */
  function DecimalText(n: nat): (text: string)
    ensures |text| >= 1 && text[0] != '+' && AllDigitChars(text)
  {
    DigitsCorrect(n);
    DigitChars(Digits(n))
  }

  function DigitChars(ds: seq<nat>): (text: string)
    requires AllDigits(ds)
    ensures |text| == |ds| && AllDigitChars(text)
    ensures forall i :: 0 <= i < |ds| ==> DigitOf(text[i]) == ds[i]
  {
    seq(|ds|, i requires 0 <= i < |ds| => ('0' as int + ds[i]) as char)
  }

  lemma {:induction false} DecimalTextValue(ds: seq<nat>)
    requires AllDigits(ds)
    ensures DecimalValue(DigitChars(ds)) == DigitsValue(ds)
    decreases |ds|
  {
    if ds != [] {
      var n := |ds| - 1;
      assert DigitChars(ds)[..n] == DigitChars(ds[..n]);
      DecimalTextValue(ds[..n]);
    }
  }

  // ---------------------------------------------------------------------
  // The configuration
  // ---------------------------------------------------------------------

  datatype Config = Config(listenPort: u16, logPath: string, downloadPath: string, persistPieces: bool)

  datatype ConfigError =
    | MissingKey(key: string)
    | InvalidPort(reason: ParseError)
      /** `listen_port + index` beyond 16 bits: a panic in a debug build. */
    | PortOverflow

  /**
   * `create_config` without the directory creation and existence checks:
   * the port, offset by `INDEX` read as a `u16` (0 when it is not one), and
   * the two paths with the raw `INDEX` appended.
   */
  function CreateConfig(dict: map<string, string>, index: string): (r: Result<Config, ConfigError>)
  {
    if LISTEN_PORT !in dict then Err(MissingKey(LISTEN_PORT))
    else match ParseU16(dict[LISTEN_PORT])
      case Err(e) => Err(InvalidPort(e))
      case Ok(port) =>
        var offset := match ParseU16(index) case Ok(n) => n case Err(_) => 0;
        if port + offset >= U16_LIMIT then Err(PortOverflow)
        else if LOG_PATH !in dict then Err(MissingKey(LOG_PATH))
        else if DOWNLOAD_PATH !in dict then Err(MissingKey(DOWNLOAD_PATH))
        else if PERSIST_PIECES !in dict then Err(MissingKey(PERSIST_PIECES))
        else Ok(Config(port + offset, dict[LOG_PATH] + index, dict[DOWNLOAD_PATH] + index,
                       dict[PERSIST_PIECES] == "true"))
  }

  /** The `INDEX` offset: its value when it is a `u16`, otherwise 0. */
  function IndexOffset(index: string): (n: u16)
    ensures U16Text(index) ==> n == DecimalValue(Unsigned(index))
    ensures !U16Text(index) ==> n == 0
  {
    ParseU16Correct(index);
    match ParseU16(index) case Ok(n) => n case Err(_) => 0
  }

  /**
   * A configuration comes back exactly when every key is present, the port
   * parses and the offset port fits in 16 bits; its fields are the port plus
   * the offset, the paths with `INDEX` appended, and `persist_pieces` equal to
   * `"true"`.
   */
  lemma CreateConfigOk(dict: map<string, string>, index: string)
    ensures CreateConfig(dict, index).Ok? <==>
      (forall k :: k in REQUIRED_KEYS ==> k in dict)
      && U16Text(dict[LISTEN_PORT])
      && DecimalValue(Unsigned(dict[LISTEN_PORT])) + IndexOffset(index) < U16_LIMIT
    ensures CreateConfig(dict, index).Ok? ==>
      var c := CreateConfig(dict, index).value;
      c.listenPort == DecimalValue(Unsigned(dict[LISTEN_PORT])) + IndexOffset(index)
      && c.logPath == dict[LOG_PATH] + index
      && c.downloadPath == dict[DOWNLOAD_PATH] + index
      && (c.persistPieces <==> dict[PERSIST_PIECES] == "true")
  {
    if LISTEN_PORT in dict {
      ParseU16Correct(dict[LISTEN_PORT]);
    }
    ParseU16Correct(index);
  }

  /**
   * A missing key is reported only when every key looked up before it is
   * present, so the error names the first absent key of `REQUIRED_KEYS`.
   */
  lemma CreateConfigMissingKey(dict: map<string, string>, index: string)
    requires CreateConfig(dict, index).Err? && CreateConfig(dict, index).error.MissingKey?
    ensures exists i ::
              && 0 <= i < |REQUIRED_KEYS|
              && REQUIRED_KEYS[i] == CreateConfig(dict, index).error.key
              && REQUIRED_KEYS[i] !in dict
              && (forall j :: 0 <= j < i ==> REQUIRED_KEYS[j] in dict)
  {
    var key := CreateConfig(dict, index).error.key;
    if key == LISTEN_PORT {
      assert REQUIRED_KEYS[0] == key;
    } else if key == LOG_PATH {
      assert REQUIRED_KEYS[1] == key;
    } else if key == DOWNLOAD_PATH {
      assert REQUIRED_KEYS[2] == key;
    } else {
      assert REQUIRED_KEYS[3] == key;
    }
  }

  /**
   * The first absent key of `REQUIRED_KEYS` is reported, provided the port
   * check that comes before every key but the first has passed.
   */
  lemma CreateConfigReportsMissing(dict: map<string, string>, index: string, i: nat)
    requires i < |REQUIRED_KEYS| && REQUIRED_KEYS[i] !in dict
    requires forall j :: 0 <= j < i ==> REQUIRED_KEYS[j] in dict
    requires i > 0 ==> LISTEN_PORT in dict && U16Text(dict[LISTEN_PORT])
                       && DecimalValue(Unsigned(dict[LISTEN_PORT])) + IndexOffset(index) < U16_LIMIT
    ensures CreateConfig(dict, index) == Err(MissingKey(REQUIRED_KEYS[i]))
  {
    assert REQUIRED_KEYS[0] == LISTEN_PORT && REQUIRED_KEYS[1] == LOG_PATH;
    assert REQUIRED_KEYS[2] == DOWNLOAD_PATH && REQUIRED_KEYS[3] == PERSIST_PIECES;
    if i > 0 {
      ParseU16Correct(dict[LISTEN_PORT]);
      ParseU16Correct(index);
    }
  }

  /** With every key but `download_path` present and a valid port, `download_path` is the key reported. */
  lemma MissingDownloadPathExample()
    ensures CreateConfig(map[LISTEN_PORT := "4424", LOG_PATH := "logs/", PERSIST_PIECES := "true"], "")
         == Err(MissingKey(DOWNLOAD_PATH))
  {
    var dict := map[LISTEN_PORT := "4424", LOG_PATH := "logs/", PERSIST_PIECES := "true"];
    assert REQUIRED_KEYS[0] == LISTEN_PORT && REQUIRED_KEYS[1] == LOG_PATH && REQUIRED_KEYS[2] == DOWNLOAD_PATH;
    assert Unsigned("4424") == "4424";
    assert "4424"[..3] == "442" && "442"[..2] == "44" && "44"[..1] == "4" && "4"[..0] == "";
    assert DecimalValue("4424") == 4424;
    assert !U16Text("");
    CreateConfigReportsMissing(dict, "", 2);
  }

  /** A `listen_port` that is not a 16-bit number is an error, never a default. */
  lemma CreateConfigInvalidPort(dict: map<string, string>, index: string)
    requires LISTEN_PORT in dict && !U16Text(dict[LISTEN_PORT])
    ensures CreateConfig(dict, index).Err? && CreateConfig(dict, index).error.InvalidPort?
  {
    ParseU16Correct(dict[LISTEN_PORT]);
  }

  /**
   * `Config::from_path` once the file has been read: its lines, the dictionary,
   * the configuration. Whatever the text, a configuration results exactly when
   * some line sets each required key and the last `listen_port` line is a 16-bit
   * number that still fits once `INDEX` is added; each field then comes from
   * the last line that sets its key.
   */
  function ConfigFromText(text: string, index: string): (r: Result<Config, ConfigError>)
    ensures r.Ok? <==> KeysSet(Lines(text)) && PortFits(Lines(text), index)
    ensures r.Ok? ==> FromLastLines(Lines(text), index, r.value)
  {
    ConfigOfLines(Lines(text), index);
    CreateConfig(ConfigDict(Lines(text)), index)
  }

  /** A key set by some line has a last line that sets it. */
  lemma {:induction false} LastSettingExists(lines: seq<string>, i: int, key: string)
    requires 0 <= i < |lines| && SetsKey(lines[i], key)
    ensures exists l :: LastSetting(lines, l, key)
    decreases |lines| - i
  {
    if exists j :: i < j < |lines| && SetsKey(lines[j], key) {
      var j :| i < j < |lines| && SetsKey(lines[j], key);
      LastSettingExists(lines, j, key);
    } else {
      assert LastSetting(lines, i, key);
    }
  }

  /** A key is in the dictionary exactly when a last line sets it, and its value comes from that line. */
  lemma DictOfLastSetting(lines: seq<string>, key: string)
    ensures key in ConfigDict(lines) <==> exists l :: LastSetting(lines, l, key)
    ensures forall l :: LastSetting(lines, l, key) ==> ConfigDict(lines)[key] == SplitLine(lines[l]).value.1
  {
    ConfigDictKeys(lines, key);
    if i :| 0 <= i < |lines| && SetsKey(lines[i], key) {
      LastSettingExists(lines, i, key);
    }
    forall l | LastSetting(lines, l, key)
      ensures ConfigDict(lines)[key] == SplitLine(lines[l]).value.1
    {
      ConfigDictLastWins(lines, l, key);
    }
  }

  /** A line sets each required key. */
  ghost predicate KeysSet(lines: seq<string>)
  {
    forall k :: k in REQUIRED_KEYS ==> exists l :: LastSetting(lines, l, k)
  }

  /** The last `listen_port` line gives a 16-bit number that still fits once `INDEX` is added. */
  ghost predicate PortFits(lines: seq<string>, index: string)
  {
    forall l :: LastSetting(lines, l, LISTEN_PORT) ==>
      var port := SplitLine(lines[l]).value.1;
      U16Text(port) && DecimalValue(Unsigned(port)) + IndexOffset(index) < U16_LIMIT
  }

  /** Each field of `c` comes from the last line that sets its key. */
  ghost predicate FromLastLines(lines: seq<string>, index: string, c: Config)
  {
    && (forall l :: LastSetting(lines, l, LISTEN_PORT) ==>
          U16Text(SplitLine(lines[l]).value.1)
          && c.listenPort == DecimalValue(Unsigned(SplitLine(lines[l]).value.1)) + IndexOffset(index))
    && (forall l :: LastSetting(lines, l, LOG_PATH) ==> c.logPath == SplitLine(lines[l]).value.1 + index)
    && (forall l :: LastSetting(lines, l, DOWNLOAD_PATH) ==> c.downloadPath == SplitLine(lines[l]).value.1 + index)
    && (forall l :: LastSetting(lines, l, PERSIST_PIECES) ==>
          (c.persistPieces <==> SplitLine(lines[l]).value.1 == "true"))
  }

  lemma KeysSetOfDict(lines: seq<string>)
    ensures KeysSet(lines) <==> forall k :: k in REQUIRED_KEYS ==> k in ConfigDict(lines)
  {
    forall k | k in REQUIRED_KEYS
      ensures k in ConfigDict(lines) <==> exists l :: LastSetting(lines, l, k)
    {
      DictOfLastSetting(lines, k);
    }
  }

  lemma PortFitsOfDict(lines: seq<string>, index: string)
    requires LISTEN_PORT in ConfigDict(lines)
    ensures var port := ConfigDict(lines)[LISTEN_PORT];
      PortFits(lines, index) <==> U16Text(port) && DecimalValue(Unsigned(port)) + IndexOffset(index) < U16_LIMIT
  {
    DictOfLastSetting(lines, LISTEN_PORT);
  }

  lemma FromLastLinesOfDict(lines: seq<string>, index: string, c: Config)
    requires forall k :: k in REQUIRED_KEYS ==> k in ConfigDict(lines)
    requires var dict := ConfigDict(lines);
      && U16Text(dict[LISTEN_PORT])
      && c.listenPort == DecimalValue(Unsigned(dict[LISTEN_PORT])) + IndexOffset(index)
      && c.logPath == dict[LOG_PATH] + index
      && c.downloadPath == dict[DOWNLOAD_PATH] + index
      && (c.persistPieces <==> dict[PERSIST_PIECES] == "true")
    ensures FromLastLines(lines, index, c)
  {
    DictOfLastSetting(lines, LISTEN_PORT);
    DictOfLastSetting(lines, LOG_PATH);
    DictOfLastSetting(lines, DOWNLOAD_PATH);
    DictOfLastSetting(lines, PERSIST_PIECES);
  }

  /**
   * `create_config` over the dictionary of any lines: a configuration results
   * exactly when a line sets each required key and the last `listen_port` line
   * gives a 16-bit number that still fits once `INDEX` is added. Each field
   * then comes from the last line that sets its key.
   */
  lemma ConfigOfLines(lines: seq<string>, index: string)
    ensures CreateConfig(ConfigDict(lines), index).Ok? <==> KeysSet(lines) && PortFits(lines, index)
    ensures CreateConfig(ConfigDict(lines), index).Ok? ==>
      FromLastLines(lines, index, CreateConfig(ConfigDict(lines), index).value)
  {
    var dict := ConfigDict(lines);
    var r := CreateConfig(dict, index);
    CreateConfigOk(dict, index);
    KeysSetOfDict(lines);
    if LISTEN_PORT in dict {
      PortFitsOfDict(lines, index);
    } else {
      assert !KeysSet(lines) by {
        assert LISTEN_PORT in REQUIRED_KEYS;
      }
    }
    if r.Ok? {
      FromLastLinesOfDict(lines, index, r.value);
    }
  }

  /** A file written as whole lines is read back as those lines, so the statement above holds of them. */
  lemma ConfigFromLines(lines: seq<string>, index: string)
    requires forall i :: 0 <= i < |lines| ==> '\n' !in lines[i]
    requires forall i :: 0 <= i < |lines| ==> lines[i] == [] || lines[i][|lines[i]| - 1] != '\r'
    ensures ConfigFromText(Joined(lines), index).Ok? <==> KeysSet(lines) && PortFits(lines, index)
    ensures ConfigFromText(Joined(lines), index).Ok? ==>
      FromLastLines(lines, index, ConfigFromText(Joined(lines), index).value)
  {
    LinesOfJoined(lines);
  }
}
