/** Levels of named loggers, after pobl/common/flogging/loggerlevels.go, levels.go and core.go. */
module LoggerLevels {
  import opened Wrappers
  import opened Paths

  type Level = int

  const PAYLOAD: Level := -2
  const DEBUG: Level := -1
  const INFO: Level := 0
  const WARN: Level := 1
  const ERROR: Level := 2
  const DPANIC: Level := 3
  const PANIC: Level := 4
  const FATAL: Level := 5

  function ParseLevel(name: string): Option<Level> {
    if name == "PAYLOAD" || name == "payload" then Some(PAYLOAD)
    else if name == "DEBUG" || name == "debug" then Some(DEBUG)
    else if name == "INFO" || name == "info" || name == "NOTICE" || name == "notice" then Some(INFO)
    else if name == "WARNING" || name == "WARN" || name == "warning" || name == "warn" then Some(WARN)
    else if name == "ERROR" || name == "error" || name == "CRITICAL" || name == "critical" then Some(ERROR)
    else if name == "DPANIC" || name == "dpanic" then Some(DPANIC)
    else if name == "PANIC" || name == "panic" then Some(PANIC)
    else if name == "FATAL" || name == "fatal" then Some(FATAL)
    else None
  }

  predicate IsValidLevel(name: string) {
    ParseLevel(name).Some?
  }

  function NameToLevel(name: string): Level {
    if IsValidLevel(name) then ParseLevel(name).value else INFO
  }

  /** A level admits the entries at or above it. */
  predicate Admits(level: Level, entry: Level) {
    entry >= level
  }

  // ---------- The effective level ----------

  /** The prefix of length n ends just before a period. */
  predicate IsCut(full: string, n: nat) {
    0 < n < |full| && full[n] == '.'
  }

  /** The level of the longest prefix, at most n long, that is cut at a period and has an entry. */
  function Search(specs: map<string, Level>, defaultLevel: Level, full: string, n: nat): Level
    requires n < |full|
  {
    if IsCut(full, n) && full[..n] in specs then specs[full[..n]]
    else if n == 0 then defaultLevel
    else Search(specs, defaultLevel, full, n - 1)
  }

  /** The entry for exactly this logger, written with a trailing period, comes first. */
  function Effective(specs: map<string, Level>, defaultLevel: Level, name: string): Level {
    var full := name + ".";
    if full in specs then specs[full] else Search(specs, defaultLevel, full, |name|)
  }

  /** No longer prefix, at most n long, has an entry. */
  ghost predicate NoneLonger(specs: map<string, Level>, full: string, k: nat, n: nat) {
    forall j: nat :: k < j <= n && IsCut(full, j) ==> full[..j] !in specs
  }

  lemma {:induction false} SearchMeaning(specs: map<string, Level>, defaultLevel: Level, full: string, n: nat)
    returns (k: nat)
    requires n < |full|
    ensures k <= n && NoneLonger(specs, full, k, n)
    ensures if k == 0 then Search(specs, defaultLevel, full, n) == defaultLevel
            else IsCut(full, k) && full[..k] in specs && Search(specs, defaultLevel, full, n) == specs[full[..k]]
  {
    if (IsCut(full, n) && full[..n] in specs) || n == 0 {
      k := n;
    } else {
      k := SearchMeaning(specs, defaultLevel, full, n - 1);
    }
  }

  /**
   * The effective level is that of the entry for exactly this logger; failing that, of the longest of its dotted
   * ancestors, itself included, that has an entry; failing that, the default.
   */
  lemma EffectiveMeaning(specs: map<string, Level>, defaultLevel: Level, name: string) returns (k: nat)
    ensures name + "." in specs ==> Effective(specs, defaultLevel, name) == specs[name + "."]
    ensures k <= |name| && NoneLonger(specs, name + ".", k, |name|)
    ensures k > 0 ==> (k == |name| || name[k] == '.') && name[..k] in specs
    ensures name + "." !in specs ==>
              Effective(specs, defaultLevel, name) == if k == 0 then defaultLevel else specs[name[..k]]
  {
    k := SearchMeaning(specs, defaultLevel, name + ".", |name|);
    assert (name + ".")[..k] == name[..k];
  }

  lemma {:induction false} SearchBound(specs: map<string, Level>, defaultLevel: Level, full: string, n: nat, low: Level)
    requires n < |full| && low <= defaultLevel && forall s :: s in specs ==> low <= specs[s]
    ensures low <= Search(specs, defaultLevel, full, n)
  {
    if !(IsCut(full, n) && full[..n] in specs) && n > 0 {
      SearchBound(specs, defaultLevel, full, n - 1, low);
    }
  }

  /** A level no greater than the default and every entry is no greater than any effective level. */
  lemma EffectiveBound(specs: map<string, Level>, defaultLevel: Level, name: string, low: Level)
    requires low <= defaultLevel && forall s :: s in specs ==> low <= specs[s]
    ensures low <= Effective(specs, defaultLevel, name)
  {
    SearchBound(specs, defaultLevel, name + ".", |name|, low);
  }

  // ---------- Specifications ----------

  predicate NameChar(c: char) {
    'a' <= c <= 'z' || 'A' <= c <= 'Z' || '0' <= c <= '9' || c in "_#:-"
  }

  /** Non-empty parts of allowed characters, joined by periods. */
  predicate IsValidLoggerName(name: string) {
    var parts := Split(name, '.');
    forall j :: 0 <= j < |parts| ==> parts[j] != "" && forall i :: 0 <= i < |parts[j]| ==> NameChar(parts[j][i])
  }

  function TrimPeriod(logger: string): string {
    if logger != "" && logger[|logger| - 1] == '.' then logger[..|logger| - 1] else logger
  }

  predicate Bare(field: string) {
    |Split(field, '=')| == 1
  }

  /** The loggers a segment names. */
  function Loggers(field: string): seq<string> {
    var parts := Split(field, '=');
    if |parts| == 2 then Split(parts[0], ',') else []
  }

  function FieldLevel(field: string): Level {
    var parts := Split(field, '=');
    if |parts| == 1 then NameToLevel(field) else NameToLevel(parts[1])
  }

  predicate ValidLoggers(loggers: seq<string>) {
    forall j :: 0 <= j < |loggers| ==> IsValidLoggerName(TrimPeriod(loggers[j]))
  }

  predicate ValidField(field: string) {
    var parts := Split(field, '=');
    if |parts| == 1 then field == "" || IsValidLevel(field)
    else |parts| == 2 && parts[0] != "" && IsValidLevel(parts[1]) && ValidLoggers(Split(parts[0], ','))
  }

  predicate ValidFields(fields: seq<string>) {
    forall j :: 0 <= j < |fields| ==> ValidField(fields[j])
  }

  /** The last segment without loggers gives the default. */
  function DefaultFor(fields: seq<string>): Level {
    if fields == [] then INFO
    else if Bare(fields[|fields| - 1]) then FieldLevel(fields[|fields| - 1])
    else DefaultFor(fields[..|fields| - 1])
  }

  /** The last segment that names a logger gives its level. */
  function LevelFor(fields: seq<string>, logger: string): Option<Level> {
    if fields == [] then None
    else if logger in Loggers(fields[|fields| - 1]) then Some(FieldLevel(fields[|fields| - 1]))
    else LevelFor(fields[..|fields| - 1], logger)
  }

  // ---------- What a specification says ----------

  /** The levels in order of severity. */
  lemma SeverityOrder()
    ensures ParseLevel("payload") == Some(-2) && ParseLevel("debug") == Some(-1) && ParseLevel("info") == Some(0)
    ensures ParseLevel("warn") == Some(1) && ParseLevel("error") == Some(2) && ParseLevel("dpanic") == Some(3)
    ensures ParseLevel("panic") == Some(4) && ParseLevel("fatal") == Some(5)
  {
  }

  /** Each level can be written in capitals, and three have a second name. */
  lemma OtherSpellings()
    ensures ParseLevel("PAYLOAD") == Some(-2) && ParseLevel("DEBUG") == Some(-1) && ParseLevel("INFO") == Some(0)
    ensures ParseLevel("WARN") == Some(1) && ParseLevel("ERROR") == Some(2) && ParseLevel("DPANIC") == Some(3)
    ensures ParseLevel("PANIC") == Some(4) && ParseLevel("FATAL") == Some(5)
  {
  }

  lemma SecondNames()
    ensures ParseLevel("notice") == ParseLevel("NOTICE") == Some(0)
    ensures ParseLevel("warning") == ParseLevel("WARNING") == Some(1)
    ensures ParseLevel("critical") == ParseLevel("CRITICAL") == Some(2)
  {
  }

  /** All but the first part are non-empty, and all consist of allowed characters. */
  predicate GoodAfterFirst(parts: seq<string>) {
    forall j :: 0 <= j < |parts| ==>
      (j > 0 ==> parts[j] != "") && forall i :: 0 <= i < |parts[j]| ==> NameChar(parts[j][i])
  }

  /** Allowed characters and periods, each period followed by something other than a period. */
  predicate PeriodsBetween(s: string) {
    forall i :: 0 <= i < |s| ==> GoodAt(s, i)
  }

  predicate GoodAt(s: string, i: nat)
    requires i < |s|
  {
    NameChar(s[i]) || (s[i] == '.' && i + 1 < |s| && s[i + 1] != '.')
  }

  lemma SplitFirst(s: string)
    ensures Split(s, '.')[0] == "" <==> s == "" || s[0] == '.'
  {
  }

  lemma {:induction false} GoodPartsIff(s: string)
    ensures GoodAfterFirst(Split(s, '.')) <==> PeriodsBetween(s)
  {
    if s == "" {
    } else {
      var t := s[1..];
      var rest := Split(t, '.');
      GoodPartsIff(t);
      SplitFirst(t);
      PeriodsBetweenStep(s);
      if s[0] == '.' {
        assert Split(s, '.') == [""] + rest;
        PartsAfterPeriod(rest);
      } else {
        assert Split(s, '.') == [[s[0]] + rest[0]] + rest[1..];
        PartsAfterChar(s[0], rest);
      }
    }
  }

  lemma PeriodsBetweenStep(s: string)
    requires s != ""
    ensures PeriodsBetween(s) <==> PeriodsBetween(s[1..]) && GoodAt(s, 0)
  {
    var t := s[1..];
    forall i | 0 <= i < |t|
      ensures GoodAt(t, i) <==> GoodAt(s, i + 1)
    {
      assert t[i] == s[i + 1];
      assert i + 1 < |t| ==> t[i + 1] == s[i + 2];
    }
    assert PeriodsBetween(t) ==> forall i :: 0 < i < |s| ==> GoodAt(t, i - 1) && GoodAt(s, i);
  }

  lemma PartsAfterPeriod(rest: seq<string>)
    requires rest != []
    ensures GoodAfterFirst([""] + rest) <==> GoodAfterFirst(rest) && rest[0] != ""
  {
    var parts := [""] + rest;
    assert forall j :: 0 <= j < |rest| ==> parts[j + 1] == rest[j];
    assert forall j :: 0 < j < |parts| ==> parts[j] == rest[j - 1];
  }

  lemma PartsAfterChar(c: char, rest: seq<string>)
    requires rest != []
    ensures GoodAfterFirst([[c] + rest[0]] + rest[1..]) <==> NameChar(c) && GoodAfterFirst(rest)
  {
    var parts, first := [[c] + rest[0]] + rest[1..], [c] + rest[0];
    assert parts[0] == first && first[0] == c;
    assert forall j :: 0 < j < |rest| ==> parts[j] == rest[j];
    assert forall i :: 0 <= i < |rest[0]| ==> first[i + 1] == rest[0][i];
    assert forall i :: 0 < i < |first| ==> first[i] == rest[0][i - 1];
  }

  /** A logger name is valid when periods stand between other characters, never at an end or next to each other. */
  lemma ValidLoggerNameIff(name: string)
    ensures IsValidLoggerName(name) <==>
              && name != "" && name[0] != '.' && name[|name| - 1] != '.'
              && (forall i :: 0 <= i < |name| ==> NameChar(name[i]) || name[i] == '.')
              && (forall i :: 0 <= i < |name| - 1 ==> !(name[i] == '.' && name[i + 1] == '.'))
  {
    hide Split;
    GoodPartsIff(name);
    SplitFirst(name);
    assert IsValidLoggerName(name) <==> GoodAfterFirst(Split(name, '.')) && Split(name, '.')[0] != "";
    if PeriodsBetween(name) {
      forall i | 0 <= i < |name| - 1
        ensures !(name[i] == '.' && name[i + 1] == '.')
      {
        assert GoodAt(name, i);
      }
      assert forall i :: 0 <= i < |name| ==> GoodAt(name, i) && (NameChar(name[i]) || name[i] == '.');
      assert name != "" ==> GoodAt(name, |name| - 1);
    }
  }

  /** strings.Join on a one-character separator. */
  function Joined(parts: seq<string>, sep: char): string {
    if |parts| == 0 then "" else if |parts| == 1 then parts[0] else parts[0] + [sep] + Joined(parts[1..], sep)
  }

  lemma {:induction false} SplitAt(part: string, sep: char, rest: string)
    requires sep !in part
    ensures Split(part + [sep] + rest, sep) == [part] + Split(rest, sep)
  {
    if part == "" {
      assert (part + [sep] + rest)[1..] == rest;
    } else {
      assert (part + [sep] + rest)[1..] == part[1..] + [sep] + rest;
      SplitAt(part[1..], sep, rest);
      assert [part[0]] + part[1..] == part;
    }
  }

  lemma {:induction false} SplitWhole(part: string, sep: char)
    requires sep !in part
    ensures Split(part, sep) == [part]
  {
    if part != "" {
      SplitWhole(part[1..], sep);
      assert [part[0]] + part[1..] == part;
    }
  }

  lemma {:induction false} SplitJoined(parts: seq<string>, sep: char)
    requires parts != [] && forall j :: 0 <= j < |parts| ==> sep !in parts[j]
    ensures Split(Joined(parts, sep), sep) == parts
  {
    if |parts| == 1 {
      SplitWhole(parts[0], sep);
    } else {
      SplitJoined(parts[1..], sep);
      SplitAt(parts[0], sep, Joined(parts[1..], sep));
    }
  }

  lemma {:induction false} JoinedFree(parts: seq<string>, sep: char, other: char)
    requires other != sep && forall j :: 0 <= j < |parts| ==> other !in parts[j]
    ensures other !in Joined(parts, sep)
  {
    if |parts| > 1 {
      JoinedFree(parts[1..], sep, other);
    }
  }

  /** A segment that gives loggers a level, as a user writes it. */
  function Segment(loggers: seq<string>, level: string): string {
    Joined(loggers, ',') + "=" + level
  }

  /** No character that the parser splits at. */
  predicate PlainText(s: string) {
    ':' !in s && ',' !in s && '=' !in s
  }

  /** A segment written for some loggers and a level is read as just that; it is valid when they are. */
  lemma SegmentMeaning(loggers: seq<string>, level: string)
    requires loggers != [] && loggers[0] != "" && PlainText(level)
    requires forall j :: 0 <= j < |loggers| ==> PlainText(loggers[j])
    ensures var field := Segment(loggers, level);
            && ':' !in field && !Bare(field) && Loggers(field) == loggers && FieldLevel(field) == NameToLevel(level)
            && (ValidField(field) <==>
                  && ParseLevel(level).Some?
                  && forall j :: 0 <= j < |loggers| ==> IsValidLoggerName(TrimPeriod(loggers[j])))
  {
    hide Split, Joined, IsValidLoggerName, ParseLevel, NameToLevel;
    var field := Segment(loggers, level);
    JoinedFree(loggers, ',', '=');
    JoinedFree(loggers, ',', ':');
    SplitJoined(loggers, ',');
    SplitAt(Joined(loggers, ','), '=', level);
    SplitWhole(level, '=');
    assert field == Joined(loggers, ',') + ['='] + level;
    assert Split(field, '=') == [Joined(loggers, ','), level];
    JoinedStart(loggers);
  }

  lemma JoinedStart(loggers: seq<string>)
    requires loggers != [] && loggers[0] != ""
    ensures Joined(loggers, ',') != ""
  {
    assert |Joined(loggers, ',')| >= |loggers[0]|;
  }

  /** A segment without an equals sign is the default level, and valid when it is empty or names a level. */
  lemma BareMeaning(level: string)
    requires PlainText(level)
    ensures Bare(level) && Loggers(level) == [] && FieldLevel(level) == NameToLevel(level)
    ensures ValidField(level) <==> level == "" || ParseLevel(level).Some?
  {
    hide ParseLevel, NameToLevel;
    SplitWhole(level, '=');
  }

  /** A specification is read segment by segment. */
  lemma SpecMeaning(fields: seq<string>)
    requires fields != [] && forall j :: 0 <= j < |fields| ==> ':' !in fields[j]
    ensures Split(Joined(fields, ':'), ':') == fields
  {
    SplitJoined(fields, ':');
  }

  ghost predicate Parsed(fields: seq<string>, defaultLevel: Level, specs: map<string, Level>) {
    && defaultLevel == DefaultFor(fields)
    && forall logger :: LevelFor(fields, logger) == if logger in specs then Some(specs[logger]) else None
  }

  ghost predicate ParsedPartly(fields: seq<string>, field: string, j: nat, specs: map<string, Level>)
    requires j <= |Loggers(field)|
  {
    forall logger :: (if logger in specs then Some(specs[logger]) else None) ==
      if logger in Loggers(field)[..j] then Some(FieldLevel(field)) else LevelFor(fields, logger)
  }

  lemma ParsedBare(fields: seq<string>, field: string, defaultLevel: Level, specs: map<string, Level>)
    requires Parsed(fields, defaultLevel, specs) && Bare(field)
    ensures Parsed(fields + [field], FieldLevel(field), specs)
  {
    hide Split, Bare, FieldLevel;
    NoLoggers(field);
    assert (fields + [field])[..|fields|] == fields;
  }

  lemma NoLoggers(field: string)
    requires Bare(field)
    ensures Loggers(field) == []
  {
  }

  lemma ParsedNamed(fields: seq<string>, field: string, defaultLevel: Level, specs: map<string, Level>,
                    specs': map<string, Level>)
    requires Parsed(fields, defaultLevel, specs) && !Bare(field)
    requires ParsedPartly(fields, field, |Loggers(field)|, specs')
    ensures Parsed(fields + [field], defaultLevel, specs')
  {
    hide Split, Bare, FieldLevel, Loggers;
    assert (fields + [field])[..|fields|] == fields;
    assert Loggers(field)[..|Loggers(field)|] == Loggers(field);
  }

  lemma ParsedNothing()
    ensures Parsed([], INFO, map[])
  {
  }

  lemma PartlyNothing(fields: seq<string>, field: string, defaultLevel: Level, specs: map<string, Level>)
    requires Parsed(fields, defaultLevel, specs)
    ensures ParsedPartly(fields, field, 0, specs)
  {
  }

  lemma PartlyMore(fields: seq<string>, field: string, j: nat, specs: map<string, Level>)
    requires j < |Loggers(field)| && ParsedPartly(fields, field, j, specs)
    ensures ParsedPartly(fields, field, j + 1, specs[Loggers(field)[j] := FieldLevel(field)])
  {
    hide Split, FieldLevel, Loggers;
    var loggers := Loggers(field);
    assert loggers[..j + 1] == loggers[..j] + [loggers[j]];
  }

  /** One segment: a level, or loggers and their level. */
  method ParseField(field: string, ghost fields: seq<string>, defaultLevel: Level, specs: map<string, Level>)
    returns (valid: bool, newDefault: Level, newSpecs: map<string, Level>)
    requires Parsed(fields, defaultLevel, specs)
    ensures valid <==> ValidField(field)
    ensures valid ==> Parsed(fields + [field], newDefault, newSpecs)
  {
    hide Split, Parsed, ParsedPartly, IsValidLevel, IsValidLoggerName, NameToLevel;
    newDefault, newSpecs := defaultLevel, specs;
    var split := Split(field, '=');
    if |split| == 1 {
      if field != "" && !IsValidLevel(field) {
        return false, newDefault, newSpecs;
      }
      newDefault := NameToLevel(field);
      ParsedBare(fields, field, defaultLevel, specs);
    } else if |split| == 2 {
      if split[0] == "" || !IsValidLevel(split[1]) {
        return false, newDefault, newSpecs;
      }
      var level, loggers := NameToLevel(split[1]), Split(split[0], ',');
      PartlyNothing(fields, field, defaultLevel, specs);
      for j := 0 to |loggers|
        invariant ValidLoggers(loggers[..j]) && ParsedPartly(fields, field, j, newSpecs)
      {
        if !IsValidLoggerName(TrimPeriod(loggers[j])) {
          return false, newDefault, newSpecs;
        }
        PartlyMore(fields, field, j, newSpecs);
        newSpecs := newSpecs[loggers[j] := level];
      }
      assert loggers[..|loggers|] == loggers;
      ParsedNamed(fields, field, defaultLevel, specs, newSpecs);
    } else {
      return false, newDefault, newSpecs;
    }
    valid := true;
  }

  method Minimum(defaultLevel: Level, specs: map<string, Level>) returns (low: Level)
    ensures low <= defaultLevel && forall s :: s in specs ==> low <= specs[s]
    ensures low == defaultLevel || exists s :: s in specs && low == specs[s]
  {
    low := defaultLevel;
    var todo := specs.Keys;
    while todo != {}
      invariant todo <= specs.Keys && low <= defaultLevel
      invariant forall s :: s in specs && s !in todo ==> low <= specs[s]
      invariant low == defaultLevel || exists s :: s in specs && low == specs[s]
      decreases todo
    {
      var s :| s in todo;
      if specs[s] < low {
        low := specs[s];
      }
      todo := todo - {s};
    }
  }

  /** The last period among the first n characters, or -1. */
  function LastPeriod(full: string, n: nat): (idx: int)
    requires n <= |full|
    ensures -1 <= idx < n && (idx >= 0 ==> full[idx] == '.') && forall j :: idx < j < n ==> full[j] != '.'
  {
    if n == 0 then -1 else if full[n - 1] == '.' then n - 1 else LastPeriod(full, n - 1)
  }

  lemma {:induction false} SearchSkips(specs: map<string, Level>, defaultLevel: Level, full: string, n: nat, idx: int)
    requires n < |full| && -1 <= idx <= n && forall j :: idx < j < n ==> full[j] != '.'
    requires idx < n ==> !(IsCut(full, n) && full[..n] in specs)
    ensures Search(specs, defaultLevel, full, n) ==
              if idx > 0 then Search(specs, defaultLevel, full, idx) else defaultLevel
    decreases n
  {
    if idx < n && n > 0 {
      SearchSkips(specs, defaultLevel, full, n - 1, idx);
    }
  }

  class LoggerLevels {
    var levelCache: map<string, Level>
    var specs: map<string, Level>
    var defaultLevel: Level
    var minLevel: Level

    constructor ()
      ensures Valid() && specs == map[] && defaultLevel == INFO
    {
      levelCache, specs, defaultLevel, minLevel := map[], map[], INFO, INFO;
    }

    /** Every cached level is the effective one, and none is below the minimum. */
    ghost predicate Valid()
      reads this
    {
      && (forall name :: name in levelCache ==> levelCache[name] == LevelOf(name))
      && minLevel <= defaultLevel && (forall s :: s in specs ==> minLevel <= specs[s])
    }

    /** The effective level under the current specification. */
    function LevelOf(name: string): Level
      reads this
    {
      Effective(specs, defaultLevel, name)
    }

    /** A specification is taken as a whole or not at all; in it the last word on a logger counts. */
    method ActivateSpec(spec: string) returns (ok: bool)
      requires Valid()
      modifies this
      ensures Valid()
      ensures ok <==> ValidFields(Split(spec, ':'))
      ensures ok ==> Parsed(Split(spec, ':'), defaultLevel, specs) && levelCache == map[]
      ensures ok ==> minLevel == defaultLevel || exists s :: s in specs && minLevel == specs[s]
      ensures !ok ==> unchanged(this)
    {
      hide Split, ValidField, Parsed;
      var fields := Split(spec, ':');
      var newDefault, newSpecs := INFO, map[];
      ParsedNothing();
      for i := 0 to |fields|
        invariant unchanged(this)
        invariant ValidFields(fields[..i])
        invariant Parsed(fields[..i], newDefault, newSpecs)
      {
        var valid;
        assert fields[..i + 1] == fields[..i] + [fields[i]];
        valid, newDefault, newSpecs := ParseField(fields[i], fields[..i], newDefault, newSpecs);
        if !valid {
          assert !ValidField(fields[i]);
          return false;
        }
      }
      assert fields[..|fields|] == fields;
      var newMin := Minimum(newDefault, newSpecs);
      minLevel, defaultLevel, specs, levelCache := newMin, newDefault, newSpecs, map[];
      ok := true;
    }

    /** The second part of Level, under the write lock: computes the level and stores it. */
    method FillCache(name: string) returns (level: Level)
      requires Valid()
      modifies this`levelCache
      ensures Valid() && level == LevelOf(name)
      ensures levelCache == old(levelCache)[name := level]
    {
      level := CalculateLevel(name);
      levelCache := levelCache[name := level];
    }

    method Level(name: string) returns (level: Level)
      requires Valid()
      modifies this`levelCache
      ensures Valid() && level == LevelOf(name)
    {
      if name in levelCache {
        return levelCache[name];
      }
      level := FillCache(name);
    }

    /** Walks the logger name back from period to period. */
    method CalculateLevel(name: string) returns (level: Level)
      ensures level == LevelOf(name)
    {
      var full := name + ".";
      var n: nat := |full|;
      while true
        invariant n == |full| || IsCut(full, n)
        invariant n < |full| ==>
                  full !in specs && Search(specs, defaultLevel, full, |name|) == Search(specs, defaultLevel, full, n)
        decreases n
      {
        if full[..n] in specs {
          assert n == |full| ==> full[..n] == full;
          return specs[full[..n]];
        }
        var idx := LastPeriod(full, n);
        SearchSkips(specs, defaultLevel, full, if n == |full| then |name| else n, idx);
        if idx <= 0 {
          return defaultLevel;
        }
        n := idx;
      }
    }

    method Enabled(entry: Level) returns (enabled: bool)
      ensures enabled <==> Admits(minLevel, entry)
    {
      enabled := Admits(minLevel, entry);
    }

    /**
     * The fast test in front hides nothing: what is not taken is not admitted by its logger's level, as it was at the
     * test or, if other specifications were activated before the lookup, as it is then. What is taken is admitted.
     */
    method Check(entry: Level, name: string, between: seq<string>) returns (taken: bool)
      requires Valid()
      modifies this
      ensures Valid()
      ensures taken ==> entry >= LevelOf(name)
      ensures !taken ==> entry < old(LevelOf(name)) || entry < LevelOf(name)
      ensures between == [] ==>
                specs == old(specs) && defaultLevel == old(defaultLevel) && (taken <==> entry >= LevelOf(name))
    {
      EffectiveBound(specs, defaultLevel, name, minLevel);
      taken := Enabled(entry);
      for i := 0 to |between|
        invariant Valid() && (i == 0 ==> specs == old(specs) && defaultLevel == old(defaultLevel))
      {
        var _ := ActivateSpec(between[i]);
      }
      if taken {
        var level := Level(name);
        taken := Admits(level, entry);
      }
    }
  }
}
