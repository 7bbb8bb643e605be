/** The CSV logger of the evaluation runs: a log that accepts entries of exactly one dataclass
    type and writes them as `;`-separated text, a header of the type's field names followed by
    one line per entry. */
module CsvLogging {
  import opened Common
  import opened Text

  /** A log entry dataclass: its name and the fields its own body declares, in order. Every
      entry type derives from `BaseLogEntry`, which declares `experiment_id`. */
  datatype EntryType = EntryType(name: string, declaredFields: seq<string>)

  /** An entry: its type and the `str` of each field value, in field order. */
  datatype LogEntry = LogEntry(entryType: EntryType, values: seq<string>)

  predicate NoDuplicates(s: seq<string>) {
    forall i, j :: 0 <= i < j < |s| ==> s[i] != s[j]
  }

  /** The names in `s`, each once, at its first occurrence. */
  function Dedupe(s: seq<string>): (r: seq<string>)
    ensures NoDuplicates(r)
    ensures forall x :: x in r <==> x in s
    ensures |r| <= |s|
    ensures |s| > 0 ==> |r| > 0 && r[0] == s[0]
  {
    if |s| == 0 then []
    else
      var front := s[..|s| - 1];
      var r := Dedupe(front);
      assert forall x :: x in s <==> x in front || x == s[|s| - 1];
      if s[|s| - 1] in r then r else r + [s[|s| - 1]]
  }

  /** The position of the first occurrence of `x` in `s`. */
  function FirstIndex(s: seq<string>, x: string): (k: nat)
    requires x in s
    ensures k < |s| && s[k] == x && forall i :: 0 <= i < k ==> s[i] != x
  {
    if s[0] == x then 0 else 1 + FirstIndex(s[1..], x)
  }

  /** Appending to a list does not move the first occurrence of a name it already holds;
      a new name first occurs at the end. */
  lemma FirstIndexAppend(front: seq<string>, y: string, x: string)
    requires x in front + [y]
    ensures x in front ==> FirstIndex(front + [y], x) == FirstIndex(front, x)
    ensures x !in front ==> FirstIndex(front + [y], x) == |front|
  {
    var k := FirstIndex(front + [y], x);
    if x in front {
      var m := FirstIndex(front, x);
      assert (front + [y])[m] == x;
      assert !(k < m) && !(m < k);
    } else {
      assert forall i :: 0 <= i < |front| ==> (front + [y])[i] == front[i];
    }
  }

  /** The names of `r` appear in the order of their first occurrences in `s`. */
  predicate InFirstOccurrenceOrder(s: seq<string>, r: seq<string>)
    requires forall x :: x in r ==> x in s
  {
    forall i, j :: 0 <= i < j < |r| ==> FirstIndex(s, r[i]) < FirstIndex(s, r[j])
  }

  /** Appending `y` to `front` keeps the order of first occurrences of the names `f` of
      `front`, with `y` after them all when it is new. */
  lemma OrderAfterAppend(front: seq<string>, y: string, f: seq<string>, r: seq<string>)
    requires forall x :: x in f ==> x in front
    requires InFirstOccurrenceOrder(front, f)
    requires r == f || (y !in front && r == f + [y])
    ensures forall x :: x in r ==> x in front + [y]
    ensures InFirstOccurrenceOrder(front + [y], r)
  {
    var s := front + [y];
    forall i, j | 0 <= i < j < |r| ensures FirstIndex(s, r[i]) < FirstIndex(s, r[j]) {
      assert r[i] == f[i];
      FirstIndexAppend(front, y, r[i]);
      if j < |f| {
        assert r[j] == f[j];
        FirstIndexAppend(front, y, r[j]);
      } else {
        FirstIndexAppend(front, y, y);
      }
    }
  }

  /** `Dedupe` lists the names in the order of their first occurrences. */
  lemma {:induction false} DedupeKeepsFirstOccurrences(s: seq<string>)
    ensures InFirstOccurrenceOrder(s, Dedupe(s))
    decreases |s|
  {
    if |s| > 0 {
      var n := |s| - 1;
      var front, y := s[..n], s[n];
      assert s == front + [y];
      DedupeKeepsFirstOccurrences(front);
      OrderAfterAppend(front, y, Dedupe(front), Dedupe(s));
    }
  }

  /** A list without repeats is left as it is. */
  lemma {:induction false} DedupeOfDistinct(s: seq<string>)
    requires NoDuplicates(s)
    ensures Dedupe(s) == s
    decreases |s|
  {
    if |s| > 0 {
      var n := |s| - 1;
      assert NoDuplicates(s[..n]);
      DedupeOfDistinct(s[..n]);
      assert s[n] !in s[..n];
      assert s == s[..n] + [s[n]];
    }
  }

  /** A list whose only repeat is the name at position `j` loses exactly that position. */
  lemma {:induction false} DedupeDropsRepeat(s: seq<string>, j: nat)
    requires j < |s| && s[j] in s[..j] && NoDuplicates(s[..j] + s[j + 1..])
    ensures Dedupe(s) == s[..j] + s[j + 1..]
    decreases |s|
  {
    var n := |s| - 1;
    var front := s[..n];
    var others := s[..j] + s[j + 1..];
    if j == n {
      assert others == front;
      DedupeOfDistinct(front);
    } else {
      var kept := front[..j] + front[j + 1..];
      assert others == kept + [s[n]] by {
        assert front[..j] == s[..j] && front[j + 1..] == s[j + 1..n];
        assert s[j + 1..] == s[j + 1..n] + [s[n]];
      }
      assert NoDuplicates(kept) by {
        forall a, b | 0 <= a < b < |kept| ensures kept[a] != kept[b] {
          assert kept[a] == others[a] && kept[b] == others[b];
        }
      }
      assert front[j] in front[..j] by {
        assert front[..j] == s[..j] && front[j] == s[j];
      }
      DedupeDropsRepeat(front, j);
      assert s[n] !in kept by {
        forall k | 0 <= k < |kept| ensures kept[k] != s[n] {
          assert kept[k] == others[k] && others[|kept|] == s[n];
        }
      }
    }
  }

  /** The dataclass fields of an entry type (`__dataclass_fields__`): `experiment_id` from the
      base class first, then the declared fields in order; a field declared again keeps the
      place of its first declaration, so it gives one column. */
  function DataclassFields(t: EntryType): (fields: seq<string>)
    ensures |fields| > 0 && fields[0] == "experiment_id"
    ensures NoDuplicates(fields)
    ensures forall x :: x in fields <==> x == "experiment_id" || x in t.declaredFields
    ensures |fields| <= 1 + |t.declaredFields|
    ensures InFirstOccurrenceOrder(["experiment_id"] + t.declaredFields, fields)
  {
    DedupeKeepsFirstOccurrences(["experiment_id"] + t.declaredFields);
    Dedupe(["experiment_id"] + t.declaredFields)
  }

  /** Without repeated declarations the columns are `experiment_id` and then exactly the
      declared fields, in declaration order. */
  lemma DataclassFieldsOfDistinctDeclarations(t: EntryType)
    requires "experiment_id" !in t.declaredFields && NoDuplicates(t.declaredFields)
    ensures DataclassFields(t) == ["experiment_id"] + t.declaredFields
  {
    var s := ["experiment_id"] + t.declaredFields;
    forall i, j | 0 <= i < j < |s| ensures s[i] != s[j] {
      assert s[j] == t.declaredFields[j - 1];
      if i > 0 {
        assert s[i] == t.declaredFields[i - 1];
      }
    }
    DedupeOfDistinct(s);
  }

  /** An entry as its dataclass builds it: one value per field. */
  predicate WellFormedEntry(e: LogEntry) {
    |e.values| == |DataclassFields(e.entryType)|
  }

  /** The header line: the field names joined by `;`, then a newline. */
  function Header(t: EntryType): (h: string)
    ensures |h| > 0 && h[|h| - 1] == '\n'
  {
    Join(";", DataclassFields(t)) + "\n"
  }

  /** One line per entry: the values joined by `;`, then a newline. */
  function RowLine(e: LogEntry): (line: string)
    ensures |line| > 0 && line[|line| - 1] == '\n'
  {
    Join(";", e.values) + "\n"
  }

  /** The row lines of the entries, in order. */
  function Rows(logs: seq<LogEntry>): (text: string)
    ensures |logs| == 0 <==> text == ""
  {
    if |logs| == 0 then "" else Rows(logs[..|logs| - 1]) + RowLine(logs[|logs| - 1])
  }

  /** The contents of the log file: the header first, every line ends in a newline, and the
      header is all there is exactly when the log is empty. */
  function CsvText(t: EntryType, logs: seq<LogEntry>): (text: string)
    ensures Header(t) <= text
    ensures |text| > 0 && text[|text| - 1] == '\n'
    ensures text == Header(t) <==> |logs| == 0
  {
    Header(t) + Rows(logs)
  }

  /** The folder the log files are written to. */
  const LogFileFolder: string := ".\\.logs"

  /** `os.path.join(folder, name)` with Windows separators: a name that is rooted or carries a
      drive replaces the folder, any other name is appended after a backslash. */
  function PathJoin(folder: string, name: string): (path: string)
    ensures |name| > 0 && (name[0] == '\\' || name[0] == '/') ==> path == name
    ensures |name| > 1 && name[1] == ':' ==> path == name
    ensures !(|name| > 0 && (name[0] == '\\' || name[0] == '/')) && !(|name| > 1 && name[1] == ':') ==>
      path == folder + "\\" + name && path[..|folder|] == folder && path[|folder| + 1..] == name
  {
    if |name| > 0 && (name[0] == '\\' || name[0] == '/') then name
    else if |name| > 1 && name[1] == ':' then name
    else
      var path := folder + "\\" + name;
      assert path[..|folder|] == folder && path[|folder| + 1..] == name;
      path
  }

  /** `CSVLogger`: the entry type it accepts, the time it was made and the entries so far. */
  class CSVLogger {
    const typeOfMessageToLog: EntryType
    const startTime: real
    var logs: seq<LogEntry>

    /** A logger with no entries; the clock reading is passed in. */
    constructor (typeOfMessageToLog: EntryType, startTime: real)
      ensures this.typeOfMessageToLog == typeOfMessageToLog && this.startTime == startTime
      ensures logs == []
    {
      this.typeOfMessageToLog := typeOfMessageToLog;
      this.startTime := startTime;
      logs := [];
    }

    /** `add_entry_to_log`: an entry of exactly the configured type goes at the end of the
        log; an entry of any other type, a subclass included, raises AssertionError and the
        log stays as it was. */
    method AddEntryToLog(logEntry: LogEntry) returns (o: Outcome)
      modifies this
      ensures logEntry.entryType == typeOfMessageToLog ==> o == Pass && logs == old(logs) + [logEntry]
      ensures logEntry.entryType != typeOfMessageToLog ==> o.Fail? && o.error.AssertionError? && logs == old(logs)
    {
      if logEntry.entryType != typeOfMessageToLog {
        return Fail(AssertionError(""));
      }
      logs := logs + [logEntry];
      o := Pass;
    }

    /** `write_logs_as_csv_to_file`: the path is the log folder joined with the file name, and
        the file receives the header and then the row of every entry in order. The log is
        left as it is, so writing again gives the same file. */
    method WriteLogsAsCsvToFile(fileName: string) returns (path: string, contents: string)
      ensures path == PathJoin(LogFileFolder, fileName)
      ensures contents == CsvText(typeOfMessageToLog, logs)
    {
      path := PathJoin(LogFileFolder, fileName);
      contents := Header(typeOfMessageToLog);
      for i := 0 to |logs|
        invariant contents == Header(typeOfMessageToLog) + Rows(logs[..i])
      {
        assert logs[..i + 1][..i] == logs[..i];
        contents := contents + RowLine(logs[i]);
      }
      assert logs[..|logs|] == logs;
    }
  }

  /** An empty log writes only the header. */
  lemma EmptyLogIsHeaderOnly(t: EntryType)
    ensures CsvText(t, []) == Join(";", DataclassFields(t)) + "\n"
  {
  }

  /** Reading the file back: its lines, each split at `;`. */
  function ParseCsv(text: string): (table: seq<seq<string>>)
    ensures |table| > 0
  {
    var lines := Split(text, '\n');
    seq(|lines|, i requires 0 <= i < |lines| => Split(lines[i], ';'))
  }

  /** The values of the entries, one list per entry. */
  function RowValues(logs: seq<LogEntry>): (rows: seq<seq<string>>)
    ensures |rows| == |logs| && forall i :: 0 <= i < |logs| ==> rows[i] == logs[i].values
  {
    seq(|logs|, i requires 0 <= i < |logs| => logs[i].values)
  }

  /** The row texts of the entries, without their newlines. */
  function RowStrings(logs: seq<LogEntry>): (rows: seq<string>)
    ensures |rows| == |logs| && forall i :: 0 <= i < |logs| ==> rows[i] == Join(";", logs[i].values)
  {
    seq(|logs|, i requires 0 <= i < |logs| => Join(";", logs[i].values))
  }

  /** No field name or value holds a separator. */
  ghost predicate Plain(s: string) {
    ';' !in s && '\n' !in s
  }

  lemma {:induction false} JoinSnoc(sep: string, parts: seq<string>, x: string)
    requires |parts| > 0
    ensures Join(sep, parts + [x]) == Join(sep, parts) + sep + x
    decreases |parts|
  {
    if |parts| > 1 {
      assert (parts + [x])[1..] == parts[1..] + [x];
      JoinSnoc(sep, parts[1..], x);
    }
  }

  lemma {:induction false} JoinNoChar(sep: string, parts: seq<string>, c: char)
    requires c !in sep && forall i :: 0 <= i < |parts| ==> c !in parts[i]
    ensures c !in Join(sep, parts)
    decreases |parts|
  {
    if |parts| > 1 {
      JoinNoChar(sep, parts[1..], c);
    }
  }

  /** One more line before the empty last piece. */
  lemma JoinOneMoreLine(text: string, parts: seq<string>, x: string)
    requires |parts| > 0 && text == Join("\n", parts + [""])
    ensures text + (x + "\n") == Join("\n", parts + [x] + [""])
  {
    var joined := Join("\n", parts);
    assert text == joined + "\n" by {
      JoinSnoc("\n", parts, "");
    }
    assert Join("\n", parts + [x]) == joined + "\n" + x by {
      JoinSnoc("\n", parts, x);
    }
    assert Join("\n", parts + [x] + [""]) == Join("\n", parts + [x]) + "\n" by {
      JoinSnoc("\n", parts + [x], "");
    }
  }

  /** The file is its lines joined by newlines, with an empty piece after the last newline. */
  lemma {:induction false} LinesOfCsv(head: string, logs: seq<LogEntry>)
    ensures head + "\n" + Rows(logs) == Join("\n", [head] + RowStrings(logs) + [""])
    decreases |logs|
  {
    if |logs| == 0 {
      assert [head] + RowStrings(logs) + [""] == [head, ""];
    } else {
      var front, last := logs[..|logs| - 1], logs[|logs| - 1];
      var parts, x := [head] + RowStrings(front), Join(";", last.values);
      var text := head + "\n" + Rows(front);
      assert text == Join("\n", parts + [""]) by {
        LinesOfCsv(head, front);
      }
      assert text + (x + "\n") == Join("\n", parts + [x] + [""]) by {
        JoinOneMoreLine(text, parts, x);
      }
      assert [head] + RowStrings(logs) == parts + [x];
      assert head + "\n" + Rows(logs) == text + (x + "\n");
    }
  }

  /** The header names hold no separator when the declared ones do not. */
  lemma FieldsPlain(t: EntryType)
    requires forall k :: 0 <= k < |t.declaredFields| ==> Plain(t.declaredFields[k])
    ensures forall k :: 0 <= k < |DataclassFields(t)| ==> Plain(DataclassFields(t)[k])
  {
    var fields := DataclassFields(t);
    forall k | 0 <= k < |fields| ensures Plain(fields[k]) {
      assert fields[k] in DataclassFields(t);
      if fields[k] != "experiment_id" {
        var j :| 0 <= j < |t.declaredFields| && t.declaredFields[j] == fields[k];
      }
    }
  }

  /** The header is a single line whose `;`-separated pieces are the dataclass fields, in
      order, provided no declared name holds a separator. */
  lemma HeaderNamesTheFields(t: EntryType)
    requires forall k :: 0 <= k < |t.declaredFields| ==> Plain(t.declaredFields[k])
    ensures var h := Header(t);
      '\n' !in h[..|h| - 1] && Split(h[..|h| - 1], ';') == DataclassFields(t)
  {
    var h := Header(t);
    FieldsPlain(t);
    assert h[..|h| - 1] == Join(";", DataclassFields(t));
    JoinNoChar(";", DataclassFields(t), '\n');
    SplitOfJoin(DataclassFields(t), ';');
  }

  /** The lines of the file: the header, one line per entry, and the empty piece after the
      last newline. */
  lemma CsvLines(t: EntryType, logs: seq<LogEntry>)
    requires forall k :: 0 <= k < |DataclassFields(t)| ==> Plain(DataclassFields(t)[k])
    requires forall i, k :: 0 <= i < |logs| && 0 <= k < |logs[i].values| ==> Plain(logs[i].values[k])
    ensures Split(CsvText(t, logs), '\n') == [Join(";", DataclassFields(t))] + RowStrings(logs) + [""]
  {
    var head := Join(";", DataclassFields(t));
    JoinNoChar(";", DataclassFields(t), '\n');
    LinesOfCsv(head, logs);
    forall i | 0 <= i < |logs| ensures '\n' !in Join(";", logs[i].values) {
      JoinNoChar(";", logs[i].values, '\n');
    }
    SplitOfJoin([head] + RowStrings(logs) + [""], '\n');
  }

  /** Reading a text whose lines split into the rows of `table`. */
  lemma ParseOfLines(text: string, lines: seq<string>, table: seq<seq<string>>)
    requires Split(text, '\n') == lines && |lines| == |table|
    requires forall i :: 0 <= i < |lines| ==> Split(lines[i], ';') == table[i]
    ensures ParseCsv(text) == table
  {
  }

  /** Reading the file back gives the header fields, then every entry's values in order, then
      the empty piece after the last newline, provided no name or value holds `;` or a
      newline and every entry has its fields' values. */
  lemma CsvRoundTrip(t: EntryType, logs: seq<LogEntry>)
    requires forall k :: 0 <= k < |t.declaredFields| ==> Plain(t.declaredFields[k])
    requires forall i :: 0 <= i < |logs| ==> WellFormedEntry(logs[i])
    requires forall i, k :: 0 <= i < |logs| && 0 <= k < |logs[i].values| ==> Plain(logs[i].values[k])
    ensures ParseCsv(CsvText(t, logs)) == [DataclassFields(t)] + RowValues(logs) + [[""]]
  {
    FieldsPlain(t);
    var lines := [Join(";", DataclassFields(t))] + RowStrings(logs) + [""];
    assert Split(CsvText(t, logs), '\n') == lines by {
      CsvLines(t, logs);
    }
    var expected := [DataclassFields(t)] + RowValues(logs) + [[""]];
    forall i | 0 <= i < |lines| ensures Split(lines[i], ';') == expected[i] {
      if i == 0 {
        SplitOfJoin(DataclassFields(t), ';');
      } else if i <= |logs| {
        assert lines[i] == Join(";", logs[i - 1].values) && expected[i] == logs[i - 1].values;
        SplitOfJoin(logs[i - 1].values, ';');
      } else {
        assert lines[i] == "" && expected[i] == [""];
      }
    }
    ParseOfLines(CsvText(t, logs), lines, expected);
  }

  // ---------------------------------------------------------------------------------------
  // The entry types

  /** Two names of different length, or that differ at position `k` or `m`, are different. */
  predicate Apart(a: string, b: string, k: nat, m: nat) {
    || |a| != |b|
    || (k < |a| && k < |b| && a[k] != b[k])
    || (m < |a| && m < |b| && a[m] != b[m])
  }

  /** The type of every entry is known by its name; each declared field list below is the
      body of the dataclass. */
  function GoodnessOfFitForInitialVelocity(): (t: EntryType)
    ensures |t.declaredFields| == 14 && NoDuplicates(t.declaredFields) && "experiment_id" !in t.declaredFields
  {
    InitialVelocityFieldsDistinct();
    EntryType("GoodnessOfFitForInitialVelocity", InitialVelocityFields)
  }

  const InitialVelocityFields: seq<string> :=
    ["v_obs_mean", "v_obs_std", "v_obs_min", "v_obs_max", "v_sim_mean", "v_sim_std", "v_sim_min", "v_sim_max",
     "v_mean_error", "v_mean_absolute_error", "v_root_mean_square_error", "v_percent_bias",
     "v_nash_sutcliffe_efficiency", "v_index_of_agreement"]

  /** The fields are told apart by their length or by the two characters named below. */
  lemma InitialVelocityFieldsDistinct()
    ensures NoDuplicates(InitialVelocityFields)
  {
    var s := InitialVelocityFields;
    forall i, j | 0 <= i < j < |s| ensures s[i] != s[j] {
      assert Apart(s[i], s[j], 7, 2);
    }
  }

  function GoodnessOfFitForInitialBottomElevation(): (t: EntryType)
    ensures |t.declaredFields| == 14 && NoDuplicates(t.declaredFields) && "experiment_id" !in t.declaredFields
  {
    InitialBottomElevationFieldsDistinct();
    EntryType("GoodnessOfFitForInitialBottomElevation", InitialBottomElevationFields)
  }

  const InitialBottomElevationFields: seq<string> :=
    ["bot_ele_obs_mean", "bot_ele_obs_std", "bot_ele_obs_min", "bot_ele_obs_max", "bot_ele_sim_mean",
     "bot_ele_sim_std", "bot_ele_min", "bot_ele_max", "bot_ele_mean_error", "bot_ele_mean_absolute_error",
     "bot_ele_root_mean_square_error", "bot_ele_percent_bias", "bot_ele_nash_sutcliffe_efficiency",
     "bot_ele_index_of_agreement"]

  /** The fields are told apart by their length or by the two characters named below. */
  lemma InitialBottomElevationFieldsDistinct()
    ensures NoDuplicates(InitialBottomElevationFields)
  {
    var s := InitialBottomElevationFields;
    forall i, j | 0 <= i < j < |s| ensures s[i] != s[j] {
      assert Apart(s[i], s[j], 9, 13);
    }
  }

  function GoodnessOfFitForInitialWaterDepth(): (t: EntryType)
    ensures |t.declaredFields| == 14 && NoDuplicates(t.declaredFields) && "experiment_id" !in t.declaredFields
  {
    InitialWaterDepthFieldsDistinct();
    EntryType("GoodnessOfFitForInitialWaterDepth", InitialWaterDepthFields)
  }

  const InitialWaterDepthFields: seq<string> :=
    ["wd_obs_mean", "wd_obs_std", "wd_obs_min", "wd_obs_max", "wd_sim_mean", "wd_sim_std", "wd_sim_min", "wd_sim_max",
     "wd_mean_error", "wd_mean_absolute_error", "wd_root_mean_square_error", "wd_percent_bias",
     "wd_nash_sutcliffe_efficiency", "wd_index_of_agreement"]

  /** The fields are told apart by their length or by the two characters named below. */
  lemma InitialWaterDepthFieldsDistinct()
    ensures NoDuplicates(InitialWaterDepthFields)
  {
    var s := InitialWaterDepthFields;
    forall i, j | 0 <= i < j < |s| ensures s[i] != s[j] {
      assert Apart(s[i], s[j], 8, 3);
    }
  }

  /** `deposited_volume_absolute_error` is declared twice. */
  function GoodnessOfFitFor3dEvaluation(): (t: EntryType)
    ensures |t.declaredFields| == 21 && t.declaredFields[13] == t.declaredFields[14]
  {
    EntryType("GoodnessOfFitFor3dEvaluation",
      ["polygon_name", "area_polygon", "ratio_of_eroded_area_dod", "ratio_of_deposited_area_dod",
       "ratio_of_eroded_area_sim", "ratio_of_deposited_area_sim", "ratio_of_identical_change",
       "ratio_of_different_change", "eroded_volume_sim", "deposited_volume_sim", "eroded_volume_dod",
       "deposited_volume_dod", "eroded_volume_absolute_error", "deposited_volume_absolute_error",
       "deposited_volume_absolute_error", "eroded_volume_per_area_sim", "deposited_volume_per_area_sim",
       "eroded_volume_per_area_dod", "deposited_volume_per_area_dod", "eroded_volume_per_area_abs_error",
       "deposited_volume_per_area_abs_error"])
  }

  function ShearStress(): (t: EntryType)
    ensures |t.declaredFields| == 17 && NoDuplicates(t.declaredFields) && "experiment_id" !in t.declaredFields
  {
    ShearStressFieldsDistinct();
    EntryType("ShearStress", ShearStressFields)
  }

  const ShearStressFields: seq<string> :=
    ["time_step", "discharge", "wetted_area", "abs_area_tau_more_than_10Nm", "abs_area_tau_more_than_20Nm",
     "abs_area_tau_more_than_30Nm", "abs_area_tau_more_than_40Nm", "abs_area_tau_more_than_50Nm",
     "abs_area_tau_more_than_60Nm", "abs_area_tau_more_than_70Nm", "abs_area_tau_more_than_80Nm",
     "abs_area_tau_more_than_90Nm", "abs_area_tau_more_than_D90", "abs_area_critical_shield_stress_chezy",
     "rel_area_critical_shield_stress_chezy", "area_guenter_criterion_chezy", "rel_area_guenter_criterion_chezy"]

  /** The shear stress fields are told apart by their length, their first character or, for
      the thresholds, the character after `abs_area_tau_more_than_`. */
  lemma ShearStressFieldsDistinct()
    ensures NoDuplicates(ShearStressFields)
  {
    var s := ShearStressFields;
    forall i, j | 0 <= i < j < |s| ensures s[i] != s[j] {
      assert Apart(s[i], s[j], 0, 23);
    }
  }

  function ScenarioEvaluationHmid(): (t: EntryType)
    ensures |t.declaredFields| == 5 && NoDuplicates(t.declaredFields) && "experiment_id" !in t.declaredFields
  {
    EntryType("ScenarioEvaluationHmid",
      ["time_step", "wetted_area", "water_depth_variability", "flow_velocity_variability",
       "hydro_morphological_index_of_diversity"])
  }

  /** The entry types without a repeated declaration: their csv columns are `experiment_id`
      and then their fields, in declaration order. */
  lemma EntryTypeColumns(t: EntryType)
    requires t in {GoodnessOfFitForInitialVelocity(), GoodnessOfFitForInitialBottomElevation(),
                   GoodnessOfFitForInitialWaterDepth(), ShearStress(), ScenarioEvaluationHmid()}
    ensures DataclassFields(t) == ["experiment_id"] + t.declaredFields
    ensures |DataclassFields(t)| == 1 + |t.declaredFields|
  {
    DataclassFieldsOfDistinctDeclarations(t);
  }

  /** A field declared twice gives one column: the 3d evaluation has 21 declarations and
      `experiment_id`, but at most 21 columns. */
  lemma RepeatedFieldGivesOneColumn(t: EntryType, i: nat, j: nat)
    requires i < j < |t.declaredFields| && t.declaredFields[i] == t.declaredFields[j]
    ensures |DataclassFields(t)| < 1 + |t.declaredFields|
  {
    var s := ["experiment_id"] + t.declaredFields;
    assert s[i + 1] == s[j + 1];
    DedupeShorter(s, i + 1, j + 1);
  }

  /** Removing repeats from a list with a repeat shortens it. */
  lemma {:induction false} DedupeShorter(s: seq<string>, i: nat, j: nat)
    requires i < j < |s| && s[i] == s[j]
    ensures |Dedupe(s)| < |s|
    decreases |s|
  {
    var front := s[..|s| - 1];
    if j == |s| - 1 {
      assert s[j] in front by { assert front[i] == s[i]; }
    } else {
      DedupeShorter(front, i, j);
    }
  }

  /** Two lists without repeats and without a common name join into one without repeats. */
  lemma NoDuplicatesJoin(a: seq<string>, b: seq<string>)
    requires NoDuplicates(a) && NoDuplicates(b)
    requires forall i, j :: 0 <= i < |a| && 0 <= j < |b| ==> a[i] != b[j]
    ensures NoDuplicates(a + b)
  {
    forall i, j | 0 <= i < j < |a + b| ensures (a + b)[i] != (a + b)[j] {
      if j < |a| {
        assert (a + b)[i] == a[i] && (a + b)[j] == a[j];
      } else if i < |a| {
        assert (a + b)[i] == a[i] && (a + b)[j] == b[j - |a|];
      } else {
        assert (a + b)[i] == b[i - |a|] && (a + b)[j] == b[j - |a|];
      }
    }
  }

  /** The 3d evaluation columns up to `deposited_volume_absolute_error` are distinct... */
  lemma ThreeDFrontDistinct(t: EntryType)
    requires t == GoodnessOfFitFor3dEvaluation()
    ensures NoDuplicates(["experiment_id"] + t.declaredFields[..10])
  {
  }

  /** ... and so are the others ... */
  lemma ThreeDBackDistinct(t: EntryType)
    requires t == GoodnessOfFitFor3dEvaluation()
    ensures NoDuplicates(t.declaredFields[10..14] + t.declaredFields[15..])
  {
  }

  /** ... and the two parts share no name. */
  lemma ThreeDPartsDisjoint(t: EntryType)
    requires t == GoodnessOfFitFor3dEvaluation()
    ensures var a, b := ["experiment_id"] + t.declaredFields[..10], t.declaredFields[10..14] + t.declaredFields[15..];
      forall i, j :: 0 <= i < |a| && 0 <= j < |b| ==> a[i] != b[j]
  {
  }

  /** The 3d evaluation log has one column fewer than its declarations: the second
      declaration of `deposited_volume_absolute_error` (declared position 14) gives no column. */
  lemma ThreeDEvaluationColumns()
    ensures var t := GoodnessOfFitFor3dEvaluation();
      DataclassFields(t) == ["experiment_id"] + t.declaredFields[..14] + t.declaredFields[15..]
    ensures |DataclassFields(GoodnessOfFitFor3dEvaluation())| == 21
  {
    var t := GoodnessOfFitFor3dEvaluation();
    var s := ["experiment_id"] + t.declaredFields;
    var a, b := ["experiment_id"] + t.declaredFields[..10], t.declaredFields[10..14] + t.declaredFields[15..];
    assert s[15] in s[..15] by { assert s[..15][14] == s[15]; }
    assert s[..15] + s[16..] == a + b;
    assert NoDuplicates(a) by { ThreeDFrontDistinct(t); }
    assert NoDuplicates(b) by { ThreeDBackDistinct(t); }
    assert forall i, j :: 0 <= i < |a| && 0 <= j < |b| ==> a[i] != b[j] by { ThreeDPartsDisjoint(t); }
    DedupeOfDisjointParts(s, 15, a, b);
    assert s[..15] + s[16..] == ["experiment_id"] + t.declaredFields[..14] + t.declaredFields[15..];
  }

  /** A list whose only repeat is at position `j`, and whose other names fall into two
      parts without repeats and without a common name, loses exactly that position. */
  lemma DedupeOfDisjointParts(s: seq<string>, j: nat, a: seq<string>, b: seq<string>)
    requires j < |s| && s[j] in s[..j] && s[..j] + s[j + 1..] == a + b
    requires NoDuplicates(a) && NoDuplicates(b)
    requires forall i, k :: 0 <= i < |a| && 0 <= k < |b| ==> a[i] != b[k]
    ensures Dedupe(s) == a + b
  {
    NoDuplicatesJoin(a, b);
    DedupeDropsRepeat(s, j);
  }
}
