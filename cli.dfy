/** The command-line tool: change_data_types, which writes a converted column
    back into the frame it is given, and the interactive_cleaning loop, which
    reads a choice and its parameters line by line and rebinds its frame to
    the result of each operation until the choice '5'.

    An exception raised by an operation is not caught inside the loop: it
    ends the session with that error. Reading past the last line of input
    ends it with EndOfInput. */
module Cli {
  import opened Tables
  import opened Text
  import opened Cleaning
  import opened Frames

  /** change_data_types: `df[column] = df[column].astype(newType)`, then the
      same frame is returned. An unknown column or a cell that does not
      convert raises before anything is written. */
  method ChangeDataTypes(df: DataFrame, column: string, newType: string, conv: Converter)
      returns (r: Result<DataFrame>)
    requires df.Valid()
    modifies df
    ensures df.Valid()
    ensures ChangedTable(old(df.table), column, newType, conv).Ok? ==>
      r == Ok(df) && df.table == ChangedTable(old(df.table), column, newType, conv).value
    ensures ChangedTable(old(df.table), column, newType, conv).Err? ==>
      r == Err(ChangedTable(old(df.table), column, newType, conv).error) && df.table == old(df.table)
  {
    var o := df.AsType(column, newType, conv);
    if o.Fail? {
      r := Err(o.error);
    } else {
      r := Ok(df);
    }
  }

  /** The column list typed for choice '1': split at commas, each name
      stripped. There is one name per comma-separated part, and no name holds
      a comma or starts or ends with whitespace. */
  function ParseColumns(line: string): (names: seq<string>)
    ensures |names| == |Split(line, ',')| >= 1
    ensures forall k :: 0 <= k < |names| ==> names[k] == Strip(Split(line, ',')[k])
    ensures forall k :: 0 <= k < |names| ==> ',' !in names[k] && Strip(names[k]) == names[k]
  {
    var parts := Split(line, ',');
    StripAll(parts, ',');
    seq(|parts|, k requires 0 <= k < |parts| => Strip(parts[k]))
  }

  /** Stripping pieces that avoid c gives stripped pieces that avoid c. */
  lemma StripAll(parts: seq<string>, c: char)
    requires forall k :: 0 <= k < |parts| ==> c !in parts[k]
    ensures forall k :: 0 <= k < |parts| ==> c !in Strip(parts[k]) && Strip(Strip(parts[k])) == Strip(parts[k])
  {
    forall k | 0 <= k < |parts| ensures c !in Strip(parts[k]) && Strip(Strip(parts[k])) == Strip(parts[k]) {
      StripKeepsOut(parts[k], c);
      StripIdempotent(parts[k]);
    }
  }

  /** What one pass of the loop body does, given the lines not yet read. */
  datatype Step =
    | Exit                                       // choice '5': leave the loop
    | Crash(error: Error)                        // an exception leaves the loop
    | Next(df: Table, used: nat, inPlace: bool)  // the frame after the pass, the lines it read,
                                                 // and whether it is still the same object

  /** One pass of the loop body of interactive_cleaning. */
  function StepOf(df: Table, lines: seq<string>, conv: Converter): (s: Step)
    requires WellFormed(df)
    ensures s.Next? ==> 1 <= s.used <= |lines| && WellFormed(s.df)
    ensures |lines| == 0 ==> s == Crash(EndOfInput)
  {
    if |lines| == 0 then Crash(EndOfInput)
    else
      var choice := Strip(lines[0]);
      if choice == "1" then RemoveStep(df, lines)
      else if choice == "2" then Next(FilterMissingValues(df), 1, false)
      else if choice == "3" then ReplaceStep(df, lines)
      else if choice == "4" then ChangeTypeStep(df, lines, conv)
      else if choice == "5" then Exit
      else Next(df, 1, true)
  }

  /** Choice '1': read the column list and drop those columns. */
  function RemoveStep(df: Table, lines: seq<string>): (s: Step)
    requires WellFormed(df) && |lines| >= 1
    ensures s.Next? ==> s.used == 2 <= |lines| && WellFormed(s.df) && !s.inPlace
    ensures !s.Exit?
    ensures |lines| < 2 ==> s == Crash(EndOfInput)
    ensures |lines| >= 2 ==> var removed := RemoveColumns(df, ParseColumns(lines[1]));
      && (s.Next? <==> removed.Ok?)
      && (s.Next? ==> s.df == removed.value)
      && (s.Crash? ==> s.error == removed.error)
  {
    if |lines| < 2 then Crash(EndOfInput)
    else
      match RemoveColumns(df, ParseColumns(lines[1]))
      case Err(e) => Crash(e)
      case Ok(t) => Next(t, 2, false)
  }

  /** Choice '3': read the method, and the custom value after "custom". */
  function ReplaceStep(df: Table, lines: seq<string>): (s: Step)
    requires WellFormed(df) && |lines| >= 1
    ensures s.Next? ==> 2 <= s.used <= |lines| && s.used <= 3 && WellFormed(s.df) && !s.inPlace
    ensures !s.Exit?
    ensures |lines| < 2 ==> s == Crash(EndOfInput)
    ensures |lines| == 2 && Strip(lines[1]) == "custom" ==> s == Crash(EndOfInput)
    ensures s.Next? ==> (s.used == 3 <==> Strip(lines[1]) == "custom")
    ensures |lines| >= 2 && Strip(lines[1]) != "custom" ==>
      var replaced := ReplaceMissingValues(df, Strip(lines[1]), None);
      && (s.Next? <==> replaced.Ok?)
      && (s.Next? ==> s.df == replaced.value)
      && (s.Crash? ==> s.error == replaced.error)
    ensures |lines| >= 3 && Strip(lines[1]) == "custom" ==>
      var replaced := ReplaceMissingValues(df, "custom", Some(Str(Strip(lines[2]))));
      && s.Next?
      && s.df == replaced.value
  {
    if |lines| < 2 then Crash(EndOfInput)
    else
      var how := Strip(lines[1]);
      if how == "custom" then
        if |lines| < 3 then Crash(EndOfInput)
        else
          match ReplaceMissingValues(df, how, Some(Str(Strip(lines[2]))))
          case Err(e) => Crash(e)
          case Ok(t) => Next(t, 3, false)
      else
        match ReplaceMissingValues(df, how, None)
        case Err(e) => Crash(e)
        case Ok(t) => Next(t, 2, false)
  }

  /** Choice '4': read the column and the type and convert in place. */
  function ChangeTypeStep(df: Table, lines: seq<string>, conv: Converter): (s: Step)
    requires WellFormed(df) && |lines| >= 1
    ensures s.Next? ==> s.used == 3 <= |lines| && WellFormed(s.df) && s.inPlace
    ensures !s.Exit?
    ensures |lines| < 3 ==> s == Crash(EndOfInput)
    ensures |lines| >= 3 ==> var changed := ChangedTable(df, Strip(lines[1]), Strip(lines[2]), conv);
      && (s.Next? <==> changed.Ok?)
      && (s.Next? ==> s.df == changed.value)
      && (s.Crash? ==> s.error == changed.error)
  {
    if |lines| < 3 then Crash(EndOfInput)
    else
      match ChangedTable(df, Strip(lines[1]), Strip(lines[2]), conv)
      case Err(e) => Crash(e)
      case Ok(t) => Next(t, 3, true)
  }

  /** The table interactive_cleaning returns for the given input lines, or
      the error that ends it. */
  function RunCli(df: Table, lines: seq<string>, conv: Converter): (r: Result<Table>)
    requires WellFormed(df)
    decreases |lines|
    ensures r.Ok? ==> WellFormed(r.value)
    ensures |lines| == 0 ==> r == Err(EndOfInput)
  {
    match StepOf(df, lines, conv)
    case Exit => Ok(df)
    case Crash(e) => Err(e)
    case Next(t, used, _) => RunCli(t, lines[used..], conv)
  }

  /** The contents of the frame object the caller passed in, once the loop
      is over: only in-place conversions made before the first rebinding
      reach it. */
  function CallerTable(df: Table, lines: seq<string>, conv: Converter): (r: Table)
    requires WellFormed(df)
    decreases |lines|
    ensures WellFormed(r)
    ensures (forall k :: 0 <= k < |lines| ==> Strip(lines[k]) != "4") ==> r == df
  {
    match StepOf(df, lines, conv)
    case Next(t, used, inPlace) => if inPlace then CallerTable(t, lines[used..], conv) else df
    case _ => df
  }

  /** What one pass of the loop body leaves: the loop is left, an exception
      escapes, or the frame `df` is bound to after the pass and the number
      of lines read. */
  datatype PassResult = Done | Raised(error: Error) | Continue(frame: DataFrame, used: nat)

  /** One pass of the loop body on the frame `df` is bound to, reading the
      remaining input lines. Choices '1' to '3' bind `df` to a new frame;
      choice '4' converts the frame in place. */
  method Pass(cur: DataFrame, rest: seq<string>, conv: Converter) returns (o: PassResult)
    requires cur.Valid()
    modifies cur
    ensures StepOf(old(cur.table), rest, conv).Exit? ==> o == Done && cur.table == old(cur.table)
    ensures StepOf(old(cur.table), rest, conv).Crash? ==>
      o == Raised(StepOf(old(cur.table), rest, conv).error) && cur.table == old(cur.table)
    ensures StepOf(old(cur.table), rest, conv).Next? ==>
      var step := StepOf(old(cur.table), rest, conv);
      && o.Continue? && o.used == step.used && o.frame.table == step.df && o.frame.Valid()
      && (step.inPlace ==> o.frame == cur)
      && (!step.inPlace ==> fresh(o.frame) && cur.table == old(cur.table))
    ensures o.Done? ==> RunCli(old(cur.table), rest, conv) == Ok(cur.table)
    ensures o.Raised? ==> RunCli(old(cur.table), rest, conv) == Err(o.error)
    ensures o.Continue? ==> (
      && 1 <= o.used <= |rest| && o.frame.Valid()
      && RunCli(old(cur.table), rest, conv) == RunCli(o.frame.table, rest[o.used..], conv))
    ensures !o.Continue? ==> CallerTable(old(cur.table), rest, conv) == cur.table
    ensures o.Continue? ==> (
      && (o.frame == cur || (fresh(o.frame) && cur.table == old(cur.table)))
      && CallerTable(old(cur.table), rest, conv) ==
           if o.frame == cur then CallerTable(o.frame.table, rest[o.used..], conv) else old(cur.table))
  {
    ghost var before := cur.table;
    ghost var step := StepOf(before, rest, conv);
    if |rest| == 0 {
      return Raised(EndOfInput);
    }
    var choice := Strip(rest[0]);
    if choice == "1" {
      assert step == RemoveStep(before, rest);
      if |rest| == 1 {
        return Raised(EndOfInput);
      }
      var removed := RemoveColumns(cur.table, ParseColumns(rest[1]));
      if removed.Err? {
        return Raised(removed.error);
      }
      var next := new DataFrame(removed.value);
      o := Continue(next, 2);
    } else if choice == "2" {
      var next := new DataFrame(FilterMissingValues(cur.table));
      o := Continue(next, 1);
    } else if choice == "3" {
      assert step == ReplaceStep(before, rest);
      if |rest| == 1 {
        return Raised(EndOfInput);
      }
      var how := Strip(rest[1]);
      var replaced;
      var used;
      if how == "custom" {
        if |rest| == 2 {
          return Raised(EndOfInput);
        }
        var customValue := Strip(rest[2]);
        replaced := ReplaceMissingValues(cur.table, how, Some(Str(customValue)));
        used := 3;
      } else {
        replaced := ReplaceMissingValues(cur.table, how, None);
        used := 2;
      }
      if replaced.Err? {
        return Raised(replaced.error);
      }
      var next := new DataFrame(replaced.value);
      o := Continue(next, used);
    } else if choice == "4" {
      assert step == ChangeTypeStep(before, rest, conv);
      if |rest| < 3 {
        return Raised(EndOfInput);
      }
      var column := Strip(rest[1]);
      var newType := Strip(rest[2]);
      var changed := ChangeDataTypes(cur, column, newType, conv);
      if changed.Err? {
        return Raised(changed.error);
      }
      o := Continue(changed.value, 3);
    } else if choice == "5" {
      o := Done;
    } else {
      o := Continue(cur, 1);
    }
  }

  /** interactive_cleaning: the loop over the input lines; `rest` holds the
      lines `input()` has not read yet. */
  method InteractiveCleaning(df: DataFrame, lines: seq<string>, conv: Converter)
      returns (r: Result<DataFrame>)
    requires df.Valid()
    modifies df
    ensures r.Ok? <==> RunCli(old(df.table), lines, conv).Ok?
    ensures r.Ok? ==> r.value.Valid() && r.value.table == RunCli(old(df.table), lines, conv).value
    ensures r.Err? ==> r.error == RunCli(old(df.table), lines, conv).error
    ensures df.table == CallerTable(old(df.table), lines, conv)
  {
    ghost var start := df.table;
    var cur := df;
    var rest := lines;
    while true
      invariant cur.Valid()
      invariant cur == df || fresh(cur)
      invariant RunCli(start, lines, conv) == RunCli(cur.table, rest, conv)
      invariant CallerTable(start, lines, conv) ==
        if cur == df then CallerTable(cur.table, rest, conv) else df.table
      decreases |rest|
    {
      ghost var dfBefore := df.table;
      var o := Pass(cur, rest, conv);
      match o
      case Done =>
        break;
      case Raised(e) =>
        r := Err(e);
        return;
      case Continue(next, used) =>
        assert next == cur || fresh(next);
        assert cur != df ==> df.table == dfBefore;
        cur := next;
        rest := rest[used..];
    }
    r := Ok(cur);
  }

  // ------------------------------------------------------------ properties

  /** An unknown choice reads one line, changes nothing and goes round again. */
  lemma InvalidChoice(df: Table, lines: seq<string>, conv: Converter)
    requires WellFormed(df) && |lines| > 0
    requires Strip(lines[0]) !in ["1", "2", "3", "4", "5"]
    ensures StepOf(df, lines, conv) == Next(df, 1, true)
    ensures RunCli(df, lines, conv) == RunCli(df, lines[1..], conv)
  {
  }

  predicate InvalidChoiceLine(line: string) {
    Strip(line) !in ["1", "2", "3", "4", "5"]
  }

  /** Any number of unknown choices in a row are skipped without effect. */
  lemma {:induction false} InvalidChoicesSkipped(df: Table, junk: seq<string>, rest: seq<string>, conv: Converter)
    requires WellFormed(df)
    requires forall k :: 0 <= k < |junk| ==> InvalidChoiceLine(junk[k])
    ensures RunCli(df, junk + rest, conv) == RunCli(df, rest, conv)
    ensures CallerTable(df, junk + rest, conv) == CallerTable(df, rest, conv)
  {
    if |junk| > 0 {
      var lines := junk + rest;
      assert lines[0] == junk[0];
      InvalidChoice(df, lines, conv);
      assert lines[1..] == junk[1..] + rest;
      InvalidChoicesSkipped(df, junk[1..], rest, conv);
    } else {
      assert junk + rest == rest;
    }
  }

  /** The choice '5' ends the session with the current table. */
  lemma ExitReturnsCurrent(df: Table, lines: seq<string>, conv: Converter)
    requires WellFormed(df) && |lines| > 0 && Strip(lines[0]) == "5"
    ensures RunCli(df, lines, conv) == Ok(df)
  {
    var choice := Strip(lines[0]);
    assert choice != "1" && choice != "2" && choice != "3" && choice != "4";
    assert StepOf(df, lines, conv) == Exit;
  }

  /** The choice '2' replaces the table by dropna of it. */
  lemma DropMissingChoice(df: Table, lines: seq<string>, conv: Converter)
    requires WellFormed(df) && |lines| > 0 && Strip(lines[0]) == "2"
    ensures RunCli(df, lines, conv) == RunCli(FilterMissingValues(df), lines[1..], conv)
  {
  }

  /** Only the choice '5' leaves the loop normally. */
  lemma StepExit(df: Table, lines: seq<string>, conv: Converter)
    requires WellFormed(df)
    ensures StepOf(df, lines, conv) == Exit ==> |lines| > 0 && Strip(lines[0]) == "5"
  {
    if |lines| > 0 {
      var choice := Strip(lines[0]);
      if choice == "1" {
        assert StepOf(df, lines, conv) == RemoveStep(df, lines);
      } else if choice == "2" {
        assert StepOf(df, lines, conv).Next?;
      } else if choice == "3" {
        assert StepOf(df, lines, conv) == ReplaceStep(df, lines);
      } else if choice == "4" {
        assert StepOf(df, lines, conv) == ChangeTypeStep(df, lines, conv);
      } else if choice != "5" {
        assert StepOf(df, lines, conv).Next?;
      }
    }
  }

  /** A line list without the choice '5' never ends the session normally. */
  lemma {:induction false} ExitNeeded(df: Table, lines: seq<string>, conv: Converter)
    requires WellFormed(df)
    requires forall k :: 0 <= k < |lines| ==> Strip(lines[k]) != "5"
    ensures RunCli(df, lines, conv).Err?
    decreases |lines|
  {
    var step := StepOf(df, lines, conv);
    StepExit(df, lines, conv);
    if step.Next? {
      var rest := lines[step.used..];
      assert forall k :: 0 <= k < |rest| ==> rest[k] == lines[k + step.used];
      ExitNeeded(step.df, rest, conv);
    }
  }

  /** A name without commas or surrounding blanks is read as that one column. */
  lemma ParseSingleColumn(name: string)
    requires Strip(name) == name && ',' !in name
    ensures ParseColumns(name) == [name]
  {
    JoinSplit([name], ',');
    assert Split(name, ',') == [name];
  }

  /** Removing one column the table does not have raises naming it. */
  lemma RemoveUnknownColumn(df: Table, name: string)
    requires WellFormed(df) && name !in df.cols
    ensures RemoveColumns(df, [name]) == Err(ColumnsNotFound([name]))
  {
    var missing := NotFound(df, [name]);
    assert name in missing;
  }

  /** An error raised by an operation ends the session: here, asking to
      remove a column the table does not have. */
  lemma UnknownColumnEndsSession(df: Table, lines: seq<string>, conv: Converter)
    requires WellFormed(df) && |lines| >= 2 && Strip(lines[0]) == "1"
    requires lines[1] !in df.cols && Strip(lines[1]) == lines[1] && ',' !in lines[1]
    ensures RunCli(df, lines, conv) == Err(ColumnsNotFound([lines[1]]))
  {
    assert RemoveColumns(df, ParseColumns(lines[1])) == Err(ColumnsNotFound([lines[1]])) by {
      ParseSingleColumn(lines[1]);
      RemoveUnknownColumn(df, lines[1]);
    }
    StepRemove(df, lines, conv);
    RunCliCrash(df, lines, conv);
  }

  /** The choice '1' drops the columns named on the next line, or raises. */
  lemma StepRemove(df: Table, lines: seq<string>, conv: Converter)
    requires WellFormed(df) && |lines| >= 2 && Strip(lines[0]) == "1"
    ensures RemoveColumns(df, ParseColumns(lines[1])).Err? ==>
      StepOf(df, lines, conv) == Crash(RemoveColumns(df, ParseColumns(lines[1])).error)
    ensures RemoveColumns(df, ParseColumns(lines[1])).Ok? ==>
      StepOf(df, lines, conv) == Next(RemoveColumns(df, ParseColumns(lines[1])).value, 2, false)
  {
  }

  /** The choice '3' fills with the method named on the next line, reading
      the custom value from the line after only for "custom". */
  lemma StepReplace(df: Table, lines: seq<string>, conv: Converter)
    requires WellFormed(df) && |lines| >= 2 && Strip(lines[0]) == "3"
    ensures Strip(lines[1]) != "custom" ==>
      var replaced := ReplaceMissingValues(df, Strip(lines[1]), None);
      StepOf(df, lines, conv) == if replaced.Ok? then Next(replaced.value, 2, false) else Crash(replaced.error)
    ensures Strip(lines[1]) == "custom" && |lines| >= 3 ==>
      StepOf(df, lines, conv) == Next(ReplaceMissingValues(df, "custom", Some(Str(Strip(lines[2])))).value, 3, false)
  {
    var choice := Strip(lines[0]);
    assert choice != "1" && choice != "2";
    assert StepOf(df, lines, conv) == ReplaceStep(df, lines);
  }

  /** The choice '4' converts the column named on the next line to the type
      on the line after, in the same frame, or raises. */
  lemma StepChangeType(df: Table, lines: seq<string>, conv: Converter)
    requires WellFormed(df) && |lines| >= 3 && Strip(lines[0]) == "4"
    ensures var changed := ChangedTable(df, Strip(lines[1]), Strip(lines[2]), conv);
      StepOf(df, lines, conv) == if changed.Ok? then Next(changed.value, 3, true) else Crash(changed.error)
  {
    var choice := Strip(lines[0]);
    assert choice != "1" && choice != "2" && choice != "3";
    assert StepOf(df, lines, conv) == ChangeTypeStep(df, lines, conv);
  }

  /** A replacement method other than mean, median and custom ends the
      session with the error replace_missing_values raises. */
  lemma UnknownMethodEndsSession(df: Table, lines: seq<string>, conv: Converter)
    requires WellFormed(df) && |lines| >= 2 && Strip(lines[0]) == "3"
    requires Strip(lines[1]) != "mean" && Strip(lines[1]) != "median" && Strip(lines[1]) != "custom"
    ensures RunCli(df, lines, conv) == Err(InvalidReplacement)
  {
    StepReplace(df, lines, conv);
    RunCliCrash(df, lines, conv);
  }

  /** A pass that raises is the end of the session. */
  lemma RunCliCrash(df: Table, lines: seq<string>, conv: Converter)
    requires WellFormed(df) && StepOf(df, lines, conv).Crash?
    ensures RunCli(df, lines, conv) == Err(StepOf(df, lines, conv).error)
  {
  }
}
