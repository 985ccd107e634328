/**
 * The `events.duration` function up to planning: reading the call's
 * arguments into an operation spec (with defaults), turning that into a
 * procedure spec, and copying procedure specs.
 */
module DurationSpec {
  import opened Basics
  import opened Tables

  const DurationKind: string := "duration"

  /** One second in nanoseconds, the default unit. */
  const Second: int := 1_000_000_000

  const DefaultTimeColLabel: string := "_time"
  const DefaultStopColLabel: string := "_stop"
  const DefaultColumnName: string := "duration"

  /** The nanosecond count that Go's zero `time.Time` converts to (its Unix
      nanosecond count wraps around in 64 bits); it is what a relative time
      carries as its absolute part. */
  const ZeroTimeNanos: int := -6795364578871345152

  /** `flux.Time`: either relative to now or an absolute instant. */
  datatype FluxTime = FluxTime(isRelative: bool, relative: int, absolute: int)

  /** `flux.Now`: relative, with no offset. */
  const Now: FluxTime := FluxTime(true, 0, ZeroTimeNanos)

  /** A keyword argument's value, by kind. */
  datatype ArgValue = ADuration(ns: int) | AString(s: string) | ATime(t: int) | ATables(id: nat) | AOther

  type Arguments = map<string, ArgValue>

  /** The errors of this transformation, from argument reading to `Process`. */
  datatype Error =
    | MissingArgument(arg: string)
    | WrongArgumentKind(arg: string, want: string)
    | InvalidSpecType(kind: string)
    | DuplicateTable(key: GroupKey)
    | MissingColumn(column: string)
    | StopColumnNotTime(column: string, got: ColType)
    | BuilderFailed(cause: BuilderError)

  /** The flux error code each error carries. */
  function CodeOf(e: Error): (c: Code)
    ensures e.MissingArgument? || e.WrongArgumentKind? ==> c == Invalid
    ensures e.InvalidSpecType? ==> c == Internal
    ensures e.DuplicateTable? || e.MissingColumn? || e.StopColumnNotTime? ==> c == FailedPrecondition
  {
    match e
    case MissingArgument(_) => Invalid
    case WrongArgumentKind(_, _) => Invalid
    case InvalidSpecType(_) => Internal
    case DuplicateTable(_) => FailedPrecondition
    case MissingColumn(_) => FailedPrecondition
    case StopColumnNotTime(_, _) => FailedPrecondition
    case BuilderFailed(_) => Unknown
  }

  // ----- Argument getters -----

  /** `Arguments.GetDuration`: absent is `None`, another kind is an error. */
  function GetDuration(args: Arguments, name: string): (r: Result<Option<int>, Error>)
    ensures name !in args ==> r == Ok(None)
    ensures name in args ==> (r.Ok? <==> args[name].ADuration?)
    ensures r.Ok? && r.value.Some? ==> name in args && args[name] == ADuration(r.value.value)
  {
    if name !in args then Ok(None)
    else match args[name]
      case ADuration(d) => Ok(Some(d))
      case _ => Err(WrongArgumentKind(name, "duration"))
  }

  /** `Arguments.GetString`. */
  function GetString(args: Arguments, name: string): (r: Result<Option<string>, Error>)
    ensures name !in args ==> r == Ok(None)
    ensures name in args ==> (r.Ok? <==> args[name].AString?)
    ensures r.Ok? && r.value.Some? ==> name in args && args[name] == AString(r.value.value)
  {
    if name !in args then Ok(None)
    else match args[name]
      case AString(s) => Ok(Some(s))
      case _ => Err(WrongArgumentKind(name, "string"))
  }

  /** `Arguments.GetTime`: a time is absolute, a duration is relative to now. */
  function GetTime(args: Arguments, name: string): (r: Result<Option<FluxTime>, Error>)
    ensures name !in args ==> r == Ok(None)
    ensures name in args ==> (r.Ok? <==> args[name].ATime? || args[name].ADuration?)
    ensures r.Ok? && r.value.Some? && args[name].ATime? ==> r.value.value == FluxTime(false, 0, args[name].t)
    ensures name in args && args[name].ADuration? ==> r == Ok(Some(FluxTime(true, args[name].ns, ZeroTimeNanos)))
  {
    if name !in args then Ok(None)
    else match args[name]
      case ATime(t) => Ok(Some(FluxTime(false, 0, t)))
      case ADuration(d) => Ok(Some(FluxTime(true, d, ZeroTimeNanos)))
      case _ => Err(WrongArgumentKind(name, "time"))
  }

  /** `Administration.AddParentFromArgs`: the `tables` argument must be
      present and be a table object; its identifier is the parent. */
  function AddParentFromArgs(args: Arguments): (r: Result<nat, Error>)
    ensures r.Ok? <==> "tables" in args && args["tables"].ATables?
    ensures "tables" !in args ==> r == Err(MissingArgument("tables"))
  {
    if "tables" !in args then Err(MissingArgument("tables"))
    else match args["tables"]
      case ATables(id) => Ok(id)
      case _ => Err(WrongArgumentKind("tables", "table"))
  }

  // ----- Specs -----

  datatype DurationOpSpec = DurationOpSpec(
    unit: int, timeColumn: string, columnName: string, stopColumn: string, stop: FluxTime, isStop: bool)

  datatype DurationProcedureSpec = DurationProcedureSpec(
    unit: int, timeColumn: string, columnName: string, stopColumn: string, stop: FluxTime, isStop: bool)

  /** An operation spec as the planner passes it: this one or another kind. */
  datatype OperationSpec = DurationOp(op: DurationOpSpec) | OtherOp(opKind: string)

  datatype ProcedureSpec = DurationProc(proc: DurationProcedureSpec) | OtherProc(procKind: string)

  /** The optional arguments, in the order `createDurationOpSpec` reads them. */
  const OptionalArgs: seq<string> := ["unit", "timeColumn", "columnName", "stopColumn", "stop"]

  /** The kind each optional argument must have when present. */
  predicate WellKinded(args: Arguments, name: string)
  {
    name in args ==>
      if name == "unit" then args[name].ADuration?
      else if name == "stop" then args[name].ATime? || args[name].ADuration?
      else args[name].AString?
  }

  /**
   * `createDurationOpSpec`: register the parent, then read each optional
   * argument in turn, falling back to its default; the first failure ends
   * the call.
   */
  function CreateDurationOpSpec(args: Arguments): (r: Result<DurationOpSpec, Error>)
    ensures r.Ok? ==> (r.value.isStop <==> "stop" in args)
  {
    match AddParentFromArgs(args)
    case Err(e) => Err(e)
    case Ok(_) =>
      match GetDuration(args, "unit")
      case Err(e) => Err(e)
      case Ok(unitArg) =>
        var unit := if unitArg.Some? then unitArg.value else Second;
        match GetString(args, "timeColumn")
        case Err(e) => Err(e)
        case Ok(timeArg) =>
          var timeColumn := if timeArg.Some? then timeArg.value else DefaultTimeColLabel;
          match GetString(args, "columnName")
          case Err(e) => Err(e)
          case Ok(nameArg) =>
            var columnName := if nameArg.Some? then nameArg.value else DefaultColumnName;
            match GetString(args, "stopColumn")
            case Err(e) => Err(e)
            case Ok(stopColArg) =>
              var stopColumn := if stopColArg.Some? then stopColArg.value else DefaultStopColLabel;
              match GetTime(args, "stop")
              case Err(e) => Err(e)
              case Ok(stopArg) =>
                if stopArg.Some? then
                  Ok(DurationOpSpec(unit, timeColumn, columnName, stopColumn, stopArg.value, true))
                else
                  Ok(DurationOpSpec(unit, timeColumn, columnName, stopColumn, Now, false))
  }

  /** With only the `tables` argument every field takes its default. */
  lemma Defaults(id: nat)
    ensures CreateDurationOpSpec(map["tables" := ATables(id)]) ==
            Ok(DurationOpSpec(Second, DefaultTimeColLabel, DefaultColumnName, DefaultStopColLabel, Now, false))
  {
  }

  /** Each optional argument, when present and of the right kind, is taken
      as given; when absent, its default is used. */
  lemma ArgumentsTaken(args: Arguments)
    requires CreateDurationOpSpec(args).Ok?
    ensures var s := CreateDurationOpSpec(args).value;
            && s.unit == (if "unit" in args then args["unit"].ns else Second)
            && s.timeColumn == (if "timeColumn" in args then args["timeColumn"].s else DefaultTimeColLabel)
            && s.columnName == (if "columnName" in args then args["columnName"].s else DefaultColumnName)
            && s.stopColumn == (if "stopColumn" in args then args["stopColumn"].s else DefaultStopColLabel)
            && (s.isStop <==> "stop" in args)
            && (!s.isStop ==> s.stop == Now)
            && ("stop" in args ==> GetTime(args, "stop").Ok? && GetTime(args, "stop").value.Some? &&
                                   s.stop == GetTime(args, "stop").value.value)
            && ("stop" in args && args["stop"].ATime? ==> s.stop == FluxTime(false, 0, args["stop"].t))
            && ("stop" in args && args["stop"].ADuration? ==> s.stop == FluxTime(true, args["stop"].ns, ZeroTimeNanos))
  {
  }

  /** Creation succeeds exactly when `tables` is a table object and every
      optional argument present has its kind. */
  lemma CreateSucceedsIff(args: Arguments)
    ensures CreateDurationOpSpec(args).Ok? <==>
            AddParentFromArgs(args).Ok? && forall k :: 0 <= k < |OptionalArgs| ==> WellKinded(args, OptionalArgs[k])
  {
    assert OptionalArgs[0] == "unit" && OptionalArgs[1] == "timeColumn" && OptionalArgs[2] == "columnName";
    assert OptionalArgs[3] == "stopColumn" && OptionalArgs[4] == "stop";
    var all := WellKinded(args, "unit") && WellKinded(args, "timeColumn") && WellKinded(args, "columnName") &&
               WellKinded(args, "stopColumn") && WellKinded(args, "stop");
    if !all {
      assert !WellKinded(args, OptionalArgs[0]) || !WellKinded(args, OptionalArgs[1]) ||
             !WellKinded(args, OptionalArgs[2]) || !WellKinded(args, OptionalArgs[3]) ||
             !WellKinded(args, OptionalArgs[4]);
    }
  }

  /** The first failure decides the error: a bad `tables` argument wins over
      everything, and a badly kinded optional argument wins over every one
      read after it. */
  lemma EarlyAbort(args: Arguments, k: nat)
    requires k < |OptionalArgs| && !WellKinded(args, OptionalArgs[k])
    requires forall j :: 0 <= j < k ==> WellKinded(args, OptionalArgs[j])
    ensures AddParentFromArgs(args).Err? ==> CreateDurationOpSpec(args) == Err(AddParentFromArgs(args).error)
    ensures AddParentFromArgs(args).Ok? ==>
              CreateDurationOpSpec(args) == Err(WrongArgumentKind(OptionalArgs[k], KindName(OptionalArgs[k])))
  {
    assert OptionalArgs[0] == "unit" && OptionalArgs[1] == "timeColumn" && OptionalArgs[2] == "columnName";
    assert OptionalArgs[3] == "stopColumn" && OptionalArgs[4] == "stop";
    if k > 0 { assert WellKinded(args, OptionalArgs[0]); }
    if k > 1 { assert WellKinded(args, OptionalArgs[1]); }
    if k > 2 { assert WellKinded(args, OptionalArgs[2]); }
    if k > 3 { assert WellKinded(args, OptionalArgs[3]); }
  }

  /** The kind named in the error for a badly kinded optional argument. */
  function KindName(name: string): string
  {
    if name == "unit" then "duration" else if name == "stop" then "time" else "string"
  }

  /** `newDurationProcedure`: a duration operation becomes a procedure spec
      with the same six fields; any other kind is an internal error. */
  function NewDurationProcedure(qs: OperationSpec): (r: Result<ProcedureSpec, Error>)
    ensures qs.OtherOp? ==> r == Err(InvalidSpecType(qs.opKind))
    ensures qs.DurationOp? ==> r.Ok? && r.value.DurationProc? && SameFields(qs.op, r.value.proc)
  {
    match qs
    case OtherOp(kind) => Err(InvalidSpecType(kind))
    case DurationOp(s) =>
      Ok(DurationProc(DurationProcedureSpec(s.unit, s.timeColumn, s.columnName, s.stopColumn, s.stop, s.isStop)))
  }

  /** Field-for-field agreement of an operation spec and a procedure spec. */
  predicate SameFields(o: DurationOpSpec, p: DurationProcedureSpec)
  {
    o.unit == p.unit && o.timeColumn == p.timeColumn && o.columnName == p.columnName &&
    o.stopColumn == p.stopColumn && o.stop == p.stop && o.isStop == p.isStop
  }

  /** `DurationProcedureSpec.Copy`. */
  function Copy(s: DurationProcedureSpec): (r: DurationProcedureSpec)
    ensures r == s
  {
    DurationProcedureSpec(s.unit, s.timeColumn, s.columnName, s.stopColumn, s.stop, s.isStop)
  }

  /** Planning then copying loses nothing: the copy of the procedure built
      from a created spec still has the created spec's fields. */
  lemma PlanAndCopyPreserve(args: Arguments)
    requires CreateDurationOpSpec(args).Ok?
    ensures var p := NewDurationProcedure(DurationOp(CreateDurationOpSpec(args).value));
            p.Ok? && p.value.DurationProc? && SameFields(CreateDurationOpSpec(args).value, Copy(p.value.proc))
  {
  }
}
