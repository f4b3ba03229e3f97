/**
  The three front-ends that do more than hand their parameters to
  `__HandleParams`: `Obminimize` fills in a missing output format before
  the build, `Obenergy` picks the energy line out of the transcript after
  it, and `Obgen` builds into a temporary file and chains an obabel
  conversion to the file the caller asked for.
 */
module Pipelines {
  import opened Wrappers
  import opened Text
  import opened Values
  import opened Commands
  import opened Runner
  import opened Builder
  import opened FrontEnds

  // ---------------------------------------------------------------------
  // Obminimize
  // ---------------------------------------------------------------------

  /**
    The output format obminimize is given: the caller's, or else the text
    after the last dot of the output path. A path that is not a string has
    no `split`.
   */
  function DefaultFormat(options: map<string, Option<Value>>): Result<Value, Error> {
    match Given(options, Ob("OutputFormat"))
    case Some(format) => Ok(format)
    case None =>
      match Given(options, Ob("OutputFile"))
      case Some(VStr(path)) => Ok(VStr(Last(Split(path, '.'))))
      case _ => Err(AttributeError("object has no attribute 'split'"))
  }

  /** A format the caller gives is kept as it is. */
  lemma {:induction false} GivenFormatKept(options: map<string, Option<Value>>, format: Value)
    requires Given(options, Ob("OutputFormat")) == Some(format)
    ensures DefaultFormat(options) == Ok(format)
  {
  }

  /**
    Without a format, the output path's extension is used: the path ends
    with it, it holds no dot, and it is either the whole path (a path
    without a dot) or what follows the path's last dot.
   */
  lemma {:induction false} DerivedFormat(options: map<string, Option<Value>>, path: string)
    requires Given(options, Ob("OutputFormat")) == None && Given(options, Ob("OutputFile")) == Some(VStr(path))
    ensures DefaultFormat(options).Ok? && DefaultFormat(options).value.VStr?
    ensures var ext := DefaultFormat(options).value.s;
      |ext| <= |path| && path[|path| - |ext|..] == ext && '.' !in ext &&
      (|ext| == |path| || path[|path| - |ext| - 1] == '.') &&
      ('.' !in path ==> ext == path)
  {
    LastPiece(path, '.');
  }

  /** Obminimize raises exactly when there is neither a format nor a string output path. */
  lemma {:induction false} DefaultFormatRaises(options: map<string, Option<Value>>)
    ensures DefaultFormat(options).Err? <==>
      Given(options, Ob("OutputFormat")).None? &&
      !(Given(options, Ob("OutputFile")).Some? && Given(options, Ob("OutputFile")).value.VStr?)
    ensures DefaultFormat(options).Err? ==> DefaultFormat(options).error.AttributeError?
  {
  }

  /** `Obminimize(...)`: once Python binds the call, the format is settled, then obminimize is built with it. */
  function ObminimizeCall(call: Call, env: Env): (Result<Build, Error>, seq<Event>)
    requires call.execute && call.verbose ==> Terminates(env.process.trace)
  {
    if !Accepted(Obminimize, call) then (Err(BindingError(Obminimize, call)), [])
    else
    match DefaultFormat(call.options)
    case Err(e) => (Err(e), [])
    case Ok(format) => Invoke(Obminimize, call.(options := call.options[Ob("OutputFormat") := Some(format)]), env)
  }

  /** The options of a plain minimisation: input and output paths and a number of steps. */
  function MinimizeOptions(input: string, output: string, steps: Value): map<string, Option<Value>> {
    map[Ob("InputFile") := Some(VStr(input)), Ob("OutputFile") := Some(VStr(output)), Ob("MinimizationSteps") := Some(steps)]
  }

  /** A plain minimisation gives no format and a string output path. */
  lemma {:induction false} MinimizeFormat(input: string, output: string, steps: Value)
    ensures Given(MinimizeOptions(input, output, steps), Ob("OutputFormat")) == None
    ensures Given(MinimizeOptions(input, output, steps), Ob("OutputFile")) == Some(VStr(output))
  {
    assert Ob("OutputFormat")[3] == 'O' && Ob("OutputFile")[3] == 'O' && Ob("InputFile")[3] == 'I' && Ob("MinimizationSteps")[3] == 'M';
  }

  /** Python binds a plain minimisation, with or without a format: all its names are obminimize's, and the three required ones are there. */
  lemma {:induction false} MinimizeAccepted(input: string, output: string, steps: Value, format: Option<Value>, call: Call)
    requires call.options == if format.Some? then MinimizeOptions(input, output, steps)[Ob("OutputFormat") := format]
                             else MinimizeOptions(input, output, steps)
    ensures Accepted(Obminimize, call)
  {
    var keys := Keys(Obminimize);
    var base := call.(options := MinimizeOptions(input, output, steps));
    assert keys[0] == "InputFile" && keys[1] == "OutputFile" && keys[2] == "MinimizationSteps" && keys[5] == "OutputFormat";
    forall name | name in base.options ensures name in FrontEnds.Obs(keys) {
      assert name == Ob("InputFile") || name == Ob("OutputFile") || name == Ob("MinimizationSteps");
      ObsMembership(keys, name[3..]);
    }
    if format.Some? {
      AcceptedWith(Obminimize, base, "OutputFormat", format);
      assert call == base.(options := base.options[Ob("OutputFormat") := format]);
    }
  }

  /** What such a call, its format filled in, gives each of obminimize's options. */
  lemma {:induction false} MinimizeGiven(input: string, output: string, steps: Value, ext: string, call: Call)
    requires call.options == MinimizeOptions(input, output, steps)[Ob("OutputFormat") := Some(VStr(ext))]
    ensures Given(call.options, Ob("MinimizationSteps")) == Some(steps)
    ensures Given(call.options, Ob("MinimizationAlgorithm")) == None
    ensures Given(call.options, Ob("ForceField")) == None
    ensures Given(call.options, Ob("OutputFormat")) == Some(VStr(ext))
    ensures Given(call.options, Ob("AddHydrogen")) == None
    ensures Given(call.options, Ob("InputFile")) == Some(VStr(input))
    ensures Given(call.options, Ob("OutputFile")) == Some(VStr(output))
  {
    assert Ob("MinimizationAlgorithm")[15] == 'A' && Ob("MinimizationSteps")[15] == 'S';
    assert Ob("ForceField")[3] == 'F' && Ob("AddHydrogen")[3] == 'A';
  }

  /** One more key: its option is supplied when the call gives it a value. */
  lemma {:induction false} SuppliedSnoc(keys: seq<string>, k: string, call: Call)
    ensures Supplied(keys + [k], call) ==
      Supplied(keys, call) + if Given(call.options, Ob(k)).Some? then [Param(Ob(k), Given(call.options, Ob(k)))] else []
  {
    assert (keys + [k])[..|keys|] == keys;
  }

  /** The parameters obminimize's builder renders for such a call: the steps and the format, then the two paths. */
  lemma {:induction false} MinimizeSupplied(input: string, output: string, steps: Value, ext: string, call: Call)
    requires call.options == MinimizeOptions(input, output, steps)[Ob("OutputFormat") := Some(VStr(ext))]
    ensures Supplied(PlacedKeys(Obminimize), call) ==
      [Param(Ob("MinimizationSteps"), Some(steps)), Param(Ob("OutputFormat"), Some(VStr(ext))),
       Param(Ob("InputFile"), Some(VStr(input))), Param(Ob("OutputFile"), Some(VStr(output)))]
  {
    MinimizeGiven(input, output, steps, ext, call);
    var k1 := ["MinimizationSteps"];
    SuppliedSnoc([], "MinimizationSteps", call);
    var k2 := k1 + ["MinimizationAlgorithm"];
    SuppliedSnoc(k1, "MinimizationAlgorithm", call);
    var k3 := k2 + ["ForceField"];
    SuppliedSnoc(k2, "ForceField", call);
    var k4 := k3 + ["OutputFormat"];
    SuppliedSnoc(k3, "OutputFormat", call);
    var k5 := k4 + ["AddHydrogen"];
    SuppliedSnoc(k4, "AddHydrogen", call);
    var k6 := k5 + ["InputFile"];
    SuppliedSnoc(k5, "InputFile", call);
    var k7 := k6 + ["OutputFile"];
    SuppliedSnoc(k6, "OutputFile", call);
    assert PlacedKeys(Obminimize) == k7;
  }

  /** The text after the last dot of `<base>.<ext>` is ext when ext has no dot. */
  lemma {:induction false} ExtensionOf(base: string, ext: string)
    requires '.' !in ext
    ensures Last(Split(base + "." + ext, '.')) == ext
  {
    var s := base + "." + ext;
    LastPiece(s, '.');
    assert s[|base|] == '.';
    assert s[|s| - |ext|..] == ext;
  }

  /**
    The command of a plain minimisation: the executable, then the steps and
    format options, then the quoted input and the redirect to the output,
    separated by single spaces.
   */
  function MinimizeCommand(input: string, output: string, steps: Value, ext: string): string {
    "obminimize" + " " + ("-n " + Show(steps)) + " " + ("-o " + ext) + " " + ("\"" + input + "\"") + " " + ("> \"" + output + "\"")
  }

  /** The dictionary of fragments of a plain minimisation. */
  function MinimizeArgs(input: string, output: string, steps: Value, ext: string): map<string, string> {
    map["MinimizationSteps" := "-n " + Show(steps), "OutputFormat" := "-o " + ext,
        "InputFile" := "\"" + input + "\"", "OutputFile" := "> \"" + output + "\""]
  }

  /** What the four option lambdas of a plain minimisation give. */
  lemma {:induction false} MinimizeFragments(input: string, output: string, steps: Value, ext: string)
    ensures Fragment(Obminimize, "MinimizationSteps", steps) == Ok("-n " + Show(steps))
    ensures Fragment(Obminimize, "OutputFormat", VStr(ext)) == Ok("-o " + ext)
    ensures Fragment(Obminimize, "InputFile", VStr(input)) == Ok("\"" + input + "\"")
    ensures Fragment(Obminimize, "OutputFile", VStr(output)) == Ok("> \"" + output + "\"")
  {
    InputFileFragment(Obminimize, VStr(input));
    OutputFileFragment(Obminimize, VStr(output));
    assert "-n " + Show(steps) + "" == "-n " + Show(steps);
    assert "-o " + ext + "" == "-o " + ext;
  }

  /** The command and dictionary the loop builds, fragment by fragment, are those of a plain minimisation. */
  lemma {:induction false} MinimizeText(input: string, output: string, steps: Value, ext: string)
    ensures ExecName(Obminimize) + " " + ("-n " + Show(steps)) + " " + ("-o " + ext) + " " + ("\"" + input + "\"") + " " + ("> \"" + output + "\"") + " " ==
      MinimizeCommand(input, output, steps, ext) + " "
    ensures map["MinimizationSteps" := "-n " + Show(steps)]["OutputFormat" := "-o " + ext]["InputFile" := "\"" + input + "\""]["OutputFile" := "> \"" + output + "\""] ==
      MinimizeArgs(input, output, steps, ext)
  {
  }

  /** The option names of a plain minimisation other than the input path hold no underscore and are not `Verbose`. */
  lemma {:induction false} MinimizeKeys()
    ensures '_' !in "MinimizationSteps" && "MinimizationSteps" !in {"Verbose", "InputFile"}
    ensures '_' !in "OutputFormat" && "OutputFormat" !in {"Verbose", "InputFile"}
    ensures '_' !in "OutputFile" && "OutputFile" !in {"Verbose", "InputFile"}
  {
  }

  /** The loop over the four supplied parameters of a plain minimisation. */
  lemma {:induction false} MinimizeLoop(input: string, output: string, steps: Value, ext: string, ps: seq<Param>, verbose: bool, inputExists: bool)
    requires |ps| == 4 && ps[0] == Param(Ob("MinimizationSteps"), Some(steps)) && ps[1] == Param(Ob("OutputFormat"), Some(VStr(ext)))
    requires ps[2] == Param(Ob("InputFile"), Some(VStr(input))) && ps[3] == Param(Ob("OutputFile"), Some(VStr(output)))
    ensures Assembly(Obminimize, ps, verbose, inputExists) ==
      Ok(Assembled(MinimizeCommand(input, output, steps, ext) + " ", MinimizeArgs(input, output, steps, ext),
        if inputExists then [] else [MissingInputMessage(VStr(input))]))
  {
    MinimizeFragments(input, output, steps, ext);
    MinimizeKeys();
    assert [] + [MissingInputMessage(VStr(input))] == [MissingInputMessage(VStr(input))];
    var f1, f2, f3, f4 := "-n " + Show(steps), "-o " + ext, "\"" + input + "\"", "> \"" + output + "\"";
    AssemblyTwoOptions(Obminimize, ps, "MinimizationSteps", steps, f1, "OutputFormat", VStr(ext), f2, verbose, inputExists);
    var a := Assembled(ExecName(Obminimize) + " " + f1 + " " + f2 + " ", map["MinimizationSteps" := f1]["OutputFormat" := f2], []);
    AssemblyInputLast(Obminimize, ps, 2, a, input, f3, "OutputFile", VStr(output), f4, verbose, inputExists);
    AssemblyWhole(Obminimize, ps, verbose, inputExists);
    MinimizeText(input, output, steps, ext);
  }

  /** What obminimize's builder assembles for a plain minimisation with its format settled. */
  lemma {:induction false} MinimizeAssembly(input: string, output: string, steps: Value, ext: string, call: Call, inputExists: bool)
    requires call.options == MinimizeOptions(input, output, steps)[Ob("OutputFormat") := Some(VStr(ext))]
    ensures Assembly(Obminimize, Supplied(PlacedKeys(Obminimize), call), call.verbose, inputExists) ==
      Ok(Assembled(MinimizeCommand(input, output, steps, ext) + " ", MinimizeArgs(input, output, steps, ext),
        if inputExists then [] else [MissingInputMessage(VStr(input))]))
  {
    MinimizeSupplied(input, output, steps, ext, call);
    MinimizeLoop(input, output, steps, ext, Supplied(PlacedKeys(Obminimize), call), call.verbose, inputExists);
  }

  /** The minimisation command neither starts nor ends with whitespace. */
  lemma {:induction false} MinimizeStripped(input: string, output: string, steps: Value, ext: string)
    ensures Strip(MinimizeCommand(input, output, steps, ext) + " ") == MinimizeCommand(input, output, steps, ext)
  {
    var cmd := MinimizeCommand(input, output, steps, ext);
    assert cmd[0] == 'o' && Last(cmd) == '"';
    StripTrailingSpace(cmd);
  }

  /** obminimize's builder, for a plain minimisation with its format settled. */
  lemma {:induction false} MinimizeInvoke(input: string, output: string, steps: Value, ext: string, call: Call, env: Env)
    requires call.options == MinimizeOptions(input, output, steps)[Ob("OutputFormat") := Some(VStr(ext))]
    requires call.execute && call.verbose ==> Terminates(env.process.trace)
    ensures var cmd := MinimizeCommand(input, output, steps, ext);
      var args := MinimizeArgs(input, output, steps, ext);
      var warnings := WarningEvents(if env.inputExists then [] else [MissingInputMessage(VStr(input))]);
      Invoke(Obminimize, call, env) ==
        if !call.execute then (Ok(Build("obminimize", args, cmd, None, "Obminimize")), warnings)
        else
          var (run, events) := Execution(cmd, "OpenBabel", call.verbose, false, env.process);
          (if run.Err? then Err(run.error) else Ok(Build("obminimize", args, cmd, Some(run.value), "Obminimize")), warnings + events)
  {
    MinimizeAccepted(input, output, steps, Some(VStr(ext)), call);
    MinimizeAssembly(input, output, steps, ext, call, env.inputExists);
    MinimizeStripped(input, output, steps, ext);
    var cmd := MinimizeCommand(input, output, steps, ext);
    var a := Assembled(cmd + " ", MinimizeArgs(input, output, steps, ext), if env.inputExists then [] else [MissingInputMessage(VStr(input))]);
    assert ExecName(Obminimize) == "obminimize" && FuncName(Obminimize) == "Obminimize" && !ForceVerbose(Obminimize, call.verbose);
    InvokeAssembled(Obminimize, call, env, a, cmd);
  }

  /**
    `Obminimize(OB_InputFile=input, OB_OutputFile='<base>.<ext>',
    OB_MinimizationSteps=steps)`: the format `ext` is taken from the output
    path, the options come before the paths, the output is a redirect, and
    the command `obminimize -n <steps> -o <ext> "<input>" > "<output>"` is
    run without forced echo when `Execute` is set.
   */
  lemma {:induction false} ObminimizeExample(input: string, base: string, ext: string, steps: Value, call: Call, env: Env)
    requires '.' !in ext
    requires call.options == MinimizeOptions(input, base + "." + ext, steps)
    requires call.execute && call.verbose ==> Terminates(env.process.trace)
    ensures var output := base + "." + ext;
      var cmd := MinimizeCommand(input, output, steps, ext);
      var args := MinimizeArgs(input, output, steps, ext);
      var warnings := WarningEvents(if env.inputExists then [] else [MissingInputMessage(VStr(input))]);
      ObminimizeCall(call, env) ==
        if !call.execute then (Ok(Build("obminimize", args, cmd, None, "Obminimize")), warnings)
        else
          var (run, events) := Execution(cmd, "OpenBabel", call.verbose, false, env.process);
          (if run.Err? then Err(run.error) else Ok(Build("obminimize", args, cmd, Some(run.value), "Obminimize")), warnings + events)
  {
    var output := base + "." + ext;
    MinimizeAccepted(input, output, steps, None, call);
    MinimizeFormat(input, output, steps);
    ExtensionOf(base, ext);
    assert DefaultFormat(call.options) == Ok(VStr(ext));
    MinimizeInvoke(input, output, steps, ext, call.(options := call.options[Ob("OutputFormat") := Some(VStr(ext))]), env);
  }

  // ---------------------------------------------------------------------
  // Obenergy
  // ---------------------------------------------------------------------

  /** `[x.strip('\n') for x in StdOut if x != '\n']` */
  function MessageLines(stdOut: seq<string>): seq<string> {
    if stdOut == [] then []
    else
      var x := Last(stdOut);
      MessageLines(stdOut[..|stdOut| - 1]) + (if x != "\n" then [StripChar(x, '\n')] else [])
  }

  /** `[...][-1]`: the last of those lines; an empty list raises `IndexError`. */
  function LastMessage(stdOut: seq<string>): Result<string, Error> {
    var lines := MessageLines(stdOut);
    if lines == [] then Err(IndexError("list index out of range")) else Ok(Last(lines))
  }

  /**
    What `Obenergy` does to the returned dictionary: without an output
    file, the last non-blank transcript line becomes `CmdRtrn['MsgOut']`.
    There is no `CmdRtrn` to index when the command was not run.
   */
  function EnergyResult(r: Result<Build, Error>, toFile: bool): Result<Build, Error> {
    if r.Err? || toFile then r
    else
      match r.value.cmdRtrn
      case None => Err(TypeError("'NoneType' object is not subscriptable"))
      case Some(data) =>
        match LastMessage(data.stdOut)
        case Err(e) => Err(e)
        case Ok(m) => Ok(r.value.(cmdRtrn := Some(data.(msgOut := Some(m)))))
  }

  /** `Obenergy(...)`: obenergy is built (and run), then its dictionary is completed. */
  function ObenergyCall(call: Call, env: Env): (Result<Build, Error>, seq<Event>)
    requires call.execute && call.verbose ==> Terminates(env.process.trace)
  {
    var (r, events) := Invoke(Obenergy, call, env);
    (EnergyResult(r, Given(call.options, Ob("OutputFile")).Some?), events)
  }

  /**
    A call Python cannot bind raises `TypeError` before `Obminimize` looks
    for a format or `Obenergy` for an energy line, and prints nothing.
   */
  lemma {:induction false} CallsRefused(call: Call, env: Env)
    requires call.execute && call.verbose ==> Terminates(env.process.trace)
    ensures !Accepted(Obminimize, call) ==>
      ObminimizeCall(call, env).0.Err? && ObminimizeCall(call, env).0.error.TypeError? && ObminimizeCall(call, env).1 == []
    ensures !Accepted(Obenergy, call) ==>
      ObenergyCall(call, env).0.Err? && ObenergyCall(call, env).0.error.TypeError? && ObenergyCall(call, env).1 == []
  {
    BindingRefused(Obenergy, call, env);
  }

  /**
    `Obminimize(OB_InputFile='a.sdf', OB_MinimizationSteps=5)` lacks its
    output file: the binding raises `TypeError`, before the missing format
    could raise `AttributeError`.
   */
  lemma {:induction false} ObminimizeWithoutOutput(call: Call, env: Env)
    requires call.options == map[Ob("InputFile") := Some(VStr("a.sdf")), Ob("MinimizationSteps") := Some(VInt(5))]
    requires call.execute && call.verbose ==> Terminates(env.process.trace)
    ensures ObminimizeCall(call, env) == (Err(TypeError("missing a required argument")), [])
  {
    var keys := Keys(Obminimize);
    assert keys[0] == "InputFile" && keys[2] == "MinimizationSteps";
    ObsMembership(keys, "InputFile");
    ObsMembership(keys, "MinimizationSteps");
    assert Ob("OutputFile")[3] == 'O' && Ob("InputFile")[3] == 'I' && Ob("MinimizationSteps")[3] == 'M';
    assert "OutputFile" in RequiredKeys(Obminimize) && Ob("OutputFile") !in call.options;
  }

  /** The lines read, as the process printed them: not blank inside, no newline at either end. */
  predicate PlainLines(obs: seq<Obs>) {
    forall i | 0 <= i < |obs| :: obs[i].line == [] || (obs[i].line[0] != '\n' && Last(obs[i].line) != '\n')
  }

  /** The non-empty lines among the observations, in order. */
  function NonEmptyLines(obs: seq<Obs>): (r: seq<string>)
    ensures forall i | 0 <= i < |r| :: r[i] != ""
  {
    if obs == [] then []
    else NonEmptyLines(obs[..|obs| - 1]) + (if Last(obs).line != "" then [Last(obs).line] else [])
  }

  /** The non-empty lines read up to termination. */
  function Readings(trace: seq<Obs>): seq<string>
    requires Terminates(trace)
  {
    NonEmptyLines(trace[..StopIndex(trace) + 1])
  }

  /** A recorded line loses the newline the loop appended to it. */
  lemma {:induction false} NewlineRemoved(line: string)
    requires line != [] && line[0] != '\n' && Last(line) != '\n'
    ensures StripChar(line + "\n", '\n') == line
  {
    assert LStrip(line + "\n", IsChar('\n')) == line + "\n";
    RStripBack(line, '\n');
  }

  /** The message lines of a transcript are the non-empty lines that were read. */
  lemma {:induction false} MessagesOfTranscript(obs: seq<Obs>)
    requires PlainLines(obs)
    ensures MessageLines(Recorded(obs)) == NonEmptyLines(obs)
    decreases |obs|
  {
    if obs != [] {
      var init := obs[..|obs| - 1];
      assert PlainLines(init) by {
        forall i | 0 <= i < |init| ensures init[i] == obs[i] {}
      }
      MessagesOfTranscript(init);
      assert Recorded(obs)[..|obs| - 1] == Recorded(init);
      var line := Last(obs).line;
      if line != "" {
        assert line + "\n" != "\n" by { assert |line + "\n"| > 1; }
        NewlineRemoved(line);
      } else {
        assert line + "\n" == "\n";
      }
    }
  }

  /**
    The built dictionary of any front-end: its executable and method name,
    and a `CmdRtrn` exactly when the command was run, holding the
    transcript of the streaming loop and no `MsgOut`.
   */
  lemma {:induction false} BuiltShape(p: Prog, call: Call, env: Env)
    requires call.execute && call.verbose ==> Terminates(env.process.trace)
    requires Invoke(p, call, env).0.Ok?
    ensures var b := Invoke(p, call, env).0.value;
      b.exec == ExecName(p) && b.funcName == FuncName(p) &&
      (b.cmdRtrn.Some? <==> call.execute) &&
      (call.execute ==> b.cmdRtrn.value.stdOut == Transcript(call.verbose, env.process.trace) && b.cmdRtrn.value.msgOut == None)
  {
    BindingRefused(p, call, env);
    FrontEndAssembly(p, call, env);
    var a := Assembly(p, Supplied(PlacedKeys(p), call), call.verbose, env.inputExists).value;
    assert Invoke(p, call, env) == Finished(p, a, call.execute, call.verbose, ForceVerbose(p, call.verbose), env.process);
    FinishedShape(p, a, call.execute, call.verbose, ForceVerbose(p, call.verbose), env.process);
  }

  /**
    Obenergy's completion of a run's dictionary: `MsgOut` is the last
    non-empty line of the transcript, all else stays; `IndexError` when
    every line was empty.
   */
  lemma {:induction false} EnergyMessageOf(b: Build, trace: seq<Obs>)
    requires Terminates(trace) && PlainLines(trace)
    requires b.cmdRtrn.Some? && b.cmdRtrn.value.stdOut == Transcript(true, trace)
    ensures var lines := Readings(trace);
      EnergyResult(Ok(b), false) ==
        if lines == [] then Err(IndexError("list index out of range"))
        else Ok(b.(cmdRtrn := Some(b.cmdRtrn.value.(msgOut := Some(Last(lines))))))
  {
    var prefix := trace[..StopIndex(trace) + 1];
    assert PlainLines(prefix) by {
      forall i | 0 <= i < |prefix| ensures prefix[i] == trace[i] {}
    }
    MessagesOfTranscript(prefix);
    assert MessageLines(b.cmdRtrn.value.stdOut) == NonEmptyLines(prefix);
    EnergyResultLines(b, NonEmptyLines(prefix));
  }

  /** Completing a run's dictionary from its message lines. */
  lemma {:induction false} EnergyResultLines(b: Build, lines: seq<string>)
    requires b.cmdRtrn.Some? && MessageLines(b.cmdRtrn.value.stdOut) == lines
    ensures EnergyResult(Ok(b), false) ==
      if lines == [] then Err(IndexError("list index out of range"))
      else Ok(b.(cmdRtrn := Some(b.cmdRtrn.value.(msgOut := Some(Last(lines))))))
  {
  }

  /**
    Obenergy without an output file, run verbosely: `MsgOut` is the last
    non-empty line read up to termination, and `IndexError` is raised when
    every such line was empty.
   */
  lemma {:induction false} EnergyMessage(call: Call, env: Env, built: Build)
    requires call.execute && call.verbose && Terminates(env.process.trace)
    requires Given(call.options, Ob("OutputFile")).None?
    requires PlainLines(env.process.trace)
    requires Invoke(Obenergy, call, env).0 == Ok(built)
    ensures var trace := env.process.trace;
      var lines := Readings(trace);
      built.cmdRtrn.Some? &&
      ObenergyCall(call, env).0 ==
        if lines == [] then Err(IndexError("list index out of range"))
        else Ok(built.(cmdRtrn := Some(built.cmdRtrn.value.(msgOut := Some(Last(lines))))))
  {
    BuiltShape(Obenergy, call, env);
    EnergyMessageOf(built, env.process.trace);
    EnergyOfBuilt(call, env);
  }

  /** Obenergy without an output file completes the dictionary its build returned. */
  lemma {:induction false} EnergyOfBuilt(call: Call, env: Env)
    requires call.execute && call.verbose ==> Terminates(env.process.trace)
    requires Given(call.options, Ob("OutputFile")).None? && Invoke(Obenergy, call, env).0.Ok?
    ensures ObenergyCall(call, env).0 == EnergyResult(Ok(Invoke(Obenergy, call, env).0.value), false)
  {
  }

  /** Run without `Verbose`, the transcript is empty, so obenergy without an output file raises `IndexError`. */
  lemma {:induction false} QuietEnergyRaises(call: Call, env: Env)
    requires call.execute && !call.verbose
    requires Given(call.options, Ob("OutputFile")).None?
    requires Invoke(Obenergy, call, env).0.Ok?
    ensures ObenergyCall(call, env).0 == Err(IndexError("list index out of range"))
  {
    BuiltShape(Obenergy, call, env);
  }

  /** Without `Execute` there is no `CmdRtrn`, so obenergy without an output file raises `TypeError`. */
  lemma {:induction false} UnrunEnergyRaises(call: Call, env: Env)
    requires !call.execute
    requires Given(call.options, Ob("OutputFile")).None?
    requires Invoke(Obenergy, call, env).0.Ok?
    ensures ObenergyCall(call, env).0.Err? && ObenergyCall(call, env).0.error.TypeError?
  {
    BuiltShape(Obenergy, call, env);
  }

  /** With an output file, obenergy returns the build unchanged. */
  lemma {:induction false} EnergyToFile(call: Call, env: Env)
    requires call.execute && call.verbose ==> Terminates(env.process.trace)
    requires Given(call.options, Ob("OutputFile")).Some?
    ensures ObenergyCall(call, env) == Invoke(Obenergy, call, env)
  {
  }

  // ---------------------------------------------------------------------
  // Obgen
  // ---------------------------------------------------------------------

  /** `str(OB_OutputFile)`, the caller's output path as a string. */
  function UserOutput(options: map<string, Option<Value>>): string {
    match Given(options, Ob("OutputFile"))
    case None => "None"
    case Some(v) => Show(v)
  }

  /** `func_return['CmdStr'] += ' && ' + conv_return['CmdStr']`, after both builds. */
  function Chained(r: Result<Build, Error>, events: seq<Event>, c: Result<Build, Error>, convEvents: seq<Event>)
    : (Result<Build, Error>, seq<Event>)
    requires r.Ok?
  {
    if c.Err? then (Err(c.error), events + convEvents)
    else (Ok(r.value.(cmdStr := r.value.cmdStr + " && " + c.value.cmdStr)), events + convEvents)
  }

  /** The call obabel gets from obgen: the temporary file, as sdf, to the caller's output path. */
  function Conversion(call: Call, tmp: string): Call {
    Call(ConversionOptions(tmp, UserOutput(call.options), Some("sdf")), call.execute, call.verbose, call.printSameLine)
  }

  /**
    `Obgen(...)` with `tmp` the temporary path: obgen is built (and run)
    writing to `tmp`, then obabel converts `tmp` from sdf to the caller's
    output path; its command is chained after obgen's. `convEnv` is what
    the outside world answers to the conversion.
   */
  function ObgenCall(call: Call, tmp: string, env: Env, convEnv: Env): (Result<Build, Error>, seq<Event>)
    requires call.execute && call.verbose ==> Terminates(env.process.trace) && Terminates(convEnv.process.trace)
  {
    if !Accepted(Obgen, call) then (Err(BindingError(Obgen, call)), [])
    else
    var (r, events) := Invoke(Obgen, call.(options := call.options[Ob("OutputFile") := Some(VStr(tmp))]), env);
    if r.Err? then (r, events)
    else
      var (c, convEvents) := Invoke(Obabel, Conversion(call, tmp), convEnv);
      Chained(r, events, c, convEvents)
  }

  /** An obgen call Python binds: obgen builds into the temporary file, then the conversion is chained. */
  lemma {:induction false} ObgenBound(call: Call, tmp: string, env: Env, convEnv: Env)
    requires call.execute && call.verbose ==> Terminates(env.process.trace) && Terminates(convEnv.process.trace)
    requires Accepted(Obgen, call)
    ensures var (r, events) := Invoke(Obgen, call.(options := call.options[Ob("OutputFile") := Some(VStr(tmp))]), env);
      ObgenCall(call, tmp, env, convEnv) ==
        if r.Err? then (r, events)
        else
          var (c, convEvents) := Invoke(Obabel, Conversion(call, tmp), convEnv);
          Chained(r, events, c, convEvents)
  {
  }

  /** Chaining an unrun conversion: the command joined with `&&`, everything else obgen's. */
  lemma {:induction false} ChainedConversion(r: Result<Build, Error>, events: seq<Event>, tmp: string, usr: string, warnings: seq<Event>)
    requires r.Ok?
    ensures var conv := Ok(Build("obabel", ConversionArgs(tmp, usr, Some("sdf")), ConversionCommand(tmp, usr, Some("sdf")), None, "Obabel"));
      var (c, all) := Chained(r, events, conv, warnings);
      var convCmd := "obabel \"" + tmp + "\" -O \"" + usr + "\" -i sdf";
      c == Ok(r.value.(cmdStr := r.value.cmdStr + " && " + convCmd)) &&
      all == events + warnings
  {
    assert ConversionCommand(tmp, usr, Some("sdf")) == "obabel \"" + tmp + "\" -O \"" + usr + "\" -i sdf";
  }

  /**
    The chain, for a build that is not run: obgen's command (writing to
    the temporary path), `&&`, and `obabel "<tmp>" -O "<output>" -i sdf`;
    the executable, `Args` and `CmdRtrn` stay obgen's, and the conversion's
    messages follow obgen's events.
   */
  lemma {:induction false} ObgenChain(call: Call, tmp: string, env: Env, convEnv: Env)
    requires !call.execute
    ensures var gen := Invoke(Obgen, call.(options := call.options[Ob("OutputFile") := Some(VStr(tmp))]), env);
      var usr := UserOutput(call.options);
      var (r, events) := ObgenCall(call, tmp, env, convEnv);
      if !Accepted(Obgen, call) then r.Err? && r.error.TypeError? && events == []
      else if gen.0.Err? then (r, events) == gen
      else
        var convCmd := "obabel \"" + tmp + "\" -O \"" + usr + "\" -i sdf";
        (r == Ok(gen.0.value.(cmdStr := gen.0.value.cmdStr + " && " + convCmd)) &&
        events == gen.1 + WarningEvents(if convEnv.inputExists then [] else [MissingInputMessage(VStr(tmp))]))
  {
    if Accepted(Obgen, call) {
      ObgenBound(call, tmp, env, convEnv);
      var usr := UserOutput(call.options);
      ObabelConversion(tmp, usr, Some("sdf"), Conversion(call, tmp), convEnv);
      var gen := Invoke(Obgen, call.(options := call.options[Ob("OutputFile") := Some(VStr(tmp))]), env);
      if gen.0.Ok? {
        ChainedConversion(gen.0, gen.1, tmp, usr, WarningEvents(if convEnv.inputExists then [] else [MissingInputMessage(VStr(tmp))]));
      }
    }
  }


  /** The conversion obgen chains: from the temporary file, read as sdf, to the caller's path. */
  lemma {:induction false} SdfConversionCommand(tmp: string, usr: string)
    ensures ConversionCommand(tmp, usr, Some("sdf")) == "obabel \"" + tmp + "\" -O \"" + usr + "\" -i sdf"
  {
  }

  /** Chaining a conversion that was run: its failure is the result, else the command joined with `&&`. */
  lemma {:induction false} ChainedRun(r: Result<Build, Error>, events: seq<Event>, convCmd: string, args: map<string, string>,
                                     warnings: seq<Event>, run: Result<ProcessData, Error>, runEvents: seq<Event>)
    requires r.Ok?
    ensures var conv := if run.Err? then Err(run.error) else Ok(Build("obabel", args, convCmd, Some(run.value), "Obabel"));
      var (c, all) := Chained(r, events, conv, warnings + runEvents);
      c == (if run.Err? then Err(run.error) else Ok(r.value.(cmdStr := r.value.cmdStr + " && " + convCmd))) &&
      all == events + warnings + runEvents
  {
  }

  /**
    The chain, for a build that is run: obgen runs first; then the
    conversion of `SdfConversionCommand` runs, echoing when `Verbose` is
    set; a failure of the conversion's run is the result, otherwise the
    commands are joined with `&&` in obgen's dictionary.
   */
  lemma {:induction false} ObgenChainRun(call: Call, tmp: string, env: Env, convEnv: Env)
    requires call.execute
    requires call.verbose ==> Terminates(env.process.trace) && Terminates(convEnv.process.trace)
    ensures var gen := Invoke(Obgen, call.(options := call.options[Ob("OutputFile") := Some(VStr(tmp))]), env);
      var (r, events) := ObgenCall(call, tmp, env, convEnv);
      if !Accepted(Obgen, call) then r.Err? && r.error.TypeError? && events == []
      else if gen.0.Err? then (r, events) == gen
      else
        var convCmd := ConversionCommand(tmp, UserOutput(call.options), Some("sdf"));
        var (run, runEvents) := Execution(convCmd, "OpenBabel", call.verbose, call.verbose, convEnv.process);
        (r == (if run.Err? then Err(run.error) else Ok(gen.0.value.(cmdStr := gen.0.value.cmdStr + " && " + convCmd))) &&
        events == gen.1 + WarningEvents(if convEnv.inputExists then [] else [MissingInputMessage(VStr(tmp))]) + runEvents)
  {
    if Accepted(Obgen, call) {
      ObgenBound(call, tmp, env, convEnv);
      var usr := UserOutput(call.options);
      ObabelConversion(tmp, usr, Some("sdf"), Conversion(call, tmp), convEnv);
      var gen := Invoke(Obgen, call.(options := call.options[Ob("OutputFile") := Some(VStr(tmp))]), env);
      if gen.0.Ok? {
        var convCmd := ConversionCommand(tmp, usr, Some("sdf"));
        var (run, runEvents) := Execution(convCmd, "OpenBabel", call.verbose, call.verbose, convEnv.process);
        ChainedRun(gen.0, gen.1, convCmd, ConversionArgs(tmp, usr, Some("sdf")),
          WarningEvents(if convEnv.inputExists then [] else [MissingInputMessage(VStr(tmp))]), run, runEvents);
      }
    }
  }

}
