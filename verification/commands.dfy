/**
  The executable table (`__ExcPth`) and the per-program option tables
  (`__CmdSet`) of the `OpenBabel` class. Each table entry is one of a few
  kinds of formatter, the shapes the source's lambdas take.
 */
module Commands {
  import opened Wrappers
  import opened Text
  import opened Values

  /** The five wrapped programs, one per front-end method. */
  datatype Prog = Obabel | Obminimize | Obconformer | Obenergy | Obgen

  /** The name of the front-end method, the key of both tables. */
  function FuncName(p: Prog): string {
    match p
    case Obabel => "Obabel"
    case Obminimize => "Obminimize"
    case Obconformer => "Obconformer"
    case Obenergy => "Obenergy"
    case Obgen => "Obgen"
  }

  /** `__ExcPth`: the executable each front-end runs. */
  function ExecName(p: Prog): string {
    match p
    case Obabel => "obabel"
    case Obminimize => "obminimize"
    case Obconformer => "obconformer"
    case Obenergy => "obenergy"
    case Obgen => "obgen"
  }

  /** The kinds of option lambda in `__CmdSet`. */
  datatype Formatter =
    | Flag(flag: string)                    // lambda condition: flag if condition else ''
    | Around(before: string, after: string) // lambda x: f'{before}{x}{after}'
    | LowerAfter(before: string)            // lambda algorithm: f'{before}{algorithm.lower()}'
    | JoinAfter(before: string)             // lambda props: f'{before}{" ".join(props)}'
    | TwoArguments                          // lambda name, value: ... (called with one argument)

  /** `__CmdSet[FuncName(p)]`, without the `Typical` templates no parameter name reaches. */
  function Table(p: Prog, key: string): Option<Formatter> {
    match p
    case Obabel =>
      if key == "AddHydrogen" then Some(Flag("-h"))
      else if key == "AddProperty" then Some(TwoArguments)
      else if key == "AddProps" then Some(JoinAfter("--add "))
      else if key == "Center" then Some(Flag("-c"))
      else if key == "ChargeCalcMethod" then Some(Around("--partialcharge ", ""))
      else if key == "CombineConformers" then Some(Flag("--readconformers"))
      else if key == "ConvertDative" then Some(Flag("-b"))
      else if key == "DeleteHydrogens" then Some(Flag("-d"))
      else if key == "Generate2D" then Some(Flag("--gen2d"))
      else if key == "Generate3D" then Some(Flag("--gen3d"))
      else if key == "InputFile" then Some(Around("\"", "\""))
      else if key == "InputFormat" then Some(Around("-i ", ""))
      else if key == "JoinAllToOneFile" then Some(Flag("-j"))
      else if key == "OutputFile" then Some(Around("-O \"", "\""))
      else if key == "OutputFormat" then Some(Around("-o ", ""))
      else if key == "pH" then Some(Around("-p ", ""))
      else if key == "RenameMolecule" then Some(Around("--title \"", "\""))
      else if key == "SaveSeparateConformers" then Some(Flag("--writeconformers"))
      else if key == "SaveSeparateFiles" then Some(Flag("-m"))
      else if key == "SearchConformers" then Some(Around("--conformer ", ""))
      else if key == "SeparateFragments" then Some(Flag("--separate"))
      else if key == "SkipConversionError" then Some(Flag("-e"))
      else None
    case Obminimize =>
      if key == "InputFile" then Some(Around("\"", "\""))
      else if key == "OutputFile" then Some(Around("> \"", "\""))
      else if key == "OutputFormat" then Some(Around("-o ", ""))
      else if key == "AddHydrogen" then Some(Flag("-h"))
      else if key == "ForceField" then Some(Around("-ff ", ""))
      else if key == "MinimizationAlgorithm" then Some(LowerAfter("-"))
      else if key == "MinimizationSteps" then Some(Around("-n ", ""))
      else None
    case Obconformer =>
      if key == "InputFile" then Some(Around("\"", "\""))
      else if key == "OutputFile" then Some(Around("> \"", "\""))
      else if key == "ForceField" then Some(Around("", ""))
      else if key == "NumberOfConformers" then Some(Around("", ""))
      else if key == "MinimizationSteps" then Some(Around("", ""))
      else None
    case Obenergy =>
      if key == "InputFile" then Some(Around("\"", "\""))
      else if key == "OutputFile" then Some(Around("> \"", "\""))
      else if key == "AddHydrogen" then Some(Flag("-h"))
      else if key == "ForceField" then Some(Around("-ff ", ""))
      else if key == "Verbose" then Some(Flag("-v"))
      else None
    case Obgen =>
      if key == "InputFile" then Some(Around("\"", "\""))
      else if key == "OutputFile" then Some(Around("> \"", "\""))
      else if key == "ForceField" then Some(Around("-ff ", ""))
      else None
  }

  /** Calling one option lambda on a value. */
  function Render(f: Formatter, v: Value): Result<string, Error> {
    match f
    case Flag(flag) => Ok(if Truthy(v) then flag else "")
    case Around(before, after) => Ok(before + Show(v) + after)
    case LowerAfter(before) =>
      if v.VStr? then Ok(before + Lower(v.s))
      else Err(AttributeError("object has no attribute 'lower'"))
    case JoinAfter(before) =>
      (match v
       case VTuple(items) => Ok(before + Join(" ", items))
       case VStr(s) => Ok(before + Join(" ", seq(|s|, i requires 0 <= i < |s| => [s[i]])))
       case _ => Err(TypeError("can only join an iterable")))
    case TwoArguments => Err(TypeError("missing 1 required positional argument: 'value'"))
  }

  /** `__CmdSet[FuncName(p)][key](v)`: a missing key raises `KeyError`. */
  function Fragment(p: Prog, key: string, v: Value): Result<string, Error> {
    match Table(p, key)
    case None => Err(KeyError(key))
    case Some(f) => Render(f, v)
  }

  /** A key missing from the program's table, and only such a key, raises `KeyError` for it. */
  lemma {:induction false} UnknownKeyRaises(p: Prog, key: string, v: Value)
    ensures Table(p, key).None? <==> Fragment(p, key, v) == Err(KeyError(key))
  {
  }

  /** Every program passes its input path in double quotes. */
  lemma {:induction false} InputFileFragment(p: Prog, v: Value)
    ensures Fragment(p, "InputFile", v) == Ok("\"" + Show(v) + "\"")
  {
  }

  /** obabel names its output file with `-O`; the other four redirect their standard output into it. */
  lemma {:induction false} OutputFileFragment(p: Prog, v: Value)
    ensures Fragment(p, "OutputFile", v) == Ok((if p == Obabel then "-O \"" else "> \"") + Show(v) + "\"")
  {
  }

  /** The boolean options of each program, each with the flag it stands for. */
  function BooleanOptions(p: Prog): seq<(string, string)> {
    match p
    case Obabel =>
      [("AddHydrogen", "-h"), ("Center", "-c"), ("CombineConformers", "--readconformers"), ("ConvertDative", "-b"),
       ("DeleteHydrogens", "-d"), ("Generate2D", "--gen2d"), ("Generate3D", "--gen3d"), ("JoinAllToOneFile", "-j"),
       ("SaveSeparateConformers", "--writeconformers"), ("SaveSeparateFiles", "-m"), ("SeparateFragments", "--separate"),
       ("SkipConversionError", "-e")]
    case Obminimize => [("AddHydrogen", "-h")]
    case Obenergy => [("AddHydrogen", "-h"), ("Verbose", "-v")]
    case _ => []
  }

  /** Each boolean option gives its flag for a truthy value and nothing otherwise. */
  lemma {:induction false} FlagFragments(p: Prog, v: Value)
    ensures forall i | 0 <= i < |BooleanOptions(p)| ::
      Fragment(p, BooleanOptions(p)[i].0, v) == Ok(if Truthy(v) then BooleanOptions(p)[i].1 else "")
  {
    forall i | 0 <= i < |BooleanOptions(p)|
      ensures Table(p, BooleanOptions(p)[i].0) == Some(Flag(BooleanOptions(p)[i].1))
    {
      FlagEntry(p, i);
    }
  }

  /** The table entry of one boolean option. */
  lemma {:induction false} FlagEntry(p: Prog, i: nat)
    requires i < |BooleanOptions(p)|
    ensures Table(p, BooleanOptions(p)[i].0) == Some(Flag(BooleanOptions(p)[i].1))
  {
  }

  /** No other option of a program is a flag. */
  lemma {:induction false} FlagsListed(p: Prog, key: string)
    requires Table(p, key).Some? && Table(p, key).value.Flag?
    ensures (key, Table(p, key).value.flag) in BooleanOptions(p)
  {
  }

  /** The minimisation algorithm is passed lower-cased after a dash. */
  lemma {:induction false} AlgorithmFragment(algorithm: string)
    ensures var r := Fragment(Obminimize, "MinimizationAlgorithm", VStr(algorithm));
      r.Ok? && |r.value| == |algorithm| + 1 && r.value[0] == '-' &&
      forall i | 1 <= i < |r.value| :: !('A' <= r.value[i] <= 'Z') && r.value[i] == LowerChar(algorithm[i - 1])
  {
  }

  /** The added properties are joined with single spaces. */
  lemma {:induction false} AddPropsFragment(props: seq<string>)
    ensures Fragment(Obabel, "AddProps", VTuple(props)) == Ok("--add " + Join(" ", props))
  {
  }
}
