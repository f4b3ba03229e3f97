# OpenBabel command-line interface, modelled in Dafny

`OBPythonInterface.py` wraps five OpenBabel executables: `obabel`, `obminimize`, `obconformer`, `obenergy` and `obgen`. Each wrapper is a front-end method of the `OpenBabel` class.

A front-end call takes `OB_`-prefixed keyword options and three control flags, `Execute`, `Verbose` and `PrintSameLine`. From these the class builds a shell command string and optionally runs it. The result is a dictionary with `Exec`, `Args`, `CmdStr`, `CmdRtrn` and `FuncName`.

The model covers the deterministic string and list logic of the class:

- **Tables.** The executable table `__ExcPth` and the per-program option tables `__CmdSet`: each option lambda turns a value into a command fragment. (module `Commands`)
- **`__HandleParams`.** The builder has three stages:
  - it reorders the declared parameters by the front-end's `ArgsOrder`, where the `'Options'` entry stands for every parameter the order does not name;
  - it loops over the `OB_` parameters that have a value and appends their fragments to the command and to `Args`;
  - it optionally runs the command and returns the dictionary.

  (module `Builder`)
- **`__ExecuteCommand`.** Three parts (module `Runner`):
  - the "force verbose" redirect split;
  - the streaming loop, which records a transcript, echoes lines and emits at most one failure notice;
  - the returned process data.
- **The five front-ends.** (modules `FrontEnds` and `Pipelines`)
  - Each front-end declares its parameters, chooses its `ArgsOrder` and chooses its `ForceVerbose` setting.
  - `Obminimize` derives a missing output format from the output path.
  - `Obenergy` extracts the last transcript line into `MsgOut`.
  - `Obgen` builds into a temporary file and chains an `obabel` sdf conversion after it.
- **String helpers of the `IOHandler` base class.** The path normalisation of `UsrIn`, plus `CleanStr` and `FileTree`. (module `IOHandler`)

The Python semantics the code relies on are written out:

- `str.strip`/`lstrip`/`rstrip`, `split`, `join`, `replace`, ASCII `lower` and `str(int)`. (module `Text`)
- Truthiness and f-string formatting of option values. (module `Values`)

Raised exceptions are `Err` values of a `Result` (module `Wrappers`). Console output is a returned sequence of events:

- error-styled messages;
- the launched command;
- echoed lines;
- the failure notice;
- the file the "force verbose" mode writes.

The outside world is given as parameters:

- whether the input file exists;
- the temporary path of `Obgen`;
- the process, as the sequence of (stripped line, still running?) observations its output loop makes, its exit code, and the text `communicate()` returns afterwards.

The parameters the source finds by stack introspection are passed as each front-end's explicit signature.

`__HandleParams`, its assembly loop, `__ExecuteCommand`, its streaming loop and `CleanStr` are methods with loops. Each is proved equal to a specification function, and the properties are proved about those functions. Everything else is functions and lemmas.

## Model

All source cells refer to `OBPythonInterface.py`.

| member | source | states |
|---|---|---|
| Text.Split | OBPythonInterface.py:175 | `str.split(c)` never gives an empty list and no piece holds the separator |
| Text.SplitJoin | OBPythonInterface.py:175-176 | joining the pieces of a split with the separator gives the string back |
| Text.SplitCount | OBPythonInterface.py:340 | a split has one more piece than the string has separators (so two-way unpacking needs exactly one) |
| Text.LastPiece | OBPythonInterface.py:179 | `split(c)[-1]` is a suffix without the separator, either the whole string or preceded by the separator |
| Text.ReplaceChar | OBPythonInterface.py:44 | `replace(a, b)` for characters keeps the length and swaps exactly the occurrences of a |
| Text.RemoveAll | OBPythonInterface.py:170 | `replace(pat, "")` never lengthens, adds no character, and leaves no one-character pattern behind |
| Text.DropCounts | OBPythonInterface.py:170 | dropping a set of characters leaves none of them and every other character exactly as often as before |
| Text.DropNothing | OBPythonInterface.py:170 | dropping characters the text does not hold gives the text back |
| Text.DropAppend | OBPythonInterface.py:170 | dropping characters from a concatenation drops them from each part |
| Text.DropTwice | OBPythonInterface.py:170 | dropping one set of characters and then another drops their union |
| Text.RemoveAllOne | OBPythonInterface.py:170 | `replace(c, "")` for a single character drops exactly that character, keeping the others in order |
| Text.RemoveAllAppend | OBPythonInterface.py:170 | `replace(c, "")` for a single character distributes over concatenation |
| Text.RemoveAllLeading | OBPythonInterface.py:478 | `replace('OB_', '')` on `OB_` plus a key that has no `_` in it gives that key back |
| Text.LStrip | OBPythonInterface.py:343 | `lstrip` leaves the longest suffix not starting with a stripped character, all of the removed prefix being stripped characters |
| Text.RStrip | OBPythonInterface.py:44 | `rstrip` leaves the longest prefix not ending with a stripped character, all of the removed suffix being stripped characters |
| Text.Lower | OBPythonInterface.py:269 | `lower()` keeps the length, leaves no upper-case ASCII letter and lowers each character |
| Text.Digits | OBPythonInterface.py:270 | the decimal form of an int in an f-string: digits only, no leading zero (`0` is the single digit `0`), and its decimal value is the number |
| Text.IntToStringNumeral | OBPythonInterface.py:270 | `str(i)` is a minus sign followed by a numeral worth `-i` for a negative `i`, else a numeral worth `i`; a numeral is digits with no leading zero unless it is `0` |
| Text.NumeralDigits | OBPythonInterface.py:270 | every numeral is `Digits` of the number it denotes, so the digits of `str(i)` are determined by `i` |
| Commands.UnknownKeyRaises | OBPythonInterface.py:492 | looking up an option a program's table lacks raises `KeyError` for it, and only such an option does |
| Commands.InputFileFragment | OBPythonInterface.py:227 | every program passes its input path in double quotes |
| Commands.OutputFileFragment | OBPythonInterface.py:230 | obabel writes its output file as `-O "path"`; the other four redirect with `> "path"` (lines 265, 278, 289, 300) |
| Commands.FlagFragments | OBPythonInterface.py:217-238 | each listed boolean option gives its own flag when the value is truthy and `''` otherwise: for obabel `-h`, `-c`, `--readconformers`, `-b`, `-d`, `--gen2d`, `--gen3d`, `-j`, `--writeconformers`, `-m`, `--separate`, `-e`; obminimize `-h` (line 267); obenergy `-h` and `-v` (lines 290, 292) |
| Commands.FlagEntry | OBPythonInterface.py:217-238 | each listed boolean option is in its program's table as that flag |
| Commands.FlagsListed | OBPythonInterface.py:215-293 | every flag-style lambda of every table is one of the listed boolean options with its flag, so the list is complete |
| Commands.AlgorithmFragment | OBPythonInterface.py:269 | the minimisation algorithm is a dash followed by the lower-cased name |
| Commands.AddPropsFragment | OBPythonInterface.py:219 | `AddProps` is `--add` followed by the properties joined with single spaces |
| Builder.Names | OBPythonInterface.py:447 | the parameter names, one per declared parameter, in order |
| Builder.WithoutPlaceholder | OBPythonInterface.py:453 | `args_to_order` holds exactly the entries of `ArgsOrder` other than `'Options'` |
| Builder.Others | OBPythonInterface.py:455 | `other_options` holds exactly the declared names the order does not name, without repeats when the names have none |
| Builder.Expanded | OBPythonInterface.py:462 | the flattening keeps every name, and changes nothing when no `'Options'` string is left |
| Builder.FirstIndex | OBPythonInterface.py:460 | `list.index` finds the first occurrence |
| Builder.FirstMissing | OBPythonInterface.py:464 | the first name `params_dict[arg]` fails on: undeclared, with every name before it declared; there is none exactly when every name is declared |
| Builder.Dedup | OBPythonInterface.py:464 | the keys of the dict comprehension: the same names, no repeats, unchanged when already without repeats |
| Builder.Reorder | OBPythonInterface.py:451-466 | an empty `ArgsOrder` keeps declaration order; no `'Options'` raises `ValueError`; a result holds exactly the declared names, without repeats |
| Builder.ReorderPermutes | OBPythonInterface.py:451-464 | with one `'Options'` and distinct declared names: the names before it, the rest in declaration order, the names after it, a permutation (multiset-equal) of the declared names |
| Builder.ReorderOrdered | OBPythonInterface.py:453-464 | with one `'Options'`, the reordering is the names before it, the others, the names after it, each once, all declared names present |
| Builder.ReorderShape | OBPythonInterface.py:458-464 | with one `'Options'`, the ordered list covers exactly the declared names and the dict keeps them once each |
| Builder.OrderedCovers | OBPythonInterface.py:455-462 | every declared name ends up in the ordered list |
| Builder.PlacedDeclared | OBPythonInterface.py:453-462 | the names around `'Options'` and the others are exactly the declared names |
| Builder.ReorderDistinct | OBPythonInterface.py:453-462 | the three parts of the ordered list are disjoint, so no name is placed twice |
| Builder.Contribute | OBPythonInterface.py:478-492 | a rendered program argument is keyed by its name without `OB_` and records the value it was given |
| Builder.VerboseReplaced | OBPythonInterface.py:487-492 | an `OB_Verbose` argument is rendered from the builder's `Verbose` flag, whatever value it was given |
| Builder.EnergyVerboseFlag | OBPythonInterface.py:292 | for obenergy an `OB_Verbose` argument gives `-v` exactly when `Verbose` is set |
| Builder.Arguments | OBPythonInterface.py:475-476 | only parameters named `OB_...` whose value is not None are program arguments |
| Builder.ArgumentsAppend | OBPythonInterface.py:473-476 | the program arguments of a concatenation are those of each part |
| Builder.Collect | OBPythonInterface.py:473-496 | the loop succeeds exactly when every lambda call does; otherwise it fails with the first exception raised |
| Builder.CollectAfterError | OBPythonInterface.py:492 | once a lambda raises, later parameters do not matter |
| Builder.ContributionsStep | OBPythonInterface.py:473-496 | one more parameter adds its fragment if it is a program argument, and nothing otherwise |
| Builder.ContributionsStop | OBPythonInterface.py:492 | an exception raised at one parameter is the exception of the whole loop |
| Builder.NonContributingIgnored | OBPythonInterface.py:475-476 | `Execute`, `Verbose`, `PrintSameLine` and None-valued options contribute nothing |
| Builder.ArgsMap | OBPythonInterface.py:495 | `Args` has a key for each contributing parameter, its fragment even when that is `''` |
| Builder.ArgsMapLatest | OBPythonInterface.py:495 | `Args[key]` is the fragment of the last argument with that key, as later dict assignments overwrite earlier ones |
| Builder.AppendContribution | OBPythonInterface.py:481-496 | one more argument appends `fragment + ' '` to the command, sets its key in `Args`, and adds a message if it names a missing input file |
| Builder.AssemblyStep | OBPythonInterface.py:473-496 | the loop body on parameter i continues the assembly of the first i parameters |
| Builder.AssemblyStart | OBPythonInterface.py:469-470 | before the loop: the executable and a space, an empty `Args`, no messages |
| Builder.AssemblyStop | OBPythonInterface.py:492 | an exception at parameter i ends the loop with it |
| Builder.Assemble | OBPythonInterface.py:469-496 | the assembly loop computes the executable, then `fragment + ' '` per program argument in order, `Args`, and the missing-input messages, or the first exception |
| Builder.Ordered | OBPythonInterface.py:464 | the reordered `params_dict` visits the parameters in the new order |
| Builder.FinishedShape | OBPythonInterface.py:498-510 | the returned dictionary names the executable and the front-end, holds the stripped command and `Args`, and has a `CmdRtrn` exactly when `Execute`, with the transcript and no `MsgOut` |
| Builder.HandleParams | OBPythonInterface.py:414-510 | reorder, assemble, print the messages, run the stripped command as `OpenBabel` if `Execute`, return the dictionary (`CmdRtrn` None when not run); any exception on the way is the result |
| Runner.DumperIsOverwrite | OBPythonInterface.py:335 | a dumper is chosen exactly when the command holds `>`, and it is never `>>` |
| Runner.SplitWithoutRedirect | OBPythonInterface.py:338-345 | a command without `>` is left unchanged and no file is targeted |
| Runner.SplitSingleRedirect | OBPythonInterface.py:340-343 | with exactly one `>`, the command is the stripped text before it and the target the text after it stripped of whitespace, then `"`, then `'` |
| Runner.SplitManyRedirects | OBPythonInterface.py:340 | two or more `>` (any `>>` among them) fail the two-way unpacking |
| Runner.SplitAtRedirect | OBPythonInterface.py:340-343 | the split of a command with its single `>` at a known place |
| Runner.RedirectRecoversTarget | OBPythonInterface.py:340-343 | the split inverts the `> "path"` redirect a fragment appends: it gives back the path |
| Runner.UnquotePath | OBPythonInterface.py:343 | the space and the quotes around a quoted path come off, and only they |
| Runner.SplitRemovesRedirect | OBPythonInterface.py:340-351 | after a successful split the command started has no `>` and a target exists exactly when the command had `>` |
| Runner.StopIndex | OBPythonInterface.py:358-390 | the loop stops at the first observation after which the process is not running |
| Runner.ObservationStep | OBPythonInterface.py:360-373 | one more read adds its line with a newline to `STDout`, and to the display only when non-empty and still running |
| Runner.Stream | OBPythonInterface.py:358-390 | `STDout` records every read up to and including the first after termination; the echoed lines are the non-empty ones read while running; one notice exactly when the exit code is not zero |
| Runner.ExecuteCommand | OBPythonInterface.py:332-412 | `__ExecuteCommand` on a given process: split, stream, write the transcript file, return the process data |
| Runner.ExecutionResult | OBPythonInterface.py:400-412 | `ErrMsg` is always empty (stderr is merged), `OutMsg` and `ExitCode` come from the process, `STDout` is empty unless verbose |
| Runner.ExecutionNotices | OBPythonInterface.py:382-387 | exactly one failure notice when verbose and the exit code is not zero, none otherwise |
| Runner.RunEventsNotices | OBPythonInterface.py:351-397 | the launch, the echoed lines and the written file are not notices |
| Runner.ForceVerboseWritesTranscript | OBPythonInterface.py:332-397 | in "force verbose" mode the process starts without the redirect, and the target file last receives the whole transcript, the final read included |
| Runner.StreamTranscript | OBPythonInterface.py:358-364 | the transcript has one entry per read up to termination, each the line with a newline |
| Runner.FinalReadNotEchoed | OBPythonInterface.py:370-390 | the read after which the process is found terminated is recorded but never echoed |
| Runner.StreamEcho | OBPythonInterface.py:370-378 | every non-empty line read while running is echoed, only such lines are, each echoed line was read and is non-empty, and no more of them than reads before the last |
| Runner.DisplayedFacts | OBPythonInterface.py:370-378 | the echoed lines of running reads are exactly their non-empty lines, each of them one of the lines read |
| Runner.DisplayedAppend | OBPythonInterface.py:370-378 | the echoed lines of two stretches of reads are those of the first followed by those of the second |
| Runner.NoticesAppend | OBPythonInterface.py:387 | the notices of concatenated events are those of each part |
| IOHandler.NormalisePath | OBPythonInterface.py:44 | a "Path" answer has no `\`, does not end in `/`, and is the `\`-to-`/` rewrite less only trailing slashes |
| IOHandler.AsciiOnly | OBPythonInterface.py:156 | the ASCII filter leaves only characters below 128, all taken from the text |
| IOHandler.AsciiOnlyCounts | OBPythonInterface.py:156 | the ASCII filter keeps every ASCII character exactly as often as the text has it |
| IOHandler.AsciiOnlyAppend | OBPythonInterface.py:156 | the ASCII filter of a concatenation is the concatenation of the filters |
| IOHandler.RemoveEachProperties | OBPythonInterface.py:170 | after removing each symbol in turn no one-character symbol occurs, nothing new appears, and a last character that is not a symbol stays last |
| IOHandler.RemoveAllKeepsLast | OBPythonInterface.py:170 | removing a one-character symbol keeps a last character that is not that symbol |
| IOHandler.RemoveEachDrop | OBPythonInterface.py:169-170 | removing one-character symbols in turn drops exactly their characters and keeps every other character in order |
| IOHandler.CharsSymbols | OBPythonInterface.py:161-166 | the one-character symbol list of a string stands for exactly the characters of that string |
| IOHandler.CleanedText | OBPythonInterface.py:154-171 | the cleaned "Path" is the prepared text with exactly its six symbols dropped, the cleaned "FileName" with exactly its eight, any other kind with exactly the given one-character symbols, everything else kept in order |
| IOHandler.CleanedSymbols | OBPythonInterface.py:154-171 | a cleaned "Path" is non-empty, ends in `/` and holds none of its symbols; a cleaned "FileName" holds none of its symbols |
| IOHandler.CleanedAscii | OBPythonInterface.py:156-171 | with the ASCII option the cleaned text holds only ASCII |
| IOHandler.CleanStr | OBPythonInterface.py:154-171 | the result is the prepared text with each symbol removed in turn: for "Path" exactly its six symbols (backslash, star, double quote, angle brackets, bar) are dropped and it ends in `/`; for "FileName" exactly its eight (also slash and colon); for other kinds exactly the given one-character symbols; every other character is kept in order; the ASCII option leaves only ASCII |
| IOHandler.FileTreeRoot | OBPythonInterface.py:174-177 | `Root` ends in `/`, `Fullname` has no `/` or `\`, and `Root + Fullname` is the normalised path when it holds a `/` (else `Root` is `/`) |
| IOHandler.FileTreeExtension | OBPythonInterface.py:178-179 | `Extension` is a dot and the text after the last dot of `Fullname`, and `Name + Extension == Fullname` when it holds a dot (else `Name` is empty) |
| IOHandler.DirectoryAndFile | OBPythonInterface.py:175-177 | the directory and file parts of a normalised path join back into it |
| IOHandler.NameAndExtension | OBPythonInterface.py:178-179 | the name and extension built from a file name's split on `.`: the extension is a dot and the last piece, a suffix without a dot, and name plus extension is the file name when it holds a dot (else the name is empty) |
| FrontEnds.Obs | OBPythonInterface.py:512-531 | the parameter name of each option is `OB_` and the key |
| FrontEnds.BindingRefused | OBPythonInterface.py:512-531 | a call naming an option the front-end does not declare, or leaving out a required one (lines 513-514, 571-573, 617-618, 655, 699-700), raises `TypeError` before anything is built or printed; a successful call was accepted |
| FrontEnds.AcceptedWith | OBPythonInterface.py:512-531 | giving a declared option a value keeps a call acceptable |
| FrontEnds.AcceptedWithout | OBPythonInterface.py:512-531 | leaving out an option keeps a call acceptable exactly when the option has a default |
| FrontEnds.ObabelWithoutOutput | OBPythonInterface.py:512-514 | `Obabel(OB_InputFile='a.sdf')` raises `TypeError` for the missing output file and prints nothing |
| FrontEnds.Bind | OBPythonInterface.py:441-448 | each declared parameter gets its value in the call, in the order given |
| FrontEnds.KeysDistinct | OBPythonInterface.py:512-531 | no front-end declares an option twice |
| FrontEnds.ObInjective | OBPythonInterface.py:475-478 | distinct keys give distinct parameter names |
| FrontEnds.OthersOfSignature | OBPythonInterface.py:455 | what `'Options'` stands for: the options the order does not name, then the three control flags |
| FrontEnds.SignatureOrder | OBPythonInterface.py:451-466 | a signature reordered by an order naming some options once around one `'Options'` |
| FrontEnds.FrontEndOrder | OBPythonInterface.py:563 | obabel keeps signature order; obminimize, obconformer, obenergy and obgen put the options their `ArgsOrder` names after all the others (lines 609, 647, 685, 734) |
| FrontEnds.ValueOfBind | OBPythonInterface.py:448 | `params_dict[name]` finds the value the call gives that name |
| FrontEnds.OrderedBind | OBPythonInterface.py:464 | reordering the bound parameters binds the reordered names |
| FrontEnds.SuppliedArguments | OBPythonInterface.py:475-476 | among the options, exactly those the call supplies are program arguments, in order |
| FrontEnds.PlacedArguments | OBPythonInterface.py:464-476 | the program arguments the builder visits are the supplied options in visiting order |
| FrontEnds.HandlingByOrder | OBPythonInterface.py:414-510 | `__HandleParams` on a signature and such an order assembles exactly the supplied options in visiting order |
| FrontEnds.FrontEndAssembly | OBPythonInterface.py:561-568 | an accepted front-end call is `__HandleParams` assembling exactly the options the call supplies, with the front-end's `ForceVerbose` |
| FrontEnds.InvokeAssembled | OBPythonInterface.py:498-510 | an accepted call whose assembly is known returns that assembly's dictionary, after its messages, and runs the stripped command when `Execute` |
| FrontEnds.AssemblyRendered | OBPythonInterface.py:469-496 | when every program argument renders, the command, `Args` and messages are built from the fragments in order |
| FrontEnds.StripTrailingSpace | OBPythonInterface.py:507 | `strip()` drops only the trailing space of a command neither started nor ended by whitespace |
| FrontEnds.KeyOfOb | OBPythonInterface.py:478 | `OB_` plus a key without `_` loses exactly its prefix |
| FrontEnds.AbsorbOption | OBPythonInterface.py:478-496 | one pass of the loop body on a rendered option |
| FrontEnds.ConversionSupplied | OBPythonInterface.py:743-750 | for a conversion, obabel's builder visits the input, the output, then the input format if given |
| FrontEnds.ConversionAccepted | OBPythonInterface.py:743-750 | the conversion `Obgen` chains names only declared options and both required ones, so the binding accepts it |
| FrontEnds.ConversionAssembly | OBPythonInterface.py:469-496 | a conversion assembles `obabel "<in>" -O "<out>"` then `-i <format>`, with one message when the input is missing |
| FrontEnds.ConversionStripped | OBPythonInterface.py:507 | `strip()` only drops the space after a conversion command |
| FrontEnds.ObabelConversion | OBPythonInterface.py:561-568 | the whole `Obabel` result for a conversion: the command, `Args`, messages, and a verbose-forced run when `Execute` |
| FrontEnds.ObabelExample | OBPythonInterface.py:227-230 | `Obabel(OB_InputFile='a.sdf', OB_OutputFile='a.pdb')` builds `obabel "a.sdf" -O "a.pdb"`, `Exec` `obabel`, `CmdRtrn` None |
| Pipelines.GivenFormatKept | OBPythonInterface.py:603 | a format the caller gives to `Obminimize` is kept |
| Pipelines.DerivedFormat | OBPythonInterface.py:603 | without a format, the output path's extension is used: the text after its last dot (the whole path without one), which holds no dot |
| Pipelines.DefaultFormatRaises | OBPythonInterface.py:603 | `Obminimize` raises `AttributeError` exactly when there is neither a format nor a string output path |
| Pipelines.ExtensionOf | OBPythonInterface.py:603 | the format of `<base>.<ext>` is `ext` when `ext` has no dot |
| Pipelines.MinimizeGiven | OBPythonInterface.py:570-581 | what a plain minimisation gives each of obminimize's options |
| Pipelines.MinimizeAccepted | OBPythonInterface.py:570-581 | a plain minimisation, with or without a format, gives obminimize's three required options and no undeclared one |
| Pipelines.CallsRefused | OBPythonInterface.py:570-581 | a call the binding refuses raises `TypeError` with nothing printed, before `Obminimize` derives a format or `Obenergy` (lines 654-662) reads an energy line |
| Pipelines.ObminimizeWithoutOutput | OBPythonInterface.py:570-573 | `Obminimize(OB_InputFile='a.sdf', OB_MinimizationSteps=5)` raises `TypeError` for the missing output file, not the `AttributeError` of the format derivation |
| Pipelines.MinimizeSupplied | OBPythonInterface.py:609 | obminimize's builder visits the steps and the format before the two paths |
| Pipelines.MinimizeFragments | OBPythonInterface.py:264-270 | the four fragments of a plain minimisation |
| Pipelines.MinimizeLoop | OBPythonInterface.py:469-496 | the loop over a plain minimisation builds its command, `Args` and missing-input message |
| Pipelines.MinimizeAssembly | OBPythonInterface.py:603-614 | what obminimize's builder assembles for a plain minimisation |
| Pipelines.MinimizeStripped | OBPythonInterface.py:507 | the minimisation command loses only its trailing space |
| Pipelines.MinimizeInvoke | OBPythonInterface.py:607-614 | the whole obminimize build for a plain minimisation, run without forced echo when `Execute` |
| Pipelines.ObminimizeExample | OBPythonInterface.py:570-614 | `Obminimize` on `<base>.<ext>`: format `ext`, command `obminimize -n <steps> -o <ext> "<in>" > "<base>.<ext>"`, `Args`, messages, and the run |
| Pipelines.MessagesOfTranscript | OBPythonInterface.py:694 | the message lines of a transcript are the non-empty lines read |
| Pipelines.NewlineRemoved | OBPythonInterface.py:694 | `strip('\n')` undoes the newline the loop appended |
| Pipelines.NonEmptyLines | OBPythonInterface.py:694 | the lines the message filter keeps are never empty |
| Pipelines.BuiltShape | OBPythonInterface.py:504-510 | any front-end's dictionary: its executable and method name, and a `CmdRtrn` exactly when run, holding the transcript and no `MsgOut` |
| Pipelines.EnergyMessageOf | OBPythonInterface.py:692-694 | completing a run's dictionary: `MsgOut` is the last non-empty line read, or `IndexError` when there is none |
| Pipelines.EnergyMessage | OBPythonInterface.py:683-696 | `Obenergy` without an output file, run verbosely: `MsgOut` is the last non-empty line read up to termination, else `IndexError` |
| Pipelines.QuietEnergyRaises | OBPythonInterface.py:694 | run without `Verbose`, the transcript is empty, so `Obenergy` without an output file raises `IndexError` |
| Pipelines.UnrunEnergyRaises | OBPythonInterface.py:694 | without `Execute` there is no `CmdRtrn`, so `Obenergy` without an output file raises `TypeError` |
| Pipelines.EnergyToFile | OBPythonInterface.py:692-696 | with an output file, `Obenergy` returns the build unchanged |
| Pipelines.ChainedConversion | OBPythonInterface.py:753 | chaining an unrun conversion joins the commands with ` && ` and keeps everything else of obgen's |
| Pipelines.SdfConversionCommand | OBPythonInterface.py:743-750 | the conversion is `obabel "<tmp>" -O "<output>" -i sdf` |
| Pipelines.ObgenChain | OBPythonInterface.py:698-755 | a call the binding refuses raises `TypeError` with nothing printed; without `Execute`: obgen's command writing to the temporary path, ` && `, the sdf conversion; `Exec`, `Args` and `CmdRtrn` stay obgen's |
| Pipelines.ObgenChainRun | OBPythonInterface.py:698-755 | a call the binding refuses raises `TypeError` with nothing printed; with `Execute`: obgen runs first, then the conversion (echoed when `Verbose`); a failed conversion run is the result, else the chained command in obgen's dictionary |

## Left out

- Process I/O (`subprocess.Popen`, `readline`, `poll`, `communicate`) is not modelled. The process is a given sequence of observations, an exit code and the remaining output. The model requires some observation to find the process terminated, which is what makes the loop end.
- UTF-8 decoding and byte stripping of process output are not modelled: lines are already-decoded, already-stripped strings.
- Writing the "force verbose" file is not modelled as file I/O. It is an event carrying the path and the concatenated transcript. The file is always opened for writing, never for appending.
- Console presentation is not modelled: `UsrOut` colours, `PSL`, `TypeText` with its delays, `CenterText`, `os.system("color 00")`, the shell display prefix and `PrintSameLine`. Echoed lines, messages and notices are events without formatting.
- `input()` in `UsrIn` is I/O and is not modelled, and neither are its "Text" and "Intger" branches. Only the "Path" normalisation is modelled.
- `os.path.isfile` is a boolean parameter of the build.
- `tempfile.NamedTemporaryFile().name` is a parameter of `Obgen`.
- Stack introspection (`inspect`, `eval`, `locals()`) is replaced by each front-end's declared signature, which is passed explicitly.
- Calls are keyword calls. Python's binding of positional arguments, and the exact wording of its `TypeError` messages, are not modelled. The model keeps the two kinds of refusal: an undeclared keyword, and a missing required argument.
- The `Typical` lambdas of `__CmdSet` are left out. No parameter is named `OB_Typical`, so the builder never looks them up.
- obabel's `AddProperty` lambda takes two arguments but is called with one, so it is modelled only as raising `TypeError`. `Obabel` does not declare `OB_AddProperty`, so no front-end reaches it.
- `str.lower()` is modelled for ASCII letters only.
- `str.isspace()` is modelled by its code-point list.
- `OB_pH` and the other values are modelled by a small `Value` type (string, bool, int, tuple of strings). A Python float is not modelled.
- `repr` of tuples is modelled only for strings without quotes or backslashes.
- `Args` is a map, so the insertion order of the Python dict is not kept. The command string keeps the order.
- Builder.HandleParams: when a lambda raises in the assembly loop (line 492), the missing-input message an earlier `InputFile` printed (line 485) is dropped from the events. Messages printed before an exception outside that loop are kept.
- FrontEnds.ObabelConversion: stated for input formats that are non-empty and do not end in whitespace. For other formats, `strip()` would also remove trailing whitespace of the format.
- Pipelines.ObminimizeExample: covers plain minimisations only: input, output and steps given, no other option. The steps value is any `Value`. The other option combinations are covered by the general lemmas (`FrontEnds.FrontEndAssembly`, `Builder.HandleParams`), not by a closed-form command.
- Pipelines.ObgenChain and Pipelines.ObgenChainRun: state the chain for the `obgen` build as given. The `obgen` command itself is left as whatever `FrontEnds.FrontEndAssembly` gives.
- `Obconformer` has no pre- or post-processing. Only its signature, `ArgsOrder` (`OB_ForceField` last) and `ForceVerbose` are modelled, through `FrontEnds.FrontEndOrder` and `FrontEnds.FrontEndAssembly`.

Where the code and its comments or design notes differ, the model follows the code:

- The redirect split is meant to handle `>` (overwrite) and `>>` (append). As written (line 335), `>` is checked first, so `>>` is never chosen. Splitting `a >> b` on `>` gives three pieces, and the two-way unpacking at line 340 raises `ValueError` (`Runner.DumperIsOverwrite`, `Runner.SplitManyRedirects`). The output file is always opened with mode `'w'`.
- The comment at line 742 says the conversion sets `OB_OutputFormat` to `sdf`. The code sets `OB_InputFormat='sdf'`, which gives `-i sdf`.
