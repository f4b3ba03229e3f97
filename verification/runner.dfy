/**
  `__ExecuteCommand`: the "force verbose" redirect split, the streaming
  loop that reads the merged output of the process line by line, and the
  result dictionary. The process is given as what the loop observes.
 */
module Runner {
  import opened Wrappers
  import opened Text
  import opened Values

  /** One pass of the loop: the stripped line read, and whether `poll()` then reports the process running. */
  datatype Obs = Obs(line: string, running: bool)

  /**
    The process as the model sees it: what the loop reads, the exit code,
    and what `communicate()` still returns on standard output afterwards.
   */
  datatype Process = Process(trace: seq<Obs>, exitCode: int, rest: string)

  /** What the interface does outside its return value, in order. */
  datatype Event =
    | Warning(text: string)                       // an error-styled console message
    | Launched(command: string)                   // the command handed to the shell
    | Shown(line: string)                         // a process line echoed to the console
    | Notice(text: string)                        // the failure notice
    | FileWritten(path: string, content: string)  // the "force verbose" output file

  /** The dictionary `__ExecuteCommand` returns; `msgOut` is the key `Obenergy` may add. */
  datatype ProcessData = ProcessData(outMsg: string, errMsg: string, stdOut: seq<string>, exitCode: int, msgOut: Option<string>)

  /** The command that is started, and the file the "force verbose" transcript goes to. */
  datatype Launch = Launch(command: string, target: Option<string>)

  /** `'>>' in command` */
  predicate HasAppend(command: string) {
    exists i | 0 <= i < |command| - 1 :: command[i] == '>' && command[i + 1] == '>'
  }

  /** The "dumper": `'>'` if the command has one, else `'>>'` if it has that, else None. */
  function Dumper(command: string): Option<string> {
    if '>' in command then Some(">")
    else if HasAppend(command) then Some(">>")
    else None
  }

  /** `>` is checked first and `>>` contains it, so `>>` is never the dumper. */
  lemma {:induction false} DumperIsOverwrite(command: string)
    ensures Dumper(command).Some? <==> '>' in command
    ensures Dumper(command) != Some(">>")
  {
    if HasAppend(command) {
      var i :| 0 <= i < |command| - 1 && command[i] == '>' && command[i + 1] == '>';
      assert command[i] in command;
    }
  }

  /**
    The "force verbose" split: `Command, OutFile = Command.split(dumper)`,
    the command stripped, the file stripped of whitespace, then `"`, then `'`.
    The unpacking raises `ValueError` unless there are exactly two pieces.
   */
  function SplitRedirect(command: string): Result<Launch, Error> {
    DumperIsOverwrite(command);
    if Dumper(command).None? then Ok(Launch(command, None))
    else
      var parts := Split(command, '>');
      if |parts| != 2 then Err(ValueError("too many values to unpack (expected 2)"))
      else Ok(Launch(Strip(parts[0]), Some(StripChar(StripChar(Strip(parts[1]), '"'), '\''))))
  }

  /** A string without the separator splits into itself. */
  lemma {:induction false} SplitWithout(s: string, c: char)
    requires c !in s
    ensures Split(s, c) == [s]
    decreases |s|
  {
    if s != [] {
      SplitWithout(s[..|s| - 1], c);
      assert s == s[..|s| - 1] + [s[|s| - 1]];
    }
  }

  /** A string with exactly one separator splits into the text before and after it. */
  lemma {:induction false} SplitOnce(a: string, c: char, b: string)
    requires c !in a && c !in b
    ensures Split(a + [c] + b, c) == [a, b]
    decreases |b|
  {
    if b == [] {
      SplitWithout(a, c);
      var s := a + [c] + b;
      assert s[..|s| - 1] == a;
    } else {
      var b' := b[..|b| - 1];
      SplitOnce(a, c, b');
      assert (a + [c] + b)[..|a + [c] + b| - 1] == a + [c] + b';
      assert b == b' + [b[|b| - 1]];
    }
  }

  /** Without `>` the command is left alone. */
  lemma {:induction false} SplitWithoutRedirect(command: string)
    requires '>' !in command
    ensures SplitRedirect(command) == Ok(Launch(command, None))
  {
    DumperIsOverwrite(command);
  }

  /** The pieces around a single separator, by position. */
  lemma {:induction false} Pieces(a: string, c: char, b: string)
    ensures var s := a + [c] + b;
      s[..|a|] == a && s[|a|] == c && s[|a| + 1..] == b
  {
  }

  /** With exactly one `>` the command is cut there. */
  lemma {:induction false} SplitSingleRedirect(command: string)
    requires multiset(command)['>'] == 1
    ensures exists i | 0 <= i < |command| && command[i] == '>' ::
      '>' !in command[..i] && '>' !in command[i + 1..] &&
      SplitRedirect(command) ==
        Ok(Launch(Strip(command[..i]), Some(StripChar(StripChar(Strip(command[i + 1..]), '"'), '\''))))
  {
    SplitCount(command, '>');
    SplitJoin(command, '>');
    var parts := Split(command, '>');
    var before, after := parts[0], parts[1];
    assert command == before + ['>'] + after by {
      assert parts == [before, after];
    }
    Pieces(before, '>', after);
    SplitAtRedirect(before, after);
    var i := |before|;
    assert command[i] == '>';
  }

  /** With two or more `>`, so with any `>>`, the unpacking fails. */
  lemma {:induction false} SplitManyRedirects(command: string)
    requires multiset(command)['>'] >= 2 || HasAppend(command)
    ensures SplitRedirect(command).Err?
  {
    if HasAppend(command) {
      var i :| 0 <= i < |command| - 1 && command[i] == '>' && command[i + 1] == '>';
      assert command == command[..i] + [command[i], command[i + 1]] + command[i + 2..];
      assert multiset(command)['>'] >= 2;
    }
    SplitCount(command, '>');
    DumperIsOverwrite(command);
    assert '>' in command;
  }

  /** Stripping a character that is at neither end changes nothing. */
  lemma {:induction false} StripCharNoop(s: string, c: char)
    requires s == [] || (s[0] != c && Last(s) != c)
    ensures StripChar(s, c) == s
  {
  }

  /** A leading stripped character goes. */
  lemma {:induction false} LStripFront(c: char, t: string)
    ensures LStrip([c] + t, IsChar(c)) == LStrip(t, IsChar(c))
  {
    assert ([c] + t)[1..] == t;
  }

  /** A trailing stripped character goes. */
  lemma {:induction false} RStripBack(t: string, c: char)
    ensures RStrip(t + [c], IsChar(c)) == RStrip(t, IsChar(c))
  {
    assert (t + [c])[..|t|] == t;
  }

  /** Stripping a character from a string it encloses, and that is at neither end of the inside. */
  lemma {:induction false} StripCharEnclosed(s: string, c: char)
    requires s == [] || (s[0] != c && Last(s) != c)
    ensures StripChar([c] + s + [c], c) == s
  {
    LStripFront(c, s + [c]);
    assert [c] + s + [c] == [c] + (s + [c]);
    if s == [] {
      LStripFront(c, []);
      assert [] + [c] == [c] + [];
    } else {
      assert LStrip(s + [c], IsChar(c)) == s + [c];
      RStripBack(s, c);
    }
  }

  /** A leading space makes no difference to `strip()`. */
  lemma {:induction false} StripLeadingSpace(s: string)
    ensures Strip(" " + s) == Strip(s)
  {
    assert (" " + s)[1..] == s;
  }

  /** `strip()` keeps a string that is neither started nor ended by whitespace. */
  lemma {:induction false} StripNoop(s: string)
    requires s != [] && !IsSpace(s[0]) && !IsSpace(Last(s))
    ensures Strip(s) == s
  {
  }

  /** Stripping whitespace off a quoted string preceded by one space. */
  lemma {:induction false} StripSpaceQuoted(path: string)
    ensures Strip(" \"" + path + "\"") == "\"" + path + "\""
  {
    var quoted := "\"" + path + "\"";
    assert " \"" + path + "\"" == " " + quoted;
    StripLeadingSpace(quoted);
    assert !IsSpace(quoted[0]) && !IsSpace(Last(quoted));
    StripNoop(quoted);
  }

  /** The quotes and the space around the path come off, and only they. */
  lemma {:induction false} UnquotePath(path: string)
    requires path == [] || (path[0] !in "\"'" && Last(path) !in "\"'")
    ensures StripChar(StripChar(Strip(" \"" + path + "\""), '"'), '\'') == path
  {
    StripSpaceQuoted(path);
    assert "\"" + path + "\"" == ['"'] + path + ['"'];
    StripCharEnclosed(path, '"');
    StripCharNoop(path, '\'');
  }

  /** A command with a single `>` is cut there. */
  lemma {:induction false} SplitAtRedirect(before: string, after: string)
    requires '>' !in before && '>' !in after
    ensures SplitRedirect(before + ['>'] + after) ==
      Ok(Launch(Strip(before), Some(StripChar(StripChar(Strip(after), '"'), '\''))))
  {
    var command := before + ['>'] + after;
    SplitOnce(before, '>', after);
    assert command[|before|] == '>';
    DumperIsOverwrite(command);
  }

  /**
    For a command that ends with a quoted redirect `> "path"` and has no
    other `>`, the split gives back the command before it and the path
    itself, provided the path has no `>` and no quote at either end.
   */
  lemma {:induction false} RedirectRecoversTarget(before: string, path: string)
    requires '>' !in before && '>' !in path
    requires path == [] || (path[0] !in "\"'" && Last(path) !in "\"'")
    ensures SplitRedirect(before + "> \"" + path + "\"") == Ok(Launch(Strip(before), Some(path)))
  {
    var after := " \"" + path + "\"";
    assert before + "> \"" + path + "\"" == before + ['>'] + after;
    assert '>' !in after;
    SplitAtRedirect(before, after);
    UnquotePath(path);
  }

  /** The loop stops after the first observation that finds the process terminated. */
  predicate Terminates(trace: seq<Obs>) {
    exists i | 0 <= i < |trace| :: !trace[i].running
  }

  /** The index of that observation. */
  function StopIndex(trace: seq<Obs>): (k: nat)
    requires Terminates(trace)
    ensures k < |trace| && !trace[k].running
    ensures forall i | 0 <= i < k :: trace[i].running
    decreases |trace|
  {
    if !trace[0].running then 0
    else
      assert Terminates(trace[1..]) by {
        var i :| 0 <= i < |trace| && !trace[i].running;
        assert trace[1..][i - 1] == trace[i];
      }
      1 + StopIndex(trace[1..])
  }

  /** `STDout` entries for a run of observations: each line with a newline. */
  function Recorded(obs: seq<Obs>): seq<string> {
    seq(|obs|, i requires 0 <= i < |obs| => obs[i].line + "\n")
  }

  /** The lines echoed for a run of observations: non-empty lines read while running. */
  function Displayed(obs: seq<Obs>): seq<string> {
    if obs == [] then []
    else Displayed(obs[..|obs| - 1]) + (if Last(obs).line != "" && Last(obs).running then [Last(obs).line] else [])
  }

  /** One more observation adds its line to the record, and to the display when it is echoed. */
  lemma {:induction false} ObservationStep(trace: seq<Obs>, i: nat)
    requires i < |trace|
    ensures Recorded(trace[..i + 1]) == Recorded(trace[..i]) + [trace[i].line + "\n"]
    ensures Displayed(trace[..i + 1]) ==
      Displayed(trace[..i]) + if trace[i].line != "" && trace[i].running then [trace[i].line] else []
  {
    assert trace[..i + 1][..i] == trace[..i];
  }

  function FailureNotice(execName: string, exitCode: int): string {
    "PROCESS (" + execName + ") TERMINATED WITH EXIT CODE (" + IntToString(exitCode) + ")"
  }

  /**
    The streaming loop: every read is recorded, the one after termination
    included; only non-empty lines read while running are echoed; one
    notice when the exit code is not zero.
   */
  method Stream(trace: seq<Obs>, exitCode: int, execName: string) returns (stdOut: seq<string>, shown: seq<string>, notices: seq<string>)
    requires Terminates(trace)
    ensures stdOut == Recorded(trace[..StopIndex(trace) + 1])
    ensures shown == Displayed(trace[..StopIndex(trace)])
    ensures notices == if exitCode == 0 then [] else [FailureNotice(execName, exitCode)]
  {
    ghost var k := StopIndex(trace);
    stdOut, shown, notices := [], [], [];
    var i := 0;
    while true
      invariant 0 <= i <= k
      invariant stdOut == Recorded(trace[..i])
      invariant shown == Displayed(trace[..i])
      invariant notices == []
      decreases k - i
    {
      ObservationStep(trace, i);
      var output := trace[i].line;
      stdOut := stdOut + [output + "\n"];
      var running := trace[i].running;
      if output != "" && running {
        shown := shown + [output];
      } else if output == "" && running {
        i := i + 1;
        continue;
      } else {
        if exitCode != 0 {
          notices := [FailureNotice(execName, exitCode)];
        }
        break;
      }
      i := i + 1;
    }
  }

  /** Events echoing each line. */
  function ShownEvents(lines: seq<string>): seq<Event> {
    seq(|lines|, i requires 0 <= i < |lines| => Shown(lines[i]))
  }

  /** The command that is started and where the transcript goes: split only in "force verbose" mode. */
  function Launching(command: string, verbose: bool, forceVerbose: bool): Result<Launch, Error> {
    if verbose && forceVerbose then SplitRedirect(command) else Ok(Launch(command, None))
  }

  /** `STDout`: the streamed transcript when verbose, else empty. */
  function Transcript(verbose: bool, trace: seq<Obs>): seq<string>
    requires verbose ==> Terminates(trace)
  {
    if verbose then Recorded(trace[..StopIndex(trace) + 1]) else []
  }

  /** The lines echoed to the console. */
  function Echoed(verbose: bool, trace: seq<Obs>): seq<string>
    requires verbose ==> Terminates(trace)
  {
    if verbose then Displayed(trace[..StopIndex(trace)]) else []
  }

  /** The failure notice, printed only by the streaming loop. */
  function NoticeEvents(verbose: bool, execName: string, exitCode: int): seq<Event> {
    if verbose && exitCode != 0 then [Notice(FailureNotice(execName, exitCode))] else []
  }

  /** The "force verbose" output file, written when the split found a target. */
  function Written(verbose: bool, forceVerbose: bool, launch: Launch, stdOut: seq<string>): seq<Event> {
    if verbose && forceVerbose && launch.target.Some? then [FileWritten(launch.target.value, Concat(stdOut))] else []
  }

  /** The events of a run, in order. */
  function RunEvents(launch: Launch, shown: seq<string>, notices: seq<Event>, written: seq<Event>): seq<Event> {
    [Launched(launch.command)] + ShownEvents(shown) + notices + written
  }

  /**
    `__ExecuteCommand(command, execName, verbose, forceVerbose)` on a given
    process: the result dictionary and the events, or the exception raised.
   */
  function Execution(command: string, execName: string, verbose: bool, forceVerbose: bool, proc: Process): (Result<ProcessData, Error>, seq<Event>)
    requires verbose ==> Terminates(proc.trace)
  {
    match Launching(command, verbose, forceVerbose)
    case Err(e) => (Err(e), [])
    case Ok(launch) =>
      var stdOut := Transcript(verbose, proc.trace);
      (Ok(ProcessData(proc.rest, "", stdOut, proc.exitCode, None)),
       RunEvents(launch, Echoed(verbose, proc.trace), NoticeEvents(verbose, execName, proc.exitCode),
         Written(verbose, forceVerbose, launch, stdOut)))
  }

  /** `__ExecuteCommand`, running the streaming loop. */
  method ExecuteCommand(command: string, execName: string, verbose: bool, forceVerbose: bool, proc: Process)
    returns (r: Result<ProcessData, Error>, events: seq<Event>)
    requires verbose ==> Terminates(proc.trace)
    ensures (r, events) == Execution(command, execName, verbose, forceVerbose, proc)
  {
    var launch := Ok(Launch(command, None));
    if verbose && forceVerbose {
      launch := SplitRedirect(command);
      if launch.Err? {
        return Err(launch.error), [];
      }
    }
    var stdOut: seq<string> := [];
    var shown: seq<string> := [];
    var notices: seq<string> := [];
    if verbose {
      stdOut, shown, notices := Stream(proc.trace, proc.exitCode, execName);
    }
    var noticeEvents := if notices == [] then [] else [Notice(notices[0])];
    var written := if verbose && forceVerbose && launch.value.target.Some?
      then [FileWritten(launch.value.target.value, Concat(stdOut))] else [];
    events := [Launched(launch.value.command)] + ShownEvents(shown) + noticeEvents + written;
    r := Ok(ProcessData(proc.rest, "", stdOut, proc.exitCode, None));
  }

  /** The failure notices among some events. */
  function Notices(events: seq<Event>): seq<Event> {
    if events == [] then []
    else Notices(events[..|events| - 1]) + (if Last(events).Notice? then [Last(events)] else [])
  }

  lemma {:induction false} NoticesAppend(a: seq<Event>, b: seq<Event>)
    ensures Notices(a + b) == Notices(a) + Notices(b)
    decreases |b|
  {
    if b != [] {
      var b' := b[..|b| - 1];
      NoticesAppend(a, b');
      var tail := if Last(b).Notice? then [Last(b)] else [];
      assert (a + b)[..|a + b| - 1] == a + b';
      assert Last(a + b) == Last(b);
      assert Notices(a + b) == Notices(a + b') + tail;
      assert Notices(b) == Notices(b') + tail;
    } else {
      assert a + b == a;
    }
  }

  lemma {:induction false} NoNoticesShown(lines: seq<string>)
    ensures Notices(ShownEvents(lines)) == []
    decreases |lines|
  {
    if lines != [] {
      NoNoticesShown(lines[..|lines| - 1]);
      assert ShownEvents(lines)[..|lines| - 1] == ShownEvents(lines[..|lines| - 1]);
    }
  }

  /** Only the notice events are notices: the launch, the echoed lines and the file are not. */
  lemma {:induction false} RunEventsNotices(launch: Launch, shown: seq<string>, notices: seq<Event>, written: seq<Event>)
    requires forall e | e in notices :: e.Notice?
    requires forall e | e in written :: e.FileWritten?
    ensures Notices(RunEvents(launch, shown, notices, written)) == notices
  {
    var first := [Launched(launch.command)];
    NoticesAppend(first + ShownEvents(shown) + notices, written);
    NoticesAppend(first + ShownEvents(shown), notices);
    NoticesAppend(first, ShownEvents(shown));
    NoNoticesShown(shown);
    AllNotices(notices);
    NoNotices(written);
    NoNotices(first);
  }

  lemma {:induction false} AllNotices(events: seq<Event>)
    requires forall e | e in events :: e.Notice?
    ensures Notices(events) == events
    decreases |events|
  {
    if events != [] {
      AllNotices(events[..|events| - 1]);
      assert events == events[..|events| - 1] + [Last(events)];
    }
  }

  lemma {:induction false} NoNotices(events: seq<Event>)
    requires forall e | e in events :: !e.Notice?
    ensures Notices(events) == []
    decreases |events|
  {
    if events != [] {
      NoNotices(events[..|events| - 1]);
    }
  }

  /**
    What a run reports: standard error is merged, so `ErrMsg` is always
    empty; the transcript is empty unless verbose; the exit code and the
    remaining output are passed through.
   */
  lemma {:induction false} ExecutionResult(command: string, execName: string, verbose: bool, forceVerbose: bool, proc: Process)
    requires verbose ==> Terminates(proc.trace)
    ensures var r := Execution(command, execName, verbose, forceVerbose, proc).0;
      r.Ok? ==>
        r.value.errMsg == "" && r.value.outMsg == proc.rest && r.value.exitCode == proc.exitCode &&
        r.value.msgOut.None? && (!verbose ==> r.value.stdOut == [])
  {
  }

  /** Exactly one failure notice when verbose and the exit code is not zero, none otherwise. */
  lemma {:induction false} ExecutionNotices(command: string, execName: string, verbose: bool, forceVerbose: bool, proc: Process)
    requires verbose ==> Terminates(proc.trace)
    ensures var (r, events) := Execution(command, execName, verbose, forceVerbose, proc);
      r.Ok? ==>
        Notices(events) == NoticeEvents(verbose, execName, proc.exitCode) &&
        |Notices(events)| == (if verbose && proc.exitCode != 0 then 1 else 0)
  {
    var launch := Launching(command, verbose, forceVerbose);
    if launch.Ok? {
      var stdOut := Transcript(verbose, proc.trace);
      var notices := NoticeEvents(verbose, execName, proc.exitCode);
      var written := Written(verbose, forceVerbose, launch.value, stdOut);
      assert Execution(command, execName, verbose, forceVerbose, proc).1 == RunEvents(launch.value, Echoed(verbose, proc.trace), notices, written);
      RunEventsNotices(launch.value, Echoed(verbose, proc.trace), notices, written);
      assert |notices| == (if verbose && proc.exitCode != 0 then 1 else 0);
    }
  }

  /** The command that is started after a successful split has no `>` left in it. */
  lemma {:induction false} SplitRemovesRedirect(command: string)
    requires SplitRedirect(command).Ok?
    ensures var launch := SplitRedirect(command).value;
      '>' !in launch.command && (launch.target.Some? <==> '>' in command)
  {
    DumperIsOverwrite(command);
    if '>' in command {
      var parts := Split(command, '>');
      assert '>' !in parts[0];
      assert forall x | x in Strip(parts[0]) :: x in parts[0];
    }
  }

  /**
    In "force verbose" mode the process is started without the redirect,
    and when there was one, the file last receives the whole transcript,
    the final read included.
   */
  lemma {:induction false} ForceVerboseWritesTranscript(command: string, execName: string, proc: Process)
    requires Terminates(proc.trace)
    requires SplitRedirect(command).Ok?
    ensures var (r, events) := Execution(command, execName, true, true, proc);
      r.Ok? && events != [] && events[0].Launched? && '>' !in events[0].command &&
      ('>' in command ==> Last(events) == FileWritten(SplitRedirect(command).value.target.value, Concat(r.value.stdOut))) &&
      ('>' !in command ==> forall e | e in events :: !e.FileWritten?)
  {
    SplitRemovesRedirect(command);
    var launch := SplitRedirect(command).value;
    var shown := Echoed(true, proc.trace);
    var notices := NoticeEvents(true, execName, proc.exitCode);
    var written := Written(true, true, launch, Transcript(true, proc.trace));
    assert forall e | e in ShownEvents(shown) :: e.Shown?;
    var events := RunEvents(launch, shown, notices, written);
    assert events == [Launched(launch.command)] + ShownEvents(shown) + notices + written;
  }

  /**
    The transcript: one entry per read up to and including the first one
    after which the process is not running, each the line with a newline.
   */
  lemma {:induction false} StreamTranscript(trace: seq<Obs>)
    requires Terminates(trace)
    ensures var k := StopIndex(trace);
      var stdOut := Transcript(true, trace);
      |stdOut| == k + 1 && forall i | 0 <= i <= k :: stdOut[i] == trace[i].line + "\n"
  {
  }

  /** The final read, recorded last, is never echoed. */
  lemma {:induction false} FinalReadNotEchoed(trace: seq<Obs>)
    requires Terminates(trace)
    ensures Echoed(true, trace) == Displayed(trace[..StopIndex(trace) + 1])
  {
    ObservationStep(trace, StopIndex(trace));
  }

  /** The echoed lines are the non-empty ones read while running, in number at most the reads before the last. */
  lemma {:induction false} StreamEcho(trace: seq<Obs>)
    requires Terminates(trace)
    ensures var k := StopIndex(trace);
      var shown := Echoed(true, trace);
      |shown| <= k &&
      (forall i | 0 <= i < k && trace[i].line != "" :: trace[i].line in shown) &&
      (forall l | l in shown :: l != "" && exists i | 0 <= i < k :: trace[i].line == l)
  {
    var k := StopIndex(trace);
    var running := trace[..k];
    assert forall i | 0 <= i < k :: running[i] == trace[i];
    DisplayedFacts(running);
  }

  /** The echoed lines of running observations are exactly their non-empty lines. */
  lemma {:induction false} DisplayedFacts(obs: seq<Obs>)
    requires forall i | 0 <= i < |obs| :: obs[i].running
    ensures |Displayed(obs)| <= |obs|
    ensures forall i | 0 <= i < |obs| && obs[i].line != "" :: obs[i].line in Displayed(obs)
    ensures forall l | l in Displayed(obs) :: l != "" && exists i | 0 <= i < |obs| :: obs[i].line == l
    decreases |obs|
  {
    if obs != [] {
      var init := obs[..|obs| - 1];
      DisplayedFacts(init);
      assert forall i | 0 <= i < |init| :: init[i] == obs[i];
      forall i | 0 <= i < |obs| && obs[i].line != "" ensures obs[i].line in Displayed(obs) {
        if i < |init| {
          assert init[i] == obs[i];
        }
      }
      forall l | l in Displayed(obs) ensures exists i | 0 <= i < |obs| :: obs[i].line == l {
        if l in Displayed(init) {
          var i :| 0 <= i < |init| && init[i].line == l;
          assert obs[i].line == l;
        } else {
          assert obs[|obs| - 1].line == l;
        }
      }
    }
  }

  /** The echo of two runs of observations is the echo of the first followed by that of the second. */
  lemma {:induction false} DisplayedAppend(a: seq<Obs>, b: seq<Obs>)
    ensures Displayed(a + b) == Displayed(a) + Displayed(b)
    decreases |b|
  {
    if b != [] {
      var init := b[..|b| - 1];
      DisplayedAppend(a, init);
      assert (a + b)[..|a + b| - 1] == a + init;
      assert Last(a + b) == Last(b);
    } else {
      assert a + b == a;
    }
  }
}
