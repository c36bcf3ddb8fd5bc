/**
  The logger of `Log.cs` as a pure state machine. Its state is the current
  standard-output mode (unset when the process starts) and the lines written
  so far to standard output and standard error. Every call is one atomic
  transition. A mode marker `##octopus[stdout-<mode>]` is written only when
  a call needs a mode other than the current one. `Interpret` is the partner
  definition: how an orchestrator reads standard output back, attributing
  each line to the mode the last marker set.
 */
module Logger {
  import opened Wrappers
  import ServiceMessageLine
  import Base64

  datatype State = State(mode: Option<string>, stdout: seq<string>, stderr: seq<string>)

  /** The state at process start: no mode yet, nothing written. */
  const Initial: State := State(None, [], [])

  const VerboseMode: string := "verbose"
  const DefaultMode: string := "default"
  const WarningMode: string := "warning"

  /** The mode marker, itself a service message without attributes. */
  function Marker(mode: string): string
  {
    ServiceMessageLine.Format(ServiceMessageLine.Message("stdout-" + mode, []))
  }

  /** What `SetMode` writes: the marker when the mode changes, nothing otherwise. */
  function MarkerIfChanged(st: State, mode: string): seq<string>
  {
    if st.mode == Some(mode) then [] else [Marker(mode)]
  }

  /** Switches the standard-output mode, announcing the switch with a marker line. */
  function SetMode(st: State, mode: string): (r: State)
    ensures r.mode == Some(mode)
    ensures r.stderr == st.stderr
    ensures st.mode == Some(mode) ==> r == st
    ensures st.mode != Some(mode) ==> r.stdout == st.stdout + [Marker(mode)]
  {
    if st.mode == Some(mode) then st
    else State(Some(mode), st.stdout + [Marker(mode)], st.stderr)
  }

  /** The common shape of `Verbose`, `Info` and `Warn`: set the mode, then write the message. */
  function Write(st: State, mode: string, message: string): (r: State)
    ensures r.mode == Some(mode)
    ensures r.stderr == st.stderr
    ensures r.stdout == st.stdout + MarkerIfChanged(st, mode) + [message]
  {
    var s := SetMode(st, mode);
    s.(stdout := s.stdout + [message])
  }

  function Verbose(st: State, message: string): (r: State)
    ensures r.mode == Some(VerboseMode)
    ensures r.stderr == st.stderr
    ensures r.stdout == st.stdout + MarkerIfChanged(st, VerboseMode) + [message]
  {
    Write(st, VerboseMode, message)
  }

  function Info(st: State, message: string): (r: State)
    ensures r.mode == Some(DefaultMode)
    ensures r.stderr == st.stderr
    ensures r.stdout == st.stdout + MarkerIfChanged(st, DefaultMode) + [message]
  {
    Write(st, DefaultMode, message)
  }

  function Warn(st: State, message: string): (r: State)
    ensures r.mode == Some(WarningMode)
    ensures r.stderr == st.stderr
    ensures r.stdout == st.stdout + MarkerIfChanged(st, WarningMode) + [message]
  {
    Write(st, WarningMode, message)
  }

  /** Errors go to standard error and leave the mode alone. */
  function Error(st: State, message: string): (r: State)
    ensures r.mode == st.mode
    ensures r.stdout == st.stdout
    ensures r.stderr == st.stderr + [message]
  {
    st.(stderr := st.stderr + [message])
  }

  /** One call into the logger. */
  datatype Call =
    | VerboseCall(message: string)
    | InfoCall(message: string)
    | WarnCall(message: string)
    | ErrorCall(message: string)

  /** The standard-output mode a call writes in; `None` for a call that writes to standard error. */
  function ModeOf(c: Call): Option<string>
  {
    match c
    case VerboseCall(_) => Some(VerboseMode)
    case InfoCall(_) => Some(DefaultMode)
    case WarnCall(_) => Some(WarningMode)
    case ErrorCall(_) => None
  }

  function Apply(st: State, c: Call): State
  {
    match c
    case VerboseCall(m) => Verbose(st, m)
    case InfoCall(m) => Info(st, m)
    case WarnCall(m) => Warn(st, m)
    case ErrorCall(m) => Error(st, m)
  }

  /** The state after a sequence of calls, made one after the other. */
  function Run(st: State, calls: seq<Call>): State
    decreases |calls|
  {
    if calls == [] then st else Run(Apply(st, calls[0]), calls[1..])
  }

  // Reference definitions over a call sequence, independent of the logger's state.

  /** The standard-output messages, each with the mode it was written in. */
  function Attributed(calls: seq<Call>): seq<(Option<string>, string)>
    decreases |calls|
  {
    if calls == [] then []
    else (if ModeOf(calls[0]).Some? then [(ModeOf(calls[0]), calls[0].message)] else []) + Attributed(calls[1..])
  }

  /** How many standard-output calls need a mode other than the one in force before them. */
  function ModeChanges(mode: Option<string>, calls: seq<Call>): nat
    decreases |calls|
  {
    if calls == [] then 0
    else if ModeOf(calls[0]).None? then ModeChanges(mode, calls[1..])
    else (if ModeOf(calls[0]) == mode then 0 else 1) + ModeChanges(ModeOf(calls[0]), calls[1..])
  }

  /** The mode of the last standard-output call, or `mode` when there is none. */
  function LastMode(mode: Option<string>, calls: seq<Call>): Option<string>
    decreases |calls|
  {
    if calls == [] then mode
    else LastMode(if ModeOf(calls[0]).Some? then ModeOf(calls[0]) else mode, calls[1..])
  }

  function ErrorMessages(calls: seq<Call>): seq<string>
    decreases |calls|
  {
    if calls == [] then []
    else (if calls[0].ErrorCall? then [calls[0].message] else []) + ErrorMessages(calls[1..])
  }

  /** A line an orchestrator takes for a mode marker. */
  predicate IsModeMarker(line: string)
  {
    match ServiceMessageLine.Parse(line)
    case None => false
    case Some(m) => m.attributes == [] && |m.name| >= 7 && m.name[..7] == "stdout-"
  }

  function MarkerMode(line: string): string
    requires IsModeMarker(line)
  {
    ServiceMessageLine.Parse(line).value.name[7..]
  }

  /**
    The orchestrator's reading of standard output: a marker switches the
    current mode, every other line is a message in the current mode.
   */
  function Interpret(mode: Option<string>, lines: seq<string>): seq<(Option<string>, string)>
    decreases |lines|
  {
    if lines == [] then []
    else if IsModeMarker(lines[0]) then Interpret(Some(MarkerMode(lines[0])), lines[1..])
    else [(mode, lines[0])] + Interpret(mode, lines[1..])
  }

  /**
    A message that `WriteLine` writes as exactly one line: it holds neither a
    line feed nor a carriage return, either of which ends a line for a reader.
   */
  predicate SingleLine(s: string)
  {
    '\n' !in s && '\r' !in s
  }

  lemma SingleLineConcat(a: string, b: string)
    requires SingleLine(a) && SingleLine(b)
    ensures SingleLine(a + b)
  {
  }

  /**
    Messages written to standard output that an orchestrator reads as one
    line each and would not mistake for a marker.
   */
  predicate PlainMessages(calls: seq<Call>)
  {
    forall k | 0 <= k < |calls| :: ModeOf(calls[k]).Some? ==> SingleLine(calls[k].message) && !IsModeMarker(calls[k].message)
  }

  lemma MarkerReadBack(mode: string)
    requires ' ' !in mode
    ensures IsModeMarker(Marker(mode))
    ensures MarkerMode(Marker(mode)) == mode
  {
    var m := ServiceMessageLine.Message("stdout-" + mode, []);
    assert ' ' !in m.name;
    ServiceMessageLine.ParseFormat(m);
    assert m.name[..7] == "stdout-";
    assert m.name[7..] == mode;
  }

  lemma ModesHaveNoSpace(c: Call)
    requires ModeOf(c).Some?
    ensures ' ' !in ModeOf(c).value
  {
  }

  /** Once a mode is set, further calls in the same mode write their message and no marker. */
  lemma SameModeNoMarker(st: State, first: Call, second: Call)
    requires ModeOf(first).Some? && ModeOf(first) == ModeOf(second)
    ensures Apply(Apply(st, first), second).stdout == Apply(st, first).stdout + [second.message]
  {
  }

  /** The first standard-output call of a process always announces its mode. */
  lemma FirstCallWritesMarker(c: Call)
    requires ModeOf(c).Some?
    ensures Apply(Initial, c).stdout == [Marker(ModeOf(c).value), c.message]
  {
  }

  /** After a sequence of calls, the mode is that of the last standard-output call. */
  lemma {:induction false} RunMode(st: State, calls: seq<Call>)
    ensures Run(st, calls).mode == LastMode(st.mode, calls)
    decreases |calls|
  {
    if calls != [] {
      RunMode(Apply(st, calls[0]), calls[1..]);
    }
  }

  /** Standard error receives exactly the error messages, in order. */
  lemma {:induction false} RunStderr(st: State, calls: seq<Call>)
    ensures Run(st, calls).stderr == st.stderr + ErrorMessages(calls)
    decreases |calls|
  {
    if calls != [] {
      RunStderr(Apply(st, calls[0]), calls[1..]);
    }
  }

  /** Standard output grows by one line per message plus one marker per mode change. */
  lemma {:induction false} RunStdoutLength(st: State, calls: seq<Call>)
    ensures |Run(st, calls).stdout| == |st.stdout| + |Attributed(calls)| + ModeChanges(st.mode, calls)
    decreases |calls|
  {
    if calls != [] {
      RunStdoutLength(Apply(st, calls[0]), calls[1..]);
    }
  }

  /** A run only appends to standard output. */
  lemma {:induction false} RunExtendsStdout(st: State, calls: seq<Call>)
    ensures |st.stdout| <= |Run(st, calls).stdout|
    ensures Run(st, calls).stdout[..|st.stdout|] == st.stdout
    decreases |calls|
  {
    if calls != [] {
      var st1 := Apply(st, calls[0]);
      RunExtendsStdout(st1, calls[1..]);
      assert st1.stdout[..|st.stdout|] == st.stdout;
    }
  }

  lemma InterpretStep(st: State, c: Call, tail: seq<string>)
    requires ModeOf(c).Some? && !IsModeMarker(c.message)
    ensures Interpret(st.mode, Apply(st, c).stdout[|st.stdout|..] + tail)
         == [(ModeOf(c), c.message)] + Interpret(ModeOf(c), tail)
  {
    var mode := ModeOf(c).value;
    var added := Apply(st, c).stdout[|st.stdout|..];
    assert added == MarkerIfChanged(st, mode) + [c.message];
    if st.mode != Some(mode) {
      ModesHaveNoSpace(c);
      MarkerReadBack(mode);
      assert (added + tail)[1..] == [c.message] + tail;
    }
    assert ([c.message] + tail)[1..] == tail;
  }

  /**
    What a run appends to standard output reads back, through `Interpret`,
    as exactly its messages, each in the mode it was written in, provided
    every message is one line and none looks like a marker.
   */
  lemma {:induction false} InterpretRun(st: State, calls: seq<Call>)
    requires PlainMessages(calls)
    ensures |st.stdout| <= |Run(st, calls).stdout|
    ensures Interpret(st.mode, Run(st, calls).stdout[|st.stdout|..]) == Attributed(calls)
    decreases |calls|
  {
    RunExtendsStdout(st, calls);
    if calls != [] {
      var c := calls[0];
      var st1 := Apply(st, c);
      assert PlainMessages(calls[1..]) by {
        forall k | 0 <= k < |calls[1..]| && ModeOf(calls[1..][k]).Some?
          ensures SingleLine(calls[1..][k].message) && !IsModeMarker(calls[1..][k].message)
        {
          assert calls[1..][k] == calls[k + 1];
        }
      }
      InterpretRun(st1, calls[1..]);
      RunExtendsStdout(st1, calls[1..]);
      var out := Run(st, calls).stdout;
      assert out == Run(st1, calls[1..]).stdout;
      var tail := out[|st1.stdout|..];
      assert out[|st.stdout|..] == st1.stdout[|st.stdout|..] + tail;
      if ModeOf(c).None? {
        assert st1.stdout == st.stdout && st1.mode == st.mode;
      } else {
        assert !IsModeMarker(c.message) by {
          assert calls[0] == c;
        }
        InterpretStep(st, c, tail);
      }
    }
  }

  // Service messages carrying Base64-encoded values.

  /**
    `line` reads back as the service message `name` whose attributes are the
    keys of `fields`, in order, each value being the Base64 encoding of the
    bytes paired with its key (which `Base64.Decode` recovers, by
    `Base64.DecodeEncode`).
   */
  predicate Carries(line: string, name: string, fields: seq<(string, seq<Base64.byte>)>)
  {
    match ServiceMessageLine.Parse(line)
    case None => false
    case Some(m) =>
      && m.name == name
      && |m.attributes| == |fields|
      && forall k | 0 <= k < |fields| ::
           m.attributes[k].key == fields[k].0 && m.attributes[k].value == Base64.Encode(fields[k].1)
  }

  /**
    `Carries` fixes the exact text: two lines that carry the same name and
    the same fields are the same line.
   */
  lemma CarriesExactText(line1: string, line2: string, name: string, fields: seq<(string, seq<Base64.byte>)>)
    requires Carries(line1, name, fields) && Carries(line2, name, fields)
    ensures line1 == line2
  {
    var m1, m2 := ServiceMessageLine.Parse(line1).value, ServiceMessageLine.Parse(line2).value;
    assert m1.attributes == m2.attributes by {
      forall k | 0 <= k < |m1.attributes|
        ensures m1.attributes[k] == m2.attributes[k]
      {
        assert m1.attributes[k].key == fields[k].0 == m2.attributes[k].key;
      }
    }
    ServiceMessageLine.FormatOfParse(line1);
    ServiceMessageLine.FormatOfParse(line2);
  }

  /**
    A line carrying encoded fields holds no character that is absent from
    the frame, the name and the keys and is not a Base64 character.
   */
  lemma CarriedLineAvoids(line: string, name: string, fields: seq<(string, seq<Base64.byte>)>, c: char)
    requires Carries(line, name, fields)
    requires c !in ServiceMessageLine.Prefix && c != ']' && c != ' ' && c != '=' && c != '"'
    requires !Base64.IsAlphabetChar(c)
    requires c !in name && forall k | 0 <= k < |fields| :: c !in fields[k].0
    ensures c !in line
  {
    var m := ServiceMessageLine.Parse(line).value;
    ServiceMessageLine.FormatOfParse(line);
    forall k | 0 <= k < |m.attributes|
      ensures c !in m.attributes[k].key && c !in m.attributes[k].value
    {
      Base64.EncodeAvoids(fields[k].1, c);
    }
    ServiceMessageLine.FormatAvoids(m, c);
  }

  /** A line carrying encoded fields under a single-line name and single-line keys is a single line. */
  lemma CarriedLineIsSingleLine(line: string, name: string, fields: seq<(string, seq<Base64.byte>)>)
    requires Carries(line, name, fields)
    requires SingleLine(name) && forall k | 0 <= k < |fields| :: SingleLine(fields[k].0)
    ensures SingleLine(line)
  {
    CarriedLineAvoids(line, name, fields, '\n');
    CarriedLineAvoids(line, name, fields, '\r');
  }

  /**
    Encodes a service message value: the string is turned into bytes by the
    platform's default code page (`codePage`), then Base64-encoded.
   */
  function ConvertServiceMessageValue(codePage: string -> seq<Base64.byte>, value: string): (r: string)
    ensures Base64.Decode(r) == Some(codePage(value))
    ensures '"' !in r
  {
    var bytes := codePage(value);
    Base64.DecodeEncode(bytes);
    var r := Base64.Encode(bytes);
    assert forall k | 0 <= k < |r| :: r[k] != '"' by {
      forall k | 0 <= k < |r|
        ensures r[k] != '"'
      {
        if k < |r| - Base64.PadCount(|bytes|) {
          assert Base64.IsAlphabetChar(r[k]);
        }
      }
    }
    r
  }

  /** A well-formed line whose values decode to the given bytes carries them. */
  lemma FormatCarries(m: ServiceMessageLine.Message, fields: seq<(string, seq<Base64.byte>)>)
    requires ServiceMessageLine.WellFormed(m)
    requires |m.attributes| == |fields|
    requires forall k | 0 <= k < |fields| ::
      m.attributes[k].key == fields[k].0 && m.attributes[k].value == Base64.Encode(fields[k].1)
    ensures Carries(ServiceMessageLine.Format(m), m.name, fields)
  {
    ServiceMessageLine.ParseFormat(m);
  }

  /** The `setVariable` message with its two values as written (already encoded). */
  function SetVariableMessage(name: string, value: string): ServiceMessageLine.Message
  {
    ServiceMessageLine.Message("setVariable", [
      ServiceMessageLine.Attribute("name", name), ServiceMessageLine.Attribute("value", value)])
  }

  /** The line `SetOutputVariable` writes: `##octopus[setVariable name="<name>" value="<value>"]`, both values encoded. */
  function SetVariableLine(codePage: string -> seq<Base64.byte>, name: string, value: string): string
  {
    ServiceMessageLine.Format(SetVariableMessage(
      ConvertServiceMessageValue(codePage, name), ConvertServiceMessageValue(codePage, value)))
  }

  lemma SetVariableMessageWellFormed(name: string, value: string)
    requires '"' !in name && '"' !in value
    ensures ServiceMessageLine.WellFormed(SetVariableMessage(name, value))
  {
    var attributes := SetVariableMessage(name, value).attributes;
    assert ' ' !in "setVariable";
    assert '=' !in "name" && '=' !in "value";
    forall k | 0 <= k < |attributes|
      ensures '=' !in attributes[k].key && '"' !in attributes[k].value
    {
      if k == 0 { assert attributes[k] == ServiceMessageLine.Attribute("name", name); }
      else { assert attributes[k] == ServiceMessageLine.Attribute("value", value); }
    }
  }

  lemma SetVariableMessageFields(name: string, value: string, fields: seq<(string, seq<Base64.byte>)>)
    requires |fields| == 2
    requires fields[0].0 == "name" && name == Base64.Encode(fields[0].1)
    requires fields[1].0 == "value" && value == Base64.Encode(fields[1].1)
    ensures var attributes := SetVariableMessage(name, value).attributes;
      && |attributes| == |fields|
      && forall k | 0 <= k < |fields| ::
           attributes[k].key == fields[k].0 && attributes[k].value == Base64.Encode(fields[k].1)
  {
    var attributes := SetVariableMessage(name, value).attributes;
    forall k | 0 <= k < |fields|
      ensures attributes[k].key == fields[k].0 && attributes[k].value == Base64.Encode(fields[k].1)
    {
      if k == 0 { assert attributes[k] == ServiceMessageLine.Attribute("name", name); }
      else { assert attributes[k] == ServiceMessageLine.Attribute("value", value); }
    }
  }

  /** A `setVariable` message with two encoded values reads back as those values' bytes. */
  lemma SetVariableMessageCarries(name: string, value: string, nameBytes: seq<Base64.byte>, valueBytes: seq<Base64.byte>)
    requires '"' !in name && '"' !in value
    requires name == Base64.Encode(nameBytes) && value == Base64.Encode(valueBytes)
    ensures Carries(ServiceMessageLine.Format(SetVariableMessage(name, value)),
                    "setVariable", [("name", nameBytes), ("value", valueBytes)])
  {
    var fields := [("name", nameBytes), ("value", valueBytes)];
    SetVariableMessageWellFormed(name, value);
    SetVariableMessageFields(name, value, fields);
    FormatCarries(SetVariableMessage(name, value), fields);
  }

  lemma SetVariableLineCarries(codePage: string -> seq<Base64.byte>, name: string, value: string)
    ensures Carries(SetVariableLine(codePage, name, value), "setVariable",
                    [("name", codePage(name)), ("value", codePage(value))])
  {
    SetVariableMessageCarries(ConvertServiceMessageValue(codePage, name), ConvertServiceMessageValue(codePage, value),
                              codePage(name), codePage(value));
  }

  /**
    Writes a `setVariable` service message in the default mode and, when a
    variable dictionary is supplied, records the output variable in it.
   */
  function SetOutputVariable(st: State, codePage: string -> seq<Base64.byte>, name: string, value: string,
                             variables: Option<map<string, string>>): (r: (State, Option<map<string, string>>))
    ensures r.0.mode == Some(DefaultMode)
    ensures r.0.stderr == st.stderr
    ensures |r.0.stdout| == |st.stdout| + |MarkerIfChanged(st, DefaultMode)| + 1
    ensures r.0.stdout[..|r.0.stdout| - 1] == st.stdout + MarkerIfChanged(st, DefaultMode)
    ensures Carries(r.0.stdout[|r.0.stdout| - 1], "setVariable",
                    [("name", codePage(name)), ("value", codePage(value))])
    ensures variables.None? ==> r.1.None?
    ensures variables.Some? ==> r.1 == Some(variables.value[name := value])
  {
    SetVariableLineCarries(codePage, name, value);
    var line := SetVariableLine(codePage, name, value);
    var st' := Info(st, line);
    assert st'.stdout[..|st'.stdout| - 1] == st.stdout + MarkerIfChanged(st, DefaultMode);
    (st', if variables.Some? then Some(variables.value[name := value]) else None)
  }

  /** A well-formed service message that is not named `stdout-...` is never taken for a mode marker. */
  lemma NotModeMarker(m: ServiceMessageLine.Message)
    requires ServiceMessageLine.WellFormed(m)
    requires |m.name| < 7 || m.name[..7] != "stdout-"
    ensures !IsModeMarker(ServiceMessageLine.Format(m))
  {
    ServiceMessageLine.ParseFormat(m);
  }
}
