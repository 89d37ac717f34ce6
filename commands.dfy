/** The commands the page sends to the ESP32 over the serial link: their
    wire text, a reading of that text back into a command (the encoding is
    unambiguous), and what `enviarComando` does to the log panel. */
module Commands {
  import opened Wrappers
  import opened Json
  import Text
  import Panel

  /** Which soil-moisture limit a calibration sets. */
  datatype Limit = Dry | Wet

  /** Every command the page builds. */
  datatype Command =
    | Test
    | Reset
    | Irrigate(plant: int, seconds: int)
    | Calibrate(limit: Limit, value: string)
    | SetInterval(value: string)

  const IrrigatePrefix := "IRRIGAR:"
  const DryPrefix := "CALIBRAR:SECO:"
  const WetPrefix := "CALIBRAR:UMIDO:"
  const IntervalPrefix := "INTERVALO:"

  /** The text of a command, without the line terminator. */
  function Encode(c: Command): string {
    match c
    case Test => "TEST"
    case Reset => "RESET"
    case Irrigate(p, s) => IrrigatePrefix + Text.IntText(p) + ":" + Text.IntText(s)
    case Calibrate(Dry, v) => DryPrefix + v
    case Calibrate(Wet, v) => WetPrefix + v
    case SetInterval(v) => IntervalPrefix + v
  }

  predicate HasPrefix(s: string, p: string) {
    |p| <= |s| && s[..|p|] == p
  }

  /** The position of the first `c` in `s`, if any. */
  function IndexOf(s: string, c: char): (r: Option<nat>)
    ensures r == None <==> c !in s
    ensures r != None ==> r.value < |s| && s[r.value] == c && c !in s[..r.value]
  {
    if s == [] then None
    else if s[0] == c then Some(0)
    else
      match IndexOf(s[1..], c)
      case None => None
      case Some(i) => Some(i + 1)
  }

  /** The `<n>:<d>` tail of an irrigation command. */
  function DecodeIrrigate(rest: string): Option<Command> {
    match IndexOf(rest, ':')
    case None => None
    case Some(i) =>
      match (Text.ParseInt(rest[..i]), Text.ParseInt(rest[i + 1..]))
      case (Some(p), Some(s)) => Some(Irrigate(p, s))
      case _ => None
  }

  /** Reads a command text back: the partner of Encode. */
  function Decode(s: string): Option<Command> {
    if s == "TEST" then Some(Test)
    else if s == "RESET" then Some(Reset)
    else if HasPrefix(s, IrrigatePrefix) then DecodeIrrigate(s[|IrrigatePrefix|..])
    else if HasPrefix(s, DryPrefix) then Some(Calibrate(Dry, s[|DryPrefix|..]))
    else if HasPrefix(s, WetPrefix) then Some(Calibrate(Wet, s[|WetPrefix|..]))
    else if HasPrefix(s, IntervalPrefix) then Some(SetInterval(s[|IntervalPrefix|..]))
    else None
  }

  /** A prefix followed by anything has that prefix, and what follows it
      is the rest. */
  lemma {:induction false} PrefixOf(p: string, v: string)
    ensures HasPrefix(p + v, p) && (p + v)[|p|..] == v
  {
    assert (p + v)[..|p|] == p;
  }

  /** Two texts that differ at a position inside `p` cannot both start
      with `p`. */
  lemma {:induction false} NotPrefix(s: string, p: string, k: nat)
    requires k < |p| && k < |s| && s[k] != p[k]
    ensures !HasPrefix(s, p)
  {
  }

  lemma {:induction false} IndexOfColon(a: string, b: string)
    requires ':' !in a
    ensures IndexOf(a + ":" + b, ':') == Some(|a|)
  {
    var s := a + ":" + b;
    assert s[|a|] == ':';
    assert s[..|a|] == a;
  }

  lemma {:induction false} DecodeIrrigateEncode(p: int, d: int)
    ensures DecodeIrrigate(Text.IntText(p) + ":" + Text.IntText(d)) == Some(Irrigate(p, d))
  {
    var a, b := Text.IntText(p), Text.IntText(d);
    var rest := a + ":" + b;
    IndexOfColon(a, b);
    assert rest[..|a|] == a;
    assert rest[|a| + 1..] == b;
    Text.ParseIntText(p);
    Text.ParseIntText(d);
  }

  /** A text starting `IRRIGAR:` is read as an irrigation command. */
  lemma {:induction false} DecodeIrrigatePrefix(s: string)
    requires HasPrefix(s, IrrigatePrefix)
    ensures Decode(s) == DecodeIrrigate(s[|IrrigatePrefix|..])
  {
    assert s[0] == 'I';
  }

  lemma {:induction false} DecodeIrrigateCommand(p: int, d: int)
    ensures Decode(Encode(Irrigate(p, d))) == Some(Irrigate(p, d))
  {
    var rest := Text.IntText(p) + ":" + Text.IntText(d);
    assert Encode(Irrigate(p, d)) == IrrigatePrefix + rest;
    PrefixOf(IrrigatePrefix, rest);
    DecodeIrrigatePrefix(IrrigatePrefix + rest);
    DecodeIrrigateEncode(p, d);
  }

  lemma {:induction false} DecodeDryCommand(v: string)
    ensures Decode(Encode(Calibrate(Dry, v))) == Some(Calibrate(Dry, v))
  {
    var s := DryPrefix + v;
    PrefixOf(DryPrefix, v);
    NotPrefix(s, IrrigatePrefix, 0);
  }

  lemma {:induction false} DecodeWetCommand(v: string)
    ensures Decode(Encode(Calibrate(Wet, v))) == Some(Calibrate(Wet, v))
  {
    var s := WetPrefix + v;
    PrefixOf(WetPrefix, v);
    NotPrefix(s, IrrigatePrefix, 0);
    NotPrefix(s, DryPrefix, 9);
  }

  lemma {:induction false} DecodeIntervalCommand(v: string)
    ensures Decode(Encode(SetInterval(v))) == Some(SetInterval(v))
  {
    var s := IntervalPrefix + v;
    PrefixOf(IntervalPrefix, v);
    NotPrefix(s, IrrigatePrefix, 1);
    NotPrefix(s, DryPrefix, 0);
    NotPrefix(s, WetPrefix, 0);
  }

  /** Every command reads back as itself. */
  lemma {:induction false} DecodeEncode(c: Command)
    ensures Decode(Encode(c)) == Some(c)
  {
    match c
    case Test =>
    case Reset =>
    case Irrigate(p, d) => DecodeIrrigateCommand(p, d);
    case Calibrate(Dry, v) => DecodeDryCommand(v);
    case Calibrate(Wet, v) => DecodeWetCommand(v);
    case SetInterval(v) => DecodeIntervalCommand(v);
  }

  /** No two commands share a text. */
  lemma {:induction false} EncodeInjective(c: Command, c': Command)
    requires Encode(c) == Encode(c')
    ensures c == c'
  {
    DecodeEncode(c);
    DecodeEncode(c');
  }

  /** A command fits on one line unless a value typed into an input holds
      a line break. */
  predicate OneLine(c: Command) {
    match c
    case Calibrate(_, v) => '\n' !in v
    case SetInterval(v) => '\n' !in v
    case _ => true
  }

  /** The text written to the port: the command and a line break. */
  function Frame(command: string): string {
    command + "\n"
  }

  /** A newline-free command is read by the receiver, splitting on line
      breaks, as exactly one line followed by nothing. */
  lemma {:induction false} FrameIsOneLine(command: string)
    requires '\n' !in command
    ensures Text.Split(Frame(command)) == [command, ""]
  {
    Text.SplitPrefix(command, "\n");
    assert Text.Split("") == [""];
    assert Text.Split("\n") == [""] + Text.Split("");
    assert command + "" == command;
  }

  lemma {:induction false} NoBreakAppend(a: string, b: string)
    requires '\n' !in a && '\n' !in b
    ensures '\n' !in a + b
  {
  }

  lemma {:induction false} IrrigateOneLine(p: int, d: int)
    ensures '\n' !in Encode(Irrigate(p, d))
  {
    var a, b := Text.IntText(p), Text.IntText(d);
    NoBreakAppend(IrrigatePrefix, a);
    NoBreakAppend(IrrigatePrefix + a, ":");
    NoBreakAppend(IrrigatePrefix + a + ":", b);
  }

  lemma {:induction false} EncodeOneLine(c: Command)
    requires OneLine(c)
    ensures '\n' !in Encode(c)
  {
    match c
    case Irrigate(p, d) => IrrigateOneLine(p, d);
    case Calibrate(Dry, v) => NoBreakAppend(DryPrefix, v);
    case Calibrate(Wet, v) => NoBreakAppend(WetPrefix, v);
    case SetInterval(v) => NoBreakAppend(IntervalPrefix, v);
    case Test =>
    case Reset =>
  }

  /** `atualizarLimite(tipo)`: exactly the tag `seco` calibrates the dry
      limit, with the value of the dry-limit input; any other tag
      calibrates the wet limit, with the value of the wet-limit input. */
  function LimitCommand(tipo: string, dryInput: string, wetInput: string): (c: Command)
    ensures c.Calibrate?
    ensures c.limit == Dry <==> tipo == "seco"
    ensures c.value == (if c.limit == Dry then dryInput else wetInput)
  {
    if tipo == "seco" then Calibrate(Dry, dryInput) else Calibrate(Wet, wetInput)
  }

  /** `enviarComandoCustom`: the text box trimmed, and nothing at all when
      that leaves it empty. */
  function CustomCommand(input: string): (r: Option<string>)
    ensures r == None <==> Text.AllSpace(input)
    ensures r != None ==> r.value != [] && Text.Trimmed(r.value)
    ensures r != None ==> r.value == Text.Trim(input)
  {
    Text.TrimShape(input);
    var t := Text.Trim(input);
    if t == [] then None else Some(t)
  }

  /** Typing back a sent custom command sends the same text again, and
      whitespace around the typed text never changes what is sent. */
  lemma {:induction false} CustomCommandStable(input: string, a: string, b: string)
    requires CustomCommand(input) != None
    requires Text.AllSpace(a) && Text.AllSpace(b)
    ensures CustomCommand(CustomCommand(input).value) == CustomCommand(input)
    ensures CustomCommand(a + CustomCommand(input).value + b) == CustomCommand(input)
  {
    var t := CustomCommand(input).value;
    Text.TrimIdempotent(input);
    Text.TrimFramed(a, t, b);
  }

  /** What the port answers to a write: accepted, or an error carrying
      the text of its `message`. */
  datatype WriteOutcome = Delivered | Failed(message: string)

  const NotConnectedText := "\U{274C} N\U{E3}o conectado ao ESP32"

  function SentText(command: string): string {
    "\U{1F4E4} Comando enviado: " + command
  }

  function FailedText(message: string): string {
    "\U{274C} Erro ao enviar comando: " + message
  }

  /** What `enviarComando` writes to the port: the framed command when a
      writer exists, nothing otherwise. */
  function Written(command: string, hasWriter: bool): (w: Option<string>)
    ensures w == None <==> !hasWriter
    ensures w != None ==> |w.value| == |command| + 1
    ensures w != None ==> w.value[..|command|] == command && w.value[|command|] == '\n'
  {
    if hasWriter then Some(Frame(command)) else None
  }

  /** The log panel after `enviarComando`: exactly one entry is added. It
      is a `command` entry when the write went through and an `error`
      entry otherwise, which names the missing connection when there is
      no writer; nothing but the log changes. */
  function AfterSend(v: Panel.View, command: string, hasWriter: bool, outcome: WriteOutcome): (r: Panel.View)
    ensures r.(log := v.log) == v
    ensures 1 <= |r.log| <= Panel.MaxEntries
    ensures r.log == Panel.Keep(v.log + [r.log[|r.log| - 1]])
    ensures r.log[|r.log| - 1].tag == JStr("command") <==> hasWriter && outcome == Delivered
    ensures r.log[|r.log| - 1].tag != JStr("command") ==> r.log[|r.log| - 1].tag == JStr("error")
    ensures !hasWriter ==> r.log[|r.log| - 1].text == NotConnectedText
    ensures hasWriter && outcome == Delivered ==> r.log[|r.log| - 1].text == SentText(command)
  {
    if !hasWriter then Panel.Log(v, JStr("error"), NotConnectedText)
    else
      match outcome
      case Delivered => Panel.Log(v, JStr("command"), SentText(command))
      case Failed(message) => Panel.Log(v, JStr("error"), FailedText(message))
  }

  /** Without a writer the command and the outcome do not matter: nothing
      is written and the same error is logged. */
  lemma {:induction false} RefusedWithoutWriter(v: Panel.View, c: string, c': string, o: WriteOutcome, o': WriteOutcome)
    ensures Written(c, false) == None
    ensures AfterSend(v, c, false, o) == AfterSend(v, c', false, o')
  {
  }
}
