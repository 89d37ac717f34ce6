/** What the page shows, as a value, and how each inbound line changes it:
    the two sensor cards, the three configuration inputs and the log panel.
    The functions here specify the imperative page in ControlPage. */
module Panel {
  import opened Wrappers
  import opened Json
  import Text
  import Seqs

  /** The log panel keeps at most this many entries. */
  const MaxEntries: nat := 100

  const SuccessColour := "#2ecc71"
  const ErrorColour := "#e74c3c"
  const CommandColour := "#3498db"
  const WarningColour := "#f39c12"
  const RawColour := "#95a5a6"
  const DefaultColour := "#bdc3c7"

  /** The severity tags that have a colour of their own. */
  const NamedTags: set<Value> :=
    {JStr("success"), JStr("error"), JStr("command"), JStr("warning"), JStr("raw")}

  /** The left border of a sensor card: `--danger-color`,
      `--secondary-color` or `--primary-color`. */
  datatype Border = Danger | Secondary | Primary

  /** One sensor card: the reading, the status line, the width of the
      progress bar and the border. */
  datatype Card = Card(value: string, status: string, width: string, border: Border)

  /** One line of the log panel: the severity tag it was logged with, its
      colour and its text (the timestamp in front is not modelled). */
  datatype Entry = Entry(tag: Value, colour: string, text: string)

  /** Everything the inbound router can change on the page. */
  datatype View = View(
    card1: Card, card2: Card,
    dryLimit: string, wetLimit: string, readInterval: string,
    log: seq<Entry>)

  predicate Bounded(v: View) {
    |v.log| <= MaxEntries
  }

  /** The colour of a log entry, chosen by its tag alone: five tags have
      a colour of their own and every other tag, `info` included, shares
      the default. */
  function Colour(tag: Value): (c: string)
    ensures c == DefaultColour <==> tag !in NamedTags
  {
    if tag == JStr("success") then SuccessColour
    else if tag == JStr("error") then ErrorColour
    else if tag == JStr("command") then CommandColour
    else if tag == JStr("warning") then WarningColour
    else if tag == JStr("raw") then RawColour
    else DefaultColour
  }

  /** The colours are distinct, so the colour of an entry tells which of
      the named tags it was logged with. */
  lemma {:induction false} ColourNamesTag(a: Value, b: Value)
    requires a in NamedTags && Colour(a) == Colour(b)
    ensures a == b
  {
  }

  /** The border follows the raw status field: exactly `Muito Seco` is
      danger, exactly `Muito Úmido` is secondary, anything else (an absent
      status included) is primary. */
  function BorderFor(status: Field): (b: Border)
    ensures b == Danger <==> status == Some(JStr("Muito Seco"))
    ensures b == Secondary <==> status == Some(JStr("Muito \U{DA}mido"))
  {
    if status == Some(JStr("Muito Seco")) then Danger
    else if status == Some(JStr("Muito \U{DA}mido")) then Secondary
    else Primary
  }

  /** A sensor card after a reading: untouched when the reading has no
      value; otherwise every part is rewritten from the reading alone. */
  function UpdateCard(c: Card, r: Reading): (d: Card)
    ensures r.value == None ==> d == c
    ensures r.value != None ==> d.value == DomText(r.value.value)
    ensures r.value != None ==> d.status == TextOr(r.status, "OK")
    ensures r.value != None ==> d.width == TextOr(r.humidity, "0") + "%"
    ensures r.value != None ==> d.border == BorderFor(r.status)
  {
    match r.value
    case None => c
    case Some(v) =>
      Card(DomText(v), TextOr(r.status, "OK"), TextOr(r.humidity, "0") + "%", BorderFor(r.status))
  }

  /** A reading with a value but no usable status shows `OK` with the
      primary border; the border is not derived from the shown status. */
  lemma {:induction false} MissingStatusShowsOk(c: Card, r: Reading)
    requires r.value != None && !Truthy(r.status)
    ensures UpdateCard(c, r).status == "OK"
    ensures UpdateCard(c, r).border == Primary
  {
  }

  /** A `data` message: each card follows its own reading. */
  function UpdateSensors(v: View, m: Msg): (r: View)
    ensures r.card1 == UpdateCard(v.card1, m.Reading1())
    ensures r.card2 == UpdateCard(v.card2, m.Reading2())
    ensures r.(card1 := v.card1, card2 := v.card2) == v
  {
    v.(card1 := UpdateCard(v.card1, m.Reading1()), card2 := UpdateCard(v.card2, m.Reading2()))
  }

  /** The sensors are independent: what a message says about one sensor
      cannot change the other's card. */
  lemma {:induction false} SensorsIndependent(v: View, m: Msg, m': Msg)
    requires m.Reading1() == m'.Reading1()
    ensures UpdateSensors(v, m).card1 == UpdateSensors(v, m').card1
  {
  }

  /** An input after assigning a field to it, when the field is present. */
  function Assign(current: string, f: Field): string {
    match f
    case None => current
    case Some(x) => DomText(x)
  }

  /** A `config` message: each of the three inputs is written only when
      its key is present. */
  function UpdateConfig(v: View, m: Msg): (r: View)
    ensures m.limiteSecoAtual == None ==> r.dryLimit == v.dryLimit
    ensures m.limiteUmidoAtual == None ==> r.wetLimit == v.wetLimit
    ensures m.intervaloAtual == None ==> r.readInterval == v.readInterval
    ensures m.limiteSecoAtual != None ==> r.dryLimit == DomText(m.limiteSecoAtual.value)
    ensures m.limiteUmidoAtual != None ==> r.wetLimit == DomText(m.limiteUmidoAtual.value)
    ensures m.intervaloAtual != None ==> r.readInterval == DomText(m.intervaloAtual.value)
    ensures r.card1 == v.card1 && r.card2 == v.card2 && r.log == v.log
  {
    v.(dryLimit := Assign(v.dryLimit, m.limiteSecoAtual),
       wetLimit := Assign(v.wetLimit, m.limiteUmidoAtual),
       readInterval := Assign(v.readInterval, m.intervaloAtual))
  }

  /** The newest entries of `s`, at most MaxEntries of them, in order. */
  function Keep<T>(s: seq<T>): (r: seq<T>)
    ensures |r| == if |s| <= MaxEntries then |s| else MaxEntries
    ensures r == s[|s| - |r|..]
  {
    if |s| <= MaxEntries then s else s[|s| - MaxEntries..]
  }

  /** Trimming after every append is the same as trimming once at the end:
      the panel always holds the newest entries ever logged. */
  lemma {:induction false} KeepAppend<T>(a: seq<T>, b: seq<T>)
    ensures Keep(Keep(a) + b) == Keep(a + b)
  {
    if |a| > MaxEntries {
      var k := |a| - MaxEntries;
      assert Keep(a) + b == (a + b)[k..];
      Seqs.DropDrop(a + b, k, |a + b| - k - MaxEntries);
    }
  }

  /** `logConsole(text, tag)`: the entry goes last, and the oldest entries
      are dropped while there are more than MaxEntries. */
  function Log(v: View, tag: Value, text: string): (r: View)
    ensures r.log == Keep(v.log + [Entry(tag, Colour(tag), text)])
    ensures |r.log| <= MaxEntries && r.log[|r.log| - 1] == Entry(tag, Colour(tag), text)
    ensures r.(log := v.log) == v
  {
    v.(log := Keep(v.log + [Entry(tag, Colour(tag), text)]))
  }

  /** Below the cap nothing is evicted; at the cap exactly the oldest
      entry goes, the rest keep their order and the new entry is last. */
  lemma {:induction false} LogEvictsOldest(v: View, tag: Value, text: string)
    requires Bounded(v)
    ensures |v.log| < MaxEntries ==> Log(v, tag, text).log == v.log + [Entry(tag, Colour(tag), text)]
    ensures |v.log| == MaxEntries ==> Log(v, tag, text).log == v.log[1..] + [Entry(tag, Colour(tag), text)]
  {
    var e := Entry(tag, Colour(tag), text);
    if |v.log| == MaxEntries {
      assert (v.log + [e])[1..] == v.log[1..] + [e];
    }
  }

  /** `json.level || 'info'`. */
  function LevelTag(level: Field): (t: Value)
    ensures Truthy(level) ==> Some(t) == level
    ensures !Truthy(level) ==> t == JStr("info")
  {
    if Truthy(level) then level.value else JStr("info")
  }

  /** A message of a `type` the page does not know is dropped. */
  predicate KnownKind(kind: Field) {
    kind == Some(JStr("data")) || kind == Some(JStr("log")) || kind == Some(JStr("config"))
  }

  /** A parsed line goes to exactly one handler, chosen by comparing `type`
      exactly; any other `type` changes nothing and logs nothing. */
  function Dispatch(v: View, m: Msg): (r: View)
    ensures m.kind == Some(JStr("data")) ==> r == UpdateSensors(v, m)
    ensures m.kind == Some(JStr("log")) ==> r == Log(v, LevelTag(m.level), "ESP32: " + Stringify(m.message))
    ensures m.kind == Some(JStr("config")) ==> r == UpdateConfig(v, m)
    ensures !KnownKind(m.kind) ==> r == v
  {
    if m.kind == Some(JStr("data")) then UpdateSensors(v, m)
    else if m.kind == Some(JStr("log")) then Log(v, LevelTag(m.level), "ESP32: " + Stringify(m.message))
    else if m.kind == Some(JStr("config")) then UpdateConfig(v, m)
    else v
  }

  /** `line.startsWith('{') && line.endsWith('}')`. */
  predicate ObjectShaped(line: string) {
    |line| > 0 && line[0] == '{' && line[|line| - 1] == '}'
  }

  /** A line that ends up in the log as raw text: not blank, and either not
      `{...}`-shaped or not parseable. */
  predicate IsRawLine(line: string, parse: string -> Option<Msg>) {
    line != [] && (!ObjectShaped(line) || parse(line) == None)
  }

  /** One trimmed line: blank lines do nothing, raw lines are logged with
      the tag `raw`, parsed lines are dispatched. */
  function HandleLine(v: View, line: string, parse: string -> Option<Msg>): (r: View)
    ensures line == [] ==> r == v
    ensures IsRawLine(line, parse) ==> r == Log(v, JStr("raw"), "ESP32: " + line)
    ensures line != [] && !IsRawLine(line, parse) ==> r == Dispatch(v, parse(line).value)
  {
    if ObjectShaped(line) then
      match parse(line)
      case None => if |line| > 0 then Log(v, JStr("raw"), "ESP32: " + line) else v
      case Some(m) => Dispatch(v, m)
    else if |line| > 0 then Log(v, JStr("raw"), "ESP32: " + line)
    else v
  }

  /** An object-shaped line that parses goes to Dispatch. */
  lemma {:induction false} ParsedLine(v: View, line: string, parse: string -> Option<Msg>, m: Msg)
    requires ObjectShaped(line) && parse(line) == Some(m)
    ensures HandleLine(v, line, parse) == Dispatch(v, m)
  {
  }

  /** HandleLine, as the step of a walk over lines. */
  function Step(parse: string -> Option<Msg>): (View, string) -> View {
    (w: View, line: string) => HandleLine(w, line, parse)
  }

  /** The lines, handled in order. */
  function HandleLines(v: View, lines: seq<string>, parse: string -> Option<Msg>): View {
    Text.Fold(v, lines, Step(parse))
  }

  /** The lines of a chunk as the page walks them: the chunk trimmed, split
      on newlines, and each piece trimmed. */
  function Lines(chunk: string): seq<string> {
    Text.TrimEach(Text.Split(Text.Trim(chunk)))
  }

  /** `processarDados(chunk)`. */
  function ProcessChunk(v: View, chunk: string, parse: string -> Option<Msg>): View {
    HandleLines(v, Lines(chunk), parse)
  }

  /** Handling a batch of lines in two parts, one after the other, is
      handling the whole batch. */
  lemma {:induction false} HandleLinesAppend(v: View, x: seq<string>, y: seq<string>, parse: string -> Option<Msg>)
    ensures HandleLines(v, x + y, parse) == HandleLines(HandleLines(v, x, parse), y, parse)
  {
    Text.FoldAppend(v, x, y, Step(parse));
  }

  /** Handling one more line after the others. */
  lemma {:induction false} HandleLinesSnoc(v: View, lines: seq<string>, line: string, parse: string -> Option<Msg>)
    ensures HandleLines(v, lines + [line], parse) == HandleLine(HandleLines(v, lines, parse), line, parse)
  {
    Text.FoldSnoc(v, lines, line, Step(parse));
  }

  /** The walk over a chunk's pieces, one piece further. */
  lemma {:induction false} HandleNextLine(v: View, pieces: seq<string>, i: nat, parse: string -> Option<Msg>)
    requires i < |pieces|
    ensures HandleLines(v, Text.TrimEach(pieces[..i + 1]), parse) ==
            HandleLine(HandleLines(v, Text.TrimEach(pieces[..i]), parse), Text.Trim(pieces[i]), parse)
  {
    Text.TrimEachSnoc(pieces, i);
    HandleLinesSnoc(v, Text.TrimEach(pieces[..i]), Text.Trim(pieces[i]), parse);
  }

  /** Blank lines have no effect: handling the trimmed pieces is handling
      just the non-blank ones. */
  lemma {:induction false} BlankLinesIgnored(v: View, pieces: seq<string>, parse: string -> Option<Msg>)
    ensures HandleLines(v, Text.TrimEach(pieces), parse) == HandleLines(v, Text.Effective(pieces), parse)
  {
    assert forall w :: Step(parse)(w, "") == w;
    Text.FoldSkipsBlank(v, pieces, Step(parse));
  }

  /** Every non-blank line of the chunk is handled, trimmed and in order,
      and nothing else is: trimming the chunk first and dropping blank
      lines leave exactly these. */
  lemma {:induction false} ChunkLines(v: View, chunk: string, parse: string -> Option<Msg>)
    ensures ProcessChunk(v, chunk, parse) == HandleLines(v, Text.Effective(Text.Split(chunk)), parse)
  {
    BlankLinesIgnored(v, Text.Split(Text.Trim(chunk)), parse);
    Text.EffectiveTrimIrrelevant(chunk);
  }

  /** A chunk of whitespace only changes nothing. */
  lemma {:induction false} BlankChunk(v: View, chunk: string, parse: string -> Option<Msg>)
    requires Text.AllSpace(chunk)
    ensures ProcessChunk(v, chunk, parse) == v
  {
    ChunkLines(v, chunk, parse);
    Text.SplitAllSpace(chunk);
    Text.EffectiveOfSpaces(Text.Split(chunk));
  }

  /** The log panel never grows past MaxEntries, whatever arrives. */
  lemma {:induction false} LogStaysBounded(v: View, lines: seq<string>, parse: string -> Option<Msg>)
    requires Bounded(v)
    ensures Bounded(HandleLines(v, lines, parse))
  {
    assert forall w, line :: Bounded(w) ==> Bounded(Step(parse)(w, line));
    Text.FoldKeeps(v, lines, Step(parse), Bounded);
  }

  /** The entries that raw lines add to the log, blank lines adding none. */
  function RawEntries(lines: seq<string>): seq<Entry> {
    if lines == [] then []
    else
      var last := lines[|lines| - 1];
      RawEntries(lines[..|lines| - 1])
        + (if last == [] then [] else [Entry(JStr("raw"), RawColour, "ESP32: " + last)])
  }

  /** A raw line appends one `raw` entry and changes nothing else. */
  lemma {:induction false} RawLineEntry(v: View, line: string, parse: string -> Option<Msg>)
    requires IsRawLine(line, parse)
    ensures HandleLine(v, line, parse) == v.(log := Keep(v.log + [Entry(JStr("raw"), RawColour, "ESP32: " + line)]))
  {
    assert Colour(JStr("raw")) == RawColour;
  }

  /** One more line that is blank or raw extends the log by its entry. */
  lemma {:induction false} RawLineStep(v: View, init: seq<string>, last: string, parse: string -> Option<Msg>)
    requires last == [] || IsRawLine(last, parse)
    requires HandleLines(v, init, parse) == v.(log := Keep(v.log + RawEntries(init)))
    ensures HandleLines(v, init + [last], parse) == v.(log := Keep(v.log + RawEntries(init + [last])))
  {
    var before := v.log + RawEntries(init);
    HandleLinesSnoc(v, init, last, parse);
    Seqs.InitOfAppend(init, [last]);
    if last == [] {
      assert RawEntries(init + [last]) == RawEntries(init) + [];
      assert v.log + RawEntries(init + [last]) == before;
    } else {
      var e := Entry(JStr("raw"), RawColour, "ESP32: " + last);
      RawLineEntry(v.(log := Keep(before)), last, parse);
      KeepAppend(before, [e]);
      assert RawEntries(init + [last]) == RawEntries(init) + [e];
      Seqs.AppendAssoc(v.log, RawEntries(init), [e]);
    }
  }

  /** Lines that are not messages each add exactly one `raw` entry, with the
      text `ESP32: ` and the line, in order; nothing else changes. */
  lemma {:induction false} RawLinesLogged(v: View, lines: seq<string>, parse: string -> Option<Msg>)
    requires Bounded(v)
    requires forall k :: 0 <= k < |lines| ==> lines[k] == [] || IsRawLine(lines[k], parse)
    ensures HandleLines(v, lines, parse) == v.(log := Keep(v.log + RawEntries(lines)))
  {
    if lines == [] {
      assert v.log + [] == v.log;
    } else {
      var init, last := lines[..|lines| - 1], lines[|lines| - 1];
      RawLinesLogged(v, init, parse);
      Seqs.InitLast(lines);
      RawLineStep(v, init, last, parse);
    }
  }
}
