/** The control page itself: the widgets the inbound router writes, the
    log panel, and the command text box, updated in place. Each method is
    proved to leave the page exactly as the matching function of Panel or
    Commands says. */
module ControlPage {
  import opened Wrappers
  import opened Json
  import Text
  import Seqs
  import Panel
  import Commands

  class Page {
    var card1: Panel.Card
    var card2: Panel.Card
    var dryLimit: string
    var wetLimit: string
    var readInterval: string
    /** The children of the log panel, oldest first. */
    var entries: seq<Panel.Entry>
    var commandInput: string

    /** Everything on the page but the text box, as a value. */
    function Snapshot(): Panel.View
      reads this
    {
      Panel.View(card1, card2, dryLimit, wetLimit, readInterval, entries)
    }

    constructor (initial: Panel.View, input: string)
      ensures Snapshot() == initial && commandInput == input
    {
      card1, card2 := initial.card1, initial.card2;
      dryLimit, wetLimit, readInterval := initial.dryLimit, initial.wetLimit, initial.readInterval;
      entries := initial.log;
      commandInput := input;
    }

    /** `logConsole(text, tag)`: append, then drop the oldest entry while
        there are more than MaxEntries. */
    method LogConsole(text: string, tag: Value)
      modifies this`entries
      ensures Snapshot() == Panel.Log(old(Snapshot()), tag, text)
    {
      ghost var before := Snapshot();
      var full := entries + [Panel.Entry(tag, Panel.Colour(tag), text)];
      entries := full;
      ghost var dropped := 0;
      while |entries| > Panel.MaxEntries
        invariant dropped <= |full| && entries == full[dropped..]
        invariant dropped == 0 || |entries| >= Panel.MaxEntries
        decreases |entries|
      {
        Seqs.DropDrop(full, dropped, 1);
        entries := entries[1..];
        dropped := dropped + 1;
      }
      assert entries == Panel.Keep(full);
      assert Snapshot() == before.(log := Panel.Keep(full));
    }

    /** `atualizarSensores(data)`: each card is rewritten only when its
        sensor field is present. */
    method UpdateSensors(m: Msg)
      modifies this`card1, this`card2
      ensures Snapshot() == Panel.UpdateSensors(old(Snapshot()), m)
    {
      if m.sensor1 != None {
        card1 := Panel.Card(DomText(m.sensor1.value), TextOr(m.status1, "OK"),
                            TextOr(m.humidity1, "0") + "%", Panel.BorderFor(m.status1));
      }
      if m.sensor2 != None {
        card2 := Panel.Card(DomText(m.sensor2.value), TextOr(m.status2, "OK"),
                            TextOr(m.humidity2, "0") + "%", Panel.BorderFor(m.status2));
      }
    }

    /** `atualizarConfiguracao(config)`: each input is written only when
        its field is present. */
    method UpdateConfig(m: Msg)
      modifies this`dryLimit, this`wetLimit, this`readInterval
      ensures Snapshot() == Panel.UpdateConfig(old(Snapshot()), m)
    {
      if m.limiteSecoAtual != None {
        dryLimit := DomText(m.limiteSecoAtual.value);
      }
      if m.limiteUmidoAtual != None {
        wetLimit := DomText(m.limiteUmidoAtual.value);
      }
      if m.intervaloAtual != None {
        readInterval := DomText(m.intervaloAtual.value);
      }
    }

    /** The body of the `forEach` in `processarDados`, for one trimmed line. */
    method HandleLine(line: string, parse: string -> Option<Msg>)
      modifies this`card1, this`card2, this`dryLimit, this`wetLimit, this`readInterval, this`entries
      ensures Snapshot() == Panel.HandleLine(old(Snapshot()), line, parse)
    {
      if Panel.ObjectShaped(line) {
        match parse(line)
        case None =>
          if |line| > 0 {
            LogConsole("ESP32: " + line, JStr("raw"));
          }
        case Some(m) =>
          if m.kind == Some(JStr("data")) {
            UpdateSensors(m);
          } else if m.kind == Some(JStr("log")) {
            LogConsole("ESP32: " + Stringify(m.message), Panel.LevelTag(m.level));
          } else if m.kind == Some(JStr("config")) {
            UpdateConfig(m);
          }
      } else if |line| > 0 {
        LogConsole("ESP32: " + line, JStr("raw"));
      }
    }

    /** `processarDados(chunk)`: trim the chunk, split it on line breaks
        and handle every piece, trimmed, in order. */
    method ProcessData(chunk: string, parse: string -> Option<Msg>)
      modifies this`card1, this`card2, this`dryLimit, this`wetLimit, this`readInterval, this`entries
      ensures Snapshot() == Panel.ProcessChunk(old(Snapshot()), chunk, parse)
    {
      ghost var start := Snapshot();
      var lines := Text.Split(Text.Trim(chunk));
      var i := 0;
      while i < |lines|
        invariant 0 <= i <= |lines|
        invariant Snapshot() == Panel.HandleLines(start, Text.TrimEach(lines[..i]), parse)
      {
        Panel.HandleNextLine(start, lines, i, parse);
        HandleLine(Text.Trim(lines[i]), parse);
        i := i + 1;
      }
      assert lines[..i] == lines;
    }

    /** `enviarComando(command)`: refuse without a writer; otherwise write
        the framed command and log how the write ended. */
    method Send(command: string, hasWriter: bool, outcome: Commands.WriteOutcome) returns (written: Option<string>)
      modifies this`entries
      ensures written == Commands.Written(command, hasWriter)
      ensures Snapshot() == Commands.AfterSend(old(Snapshot()), command, hasWriter, outcome)
    {
      if !hasWriter {
        LogConsole(Commands.NotConnectedText, JStr("error"));
        return None;
      }
      written := Some(Commands.Frame(command));
      match outcome
      case Delivered =>
        LogConsole(Commands.SentText(command), JStr("command"));
      case Failed(message) =>
        LogConsole(Commands.FailedText(message), JStr("error"));
    }

    /** `irrigarPlanta(plant, seconds)`, without the button feedback. */
    method Irrigate(plant: int, seconds: int, hasWriter: bool, outcome: Commands.WriteOutcome) returns (written: Option<string>)
      modifies this`entries
      ensures written == Commands.Written(Commands.Encode(Commands.Irrigate(plant, seconds)), hasWriter)
      ensures Snapshot() ==
        Commands.AfterSend(old(Snapshot()), Commands.Encode(Commands.Irrigate(plant, seconds)), hasWriter, outcome)
    {
      written := Send(Commands.Encode(Commands.Irrigate(plant, seconds)), hasWriter, outcome);
    }

    /** `atualizarLimite(tipo)`: calibrate from the value of the matching
        input. */
    method UpdateLimit(tipo: string, hasWriter: bool, outcome: Commands.WriteOutcome) returns (written: Option<string>)
      modifies this`entries
      ensures written == Commands.Written(Commands.Encode(Commands.LimitCommand(tipo, old(dryLimit), old(wetLimit))), hasWriter)
      ensures Snapshot() == Commands.AfterSend(old(Snapshot()),
        Commands.Encode(Commands.LimitCommand(tipo, old(dryLimit), old(wetLimit))), hasWriter, outcome)
    {
      var command := Commands.LimitCommand(tipo, dryLimit, wetLimit);
      written := Send(Commands.Encode(command), hasWriter, outcome);
    }

    /** `atualizarIntervalo()`: send the value of the interval input. */
    method UpdateInterval(hasWriter: bool, outcome: Commands.WriteOutcome) returns (written: Option<string>)
      modifies this`entries
      ensures written == Commands.Written(Commands.Encode(Commands.SetInterval(old(readInterval))), hasWriter)
      ensures Snapshot() ==
        Commands.AfterSend(old(Snapshot()), Commands.Encode(Commands.SetInterval(old(readInterval))), hasWriter, outcome)
    {
      written := Send(Commands.Encode(Commands.SetInterval(readInterval)), hasWriter, outcome);
    }

    /** `enviarComandoCustom()`: send the trimmed text box and clear it;
        when only whitespace was typed, nothing is sent, logged or
        cleared. */
    method SendCustom(hasWriter: bool, outcome: Commands.WriteOutcome) returns (written: Option<string>)
      modifies this`entries, this`commandInput
      ensures Commands.CustomCommand(old(commandInput)) == None ==>
        written == None && Snapshot() == old(Snapshot()) && commandInput == old(commandInput)
      ensures Commands.CustomCommand(old(commandInput)) != None ==>
        && written == Commands.Written(Commands.CustomCommand(old(commandInput)).value, hasWriter)
        && Snapshot() == Commands.AfterSend(old(Snapshot()), Commands.CustomCommand(old(commandInput)).value, hasWriter, outcome)
        && commandInput == ""
    {
      var command := Text.Trim(commandInput);
      if command != [] {
        assert Commands.CustomCommand(commandInput) == Some(command);
        written := Send(command, hasWriter, outcome);
        commandInput := "";
      } else {
        written := None;
      }
    }
  }
}
