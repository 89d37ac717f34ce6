/** Concrete messages and what they do to the page, whatever it showed
    before. `parse` stands for `JSON.parse`; each scenario says what it
    returns for the line in question and nothing else. */
module Scenarios {
  import opened Wrappers
  import opened Json
  import Text
  import Panel

  /** A message with every field absent but `type`. */
  function Bare(kind: string): Msg {
    Msg(Some(JStr(kind)), None, None, None, None, None, None, None, None, None, None, None)
  }

  const BrokenLine := "{not json}"

  /** The text of a two-digit number. */
  lemma {:induction false} TwoDigits(n: nat)
    requires 10 <= n < 100
    ensures Text.IntText(n) == [Text.DigitChar(n / 10), Text.DigitChar(n % 10)]
  {
    assert Text.NatText(n / 10) == [Text.DigitChar(n / 10)];
  }

  /** A line such as `{"type":"data","sensor1":42,"humidity1":55,"status1":"OK"}`:
      sensor 1 shows value `42`, status `OK` and a `55%` bar; sensor 2, the
      inputs and the log are untouched. */
  lemma {:induction false} DataLineUpdatesSensorOne(v: Panel.View, line: string, parse: string -> Option<Msg>)
    requires Panel.ObjectShaped(line)
    requires parse(line) == Some(Bare("data").(sensor1 := Some(JNum(42)), humidity1 := Some(JNum(55)), status1 := Some(JStr("OK"))))
    ensures Panel.HandleLine(v, line, parse) == v.(card1 := Panel.Card("42", "OK", "55%", Panel.Primary))
  {
    var m := Bare("data").(sensor1 := Some(JNum(42)), humidity1 := Some(JNum(55)), status1 := Some(JStr("OK")));
    Panel.ParsedLine(v, line, parse, m);
    assert DomText(JNum(42)) == "42" by {
      TwoDigits(42);
      assert Text.DigitChar(4) == '4' && Text.DigitChar(2) == '2';
    }
    assert TextOr(Some(JNum(55)), "0") == "55" by {
      TwoDigits(55);
      assert Text.DigitChar(5) == '5';
    }
    assert Panel.UpdateCard(v.card1, m.Reading1()) == Panel.Card("42", "OK", "55%", Panel.Primary);
  }

  /** A line such as `{"type":"config","intervaloAtual":30}`: only the
      interval input changes, to `30`. */
  lemma {:induction false} ConfigLineSetsInterval(v: Panel.View, line: string, parse: string -> Option<Msg>)
    requires Panel.ObjectShaped(line)
    requires parse(line) == Some(Bare("config").(intervaloAtual := Some(JNum(30))))
    ensures Panel.HandleLine(v, line, parse) == v.(readInterval := "30")
  {
    var m := Bare("config").(intervaloAtual := Some(JNum(30)));
    Panel.ParsedLine(v, line, parse, m);
    assert DomText(JNum(30)) == "30" by {
      TwoDigits(30);
      assert Text.DigitChar(3) == '3' && Text.DigitChar(0) == '0';
    }
  }

  /** An object-shaped line that does not parse is logged as raw text,
      not dropped. */
  lemma {:induction false} BrokenLineIsLogged(v: Panel.View, parse: string -> Option<Msg>)
    requires parse(BrokenLine) == None
    ensures Panel.HandleLine(v, BrokenLine, parse) == Panel.Log(v, JStr("raw"), "ESP32: {not json}")
  {
    assert |BrokenLine| == 10 && BrokenLine[9] == '}';
    assert "ESP32: " + BrokenLine == "ESP32: {not json}";
  }

  /** A message of an unknown type changes nothing. */
  lemma {:induction false} UnknownTypeIgnored(v: Panel.View, line: string, parse: string -> Option<Msg>)
    requires Panel.ObjectShaped(line) && parse(line) == Some(Bare("ping"))
    ensures Panel.HandleLine(v, line, parse) == v
  {
    assert !Panel.KnownKind(Some(JStr("ping")));
  }
}
