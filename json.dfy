/** The JSON values an inbound `{...}` line can carry, as JavaScript sees
    them once the line has been parsed: which fields are present, how they
    convert to text, and which of them count as true. */
module Json {
  import opened Wrappers
  import Text

  /** A parsed JSON value. Numbers are integral here; an object or array is
      kept only as the text `String(v)` gives for it. */
  datatype Value =
    | JNull
    | JBool(b: bool)
    | JNum(n: int)
    | JStr(s: string)
    | JCompound(rendered: string)

  /** A field of the parsed object: `None` when the key is absent, i.e.
      when reading it gives `undefined`. */
  type Field = Option<Value>

  /** The fields of an inbound message that the page reads; the names are
      the keys of the wire format (`kind` holds the key `type`). */
  datatype Msg = Msg(
    kind: Field,
    sensor1: Field, humidity1: Field, status1: Field,
    sensor2: Field, humidity2: Field, status2: Field,
    message: Field, level: Field,
    limiteSecoAtual: Field, limiteUmidoAtual: Field, intervaloAtual: Field)
  {
    /** The three fields that describe sensor 1. */
    function Reading1(): Reading {
      Reading(sensor1, humidity1, status1)
    }

    /** The three fields that describe sensor 2. */
    function Reading2(): Reading {
      Reading(sensor2, humidity2, status2)
    }
  }

  /** What a message says about one sensor. */
  datatype Reading = Reading(value: Field, humidity: Field, status: Field)

  /** JavaScript truthiness of a field read, the test behind `x || d`:
      `undefined`, `null`, `false`, `0` and `""` are false. */
  predicate Truthy(f: Field) {
    match f
    case None => false
    case Some(JNull) => false
    case Some(JBool(b)) => b
    case Some(JNum(n)) => n != 0
    case Some(JStr(s)) => s != ""
    case Some(JCompound(_)) => true
  }

  /** `String(v)` of a field read, as a template literal `${v}` renders it. */
  function Stringify(f: Field): string {
    match f
    case None => "undefined"
    case Some(JNull) => "null"
    case Some(JBool(b)) => if b then "true" else "false"
    case Some(JNum(n)) => Text.IntText(n)
    case Some(JStr(s)) => s
    case Some(JCompound(r)) => r
  }

  /** The text the page assigns to a widget with `textContent = v` or
      `value = v`: `String(v)`, except that `null` assigns the empty text.
      What the browser then displays or sanitizes is not modelled. */
  function DomText(v: Value): string {
    if v == JNull then "" else Stringify(Some(v))
  }

  /** `f || d` for a string default `d`, rendered as text. */
  function TextOr(f: Field, d: string): string {
    if Truthy(f) then Stringify(f) else d
  }
}
