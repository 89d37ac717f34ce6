# Irrigation control page: inbound router, log panel and commands

This project models the browser control page of an ESP32 irrigation controller (`scriptV2.js`). The page talks to the board over a serial line. The model covers what the page does with that line:

- **Inbound router (`processarDados`).** Each decoded chunk is trimmed, split on `'\n'` and each piece trimmed. Blank pieces are skipped. A `{...}`-shaped line is parsed and dispatched on its `type` (`data`, `log`, `config`). Every other line, and every `{...}` line that fails to parse, is logged as `raw` text.
- **Partial updates.** `atualizarSensores` rewrites each sensor card only when its `sensorN` key is present. The status defaults to `OK`, the bar width to `0%`, and the border follows the raw status. `atualizarConfiguracao` writes each of the three inputs only when its key is present.
- **Log panel (`logConsole`).** The panel is a FIFO of at most 100 entries. Each entry's colour is fixed by its severity tag.
- **Commands.** `enviarComando` refuses to write without a writer; otherwise it writes the command plus a line break and logs the outcome. The builders produce `IRRIGAR:<n>:<d>`, `CALIBRAR:SECO:<v>` / `CALIBRAR:UMIDO:<v>` and `INTERVALO:<v>`. `enviarComandoCustom` trims the text box and sends nothing when the result is empty.

Layout:

- `text.dfy` (module `Text`): the ECMAScript string operations used, namely `trim`, `split('\n')` and the decimal text of an integer. It also defines `Fold`, a walk over lines, with generic lemmas about it.
- `json.dfy` (module `Json`): a parsed message as a record of optional fields, with JavaScript truthiness and `String(v)`.
- `panel.dfy` (module `Panel`): the page as a value (`View`) and the functions that specify every inbound change.
- `commands.dfy` (module `Commands`): command texts, a decoder used as their partner, and the effect of `enviarComando`.
- `page.dfy` (module `ControlPage`): class `Page`, whose fields are the page's widgets. Its methods are the source's functions, updating those fields in place. Each method is proved equal to the matching `Panel` or `Commands` function.
- `scenarios.dfy` (module `Scenarios`): concrete lines and their effect.
- `seqs.dfy` (module `Seqs`): generic facts about slicing and concatenating sequences, used by the proofs.
- `wrappers.dfy`: `Option`.

`JSON.parse` is a parameter `parse: string -> Option<Msg>`, where `None` is a thrown `SyntaxError`. Whether a writer exists is a `bool` parameter. How a write ends is a `WriteOutcome` parameter.

The line router trims the chunk before splitting it, as `scriptV2.js:155` does. That first trim makes no difference to which lines are handled. `Text.EffectiveTrimIrrelevant` and `Panel.ChunkLines` prove that splitting the untrimmed chunk and trimming each piece leaves the same non-blank lines.

## Model

| member | source | states |
|---|---|---|
| Text.TrimStartSuffix | scriptV2.js:155 | the result is a suffix of the input, everything removed is whitespace, and the result does not start with whitespace |
| Text.TrimEndPrefix | scriptV2.js:155 | the result is a prefix of the input, everything removed is whitespace, and the result does not end with whitespace |
| Text.Trim | scriptV2.js:158 | `String.prototype.trim`: TrimStart then TrimEnd; what it returns is stated by TrimShape, TrimFramed and TrimIdempotent |
| Text.TrimShape | scriptV2.js:158 | `trim` returns the middle of its input framed by whitespace on both sides; the result neither starts nor ends with whitespace; it is empty exactly when the input is all whitespace |
| Text.TrimFramed | scriptV2.js:300 | `trim` is determined by that shape: any trimmed text framed by whitespace trims back to itself |
| Text.TrimIdempotent | scriptV2.js:300 | trimming twice is trimming once |
| Text.Split | scriptV2.js:155 | `split('\n')` yields at least one piece, and no piece holds a line break |
| Text.JoinSplit | scriptV2.js:155 | the pieces rejoined with line breaks give back the text, so no character is lost |
| Text.SplitJoin | scriptV2.js:155 | splitting line-break-free pieces joined with line breaks gives back the pieces |
| Text.SplitAppend | scriptV2.js:155 | splitting a concatenation fuses the last piece of the first text with the first piece of the second |
| Text.TrimEachAt | scriptV2.js:157-158 | the `forEach` trims every piece: the k-th line handled is the k-th piece, trimmed |
| Text.TrimEach | scriptV2.js:157-158 | one trimmed line per piece; TrimEachAt states that the k-th is the k-th piece trimmed |
| Text.EffectiveTrimIrrelevant | scriptV2.js:155-158 | trimming the chunk before splitting leaves the same non-blank trimmed lines as splitting the raw chunk |
| Text.EffectiveOfSpaces | scriptV2.js:155-158 | pieces that are all whitespace leave no non-blank line |
| Text.IntText | scriptV2.js:262 | `${n}` of an integer is non-empty and holds neither `:` nor a line break |
| Text.ParseIntText | scriptV2.js:262 | the decimal text of an integer reads back as that integer |
| Json.Truthy | scriptV2.js:193-196 | JavaScript truthiness behind the `||` defaults: absent, `null`, `false`, `0` and `""` are false; LevelTag, UpdateCard and MissingStatusShowsOk state the defaults it produces |
| Json.Stringify | scriptV2.js:171 | `${v}` of a field read: `undefined` for an absent key, `null`, `true`/`false`, the decimal text of a number (IntText), a string as itself |
| Json.DomText | scriptV2.js:195 | what `textContent = v` or `value = v` assigns: `String(v)`, with `null` assigning the empty text; UpdateCard and UpdateConfig state where it is written |
| Json.TextOr | scriptV2.js:196 | `v || d` rendered as text: the field when it is truthy, the default otherwise; UpdateCard and MissingStatusShowsOk state its use |
| Panel.Colour | scriptV2.js:313-332 | the default colour `#bdc3c7` is used exactly for the tags outside `success`, `error`, `command`, `warning` and `raw` |
| Panel.ColourNamesTag | scriptV2.js:316-332 | the five named colours are distinct, so an entry's colour identifies its named tag |
| Panel.BorderFor | scriptV2.js:201-207 | danger exactly for status `Muito Seco`, secondary exactly for `Muito Úmido`, primary for anything else, an absent status included |
| Panel.UpdateCard | scriptV2.js:191-208 | an absent `sensorN` leaves the card as it was; otherwise the card shows the value, the status or `OK`, the humidity or `0` with `%`, and the border of the raw status |
| Panel.MissingStatusShowsOk | scriptV2.js:196-206 | a reading without a usable status shows `OK` with the primary border |
| Panel.UpdateSensors | scriptV2.js:189-229 | card 1 follows sensor 1's fields, card 2 follows sensor 2's, and nothing else changes |
| Panel.SensorsIndependent | scriptV2.js:191-208 | card 1 does not depend on anything a message says about sensor 2 |
| Panel.UpdateConfig | scriptV2.js:232-242 | each of the three inputs keeps its value when its key is absent and shows the field when it is present; cards and log are unchanged |
| Panel.Keep | scriptV2.js:343-345 | the eviction loop keeps the last `min(n, 100)` entries, in order |
| Panel.KeepAppend | scriptV2.js:343-345 | evicting after every append equals evicting once at the end, so the panel always holds the newest entries ever logged |
| Panel.Log | scriptV2.js:308-346 | the new entry, coloured by its tag, is last; the panel holds at most 100 entries; nothing else changes |
| Panel.LogEvictsOldest | scriptV2.js:337-345 | below 100 entries nothing is evicted; at 100, exactly the oldest goes and the rest keep their order |
| Panel.LevelTag | scriptV2.js:171 | `json.level || 'info'`: the level when it is truthy, `info` otherwise |
| Panel.Dispatch | scriptV2.js:168-174 | `type` is compared exactly: `data` updates the sensors, `log` logs `ESP32: ` and the message with the level tag, `config` updates the inputs, any other type changes nothing |
| Panel.ObjectShaped | scriptV2.js:164 | `line.startsWith('{') && line.endsWith('}')`; HandleLine states which lines reach the parser because of it |
| Panel.HandleLine | scriptV2.js:158-184 | a blank line does nothing; a non-blank line that is not `{...}`-shaped or does not parse is logged as `raw` with `ESP32: ` in front; a parsed line goes to Dispatch |
| Panel.HandleLines | scriptV2.js:157-185 | the `forEach`: HandleLine on each line in order; stated by HandleLinesAppend, BlankLinesIgnored, LogStaysBounded and RawLinesLogged |
| Panel.Lines | scriptV2.js:155-158 | the lines the `forEach` handles: the chunk trimmed, split on `'\n'`, each piece trimmed; ChunkLines states which lines these are |
| Panel.ProcessChunk | scriptV2.js:154-186 | `processarDados`; ChunkLines states its effect is that of the chunk's non-blank trimmed lines in order, BlankChunk that a blank chunk does nothing |
| Panel.HandleLinesAppend | scriptV2.js:157-185 | handling lines in two batches, one after the other, is handling them all at once |
| Panel.BlankLinesIgnored | scriptV2.js:157-184 | blank pieces have no effect: handling all trimmed pieces is handling only the non-blank ones |
| Panel.ChunkLines | scriptV2.js:154-186 | a chunk has exactly the effect of its non-blank lines, trimmed, in order |
| Panel.BlankChunk | scriptV2.js:154-186 | a whitespace-only chunk changes nothing |
| Panel.LogStaysBounded | scriptV2.js:154-186 | whatever lines arrive, the log panel never holds more than 100 entries |
| Panel.RawLinesLogged | scriptV2.js:164-184 | lines that are not messages each add exactly one `raw` entry `ESP32: <line>`, in order, and change nothing else |
| Commands.Encode | scriptV2.js:262-294 | the command texts `TEST`, `RESET`, `IRRIGAR:<n>:<d>`, `CALIBRAR:SECO:<v>`, `CALIBRAR:UMIDO:<v>`, `INTERVALO:<v>`; DecodeEncode and EncodeInjective state that the texts are unambiguous, EncodeOneLine that they are single lines |
| Commands.DecodeEncode | scriptV2.js:262-294 | every command text reads back as the command that built it |
| Commands.EncodeInjective | scriptV2.js:262-294 | no two commands share a text |
| Commands.EncodeOneLine | scriptV2.js:262-294 | a command holds no line break unless a typed value does |
| Commands.Frame | scriptV2.js:252 | `comando + '\n'`; FrameIsOneLine states that the receiver reads it as exactly one line, Written that it is what is written |
| Commands.FrameIsOneLine | scriptV2.js:252 | the written `command + '\n'` is, for the receiver, exactly one line |
| Commands.LimitCommand | scriptV2.js:279-289 | exactly the tag `seco` calibrates the dry limit, with the dry input's value; any other tag calibrates the wet limit, with the wet input's value |
| Commands.CustomCommand | scriptV2.js:299-305 | nothing is sent exactly when the text box is all whitespace; otherwise the trimmed text is sent, which is non-empty and trimmed |
| Commands.CustomCommandStable | scriptV2.js:300 | re-entering a sent custom command, or adding whitespace around it, sends the same text |
| Commands.Written | scriptV2.js:245-252 | nothing is written exactly when there is no writer; otherwise the command followed by one line break |
| Commands.AfterSend | scriptV2.js:245-258 | exactly one entry is logged and nothing else changes; it is `command` exactly when a writer exists and the write succeeds, `error` otherwise; without a writer it says the page is not connected |
| Commands.RefusedWithoutWriter | scriptV2.js:246-249 | without a writer nothing is written, and the command and the write outcome do not matter |
| ControlPage.Page.LogConsole | scriptV2.js:308-346 | appending and then evicting from the front while above 100 leaves the panel as `Panel.Log` says |
| ControlPage.Page.UpdateSensors | scriptV2.js:189-229 | the cards end up as `Panel.UpdateSensors` says |
| ControlPage.Page.UpdateConfig | scriptV2.js:232-242 | the inputs end up as `Panel.UpdateConfig` says |
| ControlPage.Page.HandleLine | scriptV2.js:158-184 | one line changes the page as `Panel.HandleLine` says |
| ControlPage.Page.ProcessData | scriptV2.js:154-186 | the loop over a chunk's pieces changes the page as `Panel.ProcessChunk` says |
| ControlPage.Page.Send | scriptV2.js:245-258 | writes `Commands.Written` and leaves the page as `Commands.AfterSend` says |
| ControlPage.Page.Irrigate | scriptV2.js:261-263 | sends `IRRIGAR:<n>:<d>` |
| ControlPage.Page.UpdateLimit | scriptV2.js:279-289 | sends the calibration that `Commands.LimitCommand` builds from the two limit inputs |
| ControlPage.Page.UpdateInterval | scriptV2.js:292-296 | sends `INTERVALO:` and the interval input |
| ControlPage.Page.SendCustom | scriptV2.js:299-305 | a whitespace-only text box sends, logs and clears nothing; otherwise the trimmed text is sent and the box is cleared |
| Scenarios.DataLineUpdatesSensorOne | scriptV2.js:191-207 | a `data` line with sensor 1 at 42, humidity 55 and status `OK` shows `42`, `OK`, `55%` and the primary border, and changes nothing else |
| Scenarios.ConfigLineSetsInterval | scriptV2.js:232-242 | a `config` line with only `intervaloAtual: 30` changes only the interval input, to `30` |
| Scenarios.BrokenLineIsLogged | scriptV2.js:164-180 | `{not json}` is logged as raw text, not dropped |
| Scenarios.UnknownTypeIgnored | scriptV2.js:168-174 | a parsed line of an unknown type changes nothing |

## Left out

- The serial session (`toggleConnection`, `conectar`, `desconectar`, `lerDadosSerial`, scriptV2.js:23-151) is Web Serial I/O with a cooperative read loop. Only its effect on sending is kept, as the `hasWriter` parameter. `desconectar` never resets `writer`, so nothing is claimed about sending after a disconnect.
- `JSON.parse` is a library call. It is the `parse` parameter, and a parsed object is reduced to the twelve keys the page reads.
- Numbers in messages are integers. Fractional and exponent forms of JavaScript number-to-text conversion are not modelled. An object or array value is kept only as its rendered text (`JCompound`).
- The `catch` at scriptV2.js:175 also catches exceptions thrown by the DOM handlers. The model's handlers cannot throw, so that path is absent.
- `error.message` of a failed write is a plain string in `WriteOutcome.Failed`. An error without a `message` is not modelled.
- The timestamp of a log entry (`toLocaleTimeString`), icons, scrolling, enabling and disabling buttons, and the spinner and `setTimeout` restore in `irrigarPlanta` (scriptV2.js:266-275) are presentation. They are not part of `View`.
- Event-listener wiring and the load/unload hooks (scriptV2.js:18-20, 349-371) are not modelled. The `TEST` and `RESET` commands the buttons send are kept as `Command` values.
- `Commands.Decode` and `Commands.OneLine` are not in the source. They are reference definitions, used to state that the command texts are unambiguous and single-line.
- `Text.IsSpace` lists the ECMAScript WhiteSpace and LineTerminator characters explicitly. No Unicode database is involved.
- Panel.Card.width is a text `"<h>%"`. The style property it is assigned to is not modelled.
- Panel.UpdateConfig (and ControlPage.Page.UpdateConfig): the three limit and interval widgets are form inputs, and the browser sanitizes what is assigned to their `value` (a text input drops line breaks, a number input empties a non-number). The page markup is not part of this model, so each input holds `String(v)` exactly as assigned. A typed or received value with a line break is therefore possible here, which is why Commands.EncodeOneLine carries the `OneLine` condition.
- Commands.Encode / ControlPage.Page.Irrigate: the plant number and duration of `irrigarPlanta` are integers. The buttons that call it are not part of this model; a fractional duration, which would render as `IRRIGAR:1:2.5`, is not covered.
- ControlPage.Page.Send (and through it Irrigate, UpdateLimit, UpdateInterval and SendCustom): `enviarComando` is asynchronous and logs its entry only after `writer.write` settles, while the read loop may go on handling inbound lines. The model takes the write and its log entry as one step, with no inbound line handled in between; on a full panel an interleaving could change which entries are evicted.
