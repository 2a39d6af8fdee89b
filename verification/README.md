# Multi-tool weather agent: tools and turn extraction in Dafny

This project models the deterministic core of a small multi-agent demo built
on the Google Agent Development Kit (ADK). A root "weather assistant" agent
owns a weather-lookup tool and delegates greetings and farewells to two
child agents. Two parts of the demo do not depend on the language model:

- **The tools** (`multi-tool-agent/agent.py`):
  - `get_weather` normalises a city name (lower case, spaces removed) and
    looks it up in a fixed table. It returns the table's success record, or
    an error record whose message quotes the name exactly as given.
  - `say_hello` greets by name when one is given.
  - `say_goodbye` returns a fixed farewell.
- **The turn loop** of `call_agent_async`. It walks the events the runner
  yields for one user message. The first event flagged as a final response
  decides the text returned:
  - the text of that event's first content part, if it has one;
  - else an escalation warning, if the event escalates;
  - else a preset fallback.
  
  The fallback also stands when no final event arrives.

Modules:

- `Wrappers` — `Option`, standing for Python's `None` and a present value.
- `Text` — the string operations the tools and the loop use:
  - `str.lower()` on the letters described at `Text.IsUpper`;
  - `str.replace(" ", "")`;
  - the truthiness of an optional string;
  - `prefix + value + suffix` templates (the source's f-strings), with
    `Unquote`, which reads the value back out.
- `Tools` — `GetWeather`, `SayHello`, `SayGoodbye` and the weather table.
- `Turn` — the `Event` datatype, the recursive `ExtractResponse`, and
  `CallAgent`, the loop as written, proved equal to it.

Each operation is tied to an independent statement:

- `Normalize`: `NormalizeSingle` and `NormalizeAppend` fix the key of
  every name character by character.
- `GetWeather`: `Unquote` recovers the city from the error message, and the
  table keys are fixed points of `Normalize`.
- `SayHello`: `Unquote` recovers the name from the greeting.
- `ExtractResponse`: `IsFirstFinal`, a definition of the first final event
  by quantifiers, plus lemmas that events before it and after it are
  ignored.
- `CallAgent`: `ExtractResponse`.

Two facts about the code are worth stating plainly:

- Escalation is read only from an event that is already a final response,
  and content parts take precedence over it (agent.py:169-172).
- Names with the same key get identical records only when the lookup
  succeeds. The error record quotes the raw name, so two unknown names give
  equal records exactly when the names are equal. `Tools.SameKeySameOutcome`
  states both halves.

## Model

| member | source | states |
|---|---|---|
| Text.Truthy | multi-tool-agent/agent.py:60 | an optional string is falsy exactly when it is `None` or the empty string (also used for the error message at agent.py:172) |
| Text.LowerChar | multi-tool-agent/agent.py:32 | lowering a character yields no upper-case letter; it changes exactly the upper-case letters; it neither creates nor removes a space |
| Text.Lower | multi-tool-agent/agent.py:32 | `lower()` keeps the length; the result holds no upper-case letter; a string without upper-case letters is unchanged, so lowering is idempotent; with `Text.LowerSingle` and `Text.LowerAppend` every character is lowered in place |
| Text.LowerSingle | multi-tool-agent/agent.py:32 | lowering a one-character string gives the lower-case partner of that character |
| Text.LowerAppend | multi-tool-agent/agent.py:32 | lowering distributes over concatenation, so with `Text.LowerSingle` the result of `lower()` is fixed character by character |
| Text.RemoveSpaces | multi-tool-agent/agent.py:32 | `replace(" ", "")` leaves no space, never lengthens the string, and leaves a space-free string unchanged |
| Text.RemoveSpacesCounts | multi-tool-agent/agent.py:32 | removing spaces keeps every other character exactly as often as it occurred |
| Text.RemoveSpacesAppend | multi-tool-agent/agent.py:32 | removing spaces keeps the order of the remaining characters (it distributes over concatenation) |
| Text.LowerRemoveSpacesCommute | multi-tool-agent/agent.py:32 | lowering and removing spaces can be applied in either order |
| Text.Unquote | multi-tool-agent/agent.py:47 | a value read out of a rendered `prefix + value + suffix` template re-renders to the same string |
| Text.UnquoteQuote | multi-tool-agent/agent.py:47 | rendering a template and reading it back returns the value (with `Unquote`'s ensures: an if-and-only-if) |
| Text.QuoteInjective | multi-tool-agent/agent.py:47 | two renderings of a template are equal exactly when their values are |
| Tools.Normalize | multi-tool-agent/agent.py:32 | the lookup key has no space, no upper-case letter, and is no longer than the name |
| Tools.NormalizeSingle | multi-tool-agent/agent.py:32 | a single space normalises to nothing, any other character to its lower-case partner |
| Tools.NormalizeAppend | multi-tool-agent/agent.py:32 | the key of a concatenation is the concatenation of the keys; with `NormalizeSingle` this determines the key of every name |
| Tools.WeatherTable | multi-tool-agent/agent.py:35-40 | the table has exactly the keys hanoi, hànội, london and tokyo; every entry is a success record with a non-empty report; both Hà Nội spellings share one record |
| Tools.NormalizeIdempotent | multi-tool-agent/agent.py:32 | normalising a key again changes nothing |
| Tools.GetWeather | multi-tool-agent/agent.py:32-48 | success exactly when the normalised name is a table key; the result is then that table entry, with status "success" and a non-empty report; otherwise status "error", and the original, un-normalised name can be read back out of the error message |
| Tools.EveryEntryReachable | multi-tool-agent/agent.py:35-43 | every table key is its own normalised form, so looking it up returns its own entry |
| Tools.SameKeySameOutcome | multi-tool-agent/agent.py:32-48 | names with the same key succeed or fail together; on success the records are identical; on failure they are equal exactly when the raw names are |
| Tools.AccentedHanoiExample | multi-tool-agent/agent.py:32-43 | "Hà Nội" (space inside) finds the Hà Nội record |
| Tools.CapitalHanoiExample | multi-tool-agent/agent.py:32-43 | "HÀ NỘI" (accented capitals) finds the Hà Nội record |
| Tools.PlainHanoiExample | multi-tool-agent/agent.py:32-43 | "Ha noi" without accents finds the same record through the unaccented key `hanoi` |
| Tools.TokyoExample | multi-tool-agent/agent.py:32-43 | "To kyo" finds the Tokyo record |
| Tools.AtlantisExample | multi-tool-agent/agent.py:44-48 | an unknown city yields the error record quoting it verbatim |
| Tools.SayHello | multi-tool-agent/agent.py:60-63 | the name read back from the greeting is the given name when it is present and non-empty, and there is none otherwise; the anonymous greeting is used for `None` and for "" alike |
| Tools.SayHelloInjective | multi-tool-agent/agent.py:60-63 | two greetings are equal exactly when both are anonymous or both name the same person |
| Tools.SayGoodbye | multi-tool-agent/agent.py:66-68 | the farewell differs from every possible greeting and is not of the form of a named greeting |
| Turn.EscalationReason | multi-tool-agent/agent.py:172 | the reason is the error message when it is truthy and the fixed phrase otherwise; it is never empty |
| Turn.EscalationWarning | multi-tool-agent/agent.py:172 | the warning carries the marker, the reason can be read back out of it, and it never equals the fallback |
| Turn.Outcome | multi-tool-agent/agent.py:169-172 | a final event with content parts yields its first part, whatever its escalate flag; without parts it yields the fallback exactly when it does not escalate, and otherwise a warning carrying the reason |
| Turn.ExtractResponse | multi-tool-agent/agent.py:161-175 | with no final event (the empty stream included) the result is the fallback; otherwise it is the fallback or the outcome of some final event |
| Turn.FirstFinalDecides | multi-tool-agent/agent.py:163-173 | the result is the outcome of the first final event |
| Turn.FirstFinalExists | multi-tool-agent/agent.py:163-168 | a stream that has a final event has a first one |
| Turn.LeadingNonFinalIgnored | multi-tool-agent/agent.py:163-168 | non-final events in front of the stream have no effect |
| Turn.LaterEventsIgnored | multi-tool-agent/agent.py:168-173 | once a final event has occurred, appending events changes nothing (the loop breaks) |
| Turn.CallAgent | multi-tool-agent/agent.py:159-175 | the imperative loop, starting from the fallback and breaking at the first final event, returns exactly `ExtractResponse` |
| Turn.EscalationExample | multi-tool-agent/agent.py:171-172 | an escalation carrying "internal timeout" yields the marker followed by that message, and the empty stream yields the fallback |

## Left out

- Agent construction and routing (multi-tool-agent/agent.py:75-134): delegation is prompt text interpreted by the language model inside ADK; there is no deterministic logic to model.
- `Runner`, `InMemorySessionService`, `create_session_and_runner` and session history appends (multi-tool-agent/agent.py:163-167, 178-210): library code whose bodies are not part of this model. The event stream is a parameter (`seq<Event>`).
- Building the user `Content` from the query (multi-tool-agent/agent.py:159): it is only handed to the runner.
- `async`/`await` and `asyncio`: the stream is modelled as a finite sequence, consumed in order.
- `main` and all console output (multi-tool-agent/agent.py:217-254).
- Text.LowerChar: lowers only ASCII, the Latin-1 capitals and the capitals of the Vietnamese alphabet. Python's `str.lower()` applies the full Unicode case mapping, including mappings that change length (such as U+0130). Other characters are left unchanged.
- Turn.ExtractResponse: every content part is taken to carry a text. In ADK a part's `text` may be `None`, and the loop would then return `None`.
- Turn.Event: `event.content`/`event.content.parts` being `None` and being empty are merged into an empty `parts`. `event.actions` being `None` and `escalate` being false are merged into `escalate == false`. The loop treats each pair alike.
- The arguments the model passes to the tools are taken as well typed (`city` a string, `name` an optional string). Python would also accept other types.
