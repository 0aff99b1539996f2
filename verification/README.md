# Auto-moderation reply pipeline, modelled in Dafny

This project models the one piece of logic in the Discord bot: the handler that
runs when the platform reports an *auto-moderation action execution*. An
auto-moderation rule has matched a keyword in a user's message. The handler then
works in four steps:

1. It looks the keyword up in a catalog of reply templates. The catalog is a
   JSON object that maps keywords to templates.
2. Keys and keyword are compared after `normalizeKeyword`, which trims and
   then lower-cases them.
3. It fills the `{user}`, `{keyword}` and `{content}` placeholders of the
   template it found.
4. It posts the text to the event's channel. Only the triggering user may be
   mentioned.

Modules, one per component of `src/events/autoModerationActionExecution.ts`:

- `Types` (types.dfy): the event, the reply and JavaScript truthiness of optional strings.
- `JsString` (js_string.dfy): `String.prototype.trim` and `toLowerCase`.
- `Keyword` (keyword.dfy): `normalizeKeyword`.
- `Replace` (replace.dfy): `String.prototype.replaceAll` with a string
  pattern. There are two versions: literal replacement, and the built-in's
  expansion of `$` patterns in a string replacement.
- `Template` (template.dfy): `formatAutomodMessage`.
- `Catalog` (catalog.dfy): `loadAutomodMessages` (as a value), and the
  `Object.fromEntries` table over normalised keys with its lookup.
- `Automod` (automod.dfy): `handle`, as a pure function from an event and a
  catalog to the reply it would post.

Modelling choices:

- The catalog is a sequence of (key, template) pairs, in the order in which
  `Object.entries` lists the parsed object.
- A failed read or parse is the empty catalog (`Catalog.Load(None)`).
- Optional event fields are `Option<string>`, where `None` is `null` or
  `undefined`. `!x` holds when a field is `None` or `""`. `x ?? y` falls
  through only on `None`.
- `Automod.Handle` returns `None` where the source returns without posting.
- The posted message is the triple channel, text and allowed users.
- The two findings below are modelled both ways. `Template.FormatAsWritten`
  and `Automod.HandleAsWritten` follow the code. `Template.Format` and
  `Automod.Handle` are the evident intent, and the rest of the model uses
  them.

Two properties of the code that a reader might not expect:

- Catalog keys need not be unique after normalisation. When several keys
  normalise alike, `Object.fromEntries` keeps the last one, and so does the
  model.
- The three passes run one after another, so a keyword value that reads
  `{content}` is expanded by the third pass (`Template.FormatRunsInSequence`).

## Model

| member | source | states |
|---|---|---|
| JsString.Trim | src/events/autoModerationActionExecution.ts:19 | `trim` returns the slice of the keyword that has no whitespace at either end; everything cut away is whitespace (the ECMA-262 WhiteSpace and LineTerminator code points) |
| JsString.ToLower | src/events/autoModerationActionExecution.ts:19 | `toLowerCase` keeps the length, maps every character through the letter mapping, and leaves no upper-case letter |
| Keyword.Normalize | src/events/autoModerationActionExecution.ts:19 | the normalised keyword has no surrounding whitespace and no upper-case letter, and is the lower-cased whitespace-bounded slice of the input |
| Keyword.NormalizeFixedPoints | src/events/autoModerationActionExecution.ts:19 | a keyword is left unchanged by normalisation exactly when it has no surrounding whitespace and no upper-case letter |
| Keyword.NormalizeIdempotent | src/events/autoModerationActionExecution.ts:19 | normalising an already normalised keyword returns it unchanged |
| Keyword.NormalizeOfTrimmed | src/events/autoModerationActionExecution.ts:19 | for a keyword without surrounding whitespace, normalisation is just lower-casing |
| Keyword.NormalizeExample | src/events/autoModerationActionExecution.ts:19 | `" Badword "` and `"badword"` both normalise to `"badword"` |
| Replace.ReplaceAll | src/events/autoModerationActionExecution.ts:32-35 | replacing a pattern by itself gives back the same string |
| Replace.ReplaceAllNoOccurrence | src/events/autoModerationActionExecution.ts:32-35 | a string in which the pattern never occurs comes back unchanged |
| Replace.ReplaceAllUnchangedIff | src/events/autoModerationActionExecution.ts:32-35 | when the pattern and its replacement differ in length, the result equals the input exactly when the pattern does not occur |
| Replace.ReplaceAllLength | src/events/autoModerationActionExecution.ts:32-35 | each replaced occurrence changes the length by the length difference of replacement and pattern |
| Replace.MatchCountPositive | src/events/autoModerationActionExecution.ts:32-35 | the left-to-right scan replaces at least one occurrence exactly when the pattern occurs |
| Replace.ReplaceAllAppend | src/events/autoModerationActionExecution.ts:32-35 | replacement is local: if no occurrence crosses the boundary between two strings, each part is replaced on its own |
| Replace.JsReplaceAll | src/events/autoModerationActionExecution.ts:33-35 | the built-in `replaceAll` agrees with literal replacement whenever the replacement string has no `$`, and returns a string in which the pattern never occurs unchanged, whatever the replacement |
| Replace.JsNoOccurrenceFrom | src/events/autoModerationActionExecution.ts:33-35 | where the pattern never occurs, the built-in's scan substitutes nothing, so `$` in the replacement has no effect |
| Replace.JsAgreesWithoutDollar | src/events/autoModerationActionExecution.ts:33-35 | with no `$` in the replacement, the built-in's scan over the original string matches literal replacement of every suffix |
| Replace.Substitution | src/events/autoModerationActionExecution.ts:33-35 | a replacement string without `$` is inserted verbatim by the built-in |
| Template.PlugRender | src/events/autoModerationActionExecution.ts:33-35 | if no literal text contains `{`, one `replaceAll` pass replaces exactly the occurrences of its own placeholder and keeps everything else |
| Template.FormatFillsHoles | src/events/autoModerationActionExecution.ts:31-35 | every `{user}` becomes `<@` + user id + `>`, every `{keyword}` becomes the keyword as the event spells it (or nothing), and every `{content}` becomes the matched content, else the message content, else nothing; all other text is kept, and the content is inserted verbatim |
| Template.Format | src/events/autoModerationActionExecution.ts:31-35 | a template containing none of the three placeholders is returned unchanged, unknown placeholders included; with placeholders, the result is described by `Template.FormatFillsHoles` |
| Template.FormatRunsInSequence | src/events/autoModerationActionExecution.ts:34-35 | the passes run in sequence: a keyword that reads `{content}` is expanded again by the content pass |
| Template.FormatAsWritten | src/events/autoModerationActionExecution.ts:31-35 | the source's formatter equals the literal one whenever the mention, keyword and content contain no `$`; a template containing none of the three placeholders is returned unchanged whatever the values hold |
| Template.FormatAsWrittenExpandsDollar | src/events/autoModerationActionExecution.ts:35 | message content `$&` comes out as `{content}` from the source's formatter, but as `$&` from the literal one |
| Catalog.Load | src/events/autoModerationActionExecution.ts:21-28 | a parsed catalog is used as it is; after a failed read or parse, no keyword finds a template |
| Catalog.LastValueIsLastEntry | src/events/autoModerationActionExecution.ts:45-47 | searching from the end finds a value exactly when some entry has the key, and then finds the value of the last such entry |
| Catalog.FromEntries | src/events/autoModerationActionExecution.ts:45-47 | the table holds exactly the keys of the entries, and for each key the value of its last entry |
| Catalog.NormalizeKeys | src/events/autoModerationActionExecution.ts:46 | each entry keeps its template and position, and its key is normalised |
| Catalog.TableIsLastMatch | src/events/autoModerationActionExecution.ts:45-47 | the normalised table holds a key exactly when some catalog key normalises to it, and maps it to the template of the last such entry |
| Catalog.Lookup | src/events/autoModerationActionExecution.ts:44-48 | a template is found exactly when some catalog key normalises like the event keyword; it is the template of the last such entry |
| Catalog.LastForExists | src/events/autoModerationActionExecution.ts:45-48 | whenever some key matches, one matching entry is the last |
| Catalog.LookupIgnoresCaseAndSpace | src/events/autoModerationActionExecution.ts:44-48 | looking up a keyword or its normalised form gives the same template |
| Catalog.PropertyLookup | src/events/autoModerationActionExecution.ts:48 | property access finds an own entry exactly when some catalog key normalises like the keyword, and then the last such entry's template; it reaches an inherited value exactly when no key matches and the keyword normalises to `constructor` or `__proto__` |
| Automod.Handle | src/events/autoModerationActionExecution.ts:38-63 | no reply unless the channel id and matched keyword are both non-empty, and also none when the last matching template is empty or there is none; a reply goes to the event's channel, carries the formatted last matching template, and allows mentions of exactly the triggering user |
| Automod.HandleAsWritten | src/events/autoModerationActionExecution.ts:38-63 | the source's handler replies exactly when the channel id and matched keyword are non-empty and the last matching template is non-empty, whatever `$` the values hold; the reply goes to the event's channel, allows mentions of exactly the triggering user, and carries the built-in formatter applied to that template; it throws exactly for a keyword that normalises to an inherited name without an own entry; away from inherited names and `$`, it does what `Handle` does |
| Automod.LoadFailureSendsNothing | src/events/autoModerationActionExecution.ts:21-28 | with the empty catalog a failed load yields, neither the source's handler nor `Handle` sends a reply |
| Automod.InheritedNameRejects | src/events/autoModerationActionExecution.ts:48-54 | a keyword that normalises to `constructor` or `__proto__` with no catalog entry makes the source's handler throw; `Handle` sends nothing |
| Automod.ConstructorKeywordRejects | src/events/autoModerationActionExecution.ts:39-54 | the matched keyword `constructor` with an empty catalog makes the source's handler throw |
| Automod.SpamExample | src/events/autoModerationActionExecution.ts:38-60 | catalog `{"spam": "Hi {user}, no {keyword} here: {content}"}` and an event from user 42 in channel 7 matching `SPAM` in `buy now` give `"Hi <@42>, no SPAM here: buy now"` in channel 7, with allowed mentions `["42"]` |

## Left out

- Reading the catalog file and `JSON.parse` (src/events/autoModerationActionExecution.ts:21-29)
  are I/O and a foreign parser. The catalog is an input value. A failed load
  is the empty catalog, and the error log line is not modelled.
- The parsed JSON is assumed to be an object whose values are strings. The
  source casts without checking. For example, `null` would make
  `Object.entries` throw, and a number template would make `replaceAll`
  throw. Such malformed catalogs are not modelled.
- The catalog's entry order is whatever `Object.entries` yields. For
  integer-like keys, this is not the file order.
- `serializePayload`, `TextDisplay`, `Routes.channelMessages`,
  `client.rest.post`, and the `try`/`catch` with its log line
  (src/events/autoModerationActionExecution.ts:55-68) are framework and
  network calls. Only the (channel, text, allowed users) triple is modelled,
  and a failed post is indistinguishable from a successful one.
- src/index.ts is configuration, gateway intents and server start-up, with no
  logic of its own.
- JsString.ToLower: only the ASCII letters A to Z are lower-cased. The
  built-in's full Unicode case mapping is not modelled; it can change other
  letters and even the string length.
- Replace.ReplaceAll: the pattern must be non-empty. The source only calls it
  with the three fixed placeholders, so an empty pattern, which the built-in
  would insert between all characters, never occurs.
- Template.FormatFillsHoles: the formatter's result is characterised only when
  the template's literal text, the user id and the keyword have no `{`. Without
  that condition, later passes can see placeholders built by earlier ones;
  `Template.FormatRunsInSequence` shows one such case.
- Strings are sequences of Unicode scalar values, while JavaScript strings
  are sequences of UTF-16 code units. Every whitespace character, placeholder
  and `$` pattern the operations look at lies in the Basic Multilingual Plane,
  so no modelled operation behaves differently on a string the model can
  represent. A lone surrogate, which message content may hold, cannot be
  represented at all.
- Concurrency between invocations is not modelled. Each call is independent
  and reloads the catalog, so no state is shared.

## Findings

| source | as written | input that shows it | evidently intended | confidence | as-written member | corrected member |
|---|---|---|---|---|---|---|
| src/events/autoModerationActionExecution.ts:33-35 | `replaceAll` is given the user's message text as a string replacement, so the built-in expands `$$`, `$&`, `` $` `` and `$'` in it | template `{content}`, matched content `$&`: the message reads `{content}` instead of `$&` (`Template.FormatAsWrittenExpandsDollar`) | the content is inserted literally | high; not executed | Template.FormatAsWritten | Template.FormatFillsHoles |
| src/events/autoModerationActionExecution.ts:48-54 | `normalizedMessages[keyword]` also reads `Object.prototype`, so the keywords `constructor` and `__proto__` find a truthy non-string; `template.replaceAll` then throws outside the `try`, and `handle` rejects | matched keyword `constructor`, channel `7`, empty catalog (`Automod.ConstructorKeywordRejects`) | a keyword without a catalog entry is a silent no-op | high; not executed | Automod.HandleAsWritten | Automod.Handle |
