# Email-to-note worker, modelled in Dafny

The worker in `src/worker.ts` receives one forwarded email. It turns the
email into a markdown note for an Obsidian vault and derives a
deterministic storage key of the form `folder/YYYY-MM-DD - subject.md`.
It then writes the note to an R2 bucket unless an object with that key is
already there. Any error along the way is caught and logged, so the email
is never bounced.

The project models that pipeline and proves what it promises:

- `wrappers.dfy` holds the `Option` type.
- `js_string.dfy` models the JavaScript string built-ins the worker relies on:
  - `indexOf`, `includes`, `split` and `join` with a literal separator;
  - the ECMAScript white-space set behind `\s` and `trim`;
  - `trim`, and `replace(/\s+/g, ' ')`.
- `js_date.dfy` models a JavaScript `Date`, either invalid or a UTC
  calendar time. It also models `toISOString`:
  - a four-digit year for years 0 to 9999, otherwise a sign and six digits;
  - a `RangeError` on an invalid date, which the model returns as `None`.
- `worker.dfy` holds the pure functions of the worker:
  - source detection;
  - message-id sanitizing;
  - YAML escaping of the subject;
  - the storage key;
  - body extraction;
  - the note template;
  - the header defaults of `parseEmail`.
- `handler.dfy` holds the `email` handler. It is a method over a `Bucket`
  class whose `objects` map the handler checks with `Head` and updates
  with `Put`. The method is proved equal to the specification function
  `Ingest`.

Four facts about the code shape the model:

- The sender address is kept as the From match gives it; it is not
  lower-cased.
- MIME parts are not walked. The body is the raw text after the first
  CRLF blank line (`\r\n\r\n`), or, when there is none, after the first
  LF blank line (`\n\n`), or empty when there is neither.
- The header fallbacks use JavaScript truthiness. An empty header counts
  as absent, just like a missing one.
- The source classifier reads only three headers:
  `X-Gm-Message-State`, `X-MS-Exchange-Organization-AuthAs` and
  `Received`. Other `X-MS-Exchange-*` headers play no part.

Opaque inputs are passed to the model as values. A `Runtime` value
carries five of them:

- the clock reading of `new Date()`;
- the id `generateId()` returns;
- the result of `new Date(header)`;
- the result of the From regex;
- the locale's long date format.

The time read when the object is written is a separate parameter of the
handler.

## Model

| member | source | states |
|---|---|---|
| JsString.IndexOf | src/worker.ts:110 | a found index is a place where the separator occurs |
| JsString.IndexOfLeftmost | src/worker.ts:126 | a found index is the first occurrence; `None` means the separator occurs nowhere |
| JsString.Includes | src/worker.ts:110 | `includes` is true exactly when the needle occurs at some position |
| JsString.Split | src/worker.ts:126 | `split` always yields at least one part |
| JsString.JoinSplit | src/worker.ts:126-130 | joining the parts of a split with the same separator gives back the input |
| JsString.SplitPartsFree | src/worker.ts:126 | no part of a split contains the separator |
| JsString.JoinLength | src/worker.ts:128-130 | a join is as long as all its parts together plus one separator between each two |
| JsString.SplitTailSuffix | src/worker.ts:127-130 | the parts after the first, joined again, are a suffix of the input |
| JsString.SplitTail | src/worker.ts:130 | joining every part after the first gives the text after the first separator |
| JsString.SplitAfter | src/worker.ts:195 | a text with no `c` before its first `c` splits into that prefix and the split of the rest |
| JsString.SplitJoinPrefix | src/worker.ts:136-162 | lines free of the separator come back unchanged when their join is split again |
| JsString.JoinAppend | src/worker.ts:136-162 | joining two non-empty lists of lines puts one separator between the two joins |
| JsString.TrimStart | src/worker.ts:171 | the result is a suffix, the dropped prefix is white space, the result starts with non-white space, and no non-white-space character is lost |
| JsString.TrimEnd | src/worker.ts:171 | the result is a prefix, the dropped suffix is white space, the result ends with non-white space, and no non-white-space character is lost |
| JsString.Trim | src/worker.ts:171 | the result neither starts nor ends with white space and keeps every non-white-space character in order |
| JsString.TrimBounds | src/worker.ts:171 | the trimmed text is a contiguous slice of the input with only white space on either side |
| JsString.TrimKeepsSingleSpaced | src/worker.ts:170-171 | trimming a single-spaced text leaves it single-spaced |
| JsString.CollapseWhiteSpace | src/worker.ts:170 | the result is no longer than the input and empty only for empty input |
| JsString.CollapseShape | src/worker.ts:170 | the result starts with white space exactly when the input does, holds no white space but single spaces, and keeps every non-white-space character in order |
| JsString.CollapseRun | src/worker.ts:170 | a non-empty run of white space becomes exactly one space |
| JsString.CollapseWord | src/worker.ts:170 | a text without white space is unchanged |
| JsString.CollapseRestAppend | src/worker.ts:170 | collapsing a concatenation collapses the first piece, then the second knowing whether the first ended in white space |
| JsString.CollapseAppend | src/worker.ts:170 | collapsing commutes with concatenation unless the cut falls inside a run of white space |
| JsString.CollapseIdempotent | src/worker.ts:170 | collapsing twice equals collapsing once |
| JsDate.YearString | src/worker.ts:195 | the year is four digits for years 0 to 9999, otherwise a `-` or `+` sign and six digits |
| JsDate.DayString | src/worker.ts:195 | the day is the year, `-`, two month digits, `-` and two day digits |
| JsDate.TimeString | src/worker.ts:195 | the time is 13 characters: two digits, `:`, two digits, `:`, two digits, `.`, three digits and a final `Z` |
| JsDate.TimeStringRoundTrip | src/worker.ts:50 | the time part reads back as the date's hour, minute, second and millisecond |
| JsDate.ISOStringRoundTrip | src/worker.ts:50 | the ISO form of a valid date reads back completely: the day at its front, then `T`, then the time of day in its last 13 characters |
| JsDate.ToISOString | src/worker.ts:195 | fails exactly on an invalid date; a valid date gives 24 characters, or 27 outside years 0 to 9999, with a `T` and a final `Z` |
| JsDate.DayStringChars | src/worker.ts:195 | the day part holds only digits, `-` and `+` |
| JsDate.DecimalRoundTrip | src/worker.ts:195 | a zero-padded field reads back as the number it was written from |
| JsDate.DayStringRoundTrip | src/worker.ts:194-196 | the `YYYY-MM-DD` day at the start of a text reads back as the date's year, month and day |
| Worker.DetectEmailSource | src/worker.ts:98-113 | gmail exactly when the Gmail header is non-empty; outlook exactly when it is not but the Exchange header is; icloud exactly when neither is and the Received header contains `apple.com` or `icloud.com`; unknown otherwise |
| Worker.SourceIgnoresOtherHeaders | src/worker.ts:104-106 | the classification depends only on the three headers it reads |
| Worker.RemoveAngleBrackets | src/worker.ts:216 | no `<` or `>` remains |
| Worker.RemoveAngleBracketsLength | src/worker.ts:216 | the length drops by exactly the number of `<` and `>` |
| Worker.ReplaceNonIdChars | src/worker.ts:216 | the result holds only characters of `[A-Za-z0-9@._-]`, has the input's length, and equals the input when the input holds only such characters; position by position, a character outside the set becomes `_` |
| Worker.SanitizeMessageId | src/worker.ts:215-217 | only `[A-Za-z0-9@._-]` remains, and the length is the input length minus the number of angle brackets |
| Worker.SanitizeAppend | src/worker.ts:215-217 | sanitizing works character by character over a concatenation |
| Worker.SanitizeChar | src/worker.ts:216 | one character is dropped if it is an angle bracket, kept if allowed, and becomes `_` otherwise |
| Worker.SanitizeKeepsSafeIds | src/worker.ts:215-217 | an id made only of allowed characters is unchanged |
| Worker.SanitizeIdempotent | src/worker.ts:215-217 | sanitizing twice equals sanitizing once |
| Worker.EscapeQuotes | src/worker.ts:210 | the escaped text is longer by exactly the number of `"` in the input, and never starts with a bare `"`; `EscapeQuotesCounts`, `EscapeQuotesEscapesEveryQuote` and `UnescapeEscape` fix the rest of its value |
| Worker.EscapeQuotesCounts | src/worker.ts:210 | one backslash is added per `"`; existing backslashes are not doubled; all other character counts and the rest of the length are unchanged |
| Worker.EscapeQuotesEscapesEveryQuote | src/worker.ts:210 | every `"` in the escaped text has a backslash before it |
| Worker.UnescapeEscape | src/worker.ts:210 | reading `\"` back as `"` undoes the escaping |
| Worker.EscapeYaml | src/worker.ts:208-213 | text with no indicator character and no newline is unchanged; otherwise it is wrapped in `"`, grows by two plus one per `"`, and has a newline exactly when the input does |
| Worker.EscapeYamlRoundTrip | src/worker.ts:208-213 | unquoting the escaped subject gives it back, unless the subject was left unquoted although it already starts and ends with `"` |
| Worker.FormatDate | src/worker.ts:194-196 | `formatDate` fails exactly on an invalid date |
| Worker.FormatDateIsDay | src/worker.ts:194-196 | `formatDate` fails on an invalid date and is otherwise the UTC `YYYY-MM-DD` day |
| Worker.ReplaceForbidden | src/worker.ts:169 | the result holds none of `/ \ ? % * : \| " < >`, has the input's length, and equals the input when the input holds none of them; position by position, each of those characters becomes `-` |
| Worker.CollapseKeepsAllowed | src/worker.ts:169-170 | collapsing white space introduces no forbidden character |
| Worker.TrimKeepsAllowed | src/worker.ts:171 | trimming introduces no forbidden character |
| Worker.NormalizedSubjectAllowed | src/worker.ts:168-171 | the replaced, collapsed and trimmed subject has no forbidden character |
| Worker.NormalizedSubject | src/worker.ts:168-171 | the normalized subject is no longer than the subject |
| Worker.NormalizedSubjectProperties | src/worker.ts:168-171 | the normalized subject has no forbidden character, is single-spaced, has no white space at either end, and keeps every non-white-space character of the replaced subject in order |
| Worker.NormalizedSubjectIdempotent | src/worker.ts:168-171 | normalizing a normalized subject changes nothing |
| Worker.NormalizedSubjectJoin | src/worker.ts:168-171 | two clean pieces of subject with white space between them normalize to the pieces joined by one space |
| Worker.SafeSubject | src/worker.ts:168-172 | the subject segment is at most 100 characters and no longer than the subject |
| Worker.SafeSubjectJoin | src/worker.ts:168-172 | two clean pieces with white space between them, 100 characters or fewer once joined by one space, give exactly that joined text |
| Worker.SafeSubjectProperties | src/worker.ts:168-172 | the subject segment is the prefix of the normalized subject of length min(100, its length); it has no forbidden character and no leading white space, and is single-spaced; a trailing space may remain |
| Worker.CutKeepsShape | src/worker.ts:172 | cutting a clean subject keeps it clean and without a leading space |
| Worker.GenerateFilename | src/worker.ts:165-175 | there is a key exactly when the date is valid |
| Worker.FilenameShape | src/worker.ts:165-175 | no key for an invalid date; otherwise the key is folder, `/`, the UTC day, ` - `, the subject segment and `.md` |
| Worker.FilenameDependsOnDateAndSubject | src/worker.ts:165-175 | emails that agree on date and subject get the same key, whatever their body, sender, source or id |
| Worker.FilenameDeterminesDay | src/worker.ts:165-175 | two emails filed under the same key in one folder are from the same UTC day |
| Worker.ExtractBody | src/worker.ts:115-131 | the body is always a suffix of the raw text |
| Worker.ExtractBodySpec | src/worker.ts:115-131 | the body is the text after the first CRLF blank line, else after the first LF blank line, else empty |
| Worker.GenerateMarkdown | src/worker.ts:133-163 | there is a note exactly when the date is valid |
| Worker.GenerateMarkdownDefined | src/worker.ts:133-163 | the note exists exactly when the date is valid; its `created` field is then the UTC day |
| Worker.FrontMatterSingleLines | src/worker.ts:136-145 | no front-matter line holds a newline when the address, subject and id hold none |
| Worker.MarkdownFrontMatter | src/worker.ts:133-163 | the first ten lines of the note are exactly the front matter, so each field reads back from its own line |
| Worker.MarkdownEndsWithBody | src/worker.ts:157-162 | the note ends with the body, verbatim, then the rule and the empty Notes section |
| Worker.ParseSender | src/worker.ts:79-80 | the name is group 1, else group 2, else the whole address; the address is group 2, else the whole address; an empty group counts as absent, so with no group 1 and an empty group 2 both name and address are the whole address |
| Worker.ParseEmail | src/worker.ts:62-96 | subject defaults to `No Subject`; the id is the sanitized header, else the sanitized generated id, and holds only allowed characters; the date is the parsed header, else now; the body and the source come from the raw text and the headers |
| Worker.UndatedMessageFiledUnderToday | src/worker.ts:92 | without a Date header the key carries the day the message was processed |
| Handler.Bucket.Head | src/worker.ts:40-44 | true exactly when an object is stored under the key; nothing changes |
| Handler.Bucket.Put | src/worker.ts:47-52 | stores the body and metadata under the key, and every other key is unchanged |
| Handler.Email | src/worker.ts:28-59 | the handler's outcome and the new bucket contents are exactly those of `Ingest` on the old contents |
| Handler.Ingest | src/worker.ts:28-58 | a delivery changes the bucket only when it creates a note, and every outcome but a failure names the message's key |
| Handler.Store | src/worker.ts:40-58 | only `Created` changes the bucket, by one key that was not there before; every outcome but a failure names the key it was given |
| Handler.StoreOutcome | src/worker.ts:40-58 | a failure happens exactly on a failed rendering, or on an invalid write time for a new key; an existing key gives AlreadyExists and leaves the bucket alone; Created adds exactly the new key with the note and its metadata; anything else leaves the bucket unchanged |
| Handler.StoreTwice | src/worker.ts:40-52 | storing under one key twice writes at most once; after a first success or duplicate, the second finds the key and changes nothing, whatever its text, id or time |
| Handler.StoreNeverOverwrites | src/worker.ts:40-52 | a store never removes or replaces what the bucket holds |
| Handler.StoreTwoKeys | src/worker.ts:40-52 | two valid stores under two different free keys both write, adding exactly those two keys |
| Handler.IngestFails | src/worker.ts:29-58 | a delivery fails exactly when the message's date is invalid, or when a new note would be stamped with an invalid time |
| Handler.IngestOutcome | src/worker.ts:29-58 | every outcome names the message's key; AlreadyExists only for a stored key; Created adds exactly that one new key; otherwise the bucket is unchanged |
| Handler.IngestNeverOverwrites | src/worker.ts:40-52 | no delivery removes or replaces a stored note, for deliveries that run one after another |
| Handler.CreatedNote | src/worker.ts:47-52 | a created note holds the rendered markdown, and its metadata holds the sanitized id and the valid write time in ISO form |
| Handler.SameKey | src/worker.ts:37 | a redelivery with a fresh clock reading and id computes the same key, provided the message has a Date header or the clock still reads the same UTC day |
| Handler.IngestTwice | src/worker.ts:28-58 | under the same condition, delivering one message twice writes at most once; after a first success or duplicate, the second reports AlreadyExists and changes nothing |
| Handler.UndatedKeysDiffer | src/worker.ts:37 | without a Date header, deliveries on two different UTC days get two different keys |
| Handler.UndatedRedeliveryWrittenTwice | src/worker.ts:28-58 | a message without a Date header redelivered on another UTC day is written twice, under two keys |
| Handler.DuplicateNotWritten | src/worker.ts:40-44 | a message whose Date header and subject read the same as a stored one is not written, whatever its body, sender, id or arrival time |

## Left out

- `streamToString` (src/worker.ts:179-192) is not modelled. It reads a byte stream and decodes UTF-8, which is I/O. The raw email is an already decoded string.
- `formatDateLong` (src/worker.ts:198-206) is locale formatting. It is the opaque function `Runtime.formatDateLong`.
- `new Date(header)` parsing, `new Date()` and `Date.now()` are modelled as inputs. These are `Runtime.parseDate`, `Runtime.now` and the handler's `putTime`.
- `generateId` (src/worker.ts:219-221) uses the clock and `Math.random`. Its result is the input `Runtime.generatedId`.
- The From regex (src/worker.ts:78) is not modelled, because of its backtracking semantics. Its match is the input `Runtime.matchFrom`; only the fallback chain over the match is modelled.
- R2 `head` and `put` are modelled as operations on a map. Network failures, `console.log` and `console.error`, `async` and `ExecutionContext` are not modelled. Deliveries run one after another: the model has no interleaving of two handler runs.
  - A rejected `put` would be a `Failed` outcome that leaves the bucket unchanged.
  - The outcome of the handler stands for which log line is written.
- `Headers.get` is modelled as a map keyed by the lower-case header name. Its value is what `get` returns. Case-insensitive lookup and the joining of repeated headers happen before the model.
- Strings are sequences of Unicode characters, not UTF-16 code units. `slice(0, 100)` and the regexes count characters. This differs only for characters outside the Basic Multilingual Plane.
- The range of a JavaScript time value is approximated by the years -271821 to 275760 with any month and day. The exact millisecond bounds at both ends are not modelled.
- Worker.EscapeYamlRoundTrip: proved only against a decoder that turns `\"` back into `"`. A full YAML reader would also interpret other backslash escapes, such as `\\` and `\n`, inside double quotes. It would also read an unquoted subject that starts and ends with `"` as a quoted scalar. The lemma excludes that subject. Other subjects that the code writes are not read back as the same string by a YAML reader, and the model does not promise otherwise:
  - a lone `"` is left unquoted and opens an unterminated scalar;
  - `'hi'` is left unquoted and reads as `hi`;
  - `- x` is left unquoted and reads as a list, not a string;
  - white space at either end of an unquoted subject is lost;
  - `true`, `123` and `null` are left unquoted and read as a boolean, a number and null;
  - `C:\Users` is quoted because of the `:`, and inside double quotes `\U` is then an invalid escape.
- Handler.IngestNeverOverwrites: holds for deliveries that run one after another, which is how the model runs them. The source awaits `head` (src/worker.ts:40) and `put` (src/worker.ts:47) as two separate calls, and the runtime may run two invocations at once. Two concurrent deliveries of one message can then both find the key missing and both call `put`, and the later `put` replaces the earlier note.
- Handler.IngestTwice: its at-most-one-write promise holds for deliveries that run one after another. Two concurrent deliveries of one message can both pass `head` and both write.
- Handler.DuplicateNotWritten: holds when the stored note was written before the new delivery's `head`. A delivery that runs concurrently with the one that stores the note can still write.
- Handler.IngestTwice: the second delivery is promised to change nothing only when the first one got past rendering. If the first delivery failed only because its write time was invalid, the second delivery may create the note. Even then, the two deliveries write at most once, and the lemma states that.
- Handler.IngestTwice: deduplication is promised only for a message with a Date header, or for a redelivery on the same UTC day. A message without a Date header that is redelivered on a later UTC day is written a second time under a new key; `UndatedRedeliveryWrittenTwice` proves this.
- JsString.Split: its contract states only that there is at least one part. What the parts are is stated by `JoinSplit`, `SplitPartsFree` and `SplitTail`.
