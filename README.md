# llm-email-assistant: a Dafny model of the message-to-result pipeline

This project models the text-processing core of the email assistant. The
assistant reads mailbox messages, extracts their plain-text bodies, asks a
local text-generation backend to classify each one, and recovers a JSON
answer from the backend's free-form reply. Three source files hold that
core, and each has its own module:

- `GmailClient` (`src/gmail_client.py`) covers four things:
  - case-insensitive header lookup, as a loop with an early return;
  - the unpadded base64url body decoder, in module `Base64Url`, with an
    RFC 4648 section 5 encoder as its inverse;
  - the recursive walk over the MIME part tree, as a recursive function
    plus the source's loop written as a method;
  - the record `fetch_message` builds from a fetched payload.
- `Classifier` (`src/classifier.py`) covers:
  - `trim_email`: the marker loop with `break`, offset floor 200, strip,
    then `[:max_chars]`;
  - the prompt `classify_email` builds. It is `PromptWith(SystemRules, email)`,
    and the lemmas about its layout hold for any instruction text;
  - the two-stage JSON recovery: the whole reply first, then the slice from
    the first `{` to the last `}`.
- `Llm` (`src/llm.py`): the loop of `ollama_generate` over streamed
  records. It skips blank lines and appends `response` fragments in order,
  the `done` record's own fragment included. It stops at the first `done`,
  aborts on a malformed line, and aborts earlier still on an error status.

Two helper modules support them. `PyStr` models the Python `str` operations
the core uses: `strip` (with the full `str.isspace` set), `lower`, `find`,
`rfind`, `startswith`, `join` and `s[:n]`. `Wrappers` holds `Option`,
`Result` and `Prepend`, the shape of a loop that collects a list and may
fail.

Library code is passed in as parameters:
- UTF-8 decoding with `errors="replace"` is a total function
  `utf8: seq<byte> -> string`;
- `json.loads` is a partial function `parse: string -> Option<J>`;
- the backend's reply is a value, a status plus already-parsed lines.

Two behaviours of the code are worth stating outright.

- `_decode_base64url` can raise. `base64.urlsafe_b64decode` raises
  `binascii.Error` when the number of data characters is one more than a
  multiple of 4: one data character in a final group is invalid, whatever
  `=` follow it. `DecodeBase64Url` returns `Err(InvalidLength(n))` exactly
  then. A body may already end in `=`: re-padding then adds nothing (or
  more `=`), and the body decodes as its data characters alone do. The error reaches `ExtractText`,
  `MessageRecord`, `FetchRecord` and the walk method, as the exception reaches
  `fetch_message`. No encoder produces such a length, and
  `EncodedTextDecodes` proves that encoded bytes always decode.
- `_get_header` returns the value of the first header whose name matches,
  even when that header has no `value`. It then returns `None` and does
  not go on to later headers. `HeaderValue` keeps that behaviour.

## Model

| member | source | states |
|---|---|---|
| `PyStr.Strip` | src/gmail_client.py:98 | `s.strip()` is an infix of `s` that neither starts nor ends with whitespace; everything cut off on either side is whitespace; it is empty exactly when `s` is whitespace only |
| `PyStr.StripUnchanged` | src/llm.py:29 | text with no surrounding whitespace is unchanged by `strip()` |
| `PyStr.Find` | src/classifier.py:22 | `find` gives an index where `sub` occurs with no earlier occurrence, or -1 exactly when `sub` does not occur |
| `PyStr.RFind` | src/classifier.py:46 | `rfind` gives an index where `sub` occurs with no later occurrence, or -1 exactly when `sub` does not occur |
| `PyStr.PyPrefix` | src/classifier.py:26 | `s[:n]` is a prefix of `s` of length `min(n, len(s))` for `n >= 0`, and `len(s) + n` (at least 0) for negative `n` |
| `PyStr.JoinAppend` | src/gmail_client.py:67 | joining two non-empty lists puts exactly one separator between their joins |
| `PyStr.Join` | src/gmail_client.py:67 | `sep.join(xs)`: the elements in order with `sep` between neighbours; its properties are stated by `JoinStartsWith` and `JoinAppend` |
| `Base64Url.Encode` | src/gmail_client.py:44-50 | the unpadded base64url encoding uses only the URL-safe alphabet and has `4*(n/3)` characters plus 0, 2 or 3 for the final 0, 1 or 2 bytes |
| `Base64Url.PaddingCount` | src/gmail_client.py:47-48 | `missing_padding` completes the length to a multiple of 4: lengths 0, 1, 2, 3 mod 4 get 0, 3, 2, 1 characters |
| `Base64Url.Pad` | src/gmail_client.py:47-49 | the padded text keeps the data as its prefix, ends with `=` only, and has a length that is a multiple of 4 |
| `Base64Url.UrlSafeB64Decode` | src/gmail_client.py:50 | on padded text Python's decoder fails exactly when the data characters are one more than a multiple of 4, and otherwise gives the bytes of the data characters |
| `Base64Url.DecodeData` | src/gmail_client.py:50 | the bytes `a2b_base64` produces from a run of data characters: three per full group of four, one or two for a final group of two or three |
| `Base64Url.DecodeBase64Url` | src/gmail_client.py:44-50 | for a body of data characters (the URL-safe alphabet, `+` and `/`) possibly followed by `=`: empty data gives `""`; the call fails exactly when the data characters are one more than a multiple of 4, and otherwise yields the UTF-8 decoding of their bytes |
| `Base64Url.PaddedBodyDecodes` | src/gmail_client.py:46-50 | `=` padding already present in a body changes nothing: it decodes as its data characters alone do |
| `Base64Url.StandardCharsDecode` | src/gmail_client.py:50 | `+` and `/` are read as `-` and `_` are, since `urlsafe_b64decode` maps the latter to the former |
| `Base64Url.DecodeEncodeGroup` | src/gmail_client.py:47-50 | a final group of one to three bytes encodes to 2 to 4 characters that decode back to it |
| `Base64Url.EncodeSplit` | src/gmail_client.py:44-50 | the encoding goes three bytes at a time: the first three bytes give the first four characters whatever follows |
| `Base64Url.DecodeEncode` | src/gmail_client.py:47-50 | decoding the unpadded encoding of any byte sequence gives those bytes back |
| `Base64Url.EncodedTextDecodes` | src/gmail_client.py:44-50 | `_decode_base64url` of an encoding never fails and returns the UTF-8 decoding of the encoded bytes |
| `GmailClient.GetHeader` | src/gmail_client.py:36-41 | the lookup loop with its early return gives the value of the first header whose lower-cased name matches, or `None` |
| `GmailClient.HeaderValue` | src/gmail_client.py:36-41 | the lookup `_get_header` performs; a value it gives belongs to some header whose name matches |
| `GmailClient.HeaderValueFirstMatch` | src/gmail_client.py:38-40 | the first matching header decides the result, whatever follows it |
| `GmailClient.HeaderValueNoMatch` | src/gmail_client.py:41 | with no matching name the lookup is `None` |
| `GmailClient.HeaderValueIgnoresCase` | src/gmail_client.py:37-39 | two names with the same lower-case form look up the same value |
| `GmailClient.HeaderOrEmpty` | src/gmail_client.py:86-89 | `_get_header(...) or ""` is empty iff the header is absent, has no value or has an empty value, and is the header's value otherwise |
| `GmailClient.NonBlank` | src/gmail_client.py:67 | the filter keeps no whitespace-only text |
| `GmailClient.NonBlankAppend` | src/gmail_client.py:67 | the filter works element by element over concatenated lists |
| `GmailClient.JoinedNonBlank` | src/gmail_client.py:67 | the newline join of non-blank texts is empty iff there are none, and is never whitespace only |
| `GmailClient.ExtractText` | src/gmail_client.py:53-73 | the text of a node with `parts` is empty or not whitespace only |
| `GmailClient.ExtractTextFromPayload` | src/gmail_client.py:53-73 | the source's loop over the parts, appending to `texts` and recursing into multipart children, computes `ExtractText` |
| `GmailClient.ExtractTextOfParts` | src/gmail_client.py:55-67 | a node with `parts` joins the non-blank texts of its children with `"\n"` |
| `GmailClient.PartTexts` | src/gmail_client.py:57-66 | the list `texts` the loop over the children builds, or the first decoding failure; it holds at most one text per child |
| `GmailClient.PartTextsAppend` | src/gmail_client.py:57-66 | the texts of a split list of children are those of the first run followed by those of the second; the first failure wins |
| `GmailClient.ExtractTextAppend` | src/gmail_client.py:56-67 | splitting the children in two gives the two runs' texts joined by one newline, an empty side contributing nothing |
| `GmailClient.EmptyPartsGiveEmptyText` | src/gmail_client.py:55-67 | a node with an empty `parts` list yields `""` |
| `GmailClient.IgnoredChildGivesEmptyText` | src/gmail_client.py:62-66 | a lone child that is neither `text/plain` with data nor `multipart/*` yields `""` |
| `GmailClient.IgnoredChildContributesNothing` | src/gmail_client.py:57-66 | removing such a child from anywhere in the list does not change the result |
| `GmailClient.MultipartIsNotPlainText` | src/gmail_client.py:62-64 | a `multipart/*` child is never taken as a `text/plain` child |
| `GmailClient.HtmlIsIgnored` | src/gmail_client.py:62-66 | a `text/html` child is neither kept nor walked into |
| `GmailClient.PlainTextChildKept` | src/gmail_client.py:62-63 | a lone `text/plain` child with data yields its decoded body, or `""` when that is whitespace only; a decoding failure propagates |
| `GmailClient.PartTextsPlainStep` | src/gmail_client.py:62-63 | a `text/plain` child with data contributes its decoded body, then the walk goes on; a decoding failure ends it |
| `GmailClient.PartTextsIgnoredStep` | src/gmail_client.py:57-66 | any other non-multipart child is skipped |
| `GmailClient.PartTextsMultipartStep` | src/gmail_client.py:64-65 | a `multipart/*` child contributes its own extracted text, then the walk goes on |
| `GmailClient.MultipartChildFlattened` | src/gmail_client.py:64-65 | a node whose only child is a multipart node yields that child's text |
| `GmailClient.LeafIgnoresMimeType` | src/gmail_client.py:69-73 | a node without `parts` gives the same text whatever its mimeType, and `""` when it has no data |
| `GmailClient.EncodedLeafRoundTrip` | src/gmail_client.py:69-72 | a leaf carrying the encoding of non-empty bytes yields their UTF-8 decoding |
| `GmailClient.EncodedPlainChild` | src/gmail_client.py:62-63 | a lone `text/plain` child carrying the encoding of some bytes yields their UTF-8 decoding, when that decoding is not whitespace only |
| `GmailClient.PlainTextBesideHtml` | src/gmail_client.py:62-67 | a `text/plain` child next to a `text/html` child yields exactly the plain-text body, when that decoding is not whitespace only |
| `GmailClient.UndecodedHtmlBody` | src/gmail_client.py:57-67 | an HTML child is never decoded: a node whose only child is HTML with a body that is not base64url yields `""` |
| `GmailClient.PaddedLeafDecodes` | src/gmail_client.py:69-72 | a leaf whose body `"aGk="` already carries its padding is decoded, to the UTF-8 decoding of the bytes of `"hi"` |
| `GmailClient.MessageRecord` | src/gmail_client.py:85-99 | the record carries the given id; subject, from, to and date are the header values or `""`; the text is the stripped extraction, with no surrounding whitespace; the record fails exactly when extraction does |
| `GmailClient.FetchRecord` | src/gmail_client.py:84-99 | a message with a payload gives that payload's record; one without gives a record with the given id and empty strings elsewhere |
| `Llm.Consume` | src/llm.py:20-27 | the only failure while reading lines is the parse error |
| `Llm.RaisesForStatus` | src/llm.py:17 | `raise_for_status()` raises exactly for the client and server error statuses 400 to 599 |
| `Llm.Generate` | src/llm.py:17-29 | an error status fails with that status and nothing else does; otherwise the result is the stripped concatenation of the chunks, or the parse error |
| `Llm.OllamaGenerate` | src/llm.py:17-29 | the loop with `continue` on blank lines and `break` on `done` computes `Generate` |
| `Llm.LinesRead` | src/llm.py:26-27 | the loop reads up to and including the first `done` record, or every line when there is none |
| `Llm.ConsumeMeaning` | src/llm.py:20-27 | reading fails exactly when a malformed line comes among the lines read, and otherwise gives the `response` fragments of those lines in order |
| `Llm.Fragments` | src/llm.py:24-25 | the `response` fragments of a run of lines, in order, at most one per line; the reference `ConsumeMeaning` compares the loop with |
| `Llm.ConsumeAppend` | src/llm.py:20-27 | lines after a run that holds a `done` are never read; otherwise reading continues into them |
| `Llm.BlankLineSkipped` | src/llm.py:21-22 | a blank line anywhere changes nothing |
| `Llm.EmptyRecordSkipped` | src/llm.py:24-27 | a record with neither `response` nor a true `done` changes nothing |
| `Llm.StopsAtDone` | src/llm.py:26-27 | what follows the first `done` record cannot change the result |
| `Llm.DoneFragmentKept` | src/llm.py:24-27 | the `done` record's own fragment is the last chunk |
| `Llm.AllFragmentsWithoutDone` | src/llm.py:20-27 | without a `done` record every fragment is kept, in order |
| `Llm.MalformedLineAborts` | src/llm.py:23 | a malformed line before any `done` fails the call |
| `Llm.StatusCheckedFirst` | src/llm.py:17 | an error status fails the call whatever the lines are |
| `Llm.ThreeRecordExample` | src/llm.py:19-29 | `"ab"`, `"cd"`, then `done` give `"abcd"`, whatever follows |
| `Classifier.CutIndex` | src/classifier.py:20-25 | the cut is at the first occurrence of the first marker in list order whose first occurrence lies past 200; there is no cut iff no marker's first occurrence does |
| `Classifier.Unquoted` | src/classifier.py:21-25 | the text before the cut is a prefix of the text, the whole text exactly when nothing is cut |
| `Classifier.TrimEmail` | src/classifier.py:16-26 | the value `trim_email(text, max_chars)` returns; what it promises is stated by `TrimEmailMeaning`, and `Trim` computes it with the source's loop |
| `Classifier.TrimEmailMeaning` | src/classifier.py:16-26 | empty text gives `""`; the result is a prefix of the stripped unquoted text of length `min(max_chars, ...)`, never longer than `max_chars`, a piece of the input, and without leading whitespace |
| `Classifier.Trim` | src/classifier.py:16-26 | the marker loop with `break` computes `TrimEmail` |
| `Classifier.CutIndexWinner` | src/classifier.py:21-25 | the first qualifying marker in list order wins, even when a later marker occurs earlier in the text |
| `Classifier.EarlyMarkersNeverCut` | src/classifier.py:22-23 | when every marker first occurs within offset 200 nothing is cut, however often markers occur later |
| `Classifier.ShortTextNeverCut` | src/classifier.py:23 | text of at most 203 characters is never cut |
| `Classifier.ShortTextKept` | src/classifier.py:17-26 | short text without surrounding whitespace comes back whole |
| `Classifier.EarlyQuoteKept` | src/classifier.py:20-26 | `"hi\nFrom: injected"` is kept whole |
| `Classifier.ReplyMarkersFound` | src/classifier.py:20-23 | in text whose only newline opens `"\nFrom:"`, `"\nOn "` is absent and `"\nFrom:"` is found right after the body |
| `Classifier.QuotedReplyCut` | src/classifier.py:20-26 | a `"\nFrom:"` past offset 200, in text with only that newline, cuts everything from it on |
| `Classifier.PromptWith` | src/classifier.py:30-37 | the f-string of `classify_email` around the instructions `rules`: sender, subject and trimmed body with `""` for a missing key; its layout is stated by the `Prompt…` lemmas below, which hold for any `rules` |
| `Classifier.Prompt` | src/classifier.py:30-37 | the prompt around `SYSTEM_RULES`, so every layout lemma applies to it |
| `Classifier.PromptOpensWithRules` | src/classifier.py:30 | the prompt starts with its instructions, for `Prompt` with `SYSTEM_RULES` |
| `Classifier.PromptSender` | src/classifier.py:30-33 | the instructions and the `Email:`/`From:` labels open the prompt, and the sender follows exactly as given |
| `Classifier.PromptSubject` | src/classifier.py:34 | the subject follows `"\nSubject: "` exactly as given |
| `Classifier.PromptBodyLabel` | src/classifier.py:35 | the line `Body:` ends right where the body starts |
| `Classifier.PromptBody` | src/classifier.py:36-37 | the trimmed body ends the prompt, followed by one newline |
| `Classifier.MissingFieldIsEmpty` | src/classifier.py:33-36 | a missing `from`, `subject` or `text` key gives the prompt that `""` gives |
| `Classifier.BracedSpan` | src/classifier.py:45-47 | the fallback slice exists iff some `{` comes before some `}`; it starts at the first `{` and ends at the last `}` |
| `Classifier.Recover` | src/classifier.py:41-49 | a reply that parses whole is returned as parsed; otherwise the call fails with the original error iff no `{` precedes a `}`; when there is a braced slice, the call succeeds iff that slice parses, a success is its parse and a failure names the slice |
| `Classifier.SpanPinned` | src/classifier.py:45-47 | a `{` with no `{` before it and a later `}` with no `}` after it are the slice bounds |
| `Classifier.EmbeddedSpan` | src/classifier.py:45-47 | in prose with no `{` before a braced text and no `}` after it, the slice is exactly that text |
| `Classifier.EmbeddedRecordRecovered` | src/classifier.py:43-48 | a record embedded in prose with no `{` before it and no `}` after it is what gets parsed, and its parse failure propagates |
| `Classifier.ProseAroundRecord` | src/classifier.py:43-48 | `'Sure! ' + record + ' Hope that helps.'` recovers the record |
| `Classifier.TwoRecordsSpanned` | src/classifier.py:45-48 | with two records in the reply, the slice runs from the first record's `{` to the second's `}` |
| `Classifier.ClassifyEmail` | src/classifier.py:29-49 | a generation failure is reported as such; otherwise the result is the recovery of the generated reply |
| `Classifier.ParsedAnswerReturned` | src/classifier.py:41-42 | a reply that parses whole is the result, with no check of label or confidence |

## Left out

- `get_gmail_service` (src/gmail_client.py:17-33): OAuth flow, token files and API client construction are I/O.
- `list_message_ids` and the mailbox call inside `fetch_message` (src/gmail_client.py:76-83): network calls; `FetchRecord` takes the fetched payload as its input.
- `create_draft_reply` (src/gmail_client.py:102-114): MIME serialisation and an API call.
- `src/app.py`: environment configuration, printing and the driver loop over network calls.
- The request in `ollama_generate` (the URL, the JSON body, the timeouts and the connection): transport; the reply is a given status and line sequence.
- The `temperature` floats (src/classifier.py:38, src/llm.py:7): passed through unchanged, so `ClassifyEmail` takes the backend as a function from prompt to reply.
- UTF-8 decoding and JSON parsing: library code, given as the parameters `utf8` and `parse`.
- Other characters in a body the walk decodes: the model requires data characters (the URL-safe alphabet, `+` and `/`) followed by any number of `=` (`IsBodyText`, required by `WellEncoded`). Python's decoder silently discards every other character (whitespace, non-ASCII text, other punctuation), and it stops reading once `=` completes a group, so text after such an `=` is ignored; bodies with such characters, or with an `=` before the end, are outside the model. Bodies the walk never decodes (HTML and other ignored children, the own data of a node with `parts`) are unconstrained.
- `DecodeBase64Url`: does not model the characters `urlsafe_b64decode` discards, nor an `=` before the end of a body, for the reason above.
- JSON `null` values: `None` in the model stands for a missing key. A `null` `body` makes `body.get` raise (src/gmail_client.py:60 and 70), a `null` `mimeType` makes `mime.startswith` raise (line 64) and a `null` header `name` makes `.lower()` raise (line 39); these exceptions are not modelled.
- `PyStr.Lower`: maps only the ASCII letters; Python's `str.lower` also maps other scripts, which header names do not use.
- Stream records: a JSON line that is not an object, a `response` that is not a string (which makes `"".join` raise) and a `done` that is neither true nor false are not modelled; `done` is already its truth value.
- The email record passed to `classify_email`: its values are strings (`Classifier.Field`); a `None` value under a key is not modelled.
- `LABELS` (src/classifier.py:5): not used by the modelled code.
