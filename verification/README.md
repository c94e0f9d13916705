# F34 GPS telemetry receiver — message front end in Dafny

This project models the decision logic of the F34 GPS telemetry receiver (`telem.py`).
That logic has three parts:

- **`parse_telem`** is a tolerant parser for compact bodies of the form
  `TELEM|v=2|sym=KUCOIN:SOLUSDT|...|sec=SECRET`. The body must begin with the literal `TELEM|`.
  The parser strips the body, splits it on `|` and drops the first segment.
  Each remaining segment that holds an `=` is split at its first `=` into a key and a value.
  Segments without `=` are ignored, and a repeated key keeps its last value.
- **The `POST /telem` validation chain** checks, in this order:
  1. the URL token (401 `bad token`);
  2. a blank body (400 `empty body`);
  3. the parser (400 `parse error: bad prefix`);
  4. the shared secret in the `sec` field (401 `bad secret`);
  5. the twelve required fields (400 `missing fields: ...`, listed in the order of the required list).
- **The `/metrics/rollup` window**: `since = now_ms - minutes*60*1000`.

Modules:

- `Wrappers` (`wrappers.dfy`): the `Result` type that stands for raised exceptions.
- `PyStr` (`pystr.dfy`): the Python `str` operations the parser relies on. These are `isspace`, `strip`,
  `startswith`, `split(sep)`, `sep.join` and `split(sep, 1)`. Whitespace is the exact `str.isspace` set.
- `TelemParse` (`telem_parse.dfy`) has four parts:
  - `Parse` and `Collect` are the parser as a value;
  - `ParseTelem` is the parser's loop, which fills a map in place;
  - lemmas state the parser's properties;
  - `Serialize` writes `TELEM|k1=v1|...` bodies, and a round-trip theorem ties it to `Parse`.
- `TelemIngest` (`telem_ingest.dfy`): the required-field list, the rejection reasons with their HTTP status and detail
  text, and `Ingest`, a pure function from (configuration, URL token, decoded body) to a rejection or an accepted message.
- `Rollup` (`rollup.dfy`): the window start and membership in the window.

The configured URL token and shared secret (read from the environment by the service) and the current
time in milliseconds are parameters.

## Model

| member | source | states |
|---|---|---|
| `PyStr.IsSpace` | telem.py:36 | the whitespace `strip()` removes is the `str.isspace` set; it never includes the pipe, `=` or the `T` of the prefix |
| `PyStr.StartsWith` | telem.py:33 | a string starts with a prefix exactly when it is that prefix followed by the rest of the string |
| `PyStr.StripLeft` | telem.py:36 | the result is a suffix of the input; everything dropped is whitespace; the result does not begin with whitespace |
| `PyStr.StripRight` | telem.py:36 | the result is a prefix of the input; everything dropped is whitespace; the result does not end with whitespace |
| `PyStr.Strip` | telem.py:53 | a stripped body is a slice of the input that neither begins nor ends with whitespace, and everything of the input before and after that slice is whitespace |
| `PyStr.StripKeeps` | telem.py:36 | a string whose two ends are not whitespace is unchanged by `strip()` |
| `PyStr.StripIdempotent` | telem.py:36 | stripping twice is stripping once, so the parser's own strip of a body the route already stripped changes nothing |
| `PyStr.StripKeepsPrefix` | telem.py:33-36 | a body that starts with the `TELEM` prefix still starts with it after `strip()` |
| `PyStr.Join` | telem.py:68 | a join begins with the first part, followed by the separator when there are further parts; joining nothing gives the empty string |
| `PyStr.Split` | telem.py:36 | splitting on the pipe gives at least one piece; no piece holds a pipe; joining the pieces with a pipe restores the input |
| `PyStr.SplitAfterPiece` | telem.py:36 | splitting `a`, a pipe, `t`, with `a` free of pipes, yields `a` followed by the pieces of `t` |
| `PyStr.SplitSingle` | telem.py:36 | a text without pipes splits into itself alone |
| `PyStr.SplitJoin` | telem.py:36 | `split` undoes `join` when no part contains the separator |
| `PyStr.JoinEndsWithLast` | telem.py:68 | a `join` of parts ends with its last part |
| `PyStr.SplitOnce` | telem.py:38 | `split("=", 1)` gives a key free of `=`, and key + `=` + value is the segment |
| `PyStr.SplitOnceExact` | telem.py:38 | a segment `k=v` with `k` free of `=` splits into exactly `k` and `v`, even when `v` holds further `=` |
| `TelemParse.Parse` | telem.py:27-40 | parsing fails exactly when the unstripped input lacks the `TELEM` prefix; every other input is accepted |
| `TelemParse.Collect` | telem.py:36-39 | the dictionary built from the walked segments has at most one entry per segment |
| `TelemParse.ParseTelem` | telem.py:27-40 | the loop fails exactly when the `TELEM` prefix is missing; otherwise it returns the last-wins dictionary of the segments after the first |
| `TelemParse.ParseFailsOnlyOnPrefix` | telem.py:33-34 | parsing fails, with message `bad prefix`, exactly when the unstripped input does not start with the `TELEM` prefix; every other input is accepted |
| `TelemParse.FirstSegmentIsTelem` | telem.py:36 | in an accepted body the dropped first segment is exactly `TELEM`, and the walked segments are those of the text after the `TELEM` prefix |
| `TelemParse.CollectKeys` | telem.py:37-39 | a key is in the dictionary if and only if some walked segment holding `=` has that key |
| `TelemParse.CollectLastWins` | telem.py:39 | a key holds the value of its last occurrence |
| `TelemParse.CollectEntries` | telem.py:37-39 | every entry is the first-`=` split of some walked segment |
| `TelemParse.BareSegmentsIgnored` | telem.py:37 | removing a segment without `=` from any position leaves the dictionary unchanged |
| `TelemParse.SegmentParts` | telem.py:38 | a segment is key + `=` + value; the key holds no `=`; key and value hold no pipe the segment does not |
| `TelemParse.ParsedEntrySource` | telem.py:36-39 | every parsed entry comes from a segment after the first (never from the `TELEM` segment), split at its first `=` |
| `TelemParse.ParsedEntryClean` | telem.py:36-38 | parsed keys contain neither `=` nor a pipe; parsed values contain no pipe |
| `TelemParse.ParsedKeyLastWins` | telem.py:36-39 | for an accepted body, the key of a segment after the first with no later segment of the same key maps to that segment's value |
| `TelemParse.Segments` | telem.py:36 | the serialiser writes one `k=v` segment per pair, in order |
| `TelemParse.CollectSegments` | telem.py:37-39 | walking the serialised segments builds the last-wins dictionary of the pairs |
| `TelemParse.SerializeEndsWithLast` | telem.py:36 | a non-empty serialised body ends with its last `k=v` segment |
| `TelemParse.SerializeStripped` | telem.py:36 | `strip()` leaves a serialised body of representable pairs whole |
| `TelemParse.SplitPrefixed` | telem.py:33-36 | splitting the `TELEM` prefix followed by `t` gives `TELEM` followed by the pieces of `t` |
| `TelemParse.SegmentsFreeOfBar` | telem.py:36 | serialised segments of representable pairs hold no pipe |
| `TelemParse.SerializeChunks` | telem.py:36 | the segments walked in a serialised body are exactly the pairs' segments, or a single empty segment when there are no pairs |
| `TelemParse.RoundTrip` | telem.py:27-40 | parsing `TELEM`, a pipe and the pairs, pipe-separated yields the last-wins dictionary of the pairs when keys avoid `=` and pipes, values avoid pipes, and the last value has no trailing whitespace |
| `TelemParse.ToMapDistinct` | telem.py:39 | with distinct keys the dictionary holds exactly the written keys, each with its written value |
| `TelemIngest.Reason.Status` | telem.py:50-68 | token and secret failures are 401; empty, unparsable and incomplete bodies are 400 |
| `TelemIngest.Reason.Detail` | telem.py:51-68 | the detail is `bad token` exactly for a token failure, `bad secret` exactly for a secret failure and `empty body` exactly for a blank body; parse and missing-field failures carry their own tag before the specifics |
| `TelemIngest.Missing` | telem.py:65-67 | the list holds exactly the required keys absent from the message, in the order of the required list; it is empty exactly when all are present |
| `TelemIngest.MissingMultiplicity` | telem.py:66 | each absent key is listed as often as the required list names it; present keys are not listed |
| `TelemIngest.Ingest` | telem.py:48-68 | a wrong token is rejected whatever the body; an accepted message has the right token, a non-blank stripped body that parses to its fields, `sec` equal to the secret, and every required field |
| `TelemIngest.EmptyBodyBeforeParse` | telem.py:53-59 | a blank body is reported as `empty body` (400), not as a parse error |
| `TelemIngest.BadPrefixIsParseError` | telem.py:56-59 | a non-blank body without the `TELEM` prefix is rejected with 400 `parse error: bad prefix` |
| `TelemIngest.SecretBeforeFields` | telem.py:61-68 | a missing or wrong `sec` is reported (401) before any missing field |
| `TelemIngest.MissingFieldsDecide` | telem.py:65-68 | once the credentials and the parse pass, the message is accepted if and only if no required field is missing; otherwise the detail lists exactly the missing fields, comma-joined |
| `TelemIngest.AcceptedIff` | telem.py:50-68 | a message is accepted if and only if every guard passes |
| `TelemIngest.SerializedAccepted` | telem.py:50-68 | a serialised body of representable pairs with the right secret and every required field is accepted, with exactly its dictionary |
| `Rollup.Since` | telem.py:102 | the window start is at or before now exactly when `minutes` is non-negative |
| `Rollup.InWindow` | telem.py:102-106 | a row is in the window exactly when it is at most `minutes` minutes older than now |
| `Rollup.WiderWindowKeeps` | telem.py:102-107 | widening the window never drops a row it held |

Notes on the model:

- `parse_telem` tests the prefix on its argument before stripping it.
  When the function is called on its own, a body with leading whitespace fails.
  The route strips the body first, so that body is accepted there. `Parse` and `Ingest` model this order.
- `d.get("sec") != SHARED_SECRET` rejects a message without `sec`, because `None` never equals the secret.
  `sec` is not in the required list; it is checked separately, and before that list.
- The serialiser writes an empty list of pairs as `TELEM|`. That body parses to the empty dictionary.
  `TELEM` alone would fail the prefix check.
- The route rejects a blank body before it calls `parse_telem`.

## Left out

- The SQLite connection, table creation, the `INSERT` of an accepted message and the `SELECT` queries of
  `/metrics/heartbeat` and `/metrics/rollup`: these are external storage, and their grouping and ordering happen inside SQL.
- The `int(...)` and `float(...)` coercions of `t`, `m`, `sc`, `d`, `al` and `atrx` made while inserting.
  They use Python's number grammar and floating point. As a result the model does not capture that an
  accepted message with a non-numeric value fails only at that later step.
- FastAPI routing (including the default of 60 for `minutes` in `/metrics/rollup`; `Since` and `InWindow` take `minutes` explicitly), `/health`, reading the request body, the UTF-8 decoding with `errors="ignore"` and the JSON responses: HTTP plumbing.
  `Ingest` takes the already decoded body.
- `time.time()` and the environment variables: the clock and the configuration are parameters.
- `Rollup.Since`: the Python float product `time.time()*1000` and its truncation by `int` are not modelled;
  `now_ms` is taken as an integer.
