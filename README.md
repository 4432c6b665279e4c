# Sensor pipeline of the water-monitoring main server

This project models, in Dafny, the sensor-reading pipeline of
`main-server/server.js`: the Node.js server that reads lines such as
`distance:12.5,tds:300` from a serial-connected device, appends each
accepted reading to the JSON history in `data.json` (kept sorted by
timestamp), and pushes it to every open WebSocket viewer; it also serves the
history over HTTP and clears it on request.

The model is organised as the program is:

- `js_text.dfy` (`JsText`) and `js_number.dfy` (`JsNumber`) model the
  JavaScript built-ins the decoder relies on: `trim`, `split` on one
  character, `startsWith`, and `parseFloat` (over exact rationals, with
  `Infinity` and NaN).
- `readings.dfy` (`Readings`) holds the reading and the two messages a viewer
  can receive.
- `decoder.dfy` (`Decoder`) is the body of the serial `data` handler up to the
  accept/reject decision: `DecodeLine` is the handler's `forEach` loop over the
  comma-separated parts, proved equal to the last-wins specification `Decode`.
- `history.dfy` (`History`) is the data file: its state
  (`Absent | Corrupt | Valid(history)`), the stable sort by timestamp
  (`SortByTime`, with the in-place insertion sort `SortByTimestamp` over an
  array), the append, clear, start-up and read operations as functions of the
  file, and the `Store` class whose methods update the file in place.
- `clients.dfy` (`Clients`) is the set of WebSocket viewers: the `Registry`
  class and its `Broadcast` loop, which sends only to OPEN clients.
- `server.dfy` (`Server`) ties them together: `HandleLine` (decode, append,
  and only after a successful write, broadcast) and `HandleClear` (overwrite,
  and only after a successful write, answer 200 and notify).

Each asynchronous callback chain (read, then write, then broadcast) is one
atomic step. File system failures are inputs (`Io`, `writeFails`,
`readFails`), as is the receipt time `now` that `new Date()` supplies.
Timestamps are integer milliseconds since the epoch.

Behaviour of the code worth noting:

- The decoder tests only `isNaN`, so `distance:Infinity` is accepted and
  stored; finite values are not required.
- There is no HTTP ingestion route (nothing handles `/api/sensor-data`): the
  serial decoder is the only ingestion path, and every stored timestamp is
  the receipt time.
- `GET /api/data` on a file that does not parse does not fall back to an
  empty history: `JSON.parse` throws inside the read callback, modelled as the
  `Uncaught` answer.
- Viewers that are not OPEN are skipped, never pruned.
- Appends and clears are not serialised against each other; see "Left out".

## Model

| member | source | states |
|---|---|---|
| JsText.TrimStart | main-server/server.js:97 | the result is the suffix of the text after a run of white space, and does not itself start with white space |
| JsText.TrimEnd | main-server/server.js:97 | the result is the prefix of the text before a run of white space, and does not itself end with white space |
| JsText.TrimIgnoresSurroundingWhiteSpace | main-server/server.js:97 | `trim` of a text with white space added on either side is `trim` of the text |
| JsText.TrimOfTrimmed | main-server/server.js:97 | a text that neither starts nor ends with white space is unchanged by `trim` |
| JsText.BlankTrimStart | main-server/server.js:97 | a text of white space only trims to nothing |
| JsText.KeptTrim | main-server/server.js:97 | text starting with a non-space and followed by white space trims to the text's own end-trim |
| JsText.TrimStartSkipsWhiteSpace | main-server/server.js:97 | leading white space does not change what the start-trim keeps |
| JsText.TrimEndSkipsWhiteSpace | main-server/server.js:97 | trailing white space does not change what the end-trim keeps |
| JsText.StartsWithIsPrefix | main-server/server.js:102 | `startsWith` holds exactly when the key is a sequence prefix of the part (exact, case-sensitive) |
| JsText.FirstIndex | main-server/server.js:103 | the index holds the separator and no earlier position does |
| JsText.Split | main-server/server.js:97 | a split always yields at least one piece |
| JsText.SplitAt | main-server/server.js:97 | a text whose first separator follows `a` splits into `a` and the split of the rest |
| JsText.SplitFirstPiece | main-server/server.js:103 | piece 0 of a split is the text up to the first separator, or the whole text |
| JsText.JoinSplit | main-server/server.js:97 | joining the pieces of a split with the separator gives back the text |
| JsText.SplitJoin | main-server/server.js:97 | splitting a join of separator-free pieces gives back the pieces |
| JsText.SplitPiecesLackSeparator | main-server/server.js:97 | no piece of a split contains the separator |
| JsNumber.DigitPrefix | main-server/server.js:103 | the longest run of digits at the head of a text: a prefix, all digits, followed by a non-digit or the end |
| JsNumber.DigitsValueConcat | main-server/server.js:103 | the value of two digit runs written together is the first scaled by ten to the length of the second, plus the second |
| JsNumber.DigitPrefixOf | main-server/server.js:103 | the digit prefix of digits followed by a non-digit is those digits |
| JsNumber.DecimalValue | main-server/server.js:103 | the decimal digits of a whole number have that number as their value |
| JsNumber.ParseFloatInteger | main-server/server.js:103 | `parseFloat` of a run of digits is its value |
| JsNumber.ParseFloatDecimal | main-server/server.js:103 | `parseFloat` of `whole.fraction` is whole plus fraction over ten to its length |
| JsNumber.ParseFloatIgnoresRest | main-server/server.js:103 | `parseFloat` of a run of digits followed by text that cannot continue the numeral (not a digit, point or exponent mark) is the run's value: what follows is ignored |
| JsNumber.ParseFloatDecimalIgnoresRest | main-server/server.js:103 | `parseFloat` of `whole.fraction` followed by text that starts with neither a digit nor an exponent mark is the numeral's value: what follows is ignored |
| JsNumber.ParseFloatDecimalNat | main-server/server.js:103 | a whole number printed in decimal parses back to itself |
| JsNumber.ParseFloatSkipsWhiteSpace | main-server/server.js:103 | leading white space does not change what `parseFloat` returns |
| JsNumber.ParseFloatMinus | main-server/server.js:103 | a leading minus negates the number that follows, and NaN stays NaN |
| JsNumber.ParseUnsignedIsNaN | main-server/server.js:103 | NaN comes out exactly when the text starts with neither `Infinity`, nor a digit, nor a point followed by a digit |
| Decoder.DecodeLine | main-server/server.js:97-109 | the handler's loop over the parts yields exactly the last-wins decoding `Decode`, the reading stamped with the receipt time or nothing |
| Decoder.ScanParts | main-server/server.js:101-107 | after the `forEach` loop each variable holds the value of the last part with its key, or null |
| Decoder.KeysExclusive | main-server/server.js:102-104 | no part starts with both keys, so the `else if` never hides a match |
| Decoder.LastMatchStep | main-server/server.js:101-107 | one more part overwrites a field variable exactly when it starts with that field's key |
| Decoder.LastMatchFindsLast | main-server/server.js:101-107 | if a field appears several times, the last occurrence's value wins |
| Decoder.LastMatchNull | main-server/server.js:98-107 | a field variable stays null exactly when no part starts with its key |
| Decoder.LastMatchOfMatching | main-server/server.js:101-107 | a field variable depends only on the parts that start with its key, and on their order |
| Decoder.DecodeDependsOnlyOnMatchingParts | main-server/server.js:101-107 | two lines whose `distance:` parts and `tds:` parts agree decode alike, whatever the interleaving |
| Decoder.DecodeAccepts | main-server/server.js:109-110 | a line whose last `distance:` and `tds:` parts both hold numbers yields those numbers and the receipt time |
| Decoder.DecodeRejectsMissingField | main-server/server.js:109 | a line with no part for one of the keys is dropped |
| Decoder.DecodeRejectsNaN | main-server/server.js:109 | a line whose last part for one key is not a number is dropped, whatever came before |
| Decoder.FieldValueAfterKey | main-server/server.js:103 | a field's value is `parseFloat` of the text after the key up to the next colon |
| Decoder.DecodeIgnoresSurroundingWhiteSpace | main-server/server.js:97 | white space around a line, a carriage return included, does not change the decoding |
| Decoder.TwoFieldLine | main-server/server.js:97 | a trimmed line of two comma-free fields splits into those two fields |
| Decoder.KeyedPart | main-server/server.js:102-104 | a keyed part starts with its key and not with the other key |
| Decoder.LastMatchPair | main-server/server.js:101-107 | over two parts the second one wins when it carries the key |
| Decoder.DecodeKeyedPair | main-server/server.js:101-109 | a line of a `distance:` and a `tds:` field, in either order, decodes from those two fields |
| Decoder.DecodeFieldsSwapped | main-server/server.js:101-107 | the order of the two fields does not matter |
| Decoder.DecodeRejectsSpaceAfterComma | main-server/server.js:97-105 | only the whole line is trimmed, so in `distance:1, tds:2` the `tds:` part is not recognised and the line is dropped |
| Decoder.DecodeAcceptsSpaceBeforeComma | main-server/server.js:97-105 | a space between a `distance:` numeral with a decimal point and the comma is harmless: the line yields that numeral's value and decodes exactly as it would without the space |
| Decoder.DecodeAcceptsSpaceAfterInteger | main-server/server.js:97-105 | the same for a `distance:` numeral of digits only, such as `distance:12 ,tds:300`: the line yields the digits' value and decodes exactly as it would without the space |
| Decoder.DecodeSpaceBeforeCommaExample | main-server/server.js:96-110 | `distance:12.5 ,tds:300` yields distance 12.5, TDS 300 and the receipt time |
| Decoder.DecodeExample | main-server/server.js:96-110 | `distance:12.5,tds:300` yields distance 12.5, TDS 300 and the receipt time |
| History.InsertPermutes | main-server/server.js:127-134 | inserting adds exactly the new reading |
| History.SortPermutes | main-server/server.js:130-134 | the sort neither loses nor duplicates a reading |
| History.InsertSorted | main-server/server.js:130-134 | inserting into a sorted history keeps it sorted |
| History.InsertStable | main-server/server.js:130-134 | the inserted reading comes after every reading with the same timestamp |
| History.SortSorted | main-server/server.js:130-134 | the sort is ordered by timestamp |
| History.SortStable | main-server/server.js:130-134 | the sort keeps the relative order of readings with equal timestamps |
| History.SortByTimeCorrect | main-server/server.js:130-134 | the sort is ordered by timestamp, a permutation and stable |
| History.SortedSameClassesEqual | main-server/server.js:130-134 | two sorted histories with the same readings per timestamp, in the same order, are equal |
| History.StableSortUnique | main-server/server.js:130-134 | every sorted stable rearrangement is the one the model computes |
| History.SortOfSorted | main-server/server.js:130-134 | sorting a sorted history changes nothing |
| History.WithTimeMembers | main-server/server.js:130-134 | the readings kept for a timestamp are exactly those with that timestamp |
| History.InsertAtIndex | main-server/server.js:130-134 | insertion places the reading right after the last reading no later than it |
| History.SortByTimestamp | main-server/server.js:130-134 | the in-place sort leaves the array holding the stable sort of its old contents |
| History.InsertAt | main-server/server.js:130-134 | one insertion pass leaves the prefix holding the old sorted prefix with the element inserted, and the rest untouched |
| History.AppendOutcome | main-server/server.js:114-152 | an append saves exactly when the file exists, can be read and can be written; otherwise the file is unchanged |
| History.AppendSaved | main-server/server.js:127-134 | a saved history is the old one plus the new reading: one longer, sorted, a permutation, stable |
| History.AppendAfterCorruption | main-server/server.js:119-125 | appending to a file that does not parse leaves exactly the new reading |
| History.AppendIsInsertion | main-server/server.js:127-134 | appending to a sorted history inserts the reading after those no later than it |
| History.AppendLatest | main-server/server.js:127-134 | a reading no earlier than every stored one goes at the end |
| History.BootstrapValid | main-server/server.js:22-32 | after start-up the file parses; a missing or corrupt file becomes `[]`, a valid one is kept |
| History.ClearEmpties | main-server/server.js:36-42 | a successful clear reads back as `[]`; a failed one changes nothing |
| History.Store.Bootstrap | main-server/server.js:22-32 | the file becomes the start-up result |
| History.Store.Append | main-server/server.js:114-152 | the file and the outcome are those of the append specification |
| History.Store.Clear | main-server/server.js:36-42 | the result says whether the write succeeded and the file is `[]` exactly then |
| History.Store.Read | main-server/server.js:166-173 | the answer is the history, the read error, or the uncaught parse exception for a corrupt file |
| Clients.DeliverAllEach | main-server/server.js:145-149 | the fan-out treats each client on its own |
| Clients.OnlyOpenReceive | main-server/server.js:145-149 | each OPEN client gets the message exactly once at the end of its outbox; others are untouched; no client changes state, appears or disappears |
| Clients.BroadcastsInOrder | main-server/server.js:145-149 | two broadcasts reach each OPEN client in the order they were made |
| Clients.TwoDeliveries | main-server/server.js:145-149 | an OPEN client receives two broadcasts in the order they were made |
| Clients.SentToOpen | main-server/server.js:145-149 | one broadcast sends as many messages as there are OPEN clients |
| Clients.Registry.Broadcast | main-server/server.js:145-149 | the loop leaves the clients as the fan-out specification says |
| Server.HandleLine | main-server/server.js:91-163 | the store, the viewers and the outcome are those of the line specification `OnLine` |
| Server.HandleClear | main-server/server.js:34-58 | the store, the viewers and the reply are those of the clear specification `OnClear` |
| Server.DroppedLineChangesNothing | main-server/server.js:154-158 | a line that does not decode changes neither the file nor any viewer |
| Server.LineOutcomeCases | main-server/server.js:114-150 | a line is stored exactly when it decodes and the file can be read and written; the read error happens exactly when the read fails or the file is missing |
| Server.NothingSentUnlessSaved | main-server/server.js:114-150 | on every outcome but a successful write, the file and every viewer are as before |
| Server.BroadcastAfterPersist | main-server/server.js:136-150 | a broadcast reading is the decoded line, is already in the written sorted history, and reached each OPEN viewer exactly once and no other |
| Server.PersistThenNotify | main-server/server.js:114-150 | for an accepted reading, a broadcast means the reading is in the written sorted history and each OPEN viewer got it exactly once |
| Server.ClearEffects | main-server/server.js:36-57 | a successful clear answers 200, empties the history, notifies each OPEN viewer once and leaves every viewer's state and every other outbox as it was; a failed one answers 500 with the error text and changes nothing |
| Server.LineGrowsHistory | main-server/server.js:114-152 | without file system failures a line grows the history by one exactly when it decodes; a decoded line leaves it sorted even if the file kept at start-up was not, and a dropped line leaves the file exactly as it was |
| Server.ReadingGrowsHistory | main-server/server.js:114-152 | without file system failures an accepted reading grows any valid history by one and leaves it sorted, even one that start-up kept unsorted |
| Server.RunGrowsHistory | main-server/server.js:91-153 | over a run of lines without failures, any valid history grows by exactly the number of lines that decode; it ends sorted when at least one line decoded or when it started sorted |

## Left out

- JsNumber.ParseFloat: works over exact rationals; IEEE-754 rounding, overflow of long numerals to `Infinity`, and the sign of zero are not modelled.
- JSON serialisation of the file and of the messages is not modelled; in particular `JSON.stringify` writes `Infinity` as `null`, which the model does not capture.
- File content that parses as JSON but is not an array (an object, a number): `push` would throw; the model's `Valid` state holds only arrays of readings.
- ISO-8601 timestamps and `Date` parsing: timestamps are integer milliseconds; a stored timestamp that does not parse (which would make the comparator return NaN) is not modelled.
- Concurrency: each append and each clear is one atomic step; the lost-update race between interleaved read and write callbacks is neither reproduced nor prevented.
- A failed write is modelled as leaving the old content; a partially written file is not modelled.
- A failing `writeFileSync` at start-up (which ends the process) is not modelled; start-up writes always succeed.
- The serial port itself, its 5-second reopen timer (lines 64-88) and the `ReadlineParser` framing: the decoder receives one line at a time.
- The `try`/`catch` around the decoder (lines 95 and 160): nothing in the modelled decoder throws.
- Express routing, static files, the catch-all route, `listen`, and console logging.
- WebSocket connection management: viewers are neither added nor removed by the model, and a failing `send` is not modelled.
- The text of the `dataCleared` notice is abstracted to the `DataCleared` message.
- History.Store.Read: the uncaught exception is reported as an answer; what it does to the process afterwards is not modelled.
