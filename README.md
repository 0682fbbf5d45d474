# Tiddler store model

A Dafny model of the storage core of `tiddly`, a small TiddlyWeb-style server
that keeps wiki pages ("tiddlers") as one JSON file per title. Each file holds
a record `Tiddler{Rev, Meta, Text}`: `Meta` is the tiddler's JSON metadata
without its body, `Text` is the body, and `Rev` is the revision number. The
file name is a hash of the title.

The model keeps the logic of the four handlers in `tiddly.go` and drops HTTP:

- **put** decodes the body into a JSON object, forces `bag` to `"bag"`,
  numbers the record one past the readable old record (or 1), stores a string
  `text` field apart as `Text`, removes `text` from the metadata, and
  overwrites the record. It answers with an Etag.
- **get** decodes the stored metadata, sets `text` to the stored text, and
  answers with the encoded object. It fails on a missing record or on metadata
  that is not a JSON object.
- **delete** overwrites a readable record with a tombstone: the next
  revision, with empty `Meta` and `Text`.
- **list** walks the folder and skips unreadable records and tombstones. It
  inlines the text of macro tiddlers, which are the ones whose raw metadata
  contains `"$:/tags/Macro"`. It joins the entries into one JSON array.

Revisions are Go `int`s. The model takes a 64-bit platform, where `int` is 64
bits wide: `Rev + 1` and `Rev++` wrap from 2^63-1 to -2^63, and the model does
the same (`Tiddly.Inc`, `Tiddly.Wrap64`).

Files:

- `wrappers.dfy`: the `Option`, `Result` and `Outcome` types.
- `json.dfy`: JSON values and the `encoding/json` calls, given as function
  values. `Lawful` lists what the store assumes of them.
- `text.dfy`: `strings.Contains`, plus `%d` formatting with a parse-back round
  trip.
- `tiddly.dfy`: the record, and the put, get and delete rules for one record.
  It also has revision histories and the Etag.
- `listing.dfy`: the listing rules and their properties.
- `store.dfy`: `TiddlerStore`, a class over `map<Key, Tiddler>` whose methods
  are the handlers.
- `as_written.dfy`: put and get as written, for a JSON `null` input.

The folder is a map from file name to record. A name with no entry in the map
stands for a file that `fsget` cannot read: no such file, or a file that does
not decode, such as `index.html`. These are parameters of the model:

- The hash key (`fskey`), `url.QueryEscape`, the MD5 digest and `encoding/json`
  are function values in `Platform`.
- The order in which `filepath.Walk` visits files is the `walk` argument of
  `List`.

## Model

| member | source | states |
|---|---|---|
| Text.Contains | tiddly.go:84 | the substring test holds exactly when the pattern occurs at some index of the text |
| Text.FormatIntRoundTrip | tiddly.go:230 | the `%d` rendering of the revision in the Etag reads back to that revision |
| Tiddly.StoredFields | tiddly.go:201-216 | stored metadata has every client field except `text`; `bag` is "bag" and `revision` is rev, whatever the client sent; no `text` key |
| Tiddly.PutRecord | tiddly.go:201-223 | the stored `Meta` decodes to exactly the stored fields of the body |
| Tiddly.IncWraps | tiddly.go:207 | `Rev + 1` on a Go int is `+ 1` in 64-bit two's complement |
| Tiddly.PutRevision | tiddly.go:203-208 | a put with no readable old record stores Rev 1; otherwise it stores old Rev + 1, and -2^63 after 2^63-1 |
| Tiddly.PutAfterDelete | tiddly.go:203-208 | a put after a delete continues from the tombstone's revision: old Rev + 2 wrapped to 64 bits, which is plainly old Rev + 2 below 2^63-2 |
| Tiddly.PutSplitsText | tiddly.go:211-223 | the stored Text is the body's `text` when that is a string and empty otherwise; the stored metadata decodes to the stored fields |
| Tiddly.PutRefusesNonObjects | tiddly.go:194-199 | a put fails, with BodyNotObject, exactly when the body does not decode into a JSON object |
| Tiddly.PutThenGet | tiddly.go:171-178 | get after put answers with the body's fields, `bag` and `revision` overridden, and `text` equal to the stored text; no other key |
| Tiddly.GetResponseDecodes | tiddly.go:177-184 | get's answer is the encoding of the merged object and decodes back to it |
| Tiddly.GetFails | tiddly.go:164-176 | get fails exactly when there is no readable record or its Meta is not a JSON object |
| Tiddly.GetTombstoneFails | tiddly.go:171-176 | get of a deleted tiddler fails, because empty Meta is not JSON |
| Tiddly.DeleteTombstones | tiddly.go:240-249 | delete fails exactly on a missing record; otherwise it stores empty Meta and Text and Rev + 1, or -2^63 after 2^63-1 |
| Tiddly.EtagDistinguishesRevisions | tiddly.go:230 | two puts of one body to one title with different revisions answer with different Etags |
| Tiddly.StepRevision | tiddly.go:203-208 | one put always takes effect, and one delete takes effect only on an existing record; a write that takes effect raises Rev by one, as a Go int |
| Tiddly.RevisionCountsWrites | tiddly.go:203-208 | over any sequence of puts and deletes, each write that takes effect raises Rev by exactly 1, as a Go int. The final Rev is the start plus the number of effective writes, wrapped to 64 bits; below 2^63 that is the plain sum, so a fresh key written n times holds Rev n |
| TiddlerList.ListedIff | tiddly.go:65-100 | an entry is listed exactly when some visited file yields it |
| TiddlerList.EntryVisible | tiddly.go:66-96 | a file yields an entry exactly when its record is readable, its Meta is non-empty, and, for a macro, the Meta decodes into an object |
| TiddlerList.ListedKeysMatchItems | tiddly.go:65-100 | the entries of a walk are those of its listed files, one each in walk order; a walk that visits no file twice lists no file twice |
| TiddlerList.EveryLiveTiddlerListedOnce | tiddly.go:60-104 | a walk that visits every file of the folder once lists every live tiddler exactly once, and nothing else |
| TiddlerList.NothingLiveListsEmpty | tiddly.go:56-109 | a walk that reaches no live record lists `[]` |
| TiddlerList.DeleteHidesFromListing | tiddly.go:73-75 | the listing after a delete equals the listing before it with the deleted file's visits dropped |
| TiddlerList.PutWritesWellFormed | tiddly.go:209-223 | put writes Meta that is an encoded object without `text` |
| TiddlerList.ListedText | tiddly.go:84-100 | in a store written by put and delete, a listed macro carries its text under `text` and any other listed tiddler has no `text` |
| TiddlerList.ListingIsJsonArray | tiddly.go:56-109 | in a store written by put and delete, the listing decodes to the array of the live tiddlers' objects in walk order |
| TiddlerList.MacroNeverNull | tiddly.go:84-90 | a macro's Meta never decodes to `null`, so the listing never writes into a nil map |
| Store.TiddlerStore.Put | tiddly.go:187-232 | on an object body: overwrites only the title's key with the put record and answers with the Etag. Otherwise: changes nothing and answers BodyNotObject. Keeps a well-formed store well-formed |
| Store.TiddlerStore.Get | tiddly.go:161-185 | answers with the encoded merged object of the title's record, or the failure; changes nothing |
| Store.TiddlerStore.Delete | tiddly.go:234-253 | on a readable record: overwrites only its key with the tombstone. On a missing one: changes nothing and fails |
| Store.TiddlerStore.List | tiddly.go:55-112 | given a walk that visits every file once, as filepath.Walk does: answers with `[`, then the entries of the visited files in walk order separated by `,`, then `]`. Every live tiddler's entry is in the listing, and nothing changes |
| Store.TiddlerStore.Visit | tiddly.go:60-104 | the walk callback for one file: when the file yields an entry, appends the separator and the entry and sets the separator to `,`. On a missing record, a tombstone or a macro whose metadata does not decode to an object, leaves the buffer and the separator as they were |
| Store.StoredFieldsInHandlerOrder | tiddly.go:201-216 | forcing `bag`, setting `revision` and then dropping `text` gives the stored fields |
| Store.PutKeepsStoreWellFormed | tiddly.go:209-224 | a put keeps every record of a well-formed store well-formed |
| Store.JoinCommaAppend | tiddly.go:98-100 | writing the separator and then the entry extends the joined list by one item |
| AsWritten.NullBodyPanics | tiddly.go:194-201 | a PUT with body `null` panics as written, and is refused by the model |
| AsWritten.NullMetaPanics | tiddly.go:171-177 | a GET of a record whose Meta is `null` panics as written, and fails with an error in the model |
| AsWritten.AgreeOffNull | tiddly.go:194-223 | on every body other than `null`, put as written agrees with the model: the same record, or the same refusal |
| AsWritten.GetAgreesOffNull | tiddly.go:166-178 | on every record other than one whose Meta is `null`, a missing record included, get as written agrees with the model: the same object, or the same failure |

## Left out

- HTTP: route registration, method dispatch, the `index` and `status` handlers, status codes, headers and response writing. Errors are a `Failure` value instead.
- `main.go`: flag parsing, the folder setting and the listen address. The folder is the store object itself.
- SHA-256 with URL-safe base64 (`fskey`), `url.QueryEscape` and MD5 are library calls. They are opaque function values. Distinct titles map to distinct keys only if the hash has no collisions; no property of the model depends on that.
- The byte format of `encoding/json`. Decoding and encoding are function values. `Json.Lawful` states what is assumed of them: decoding an encoding gives the value back; empty text is not JSON; an array is encoded as its elements between brackets, separated by commas; and a text that decodes to `null` holds no quote.
- JSON numbers are integers here (`JNum(n: int)`). Go decodes every JSON number as a float64: the client's body at tiddly.go:195, and the stored Meta in getTiddler (172) and in the macro branch of tiddlerList (86). So a number that is not an integer has no `Json` value in the model. An integer beyond ±2^53 is rounded when put decodes the body, before it reaches `Meta`. A number beyond the float64 range (about ±1.8×10^308) makes `json.Unmarshal` fail, so put refuses the body at 196-198, where the model would store it. Put writes the revision as a Go int, and `json.Marshal` writes that int into `Meta` exactly (209, 218). The revision is rounded only when `Meta` is decoded again, at 172 or 86. The first law of `Json.Lawful` (decoding an encoding gives the value back) is therefore true in Go only for numbers within ±2^53. `Json.Lawful`, `Tiddly.PutOutcome` and `Tiddly.PutRefusesNonObjects` count a body holding a number beyond the float64 range as an object; in Go it is refused.
- PutThenGet: its `revision` value and the values of the client's number fields hold in Go only within ±2^53, because get decodes `Meta` as float64.
- PutRecord: its decoding of `Meta` back to the stored fields holds in Go only for numbers within ±2^53.
- PutSplitsText: its decoding of `Meta` back to the stored fields holds in Go only for numbers within ±2^53.
- GetResponseDecodes: decoding get's answer gives the merged object back in Go only for numbers within ±2^53.
- ListingIsJsonArray: decoding the listing gives the listed objects back in Go only for numbers within ±2^53.
- PutRefusesNonObjects: a body holding a number beyond the float64 range decodes to an object in the model, so it is stored. Go's `json.Unmarshal` fails on it, and put refuses it (tiddly.go:195-198).
- `json.Marshal` errors: maps decoded from JSON always encode, so the error branches at tiddly.go:91-94, 178-182 and 218-222 are not modelled.
- Filesystem failures: directory creation, file creation and write errors in `fsput`, and the Walk error path at tiddly.go:105-107. In that path no response is written.
- The body read error at tiddly.go:189-192. The body is a string parameter.
- 32-bit builds: there Go's `int` is 32 bits wide, so `Rev + 1` in put (tiddly.go:207) and `t.Rev++` in delete (246) wrap at 2^31-1 to -2^31. The model covers only the 64-bit wrap.
- Concurrency: two writers racing on one title can both store the same revision. Each operation is atomic here.
- TiddlerList.ListEntry: a macro whose Meta decodes to `null` is skipped, where the code would panic. `TiddlerList.MacroNeverNull` proves that such metadata cannot exist under `Lawful`.

## Findings

| source | as written | input that shows it | evidently intended | confidence | as-written member | corrected member |
|---|---|---|---|---|---|---|
| tiddly.go:194-201 | `json.Unmarshal` of the body into a nil `map[string]interface{}` succeeds on `null` and leaves the map nil. `js["bag"] = "bag"` then panics, and the handler ends without a response | PUT of the body `null` | refuse the body with an error, as for any body that is not a JSON object | high (not executed) | AsWritten.NullBodyPanics | Tiddly.PutRefusesNonObjects |
| tiddly.go:171-177 | a stored Meta of `null` decodes without an error into a nil map. `js["text"] = ...` then panics | GET of a title whose record file holds `"Meta":"null"` | answer with a server error, as for other metadata that is not a JSON object | medium (not executed; only a record written outside the server holds such a Meta) | AsWritten.NullMetaPanics | Tiddly.GetFails |
