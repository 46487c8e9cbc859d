# momowatch fraud backend, modelled in Dafny

This project models the local logic of `backend/analyse.js`, the Express server
behind momowatch. The server reads a list of mobile-money transactions from a
JSON file and shows the most recent ones to a text-generation model. It has two
endpoints:

- `GET /api/analyze?limit=N` returns the model's count of fraudulent transactions.
- `GET /api/block-fraud?limit=N` asks the model for the ids of fraudulent
  transactions. It marks every record with such an id as `blocked: true`,
  writes the whole list back and returns a summary.

The model has four modules:

- `Wrappers` (wrappers.dfy): `Option`, used for a parse that may fail.
- `Js` (js.dfy): the JavaScript built-ins the handlers depend on. It covers
  `Number(...)` as NaN or an integer, the `||` default on numbers,
  `Array.prototype.slice(start)` and `String.prototype.trim`.
- `Transactions` (transactions.dfy): the transaction record, the trailing
  window, and the marking of listed records as blocked (the `map` over the
  store). It also holds lemmas about marking: idempotence, marking the whole
  store, an empty list, and how `blockedCount` relates to the records actually
  changed.
- `Handlers` (handlers.dfy): limit resolution, the two response bodies, and
  the class `TransactionStore`. The class field `records` stands for the
  store file. `Analyze` only reads it. `BlockFraud` replaces it, which stands
  for the read-modify-write of the file.

The external model call is a parameter `model` of type
`seq<Transaction> -> Reply`. It receives exactly the window it would be shown
and returns `CallFailed` (the call threw), `NoText` (a response whose `text`
is undefined, so that trimming it throws) or `Answered(text)`. `JSON.parse` of
the id list is a parameter `parse: string -> Option<seq<Id>>`. `None` stands
for a reply that does not parse; the handler then falls back to an empty list.
A response without text ends `/api/analyze` with the error body, because it
is trimmed outside any inner catch there (backend/analyse.js:44). In
`/api/block-fraud` it is trimmed inside the inner catch (backend/analyse.js:79-83),
so it also yields the empty list.

## Model

| member | source | states |
|---|---|---|
| `Handlers.ResolveLimit` | backend/analyse.js:20-21 | The window size is always positive. A positive parameter is kept unchanged. Zero, a negative value or NaN (missing or non-numeric) gives the default 20. The same two lines recur at 53-54. |
| `Js.SliceFrom` | backend/analyse.js:29 | `slice(start)` returns a suffix of the list. For a negative start its length is `min(-start, length)`; for a non-negative start it is `max(length - start, 0)`. |
| `Transactions.Window` | backend/analyse.js:62 | `slice(-limit)` for a positive limit is exactly the last min(limit, store size) records, in stored order. When limit is at least the store size it is the whole store. The same window is taken at line 29. |
| `Js.LeadingWhiteSpace` | backend/analyse.js:44 | The count of leading characters `trim` removes: all of them are white space, and the character after them is not. |
| `Js.TrailingWhiteSpace` | backend/analyse.js:44 | The count of trailing characters `trim` removes: all of them are white space, and the character before them is not. |
| `Js.Trim` | backend/analyse.js:44 | The trimmed text is empty or has no white space at either end, and is no longer than the input. |
| `Js.TrimSplit` | backend/analyse.js:44 | Trim only removes white space: the result is the input with some white space dropped at the start and some at the end. |
| `Js.TrimOfPadded` | backend/analyse.js:80 | Trim is determined by that description: white space + trimmed middle + white space always trims to the middle. |
| `Js.TrimIdempotent` | backend/analyse.js:80 | Trimming an already trimmed reply changes nothing. |
| `Transactions.Mark` | backend/analyse.js:87-90 | A listed record becomes a copy with `blocked` set and the same id and other fields. An unlisted record is returned as it is. |
| `Transactions.MarkBlocked` | backend/analyse.js:86-91 | Marking keeps the store's length, order, ids and other fields. A record is blocked afterwards iff it was blocked before or its id is listed. Every unlisted record is identical to what it was. |
| `Transactions.MarkBlockedAppend` | backend/analyse.js:86-91 | Marking a concatenation is marking each part and concatenating. |
| `Transactions.MarkBlockedBeyondWindow` | backend/analyse.js:86 | The marking covers the whole store, not just the analysed window. The marked store is the marked older records followed by the marked window. |
| `Transactions.MarkBlockedIdempotent` | backend/analyse.js:86-91 | Marking twice with the same list gives the same store as marking once. |
| `Transactions.MarkBlockedNoIds` | backend/analyse.js:78-83 | With the empty fallback list, the store written back equals the store read. |
| `Transactions.ChangedByMarking` | backend/analyse.js:86-91 | With distinct store ids, the records marking changes number at most the ids that are both in the store and in the list. |
| `Transactions.BlockedCountBoundsChanges` | backend/analyse.js:100 | With distinct store ids, the number of records actually changed is at most `blockedCount`, the length of the returned list. |
| `Transactions.BlockedCountOvercounts` | backend/analyse.js:100 | `blockedCount` can exceed the records changed. Repeated ids, ids absent from the store and already-blocked records are all counted: a list of 4 changes 1 record. |
| `Transactions.DuplicateIdsExceedBlockedCount` | backend/analyse.js:87 | Without distinct store ids the bound fails. One listed id blocks both records that carry it, so 2 records change for a `blockedCount` of 1. |
| `Transactions.BlockOneOfThree` | backend/analyse.js:86-91 | For unblocked T1..T3 and the list `["T2"]`, only T2 becomes blocked. With limit 3 the window is the whole store. |
| `Handlers.TransactionStore.Analyze` | backend/analyse.js:19-50 | The model is shown exactly the trailing window of the store. If the call fails or the response has no text, the response is the fixed error body. Otherwise it is the reply's trimmed text, unparsed. The store is not changed. |
| `Handlers.TransactionStore.BlockFraud` | backend/analyse.js:52-108 | The model is shown the trailing window. If the call fails, the store is unchanged and the response is the fixed error body. Otherwise the whole store is replaced by its marking against the parsed list (or the empty list when there is no text or parsing fails). The summary is the store size, min(limit, store size), the list's length and the list itself. When the response has no text or its text does not parse, the inner catch leaves the list empty: the store is unchanged and `blockedCount` is 0 with `blockedIds` empty. |

## Left out

- The Express app, CORS options, dotenv, the port and `app.listen` (backend/analyse.js:1-16, 112-115) are framework set-up with no behaviour to state.
- Reading and writing the JSON file (`readFileSync`, `writeFileSync`, `JSON.parse`/`JSON.stringify` of the store) are file I/O. The store is the `records` field, and the write is its assignment. A missing or corrupt file, or a failed write, also gives the 500 body in the source; this is not modelled.
- The Gemini `generateContent` call and the prompt text are a call to an external service. The reply to each request is an arbitrary parameter: a function of the window, applied once per request, so no assumption is made about what the model answers.
- `JSON.parse` of the reply is the parameter `parse`. Replies that parse to something other than an array of ids are not modelled. For example, a string makes `.includes` test for a substring, and a number makes it throw.
- `Number(...)` coercion is modelled only as NaN or an integer. Fractional and infinite limits, and `slice` truncating them, are not modelled.
- `blocked` is a boolean. A record without a `blocked` field is identified with `blocked: false`. Non-boolean values of the field are not modelled.
- `console.error` logging and the lost-update race between concurrent block requests are logging and concurrency, which are outside the model.
