# Mar Baselios school chatbot: server logic in Dafny

This project models the server side of a small Next.js chatbot for Mar
Baselios Public School. The model has three parts:

- **The knowledge store** (`lib/school-data.ts`). One process-wide record
  `{ content, lastUpdated }` holds the school's descriptive text. It starts as
  the built-in default, `getSchoolData` reads it, and `updateSchoolData`
  replaces it wholesale. Here it is the class `SchoolData.Store` with one
  mutable field.
- **The update route** (`app/api/update-data/route.ts`). It checks that
  `content` is a non-empty string, then that it is not blank after trimming.
  Only then does it store the trimmed text. Here this is `UpdateData.Check`
  (pure) and `UpdateData.Post`, a method that changes the store and leaves it
  untouched on a rejected body.
- **The chat route** (`app/api/chat/route.ts`). It checks the message, trims
  it and applies the topic gate: 24 keywords, or the question occurring in the
  stored text. It then returns the completion service's text. When that call
  fails, it returns the rule-based responder `generateContextualResponse`
  instead. The responder tries seven corroborated categories in order, then
  the "general information" category, then a sentence extractor. All of this
  is pure functions in module `Chat`. The completion call becomes a parameter
  `Completion = Completed(text) | Failed`.

The JavaScript string primitives live in module `Text`: `toLowerCase`,
`trim`, `includes`, `split` and `join`. Joining the pieces of a split gives
the text back, and no piece holds the separator. `trim` is characterised as
"remove white space at both ends and nothing else". A request body field is
`Request.Field = Missing | NonString(truthy) | Str(value)`. The built-in
default text is its 28 paragraphs, verbatim, joined by blank lines.

The responder is also given as an ordered rule table, `Chat.Rules`, evaluated
first-match-wins by `Chat.FirstMatch`. `Chat.ChainIsRuleTable` proves that
the source's chain of `if`s is exactly that evaluation. Precedence lemmas are
proved once about the table.

## Model

| member | source | states |
|---|---|---|
| `Text.Lower` | app/api/chat/route.ts:47-48 | `toLowerCase` keeps the length and lower-cases each character independently (ASCII letters only) |
| `Text.LowerIdempotent` | app/api/chat/route.ts:86-97 | lower-casing the already lower-cased question again, as the responder does, changes nothing |
| `Text.TrimStart` | app/api/update-data/route.ts:12 | the result is the suffix of the input after an all-space prefix and does not start with white space |
| `Text.TrimEnd` | app/api/update-data/route.ts:12 | the result is the prefix of the input before an all-space suffix and does not end with white space |
| `Text.Trim` | app/api/update-data/route.ts:12-16 | `trim` yields an infix of its input with no white space at either end; it is empty exactly when the input is all white space |
| `Text.TrimOfPadded` | app/api/update-data/route.ts:16 | trimming white space around an already trimmed text gives back exactly that text |
| `Text.TrimIdempotent` | app/api/update-data/route.ts:16 | `trim(trim(s)) == trim(s)` |
| `Text.TrimmedIsFixed` | app/api/update-data/route.ts:16 | a trimmed text is left as it is by `trim` |
| `Text.Contains` | app/api/chat/route.ts:47-48 | `includes`: every text includes the empty text, and a text includes only needles no longer than itself |
| `Text.ContainsIffOccurs` | app/api/chat/route.ts:47-48 | `includes` holds exactly when the needle occupies some index range of the text |
| `Text.ContainsAnyIff` | app/api/chat/route.ts:101 | a chain of `includes` joined by `\|\|` holds exactly when some needle of the list occurs |
| `Text.SplitFrom` | app/api/chat/route.ts:184 | the left-to-right scan of `split` always yields at least one piece |
| `Text.Split` | app/api/chat/route.ts:184 | `split` with a non-empty separator yields at least one piece |
| `Text.SplitEmpty` | app/api/chat/route.ts:187 | `"".split(sep)` is `[""]` |
| `Text.Join` | app/api/chat/route.ts:191 | `join` of a non-empty list is at least as long as its first element |
| `Text.JoinEnds` | app/api/chat/route.ts:191 | a join starts with its first part and ends with its last part |
| `Text.JoinTrimmed` | lib/school-data.ts:8-67 | a join whose first part does not start, and whose last part does not end, with white space is non-empty and trimmed |
| `Text.JoinSplit` | app/api/chat/route.ts:184-191 | joining the pieces of `split(sep)` with `sep` gives the original text back |
| `Text.SplitPiecesFree` | app/api/chat/route.ts:184 | no piece produced by `split(sep)` includes `sep` |
| `Request.IsNonEmptyString` | app/api/chat/route.ts:10 | the guard `!x \|\| typeof x !== "string"` lets a field through exactly when it is a non-empty string; non-strings fail whatever their truthiness |
| `SchoolData.Store.constructor` | lib/school-data.ts:7-72 | before any update the store holds the built-in default text, stamped with the load instant |
| `SchoolData.Store.Get` | lib/school-data.ts:74-76 | `getSchoolData` returns the current record and may change nothing |
| `SchoolData.Store.Update` | lib/school-data.ts:78-84 | `updateSchoolData(c)` at `t` stores exactly `{c, t}` for any `c` (the empty text included) and returns the stored record |
| `SchoolData.LastWriterWins` | lib/school-data.ts:78-84 | after two updates the second one's record is stored, and a following read returns the record the update returned |
| `UpdateData.Check` | app/api/update-data/route.ts:8-16 | a body passes exactly when `content` is a string that is not all white space; the text to store is then its trim, non-empty and trimmed; otherwise the error is "Content is required..." for missing, non-string or `""`, and "Content cannot be empty" for blank strings |
| `UpdateData.Post` | app/api/update-data/route.ts:4-21 | on a rejected body the reply is the 400 error and the store is unchanged; on success the store holds the trimmed text stamped `now`, the reply's `lastUpdated` is the stored record's, and clean stored text stays clean |
| `UpdateData.AcceptedIsClean` | app/api/update-data/route.ts:12-16 | whatever is accepted is stored non-empty and free of surrounding white space |
| `UpdateData.BlankContentRejected` | app/api/update-data/route.ts:12-14 | a non-empty all-white-space string is rejected with "Content cannot be empty" |
| `UpdateData.ResubmitStoresSame` | app/api/update-data/route.ts:16 | submitting clean text, such as what the route stored, stores the identical text again |
| `UpdateData.PaddingIsIgnored` | app/api/update-data/route.ts:16 | submissions that differ only in surrounding white space store the same text |
| `UpdateData.DefaultContentIsClean` | lib/school-data.ts:7-67 | the built-in default text is non-empty and trimmed, so the store holds text the update route would accept unchanged from module load on |
| `Chat.SomeKeywordOrEcho` | app/api/chat/route.ts:45-49 | the `some` call equals "a keyword occurs in the question, or the keyword list is non-empty and the question occurs in the content" |
| `Chat.IsSchoolRelated` | app/api/chat/route.ts:18-49 | the gate passes exactly when one of the 24 keywords occurs in the lower-cased question or the lower-cased question occurs in the lower-cased content |
| `Chat.EmptyQuestionPasses` | app/api/chat/route.ts:45-49 | the empty question passes the gate for every content |
| `Chat.IsRelevant` | app/api/chat/route.ts:186-187 | a sentence is relevant when it includes, lower-cased, a question word longer than three characters, so it has at least four characters |
| `Chat.RelevantSentences` | app/api/chat/route.ts:185-188 | the filter keeps exactly the relevant sentences and no more sentences than it was given |
| `Chat.RelevantSentencesAppend` | app/api/chat/route.ts:185-188 | filtering distributes over concatenation, so relevant sentences keep their order in the text |
| `Chat.Relevant` | app/api/chat/route.ts:184-188 | the relevant sentences number no more than the pieces of `context.split(". ")`; each has at least four characters and none holds ". " |
| `Chat.Summary` | app/api/chat/route.ts:190-195 | no relevant sentence gives the "more specific question" reply; one gives that sentence; two or more give the first two joined by ". " followed by "." |
| `Chat.ExtractedAnswer` | app/api/chat/route.ts:184-195 | the extractor's reply is never empty |
| `Chat.ShortWordsFindNothing` | app/api/chat/route.ts:187 | a question without a word longer than three characters finds no relevant sentence |
| `Chat.ContextualResponse` | app/api/chat/route.ts:96-196 | `generateContextualResponse` never returns an empty text: every category answer and every extractor outcome is non-empty |
| `Chat.FirstMatchPicksFirst` | app/api/chat/route.ts:100-181 | in first-match evaluation, the first rule that fires gives the result |
| `Chat.FirstMatchNone` | app/api/chat/route.ts:183-195 | when no rule fires, the fallback is the result |
| `Chat.RulesMatchChain` | app/api/chat/route.ts:100-181 | each entry of the rule table fires exactly when the corresponding trigger-and-corroboration test of the source holds; the general category needs no corroboration |
| `Chat.ChainIsRuleTable` | app/api/chat/route.ts:96-196 | `generateContextualResponse` equals first-match evaluation of the eight ordered categories, with the extractor as fallback |
| `Chat.CategoryPrecedence` | app/api/chat/route.ts:100-181 | the answer is that of the first category whose trigger and corroboration both hold; a trigger without corroboration does not stop later categories |
| `Chat.TimingBeforeContact` | app/api/chat/route.ts:114-136 | when timing fires and location and vision do not, the answer is the timing sentence whatever the contact category would say |
| `Chat.GeneralQuestionSkipsExtractor` | app/api/chat/route.ts:178-181 | after the seven categories fail, "about", "tell me" or "information" yields the fixed overview with no content check, so the extractor is not reached |
| `Chat.ExtractorWhenNoCategory` | app/api/chat/route.ts:183-195 | when no category fires, the reply is the extractor's |
| `Chat.EmptyQuestionAnswer` | app/api/chat/route.ts:96-196 | the empty question gets the "more specific question" reply |
| `Chat.Post` | app/api/chat/route.ts:6-89 | the reply is the 400 error exactly when the message is missing, not a string or `""`; every other message gets a `{response}` |
| `Chat.OffTopicShortCircuits` | app/api/chat/route.ts:51-56 | an off-topic question gets the fixed redirect, and the reply is the same whatever the completion outcome, so neither the service nor the responder is consulted |
| `Chat.BlankMessagePasses` | app/api/chat/route.ts:10-87 | a whitespace-only message passes the 400 check and the gate (it trims to ""); with a failed completion it gets the "more specific question" reply |
| `Chat.FailureFallsBack` | app/api/chat/route.ts:83-89 | a failed completion is absorbed: the in-scope reply is the responder's answer to the lower-cased trimmed question, and it is non-empty |
| `Chat.CompletionTextIsReply` | app/api/chat/route.ts:60-82 | a successful completion's text is returned unchanged for an in-scope question |
| `Chat.Handle` | app/api/chat/route.ts:14-89 | the route run against the store answers as `Post` does on the content stored at call time, and changes nothing |

## Left out

- The completion service (`generateText`), its prompt and its 200-token budget (app/api/chat/route.ts:62-80) are foreign network code. Only the call's outcome is modelled: its text, or a failure.
- JSON parsing, `NextResponse` and HTTP status codes are represented by the reply datatypes. A body that parses to something other than an object or `null` has no field and is `Request.Missing`. The 500 catch-all paths are left out: invalid JSON, a JSON `null` body, or any other exception.
- `console.error` logging is left out.
- `new Date()` is an input parameter (`Timestamp`, milliseconds since the epoch), both for the default record and for each update. The ISO-string serialisation of `lastUpdated` in replies is not modelled.
- `Text.Lower`: covers ASCII letters only. JavaScript's `toLowerCase` also folds non-ASCII letters, and can change the length of a string.
- String lengths count Unicode scalar values, not UTF-16 code units. The "word longer than three characters" test therefore differs from the source for text outside the Basic Multilingual Plane.
- `SchoolData.Store.Get`: returns the record as a value. `getSchoolData` returns a reference to the shared object, which a caller could mutate; no caller does.
- The GET route app/api/school-data/route.ts is not a separate member. It returns `getSchoolData()`, which is `SchoolData.Store.Get`.
- Concurrency between requests is out of scope. Each operation is one atomic step on the store.
- Apart from `UpdateData.DefaultContentIsClean`, facts about the concrete default text are not proved, for example which categories it corroborates. The constant is too large for the verifier to evaluate string searches over it.
- The UI components, the editor page and its client-side login gate are not modelled.

## Behaviour worth knowing

- **Blank chat messages.** The chat route rejects only a missing, non-string or `""` message. A message such as `"  "` trims to `""`, passes the topic gate because `""` occurs in every text, and reaches the completion call or the responder (`Chat.BlankMessagePasses`).
- **Where update validation lives.** The store accepts any text, the empty text included (`SchoolData.Store.Update`). The emptiness and white-space checks live in the update route (`UpdateData.Check`).
- **Timestamps.** `lastUpdated` is whatever `new Date()` returns at the update. Nothing makes it increase from one update to the next, so the model takes the instant as an unconstrained input.
- **The timing category.** The timing category needs "8:00 am" or "3:00 pm" in the context. The built-in text contains neither, so against it a timing question never gets the timing answer; it falls through to later categories or the extractor.
