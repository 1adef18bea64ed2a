# LINE webhook routing, modelled in Dafny

This project models the per-event routing of the LINE webhook handler in
`page/api/webhook.ts`. The handler works through each event of a request. It ignores
anything that is not a text message. For a text message it does four things:

1. It trims the text.
2. It looks up the sender's document in the `userMap` collection. The sender counts as
   bound when `lastEmpId` is truthy.
3. It picks one reply:
   - A bound sender whose `employees` record is missing gets a fixed "employee not found"
     text.
   - A bound sender with a record is answered by the first match of: a profile keyword
     (the profile summary), an image keyword (the photo), a candidate employee code (a
     rebind), and anything else (a note). Only the two keyword tests read the lower-cased
     text; the code test reads the trimmed text as sent.
   - An unbound sender is bound by a candidate code and gets a prompt otherwise.
4. It performs at most one write, sends that one reply to the event's reply token, and
   stops.

The model has five modules:

- `Wrappers` holds the `Option` type.
- `EcmaString` holds the ECMAScript string built-ins the handler uses:
  - `trim`, with the ECMA-262 white-space and line-terminator set;
  - `includes`;
  - `toLowerCase`;
  - the UTF-16 `length`.
- `NumberParsing` holds `parseInt` without a radix, as section 19.2.5 of ECMA-262
  defines it.
- `Routing` is the specification. It is a pure function from the two writable stores
  (`userMap` and `messages`), the read-only `employees` collection, an event and a write
  time to the new stores and the reply sent. The properties of the handler are proved as
  lemmas about it.
- `Webhook` holds the class `Store`. Its fields are updated in place. Its methods follow
  the handler's branches step by step: they assign the reply along the branches, do a
  merge-upsert of the sender's binding, and append a note. Each method is proved equal to
  the specification.

The candidate employee code test is `!isNaN(parseInt(text)) && text.length > 3 &&
text.length < 9`. On trimmed text it accepts text whose JavaScript length (in UTF-16 code
units) is 4 to 8 and that starts, after an optional `+` or `-`, with:

- `0x` or `0X` followed by a hex digit, when the text after the sign starts with `0x`/`0X`;
- otherwise a decimal digit.

So `"12ab"`, `"-123"`, `"0x1f"` and `"1/23"` are accepted as codes, not only runs of 4 to 8
digits, while `"0xg1"` is not. A code point above U+FFFF counts as two towards the length.
Sending the code a sender is already bound to does not always repeat the bind-success
reply:

- If the code has no employee record, the reply is "not found".
- If the text holds a keyword, the reply is the profile or the image.
- If the binding was written outside the webhook with an id that is not a candidate code,
  resending that id is stored as a note.

The model follows the handler's code in both respects.

## Model

| member | source | states |
|---|---|---|
| EcmaString.Trim | page/api/webhook.ts:44 | `trim`: the text without its leading and trailing white space and line terminators; its properties are the three lemmas below |
| EcmaString.TrimDropsOnlyWhiteSpace | page/api/webhook.ts:44 | `trim` keeps the contiguous run of the text that starts after its leading white space, and every character it drops, at either end, is ECMAScript white space or a line terminator |
| EcmaString.TrimHasNoOuterWhiteSpace | page/api/webhook.ts:44 | the trimmed text is empty or neither starts nor ends with white space |
| EcmaString.TrimIdempotent | page/api/webhook.ts:44 | trimming twice is trimming once, and parseInt's own leading-space strip leaves trimmed text as it is |
| EcmaString.Includes | page/api/webhook.ts:61 | `includes` without a position, scanning from the left; `EcmaString.IncludesIffOccurs` states what it decides |
| EcmaString.IncludesIffOccurs | page/api/webhook.ts:61 | `includes` holds exactly when the search string occurs at some index of the text |
| EcmaString.ToLowerCase | page/api/webhook.ts:59 | lower-casing keeps the length, changes exactly the upper-case letters, each into its lower-case partner, and leaves none |
| EcmaString.LowerCaseKeepsCaselessMatch | page/api/webhook.ts:59-61 | for a search word without letters, searching the lower-cased text gives the same answer as searching the text |
| EcmaString.Utf16Length | page/api/webhook.ts:77 | the JavaScript length is between one and two code units per code point, and equals the number of code points when none is above U+FFFF |
| EcmaString.Utf16LengthAppend | page/api/webhook.ts:77 | the JavaScript length of a concatenation is the sum of the lengths |
| EcmaString.Utf16LengthOfChar | page/api/webhook.ts:77 | one code point is one code unit up to U+FFFF and two above it |
| NumberParsing.ParseInt | page/api/webhook.ts:77 | parseInt without a radix, `None` for NaN: leading white space is skipped, an optional sign read, radix 16 chosen after "0x"/"0X", and the longest run of digits read; its properties are the lemmas below |
| NumberParsing.ParseIntNaN | page/api/webhook.ts:77 | parseInt without a radix is NaN exactly when the text after leading white space does not start, after an optional sign, with "0x"/"0X" followed by a hex digit or, when there is no such prefix, with a decimal digit |
| NumberParsing.DigitPrefixStops | page/api/webhook.ts:77 | parseInt reads digits up to the first character that is not a digit of the radix |
| NumberParsing.ParseIntOfSigned | page/api/webhook.ts:77 | text made of a sign and then a digit parses to the magnitude of the rest, negated after "-" |
| NumberParsing.ParseIntReadsLeadingDigits | page/api/webhook.ts:77 | parseInt of a sign, a run of decimal digits and a non-digit tail is the signed value of the run, whatever the tail |
| Routing.IsCandidateCode | page/api/webhook.ts:102 | the test shared by both branches: parseInt is not NaN and the JavaScript length is more than 3 and less than 9; `Routing.CandidateCodeIff` states which texts pass |
| Routing.CandidateCodeIff | page/api/webhook.ts:102 | on trimmed text, a candidate code is exactly text of JavaScript length 4 to 8 that starts with an integer; a candidate is never empty |
| Routing.CandidateCodeOfPlainText | page/api/webhook.ts:77 | for text without leading white space or astral code points, a candidate code is exactly 4 to 8 characters that start with an integer |
| Routing.CodeMayEndInLetters | page/api/webhook.ts:77 | "12ab" is accepted as a code |
| Routing.CodeMayCarrySign | page/api/webhook.ts:77 | "-123" is accepted as a code |
| Routing.HexCodeAccepted | page/api/webhook.ts:77 | "0x1f" is accepted as a code |
| Routing.HexPrefixAloneRejected | page/api/webhook.ts:77 | "0xg1" is not a code |
| Routing.ThreeDigitsTooShort | page/api/webhook.ts:102 | "123" is not a code |
| Routing.NineDigitsTooLong | page/api/webhook.ts:102 | "123456789" is not a code |
| Routing.CodeMayHoldSlash | page/api/webhook.ts:77 | "1/23" is accepted as a code |
| Routing.AstralCharCountsTwice | page/api/webhook.ts:77 | two digits and one code point above U+FFFF have length 4 and are a code |
| Routing.AstralCharStillTooShort | page/api/webhook.ts:77 | one digit and one code point above U+FFFF have length 3 and are not a code |
| Routing.BoundEmpId | page/api/webhook.ts:49-52 | the sender's linked id when the stored `lastEmpId` is truthy; a missing document, a missing field and the empty string are unbound; used by every `Dispatch` lemma |
| Routing.Classify | page/api/webhook.ts:52-113 | the branch a trimmed text takes; `Routing.ClassifyBoundSender` and the `Dispatch` lemmas state each branch |
| Routing.Upsert | page/api/webhook.ts:79-83 | the merge `set` of `lastEmpId` and `updatedAt` on the sender's document; `Routing.UpsertBinds` and `Routing.UpsertIdempotent` state its effect |
| Routing.Apply | page/api/webhook.ts:77-109 | the one write each branch performs; `Routing.ApplyWritesAtMostOnce` states its frame |
| Routing.ReplyFor | page/api/webhook.ts:61-111 | the reply each branch sends; `Routing.OnlyBindingRepliesBindSuccess` and the `Dispatch` lemmas state it per branch |
| Routing.Dispatch | page/api/webhook.ts:47-116 | one trimmed text message: classified, written and answered with one reply to its token; the `Dispatch` lemmas state each branch |
| Routing.Step | page/api/webhook.ts:42-116 | one event: a text message is trimmed and dispatched, any other event ignored; `Routing.StepRepliesToTextMessagesOnly` and `Routing.StepWritesAtMostOnce` state its effect |
| Routing.Run | page/api/webhook.ts:41 | the events of a batch handled one after another; `Routing.RunRepliesOncePerTextMessage` states its replies |
| Routing.AsksForProfile | page/api/webhook.ts:61 | the profile keyword test on the lower-cased text; `Routing.KeywordsIgnoreCase` shows lower-casing does not change its answer and `Routing.ClassifyBoundSender` puts it first |
| Routing.AsksForImage | page/api/webhook.ts:66 | the image keyword test on the lower-cased text; `Routing.KeywordsIgnoreCase` shows lower-casing does not change its answer and `Routing.ClassifyBoundSender` puts it second |
| Routing.Render | page/api/webhook.ts:63 | a field as the template literal prints it, "undefined" when absent; `Routing.ProfileTextListsFields` states where the rendered fields appear |
| Routing.ProfileText | page/api/webhook.ts:63 | the profile summary; `Routing.ProfileTextListsFields` states its content |
| Routing.ImageUrl | page/api/webhook.ts:68 | the photo URL when it is non-empty, the placeholder otherwise; `Routing.DispatchShowsImage` uses it |
| Routing.BindSuccessText | page/api/webhook.ts:84-109 | the bind-success text; `Routing.BindSuccessEchoesCode` and `Routing.BindSuccessStandsOut` state its content |
| Routing.KeywordsIgnoreCase | page/api/webhook.ts:59-66 | the profile and image keyword tests give the same answer on the lower-cased text as on the text |
| Routing.ProfileTextListsFields | page/api/webhook.ts:63 | the profile summary contains the name, code, department, status and safety record, in that order and without overlap |
| Routing.InOrderAfter | page/api/webhook.ts:63 | a labelled field placed before text that lists fields in order starts a longer in-order list |
| Routing.BindSuccessEchoesCode | page/api/webhook.ts:84 | the bind-success reply contains the code |
| Routing.BindSuccessStandsOut | page/api/webhook.ts:84 | the bind-success reply is neither a profile summary, nor the "not found" text, nor the note acknowledgement, nor the prompt |
| Routing.OnlyBindingRepliesBindSuccess | page/api/webhook.ts:61-111 | the bind-success text is the reply of a bind or a rebind and of no other branch |
| Routing.StepRepliesToTextMessagesOnly | page/api/webhook.ts:42-116 | a text message gets exactly one reply, to its reply token; any other event gets none and changes nothing |
| Routing.ApplyWritesAtMostOnce | page/api/webhook.ts:77-96 | each branch writes at most once: `userMap` or `messages` stays as it was, at most one note is appended, and only the sender's `userMap` key can change |
| Routing.StepWritesAtMostOnce | page/api/webhook.ts:42-116 | an event writes at most once and changes no `userMap` key but the sender's |
| Routing.UpsertBinds | page/api/webhook.ts:104-108 | the merge upsert sets `lastEmpId` and `updatedAt`, keeps the document's other fields, binds the sender to the code and touches no other key |
| Routing.UpsertIdempotent | page/api/webhook.ts:79-83 | upserting the same code again changes nothing but the write time |
| Routing.DispatchBindsUnboundSender | page/api/webhook.ts:102-109 | an unbound sender's candidate code becomes their `lastEmpId`, other keys and `messages` are unchanged, and the reply is the bind-success text containing the code |
| Routing.DispatchPromptsUnboundSender | page/api/webhook.ts:110-111 | an unbound sender's other text gets the fixed prompt and changes nothing |
| Routing.DispatchReportsMissingProfile | page/api/webhook.ts:97-98 | a bound sender without an employee record gets the "not found" text and nothing changes, whatever the text |
| Routing.ClassifyBoundSender | page/api/webhook.ts:61-96 | for a sender with a record the branch is, first match wins: profile keyword, image keyword, candidate code, note |
| Routing.DispatchShowsProfileFirst | page/api/webhook.ts:61-64 | a profile keyword wins over an image keyword and a code: the reply is the profile summary and nothing is written |
| Routing.DispatchShowsImage | page/api/webhook.ts:66-73 | an image keyword without a profile keyword gives an image whose two URLs are equal: the photo URL when it is non-empty, otherwise the placeholder; nothing is written |
| Routing.DispatchRebinds | page/api/webhook.ts:77-85 | a bound sender's code with no keyword overwrites `lastEmpId` and `updatedAt`, keeps the rest of the document and `messages`, and replies with the bind-success text |
| Routing.DispatchRecordsNote | page/api/webhook.ts:86-96 | otherwise exactly one note is appended, with the sender, the binding as it was, the trimmed text and source "LINE_VERCEL"; `userMap` is unchanged and the reply is the acknowledgement |
| Routing.ResendClassifies | page/api/webhook.ts:52-98 | a code resent by the sender bound to it gives "not found" exactly when it has no record and a rebind exactly when it has one, holds no keyword and is a code; the reply is the bind-success text exactly when it is a rebind |
| Routing.BindingDispatch | page/api/webhook.ts:77-109 | a binding message upserts the text, replies with the bind-success text, and leaves the sender bound to a code that is not taken for a note |
| Routing.ResendDispatch | page/api/webhook.ts:52-98 | when the bound code is not taken for a note (always so for a code the webhook itself bound, by `Routing.BindingDispatch`), resending it keeps the binding and `messages`, at most renews the upsert, and repeats the bind-success text exactly when the code has a record and holds no keyword |
| Routing.SameCodeTwice | page/api/webhook.ts:77-109 | after a code binds the sender, sending it again keeps the binding, writes no note, and repeats the bind-success text exactly when the code has a record and holds no keyword |
| Routing.RunRepliesOncePerTextMessage | page/api/webhook.ts:116 | a batch sends one reply per text message, to the text messages' reply tokens, in the order of the events |
| Routing.OneReplyToken | page/api/webhook.ts:116 | an event adds its own reply token to the batch's tokens exactly when it is a text message |
| Routing.ReplyTokensAppend | page/api/webhook.ts:116 | the reply tokens of two runs of replies are the tokens of the first followed by those of the second |
| Webhook.Store.constructor | page/api/webhook.ts:18 | the store starts with the given `userMap`, `messages` and `employees` |
| Webhook.Store.MergeBinding | page/api/webhook.ts:79-83 | the merge `set` leaves `userMap` as the upsert specifies and `messages` unchanged |
| Webhook.Store.AddNote | page/api/webhook.ts:88-94 | `add` appends the note to `messages` and leaves `userMap` unchanged |
| Webhook.Store.Route | page/api/webhook.ts:47-113 | the branches, taken on the store, leave it as the specification's dispatch does and choose its reply |
| Webhook.Store.HandleEvent | page/api/webhook.ts:42-116 | one event changes the store as the specification's step does; a text message gets exactly one reply, to its token, at most one note is appended, and no `userMap` key but the sender's changes |
| Webhook.Store.HandleBatch | page/api/webhook.ts:41 | events handled in order leave the store as the specification's run does, with one reply per text message, to their tokens, in order |

## Left out

- The Firebase Admin initialisation and the credentials read from the environment
  (`page/api/webhook.ts:7-18`) are left out. The collections are the fields of `Store`.
- The LINE client and the network call that sends the reply (`page/api/webhook.ts:21-25`,
  `page/api/webhook.ts:116`) are left out. The reply is returned as a value.
- The `serverTimestamp()` write times are left out. They are a `Stamp` parameter that the
  caller supplies.
- The `Promise.all` fan-out over events (`page/api/webhook.ts:41`) is modelled as a
  sequential fold. Interleaving of concurrent events, and the reads and writes of two
  events from the same sender racing, are not modelled.
- The HTTP method check, the 200/500 responses, and the `try`/`catch` logging are left out
  (`page/api/webhook.ts:30-31`, `page/api/webhook.ts:120-124`). Firestore or LINE errors
  that would abort a batch are left out with them.
- The signature header, which is read but never checked, and the `bodyParser` config
  export are left out. `next.config.ts` is not part of this model.
- EcmaString.ToLowerCase maps only the letters A-Z. Full Unicode lower-casing is not
  modelled. This does not matter for the routing, because the keywords contain no letters
  that lower-casing changes or produces (`Routing.KeywordsIgnoreCase`).
- NumberParsing.ParseInt gives the exact integer. It does not model the rounding of large
  values to a JavaScript Number. The handler only asks whether the result is NaN.
- A code containing `/`, such as `"1/23"`, passes the test and is bound
  (`Routing.CodeMayHoldSlash`). Firestore reads the linked id as a document path, so on
  later messages such an id names an invalid or a nested `employees` document. The model
  treats the id as a plain key: it answers "not found" where Firestore would fail the
  batch or read the nested document.
- A text message whose source carries no `userId` is not modelled. Every modelled text
  message has a sender.
- A JavaScript string holding a lone surrogate code unit cannot be represented. Strings
  are sequences of Unicode scalar values, and the length counts two code units for each
  code point above U+FFFF.
- Document fields are strings or absent. A field that Firestore holds as another type, such
  as a numeric `lastEmpId` or a non-string `photoUrl`, is not modelled.
- The `userMap` document is treated as existing exactly when it has a key in the map. An
  employee record is likewise treated as existing exactly when its code is a key of
  `employees`.
