# resetweb mail controllers and code stores, in Dafny

This project models the server side of resetweb. Its controllers read the newest
Netflix mail that has reached a shared Gmail inbox and give part of it back to
the person it was addressed to:

- the password-reset link (`getFilteredEmails`);
- the sign-in code, which is also recorded in `codes.json` (`requestNetflixCode`);
- the household verification link (`getHouseholdNetflixEmail`);
- the cleaned-up household mail (the variant in `temp.js`).

It also models the two stores of expiring access codes:

- the file-backed admin routes;
- the Mongoose `AccessCode` collection with its controller.

Modules, one per file:

| module | file | models |
|---|---|---|
| `Wrappers` | `wrappers.dfy` | `Option` |
| `Seqs` | `seqs.dfy` | `find`, `filter`, `join` and leftmost/rightmost searches over positions |
| `Text` | `text.dfy` | the string built-ins and regular-expression pieces the controllers use: `trim`, `toLowerCase`, `\s`, `\w`, `\d`, `\b`, `includes`, a `<([^>]+)>` capture |
| `Mail` | `mail.dfy` | the Gmail message as the controllers see it. Also the library calls, as the fields of a `Library` value. Also the fragments several controllers share: header lookup, the `<...>` address extraction, the part loops, the fifteen-minute window |
| `ResetLink` | `reset_link.dfy` | `src/controllers/email.controllers.js` |
| `SignInCode` | `sign_in_code.dfy` | `src/controllers/netflix.controllers.js` and its `codes.json` store |
| `Household` | `household.dfy` | `src/controllers/household.controllers.js` |
| `TempHousehold` | `temp_household.dfy` | `src/controllers/temp.js` |
| `AdminCodes` | `admin_codes.dfy` | `src/routes/admin.routes.js` |
| `AccessCodes` | `access_codes.dfy` | `src/controllers/accessCode.controllers.js` and `src/models/accessCode.models.js` |

Each mail controller is modelled in two parts:

- **A pure function** (`Respond`, `SignIn`) gives the reply for a given search result, request and clock reading. It runs the checks in source order and returns one refusal kind for each error reply. Its contract states what a successful reply guarantees and, for every refusal kind, exactly the inputs that lead to it.
- **A method** with the source's loops over message parts is proved equal to that function.

Stores that the source changes in place are classes:

- `CodeFile` for `codes.json`;
- `AdminCodeFile` for `accessCodes.json`;
- `AccessCodeCollection` for the Mongo collection.

Each store method states the new contents in terms of functions: `LiveCodes`, `Cleaned`, `Deleted`, `Create` and `Swept`. Lemmas then prove what those functions promise:

- cleaning is idempotent and monotone in time;
- a stored code stays readable until its expiry;
- the schema invariant survives every write;
- the expiry sweep cannot be observed through `validateCode` or `listCodes`.

Behaviour of the code worth noting, which the model follows:

- `getFilteredEmails` has no freshness check and no empty-e-mail check.
- A missing `email` becomes `undefined` in the query. It then makes `email.trim()` throw, which the handler answers with 500.
- In `requestNetflixCode`, an unparsable `Date` header passes the age check, because `NaN > 15` is false. The request then fails at `toISOString()`, before anything is stored.
- In `requestNetflixCode`, an empty `parts` array does not fall back to the payload body.
- In `requestNetflixCode`, the `To` header is compared verbatim.
- The household search has no `to:` clause.
- A `text/html` part without data makes `Buffer.from` throw in both household controllers: a 500.
- The admin routes accept a negative number of days, and creating a code does not clean expired entries.

## Model

| member | source | states |
|---|---|---|
| Seqs.FirstIndex | src/routes/admin.routes.js:60 | `find` finds the first element that satisfies the predicate; none is found iff no element satisfies it |
| Seqs.Filter | src/routes/admin.routes.js:31 | `filter` keeps exactly the elements that satisfy the predicate and never lengthens the list |
| Seqs.FilterStronger | src/routes/admin.routes.js:29-33 | filtering by a weaker predicate and then by a stronger one equals filtering by the stronger one alone |
| Seqs.JoinAt | src/controllers/email.controllers.js:23 | in `xs.join(sep)`, the k-th item appears verbatim at its offset |
| Text.ToLowerAscii | src/controllers/email.controllers.js:97 | `toLowerCase` keeps the length and lower-cases each character |
| Text.ToLowerIdempotent | src/controllers/email.controllers.js:97 | lower-casing twice is lower-casing once |
| Text.Trim | src/controllers/email.controllers.js:97 | `trim` result either starts and ends with non-white-space, or is empty exactly when the input is all white space |
| Text.TrimIgnoresPadding | src/controllers/email.controllers.js:97 | added leading or trailing white space does not change the trimmed string |
| Text.TrimLower | src/controllers/email.controllers.js:97 | trimming and lower-casing commute |
| Text.Includes | src/controllers/temp.js:119 | `includes` holds exactly when the pattern occurs at some position |
| Text.NextOccurrence | src/controllers/temp.js:119 | the first occurrence of a string at or after a position, or none at all |
| Text.WordRunEnd | src/controllers/email.controllers.js:49 | `\w+` ends at the first non-word character |
| Text.DigitRunEnd | src/controllers/netflix.controllers.js:55 | `\d+` ends at the first non-digit |
| Text.Capture | src/controllers/email.controllers.js:98 | `open([^close]+)close`: the capture starts at the leftmost position where one matches and runs from after `open` up to the next `close`; it is non-empty and holds no `close`. There is no capture iff no position matches |
| Mail.HeaderValue | src/controllers/email.controllers.js:85-88 | `headers.find(h => h.name === n)`: the value of the first header with that name; absent iff no header has that name |
| Mail.HeaderOr | src/controllers/temp.js:52-57 | `find(...)?.value \|\| fallback`: the fallback exactly when the header is absent, empty or equal to the fallback; otherwise the header value |
| Mail.SubjectClauses | src/controllers/email.controllers.js:23 | one `subject:"..."` clause per subject, in order |
| Mail.SubjectQueryListsEachSubject | src/controllers/email.controllers.js:23 | every subject appears as its own quoted clause of the `OR` query |
| Mail.SubjectQueryIncludesEach | src/controllers/email.controllers.js:23 | the `OR` query includes every subject clause |
| Mail.SearchQuery | src/controllers/email.controllers.js:70 | the search starts with the sender clause and ends with `) to:` followed by the recipient |
| Mail.SearchNamesEverySubject | src/controllers/email.controllers.js:70 | the full search query contains every subject clause after the sender clause |
| Mail.SearchEndsWithRecipient | src/controllers/email.controllers.js:70 | the query ends with `to:` and the requested address |
| Mail.BareAddress | src/controllers/email.controllers.js:98 | `to.match(/<([^>]+)>/)?.[1] \|\| to`: the first angle-bracket capture when there is one; otherwise the header itself |
| Mail.BareAddressOfPlain | src/controllers/household.controllers.js:65 | a header without `<` is its own address |
| Mail.BareAddressOfNamedForm | src/controllers/household.controllers.js:65 | `Name <addr>` yields `addr` |
| Mail.AddressedTo | src/controllers/household.controllers.js:59-68 | a mail is addressed to the requester iff its `To` header is truthy and its `<...>` capture equals the e-mail exactly; with no capture, the whole header must equal it |
| Mail.WithinWindowBoundary | src/controllers/household.controllers.js:76-84 | the freshness check `WithinWindow`: a mail passes exactly when it is at most 900000 ms old: 900000 passes, 900001 fails. An unparsable date always passes |
| Mail.FirstHtmlRead | src/controllers/household.controllers.js:87-94 | the first `text/html` part decides. When it has data, the body is the decoding of that data; when it has none, the read crashes, and only then. With no `text/html` part the body is `""` |
| Mail.LastDataOf | src/controllers/email.controllers.js:116-118 | the data of the last part of the fallback type that has data; non-empty iff such a part exists |
| Mail.PreferredBody | src/controllers/email.controllers.js:107-122 | the preferred type's first data-bearing part wins; otherwise the fallback type's last one wins; without parts, the payload body. Empty iff none of these exists |
| Mail.SelectBody | src/controllers/netflix.controllers.js:105-118 | the part loop, with `break`, computes exactly `PreferredBody` |
| Mail.ReadFirstHtmlPart | src/controllers/temp.js:73-80 | the part loop computes exactly `FirstHtmlRead` |
| ResetLink.NormalizeIgnoresPadding | src/controllers/email.controllers.js:97 | normalisation ignores surrounding white space |
| ResetLink.NormalizeIgnoresCase | src/controllers/email.controllers.js:97 | normalisation ignores ASCII case |
| ResetLink.Query | src/controllers/email.controllers.js:70 | the search starts with the sender clause and ends with the requested e-mail, or with `undefined` when the e-mail is missing |
| ResetLink.SentTo | src/controllers/email.controllers.js:97-101 | the recipient check compares, after trim and lower-case, the `<...>` capture of the header with the request, or the whole header when there is no capture |
| ResetLink.SentToDisplayForm | src/controllers/email.controllers.js:97-101 | a `Name <addr>` header matches a request for `addr`, whatever the request's padding and case |
| ResetLink.SentToPlain | src/controllers/email.controllers.js:97-101 | for a bare header, the recipient check is equality after trim and lower-case, in both directions |
| ResetLink.GreetingName | src/controllers/email.controllers.js:49 | `/Hi\s+(\w+)/` captures the whole word after the white space, at the leftmost position that matches: no earlier position matches. The word is non-empty. There is no capture iff no position matches |
| ResetLink.Greeting | src/controllers/email.controllers.js:49-50 | the greeting is `Hello,` iff no match; otherwise `Hi <name>,` |
| ResetLink.HiIsNotHello | src/controllers/email.controllers.js:50 | a found greeting is never mistaken for the default |
| ResetLink.LeadingGreeting | src/controllers/email.controllers.js:49 | a text that starts `Hi`, white space, a word, then a non-word character captures exactly that word |
| ResetLink.GreetingOfSalutation | src/controllers/email.controllers.js:49-50 | `Hi <sp> name ...` greets `Hi name,` |
| ResetLink.LinkByText | src/controllers/email.controllers.js:30 | `$('a:contains("Reset password")').attr("href")` is the href of the first anchor whose text mentions the reset. There is no link iff no anchor mentions it or that first anchor has no href |
| ResetLink.ChosenLink | src/controllers/email.controllers.js:30-43 | a truthy link-by-text is kept. Otherwise the result is the first href containing `netflix.com/password`, or the falsy link-by-text when there is none |
| ResetLink.ExtractResetLinkFromHtml | src/controllers/email.controllers.js:26-44 | the anchor loop, with its early return, computes exactly `ChosenLink` |
| ResetLink.Status | src/controllers/email.controllers.js:74-145 | 404 exactly for no matching mail, no recipient and no body; 403 exactly for the recipient mismatch; 500 exactly for the caught exception |
| ResetLink.RelevantContent | src/controllers/email.controllers.js:47-60 | the content carries the greeting of the text, the fixed description and the chosen link |
| ResetLink.Respond | src/controllers/email.controllers.js:63-146 | one iff per reply. 404 "no matching" iff the search is empty; 404 "no recipient" iff the `To` header is falsy; 500 iff the e-mail is missing; 403 iff the header names someone else; "no body" iff the body is empty. Otherwise content is extracted, carrying the greeting of the decoded text, the fixed description and the chosen link |
| ResetLink.GetFilteredEmails | src/controllers/email.controllers.js:63-146 | the handler with its loops equals `Respond` on the search result |
| SignInCode.StillValidIsWithinWindow | src/controllers/netflix.controllers.js:96-103 | `StillValid`, the minutes comparison `> 15` is the 900000 ms window, NaN included |
| SignInCode.Query | src/controllers/netflix.controllers.js:73 | the search starts with the sender clause and ends with the requested e-mail |
| SignInCode.CodeAt | src/controllers/netflix.controllers.js:55 | `\b\d{4,6}\b` matches at `i` iff `i` is at a word boundary and a run of four to six digits starts there and ends at a word boundary |
| SignInCode.DigitRunBounded | src/controllers/netflix.controllers.js:55 | the greedy `\d+` run bounded by four to six digits and a word boundary is the same as the existence of such a run |
| SignInCode.ExtractCode | src/controllers/netflix.controllers.js:54-59 | `/\b\d{4,6}\b/` yields the digit run at the leftmost matching position: no earlier position matches. It has four to six digits. There is no code iff no position matches |
| SignInCode.CodeIs | src/controllers/netflix.controllers.js:55 | a run of four to six digits between word boundaries, with no match at any earlier position, is the code |
| SignInCode.CodeInSentence | src/controllers/netflix.controllers.js:55 | a code surrounded by non-word text and preceded by no digit is extracted verbatim |
| SignInCode.LongRunIsNoCode | src/controllers/netflix.controllers.js:55 | no position inside a run of seven or more digits matches |
| SignInCode.LiveCodes | src/controllers/netflix.controllers.js:31-35 | exactly the entries whose `expiresAt` is not before now are kept, unchanged |
| SignInCode.LiveCodesLater | src/controllers/netflix.controllers.js:23-42 | loading later removes at least as much; two loads are the later one |
| SignInCode.CodeFile.Loaded | src/controllers/netflix.controllers.js:23-42 | the loaded codes hold exactly the unexpired entries of a readable file, with their stored values; none when the file is unreadable |
| SignInCode.StoredCodeReadableUntilExpiry | src/controllers/netflix.controllers.js:150-153 | a stored code is returned by every load up to its expiry; other addresses are unaffected |
| SignInCode.CodeFile.LoadCodes | src/controllers/netflix.controllers.js:23-42 | the delete loop yields the live entries of a readable file, or `{}`; the file is not changed |
| SignInCode.CodeFile.SaveCodes | src/controllers/netflix.controllers.js:45-51 | the file now holds exactly the given codes |
| SignInCode.SignIn | src/controllers/netflix.controllers.js:62-164 | one iff per reply, in source order: "Email is required" iff the e-mail is empty; "No codes" iff the search is empty; no date iff the `Date` header is missing; expired iff the mail is older than fifteen minutes; no body iff neither body type has data; then no recipient, unauthorized (the verbatim `To` differs), no code, invalid time value (unparsable date). A code is issued iff none of these holds, and it expires fifteen minutes after `now` |
| SignInCode.RequestNetflixCode | src/controllers/netflix.controllers.js:62-164 | equals `SignIn`. On success the file holds the live codes plus this one under the e-mail. On any error the file is untouched |
| SignInCode.IssuedCodeIsFresh | src/controllers/netflix.controllers.js:96-159 | an issued code comes from a mail at most fifteen minutes old and is loadable until it expires |
| Household.QueryNamesEverySubject | src/controllers/household.controllers.js:12-34 | the query contains every listed subject, the empty one included, as a quoted clause |
| Household.Query | src/controllers/household.controllers.js:12-34 | the query includes the clause of every listed subject |
| Household.ClosesWith | src/controllers/household.controllers.js:101-102 | a phrase closes the anchor iff the phrase then `</a>` follows, ignoring case |
| Household.ButtonEndAt | src/controllers/household.controllers.js:101-102 | a match at `i` is `<a`, then everything up to the first `>`, then the first listed phrase, in list order, that follows with `</a>`, ignoring case. There is no match iff `<a`, that `>` or every such phrase is missing |
| Household.ButtonMatch | src/controllers/household.controllers.js:101-103 | the leftmost button match; there is none iff no position matches |
| Household.LinkIn | src/controllers/household.controllers.js:103-110 | the link is the `href="..."` capture of the leftmost button match. There is none iff no button matches, or that match holds no `href="..."` capture. A found link is non-empty and holds no `"` |
| Household.LinkOfButton | src/controllers/household.controllers.js:101-110 | for `<a href="url">` followed by a listed phrase and `</a>`, the link found is `url` |
| Household.ButtonEndAfterTag | src/controllers/household.controllers.js:101-102 | a tag closed by a phrase and `</a>` is matched past its `>` |
| Household.ButtonMatchAt | src/controllers/household.controllers.js:101-103 | the first matching position gives the match |
| Household.FirstButtonWithoutHref | src/controllers/household.controllers.js:101-110 | only the first button match counts: when it is `<a>` with no `href`, followed by a phrase and `</a>`, no link is found, whatever follows |
| Household.FirstCtaWithoutHref | src/controllers/household.controllers.js:101-110 | the same for the controller's own list of phrases |
| Household.VerificationLink | src/controllers/household.controllers.js:101-110 | the link is the `href="..."` capture of the leftmost call-to-action button; none iff there is no such button or it holds no such capture. A found link is non-empty and holds no `"` |
| Household.MissingDateNeverExpires | src/controllers/household.controllers.js:70-84 | without a `Date` header the date is `"Unknown Date"`; when it does not parse, the mail is never refused as expired |
| Household.Status | src/controllers/household.controllers.js:7-124 | 400 exactly for a missing e-mail and an expired mail; 404 exactly for no relevant mail, no recipient, no content and no link; 403 exactly for the mismatch; 500 exactly for the exception |
| Household.Respond | src/controllers/household.controllers.js:4-125 | one iff per reply: 400 iff the e-mail is empty; 404 iff the search is empty; 404 iff the `To` header is falsy; 403 iff the bare address differs. For a mail addressed to the requester: 400 iff it is expired; 500 iff the first HTML part has no data; 404 iff the content is empty; no link iff no button link is found. Otherwise the link is returned, with the parsed date |
| Household.GetHouseholdNetflixEmail | src/controllers/household.controllers.js:4-125 | the handler equals `Respond` on the search result |
| Household.AnswerWith | src/controllers/household.controllers.js:43-120 | the steps after the search, with the part loop, equal `Respond` |
| TempHousehold.Compile | src/controllers/temp.js:123-124 | `new RegExp(content)` without escaping: a text with neither `.` nor `?` compiles to its literal reading. The pattern is never longer than its text |
| TempHousehold.CompileWithOptional | src/controllers/temp.js:123-124 | a listed `a` + `c?` + `b` compiles to `a`, an optional `c`, then `b` |
| TempHousehold.CompileWithAny | src/controllers/temp.js:123-124 | a listed `a` + `.` + `b` compiles to `a`, any one character, then `b` |
| TempHousehold.AtomsEnd | src/controllers/temp.js:124 | a match ends inside the text, and consumes at least one character when a required atom is present |
| TempHousehold.UnescapedOptionalMissesItself | src/controllers/temp.js:123-124 | an unescaped `c?` followed by a character other than `c` never matches its own text |
| TempHousehold.QuestionsLineIsNotMatched | src/controllers/temp.js:111 | as written, the pattern for `Questions? Visit the Help Center` does not match that line |
| TempHousehold.Literal | src/controllers/temp.js:123-125 | the literal reading: one exact character per character |
| TempHousehold.LiteralMatchesOccurrence | src/controllers/temp.js:123-125 | a literal matches at `i` iff the text occurs there, ignoring case, and then ends after it |
| TempHousehold.LiteralRemovesItself | src/controllers/temp.js:123-125 | removing a non-empty literal from itself leaves nothing |
| TempHousehold.QuestionsLineIsRemoved | src/controllers/temp.js:111 | with the literal reading, the listed line is removed |
| TempHousehold.LazyUntil | src/controllers/temp.js:129 | `.*?close` stops at the first `close` after the start, with no line terminator before it. It fails iff there is no `close`, or a line terminator comes first |
| TempHousehold.MatchEnd | src/controllers/temp.js:124-129 | every pattern's match ends within the text |
| TempHousehold.ReplaceFrom | src/controllers/temp.js:124-129 | a global replace by `""` never lengthens the text |
| TempHousehold.ReplaceAll | src/controllers/temp.js:124-129 | a global replace by `""` never lengthens the text |
| TempHousehold.ReplaceFromNoMatch | src/controllers/temp.js:124 | where nothing matches, the replace keeps the text |
| TempHousehold.ReplaceFromDropsMatch | src/controllers/temp.js:124 | a match is skipped over and dropped |
| TempHousehold.ReplaceAllNoMatch | src/controllers/temp.js:124-129 | a text with no match is unchanged |
| TempHousehold.SalutationRemoved | src/controllers/temp.js:127 | `Hi name, ` at the start is removed with the spaces after it, leaving the rest |
| TempHousehold.ParagraphRemoved | src/controllers/temp.js:129 | a one-line `<p ...>text</p>` at the start is removed, leaving the rest |
| TempHousehold.ButtonTail | src/controllers/temp.js:119 | `class="[^"]*button[^"]*"[^>]*>.*?</a>` matches at `q` iff `class="` is there, a closing `"` follows, the quoted value contains `button`, a `>` follows, and a `</a>` comes before any line terminator. A match ends just after a `</a>` |
| TempHousehold.ButtonEndAt | src/controllers/temp.js:119 | a button match at `i` starts with `<a`. `[^>]*` is greedy: the match uses the rightmost `class=` position before the first `>` from which the tail matches. There is no match iff there is no `<a`, no `>`, or no position up to that `>` whose tail matches |
| TempHousehold.ButtonHtml | src/controllers/temp.js:119-121 | the leftmost button match, or `""` iff no position matches |
| TempHousehold.ButtonOfAnchor | src/controllers/temp.js:119-121 | `<a class="...button...">text</a>` after a text without `<` is the button preserved, verbatim |
| TempHousehold.FirstButtonAnchor | src/controllers/temp.js:119-121 | a button anchor at `m` with no match before it is the first match, so it is the button kept |
| TempHousehold.AnchorMatch | src/controllers/temp.js:119 | the button match at the start of `<a class="...button...">text</a>` ends exactly after its `</a>` |
| TempHousehold.FirstMatchIs | src/controllers/temp.js:120-121 | a match at `m` with none before it is `linkButtonMatch[0]` |
| TempHousehold.NotButtonAt | src/controllers/temp.js:119 | an anchor whose only attribute is a class without `button` is not matched at its `<a` |
| TempHousehold.NoAnchorInside | src/controllers/temp.js:119 | no match starts inside an anchor whose class and text hold no `<` |
| TempHousehold.PlainAnchorPassed | src/controllers/temp.js:119 | no match starts before the end of a non-button anchor preceded only by plain text |
| TempHousehold.NonButtonAnchorSkipped | src/controllers/temp.js:119-121 | a non-button anchor is skipped: the button kept is the button anchor that follows it, verbatim |
| TempHousehold.QueryIsSubjectQuery | src/controllers/temp.js:14 | the literal search is the `OR` of the two subject clauses, as the other controllers build it |
| TempHousehold.Stripped | src/controllers/temp.js:123-125 | removing the listed strings never lengthens the body. What each step removes is stated by `StrippedDropsFirstOccurrence` |
| TempHousehold.LiteralRemovesFirstOccurrence | src/controllers/temp.js:124 | a global, case-ignoring replace of `x` by `""` keeps the text before the first occurrence of `x`, drops that occurrence, and goes on with the rest |
| TempHousehold.LiteralKeepsBefore | src/controllers/temp.js:124 | the replace copies the text before the first occurrence and resumes after it |
| TempHousehold.LiteralRestShifts | src/controllers/temp.js:124 | replacing from position `m` on equals replacing in the suffix from `m` |
| TempHousehold.StrippedDropsFirstOccurrence | src/controllers/temp.js:123-125 | the step for `x`, appended to the list, removes the first occurrence of `x`, ignoring case, from what the earlier steps left, keeping the text before it |
| TempHousehold.StrippedKeepsText | src/controllers/temp.js:123-125 | a body in which no listed string occurs, ignoring case, is kept unchanged |
| TempHousehold.CleanedWith | src/controllers/temp.js:118-131 | the cleaned body is the stripped body, with every salutation and every one-line paragraph match removed, followed by the button HTML. It ends with that HTML and is at most the body plus it |
| TempHousehold.CleanedKeepsCleanText | src/controllers/temp.js:118-131 | a body with no listed string, no `Hi` and no `<p` comes back unchanged, followed by its button HTML |
| TempHousehold.StripUnwanted | src/controllers/temp.js:123-125 | the `forEach` loop computes exactly `Stripped` |
| TempHousehold.CleanBody | src/controllers/temp.js:118-131 | the clean-up steps compute exactly `CleanedWith` |
| TempHousehold.Status | src/controllers/temp.js:6-143 | 400 exactly for a missing e-mail and an expired mail; 404 exactly for no relevant mail, no recipient and no content; 403 exactly for the mismatch; 500 exactly for the exception |
| TempHousehold.Respond | src/controllers/temp.js:3-144 | one iff per reply: 400 iff the e-mail is empty; 404 iff the search is empty; 404 iff the `To` header is falsy; 403 iff the bare address differs. For a mail addressed to the requester: 400 iff it is expired; 500 iff the first HTML part has no data; 404 iff the content is empty; otherwise the cleaned body is delivered, with the `From`, `Subject` and `Date` headers or their defaults |
| TempHousehold.MissingDateNeverExpires | src/controllers/temp.js:56-68 | without a `Date` header the date is `"Unknown Date"`; when it does not parse, the mail is never refused as expired |
| TempHousehold.GetHouseholdNetflixEmail | src/controllers/temp.js:3-144 | the handler equals `Respond` on the search result |
| TempHousehold.AnswerWith | src/controllers/temp.js:17-139 | the steps after the search, with both loops, equal `Respond` |
| AdminCodes.Cleaned | src/routes/admin.routes.js:29-33 | exactly the codes expiring after now survive |
| AdminCodes.CleanedAppend | src/routes/admin.routes.js:31 | cleaning distributes over concatenation, so order is kept |
| AdminCodes.CleanedIdempotent | src/routes/admin.routes.js:29-33 | cleaning twice is cleaning once |
| AdminCodes.CleanedLater | src/routes/admin.routes.js:29-33 | cleaning now and then later is cleaning later |
| AdminCodes.NewCode | src/routes/admin.routes.js:42-46 | the id is the creation time. Positive days expire in the future; negative days in the past |
| AdminCodes.Find | src/routes/admin.routes.js:60 | the first code with the requested value: no earlier code has it. Found iff one exists |
| AdminCodes.Deleted | src/routes/admin.routes.js:79 | exactly the codes with another id remain |
| AdminCodes.DeleteUnknownId | src/routes/admin.routes.js:79 | deleting an unknown or `NaN` id changes nothing |
| AdminCodes.CreatedCodeValidates | src/routes/admin.routes.js:36-67 | a created code validates at every instant before its expiry |
| AdminCodes.NegativeDaysNeverValidate | src/routes/admin.routes.js:36-67 | a code created for negative days never validates |
| AdminCodes.AdminCodeFile.CleanExpired | src/routes/admin.routes.js:29-33 | the file holds `Cleaned` of its old contents |
| AdminCodes.AdminCodeFile.Create | src/routes/admin.routes.js:36-53 | 400 iff the code or days are falsy, and then nothing is stored. Otherwise 201 and the new code is appended |
| AdminCodes.AdminCodeFile.Validate | src/routes/admin.routes.js:56-67 | cleans, then 200 iff a live code matches, else 404 |
| AdminCodes.AdminCodeFile.List | src/routes/admin.routes.js:70-73 | cleans and lists only live codes |
| AdminCodes.AdminCodeFile.Delete | src/routes/admin.routes.js:76-83 | removes the id's entries and always answers success |
| AccessCodes.PreSave | src/models/accessCode.models.js:36-42 | a given `expiresAt` is kept. A missing one is set from non-zero days. It stays missing iff both are missing or zero |
| AccessCodes.PreSaveAgreesWithController | src/models/accessCode.models.js:36-42 | the hook and the controller compute the same expiry |
| AccessCodes.ExpiryOf | src/controllers/accessCode.controllers.js:10-11 | at least one day after now for valid days |
| AccessCodes.ChosenCode | src/controllers/accessCode.controllers.js:14 | a given non-empty code is used verbatim; otherwise the generated one |
| AccessCodes.Create | src/controllers/accessCode.controllers.js:3-23 | an expiry-days error iff the days are missing, not numeric or below 1. For valid days: a missing-code error iff the chosen code is empty; a duplicate error iff the chosen code already exists; a record is stored iff the chosen code is non-empty and no record has it. A stored record is well formed and carries the computed fields |
| AccessCodes.CreateKeepsValid | src/models/accessCode.models.js:5-15 | a stored record keeps codes unique and records well formed |
| AccessCodes.Validate | src/controllers/accessCode.controllers.js:25-31 | a record with the code, unexpired and unused; none iff no record qualifies |
| AccessCodes.ValidateFindsTheRecord | src/controllers/accessCode.controllers.js:25-31 | since codes are unique, validation returns that code's record exactly when it is usable |
| AccessCodes.Insert | src/controllers/accessCode.controllers.js:40 | inserting into a sorted list keeps it sorted and is a permutation plus the element |
| AccessCodes.SortByExpiry | src/controllers/accessCode.controllers.js:40 | `sort({ expiresAt: 1 })` is sorted and is a permutation |
| AccessCodes.List | src/controllers/accessCode.controllers.js:37-41 | sorted by expiry, a permutation of the unexpired records, membership iff unexpired |
| AccessCodes.FindById | src/controllers/accessCode.controllers.js:33-35 | the record with the id; none iff no record has it |
| AccessCodes.DeleteKeepsOthers | src/controllers/accessCode.controllers.js:33-35 | deleting keeps the invariant and exactly the other records |
| AccessCodes.Swept | src/models/accessCode.models.js:19 | the TTL sweep keeps exactly the records expiring after its time |
| AccessCodes.SweepInvisibleToValidate | src/models/accessCode.models.js:16-20 | a sweep at any earlier time does not change what validation returns |
| AccessCodes.SweepInvisibleToList | src/models/accessCode.models.js:16-20 | a sweep at any earlier time does not change what listing returns |
| AccessCodes.AccessCodeCollection.CreateCode | src/controllers/accessCode.controllers.js:3-23 | equals `Create`: a stored record is appended, a rejected one changes nothing, and the invariant holds |
| AccessCodes.AccessCodeCollection.ValidateCode | src/controllers/accessCode.controllers.js:25-31 | equals `Validate` on the collection |
| AccessCodes.AccessCodeCollection.ListCodes | src/controllers/accessCode.controllers.js:37-41 | equals `List` on the collection |
| AccessCodes.AccessCodeCollection.DeleteCode | src/controllers/accessCode.controllers.js:33-35 | returns the deleted record, removes every record with the id and keeps the invariant |
| AccessCodes.AccessCodeCollection.Sweep | src/models/accessCode.models.js:19 | the collection becomes `Swept` and keeps the invariant |

## Left out

- **Outside services.** Gmail listing and fetching, OAuth, the file system, Mongo and Express are not modelled. The handlers take the search result (`Library.search`) and the stores as parameters or objects. HTTP replies are modelled as refusal kinds with `Status` and `ErrorText`.
- **Library internals.** Base64 and base64url decoding, `html-entities` decoding, `new Date(...)` parsing and cheerio's anchor selection are opaque functions of `Library`. `moment` formatting is left out.
- **Search size.** `maxResults: 1` is modelled by reading only the first (newest) message of the search result.
- **Clock.** Each handler reads the clock several times; the model uses one `now`.
- **Middlewares.** `src/middlewares/verifyAllowedEmail.middleware.js` and `src/middlewares/adminAuth.js` are not part of this model, nor are the routes that only wire controllers to paths.
- **Random values.** `generateRandomCode` (`Math.random`) is the `generated` parameter. The database identifier is the `id` parameter.
- **Text handling.** Lower-casing and the regular expressions' `i` flag fold ASCII letters only. Strings are sequences of characters, without UTF-16 or Unicode case rules.
- **Types.** Non-string e-mails, codes or bodies are not modelled. Numeric strings and fractional numbers for `expiryDays` (`isNaN`, `Number`) are reduced to `DaysInput`.
- **Id parsing.** The text of `parseInt` is not parsed; the id is an `Option<int>`.
- **Write errors.** A failed write in `saveCodes` is caught and logged by the source; the model assumes the write succeeds.
- **Mongoose internals.** The order of schema validation and the `pre("save")` hook is not modelled, nor the `timestamps` fields.
- **Sort ties.** The tie order of `sort({ expiresAt: 1 })` is not fixed by the model.
- **TTL sweep.** The sweep runs at an arbitrary earlier time, as `Swept(docs, t)` with `t <= now`.
- **`isUsed`.** The flag is never set by the code shown; it is kept at its default.
- AccessCodes.ExpiryOf: models `setDate(getDate() + n)` as `n` whole days of milliseconds; calendar and daylight-saving effects are left out.
- AccessCodes.ErrorText: the Mongoose texts for a missing or duplicate code are approximations of the driver's messages.
- Household.Respond: the reply's `emailReceivedAt` is kept as the parsed instant, `None` for an invalid date, not as the `moment` string.
- SignInCode.SignIn: the `emailDate` of a success is the parsed instant, not its `toISOString()` text.
- TempHousehold.Compile: its contract fixes the compiled pattern for texts without `.` or `?`. CompileWithOptional and CompileWithAny fix it for texts with one such operator. For texts with several, only the function's own definition describes the result.
- TempHousehold.Stripped: removes the listed strings as literals, the evidently intended reading, not through the unescaped regular expressions. See the finding below; `TempHousehold.Compile` models the reading as written.

## Findings

| source | as written | input that shows it | evidently intended | confidence | as-written member | corrected member |
|---|---|---|---|---|---|---|
| src/controllers/temp.js:111-124 | every unwanted string is handed to `new RegExp(content, "gi")` unescaped, so `?` and `.` act as regular-expression operators | body containing `Questions? Visit the Help Center`: the pattern reads `s?` as an optional `s` followed by a space, which never matches the literal `?`, so the line stays in the body. Likewise `.` in `Netflix International B.V.` matches any character | each listed string is removed literally, ignoring case | not executed | TempHousehold.QuestionsLineIsNotMatched | TempHousehold.QuestionsLineIsRemoved |
