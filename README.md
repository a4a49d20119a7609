# catchy-app decision logic in Dafny

catchy-app is a React Native client that generates short descriptions for YouTube,
Facebook, Instagram and TikTok. The descriptions come from keywords and a language-model
request. The app stores its per-user data in the Firebase Realtime Database. This project
models the logic inside that client that makes decisions, and it proves properties of that
logic.

- **Request quota.** `checkApiUsageLimit` keeps a per-user, per-day request count under
  `users/<uid>/apiUsage/<YYYY-MM-DD>` and enforces a limit of five requests a day. The date
  key is the UTC date of server time, printed by `toISOString`.
- **Subscription helpers.** `updatePaymentStatus`, `checkSubscriptionStatus`,
  `recordSubscription` (thirty days) and `checkSubscriptionActive` (strict expiry).
- **Purchase handler.** `handlePurchase` anchors the new end date at the later of the stored
  end date and server time. It then adds one calendar month or seven days, depending on the
  product, and overwrites the user's node.
- **Main screen.** This covers:
  - the extraction of `label: text` fields from the model's reply, by a global regular
    expression run in an `exec` loop;
  - the keyword tokeniser, with truncation;
  - the list of opened services;
  - the order in which `fetchChatGPTResponse` consults the quota.
- **Sign-in and password-reset forms.** The e-mail regular expression, the password-length
  rule, and the state changes around the authentication calls.

## Structure

The Realtime Database is the class `FirebaseConfig.UserRecordStore`. Its field `users` maps
a user id to that user's node. The store operations that write are methods, and each one
is tied to a pure function or to an explicit new state. The quota decision is the function
`FirebaseConfig.UsageGate`, and the lemmas about the quota are stated on that function.

Server time is an input of type `Option<Instant>`: a time value in milliseconds, or `None`
when it could not be fetched. A failing database read or write is an input as well
(`StoreFault`).

`IsoDate` holds the date arithmetic these operations need:
- the proleptic Gregorian calendar over 400-year cycles;
- the `YYYY-MM-DD` prefix of `toISOString`;
- `setMonth(getMonth() + 1)` and `setDate(getDate() + 7)`.

`JsText` holds JavaScript's `\s`, `\w`, `trim` and ASCII `toLowerCase`.

| file | module | source |
|---|---|---|
| wrappers.dfy | `Wrappers` | `Option` |
| iso_date.dfy | `IsoDate` | `Date`: `toISOString`, `setMonth`, `setDate` |
| js_text.dfy | `JsText` | `\s`, `\w`, `trim`, `toLowerCase` |
| firebase_config.dfy | `FirebaseConfig` | firebaseConfig.tsx |
| main_page.dfy | `MainPage` | components/MainPage.tsx |
| email_validation.dfy | `EmailValidation` | the e-mail test in components/LoginPage.tsx and components/PasswordResetPage.tsx |
| login_page.dfy | `LoginPage` | components/LoginPage.tsx |
| password_reset_page.dfy | `PasswordResetPage` | components/PasswordResetPage.tsx |
| payment_page.dfy | `PaymentPage` | components/PaymentPage.tsx |

## Model

| member | source | states |
|---|---|---|
| FirebaseConfig.UserRecordStore.CheckApiUsageLimit | firebaseConfig.tsx:88-140 | The verdict, the dispatched `DAY_LIMIT_NUMBER` payload and the new database are those of `UsageGate` on the date of server time (device clock when server time is missing). The store never keeps a node without children. |
| FirebaseConfig.UsageGate | firebaseConfig.tsx:89-139 | The decision, headroom and new database of one `checkApiUsageLimit` call. No user or a failed read refuses without a write. A missing node is created with the request count and admitted. An existing node reports `5 - requestsToday` and is admitted iff the count stays within 5. Its properties are the lemmas in the rows below. |
| FirebaseConfig.GateKeepsNoEmptyNodes | firebaseConfig.tsx:102-135 | Every node the gate creates or updates holds the day's count, so the database keeps no empty node. |
| FirebaseConfig.GateFailsClosed | firebaseConfig.tsx:88-139 | Without a signed-in user, or when the read or the write throws, the answer is false and nothing is written. The headroom is dispatched only when the write fails on an existing node, because it is read before the write. |
| FirebaseConfig.FirstCallSkipsLimit | firebaseConfig.tsx:102-107 | A user without a node gets one holding only `apiUsage = {today: number}`. The call is admitted whatever `number` is, and nothing is dispatched. |
| FirebaseConfig.ExistingNodeDecision | firebaseConfig.tsx:110-130 | On an existing node, the dispatched headroom is `5 - requestsToday`, taken before the request. The call is admitted iff `requestsToday + number <= 5` and `requestsToday < 5`. A refusal writes nothing. |
| FirebaseConfig.AdmittedCallWritesOneField | firebaseConfig.tsx:132-135 | An admitted call adds `number` to the one field `apiUsage/<today>`. Other users, other days and other fields are unchanged. |
| FirebaseConfig.LimitPreserved | firebaseConfig.tsx:122-133 | On an existing node, a count within the limit stays within it after any call. |
| FirebaseConfig.ZeroRequestCall | firebaseConfig.tsx:122-133 | A call for zero requests is admitted iff the limit is not reached, and it leaves the count unchanged. |
| FirebaseConfig.CallsWithinLimitAllAdmitted | firebaseConfig.tsx:112-135 | Successive calls of at least one request each, whose total stays within the limit, are all admitted. The count ends at the start count plus the total. |
| FirebaseConfig.RefusalIsStable | firebaseConfig.tsx:117-125 | A request that would pass the limit is refused again on every repetition that day, and the database is left as it was. |
| FirebaseConfig.OtherDayUntouched | firebaseConfig.tsx:94-95 | A call on one UTC day leaves the count of any other day unchanged, the first call for a user included, so the count restarts with the date. |
| FirebaseConfig.ActiveAt | firebaseConfig.tsx:178-184 | Active iff the node has a `subscription` child whose `expirationDate` is strictly after server time. |
| FirebaseConfig.NewSubscription | firebaseConfig.tsx:151-159 | The recorded node starts at server time and expires exactly 2,592,000,000 ms (30 days) later. |
| FirebaseConfig.RecordedSubscriptionWindow | firebaseConfig.tsx:151-158 | A freshly recorded subscription is active at time `t` iff `t` is before the end of the thirty days, whatever the node held before (no stacking). |
| FirebaseConfig.UserRecordStore.UpdatePaymentStatus | firebaseConfig.tsx:43-54 | Writes `subscriptionPaid` and no other field, creating the node if it is missing. A failed write changes nothing. |
| FirebaseConfig.UserRecordStore.CheckSubscriptionStatus | firebaseConfig.tsx:57-85 | `SET_IS_PAID` is dispatched iff a user is signed in and the read succeeds. The payload is the stored flag, or false for a missing node. It is `true` only if the node holds `subscriptionPaid: true`. |
| FirebaseConfig.UserRecordStore.RecordSubscription | firebaseConfig.tsx:143-167 | Writes nothing when there is no server time, when the expiry is not a valid date, or when the write fails. Otherwise it overwrites only the `subscription` child with the thirty-day node. |
| FirebaseConfig.UserRecordStore.CheckSubscriptionActive | firebaseConfig.tsx:170-189 | True iff server time is known, the read succeeds, the child exists and `expirationDate > serverTime`. False at equality. |
| IsoDate.CivilFromDays | firebaseConfig.tsx:95 | The civil date printed for a day number is a calendar date whose day number is that day. |
| IsoDate.CivilFromDaysFromCivil | firebaseConfig.tsx:95 | Converting a calendar date to its day number and back gives the same date. |
| IsoDate.ToIsoString | firebaseConfig.tsx:95 | `toISOString()`: the UTC date, `T`, and the time of day, as `YYYY-MM-DDTHH:mm:ss.sssZ`. |
| IsoDate.DateKey | firebaseConfig.tsx:95 | The usage ledger key: the text of `toISOString()` before its first `T`. |
| IsoDate.DateKeyIsCalendarDate | firebaseConfig.tsx:95 | `toISOString().split('T')[0]` is the formatted civil date of the instant's UTC day. |
| IsoDate.CalendarDateUnique | firebaseConfig.tsx:95 | Two calendar dates with the same day number are the same date. |
| IsoDate.FormatDateInjective | firebaseConfig.tsx:95 | Different calendar dates in the range of `Date` print differently. |
| IsoDate.DateKeySameDayIff | firebaseConfig.tsx:94-95 | Two instants get the same date key iff they fall on the same UTC day. |
| IsoDate.AddOneMonth | components/PaymentPage.tsx:80 | `setMonth(getMonth() + 1)` adds the length of the current month: 28 to 31 days, with the time of day kept. |
| IsoDate.AddDays | components/PaymentPage.tsx:82 | `setDate(getDate() + n)` adds exactly `n` days. |
| JsText.ToLower | components/MainPage.tsx:203 | Keeps the length and the non-capital characters. Maps each ASCII capital to its own lower-case letter (code point + 32). Leaves no ASCII capital. Keeps `\w` membership. |
| JsText.ToLowerIdempotent | components/MainPage.tsx:203 | Lower-casing twice equals lower-casing once. |
| JsText.TrimStart | components/MainPage.tsx:204 | A suffix of the input with no leading `\s`. Everything cut off is `\s`. |
| JsText.TrimEnd | components/MainPage.tsx:204 | A prefix of the input with no trailing `\s`. Everything cut off is `\s`. |
| JsText.Trim | components/MainPage.tsx:204 | Exactly the slice of the input that starts after its leading `\s` run: everything before and after the slice is `\s`, and the slice has no `\s` at either end. |
| JsText.TrimIdempotent | components/MainPage.tsx:204 | Trimming twice equals trimming once. |
| EmailValidation.IsValidEmail | components/LoginPage.tsx:35-37 | The four plain conditions: no whitespace, one `@`, a non-empty part before it, and an inner `.` in the domain. `IsValidEmailIffPattern` ties it to the pattern. |
| EmailValidation.MatchesEmailPattern | components/LoginPage.tsx:35-37 | The regular expression as a split of the input into local part, `@`, domain name, `.` and suffix, with no whitespace and no other `@`. |
| EmailValidation.IsValidEmailIffPattern | components/LoginPage.tsx:35-37 | `^[^\s@]+@[^\s@]+\.[^\s@]+$` matches iff: there is no whitespace, there is exactly one `@`, the part before it is non-empty, and the domain has a `.` that is neither its first nor its last character. |
| LoginPage.ValidateForm | components/LoginPage.tsx:39-49 | Valid iff the e-mail is valid and the password has at least 6 characters. An invalid e-mail gives the e-mail error whatever the password. |
| LoginPage.PasswordBoundary | components/LoginPage.tsx:44 | With a valid e-mail, a 6-character password passes and a 5-character one fails. |
| LoginPage.HandleLogin | components/LoginPage.tsx:51-72 | See the note after this table. |
| LoginPage.HandleRegister | components/LoginPage.tsx:74-94 | See the note after this table. |
| PasswordResetPage.ValidateForm | components/PasswordResetPage.tsx:24-35 | Only the e-mail is checked, with the same predicate as the sign-in form. |
| PasswordResetPage.HandlePasswordReset | components/PasswordResetPage.tsx:37-54 | See the note after this table. |
| PasswordResetPage.FailedResetNotSent | components/PasswordResetPage.tsx:48-53 | A failed request leaves an unsent form unsent. |
| MainPage.MatchAt | components/MainPage.tsx:199 | A match at `p` starts at `p`, ends within the string, and has a text with no `:` and no newline. |
| MainPage.MatchAtIsGreedyMatch | components/MainPage.tsx:199 | The match at `p` is one the pattern admits, with the groups in place. Whenever the pattern admits a match at `p`, this one exists with the same colon and the longest text. |
| MainPage.FindFrom | components/MainPage.tsx:202 | The leftmost position at or after `lastIndex` where the pattern matches. No earlier position matches. |
| MainPage.GlobalRegex.Exec | components/MainPage.tsx:202 | `exec` returns the leftmost match from `lastIndex` and moves `lastIndex` to its end. With no match it returns null and resets `lastIndex` to 0. |
| MainPage.AllMatches | components/MainPage.tsx:199-209 | The matches the `exec` loop visits, in order, each search resuming at the end of the previous match. |
| MainPage.LastText | components/MainPage.tsx:202-208 | The trimmed text of the last visited match whose lower-cased tag is the key, or `""`. This is the value the loop leaves in the record. |
| MainPage.AllMatchesArePatternMatches | components/MainPage.tsx:199-202 | Every match the loop visits is the pattern's match at its own index. |
| MainPage.AllMatchesInOrder | components/MainPage.tsx:199-202 | The visited matches come in order and do not overlap. |
| MainPage.AllMatchesStep | components/MainPage.tsx:202 | Each match ends after it starts, and the search resumes at its end. |
| MainPage.ExtractServices | components/MainPage.tsx:192-209 | The record has exactly the four service keys. Each key maps to the trimmed text of the last match whose lower-cased label is that key, or to `""`. |
| MainPage.FieldsAfterMatch | components/MainPage.tsx:202-208 | One loop turn updates only the key the label names, and only if it is one of the four. |
| MainPage.LaterMatchOverwrites | components/MainPage.tsx:206-208 | A later match for a key replaces the earlier text. |
| MainPage.UnmatchedKeyStaysEmpty | components/MainPage.tsx:192-197 | A key that no match names keeps `""`. |
| MainPage.ExtractedTextIsOneField | components/MainPage.tsx:199-204 | Every extracted text has no `:`, no newline and no `\s` at either end. |
| MainPage.Answer | components/MainPage.tsx:211 | With more than one selected service, the payload is the four-key record. With one, it is `{service: raw reply}`. |
| MainPage.SplitPieces | components/MainPage.tsx:127 | `split(/[\s,.;:]+/)`: at least one piece. `SplitPiecesAtRuns` states where the cuts fall. |
| MainPage.SplitPiecesAtRuns | components/MainPage.tsx:127 | The pieces joined by single spaces are the input with every maximal separator run, those at either end included, replaced by one space. Since the pieces hold no separator, this fixes them. |
| MainPage.SplitPiecesHaveNoSeparator | components/MainPage.tsx:127 | No piece holds a separator character. |
| MainPage.NonEmpty | components/MainPage.tsx:127 | `filter(Boolean)`: every kept piece is non-empty and taken from the input list. |
| MainPage.NonEmptyKeepsEvery | components/MainPage.tsx:127 | Every non-empty piece is kept, as often as it occurs in the input. |
| MainPage.NonEmptyAppend | components/MainPage.tsx:127 | Filtering a concatenation filters each part in turn, so the kept pieces stay in their input order. |
| MainPage.Keywords | components/MainPage.tsx:127 | The split followed by the filter. `KeywordsCoverInput` and `KeywordsSplitAtRuns` state what it returns. |
| MainPage.KeywordsCoverInput | components/MainPage.tsx:127 | The tokens are non-empty and contain no separator. Together, in order, they hold every non-separator character of the input. |
| MainPage.KeywordsSplitAtRuns | components/MainPage.tsx:127 | The keywords break exactly at separator runs. Joined with single spaces, they equal the input with each inner run collapsed to one space and the runs at both ends dropped, and that text splits back into the same keywords. |
| MainPage.KeywordsOfJoin | components/MainPage.tsx:127 | Keywords typed with single spaces between them come back as typed. |
| MainPage.HandleInputKeywords | components/MainPage.tsx:123-138 | Empty input dispatches nothing and does not clear the field. Otherwise it dispatches `CHANGE_KEYWORD` for the first `min(MAX_KEYWORDS, n)` tokens, in order, and clears the field. |
| MainPage.Without | components/MainPage.tsx:105 | Removes every occurrence of the service and keeps the count of every other element. |
| MainPage.WithoutAppend | components/MainPage.tsx:105 | Removal keeps the order of the remaining elements. |
| MainPage.Toggle | components/MainPage.tsx:102-108 | Flips membership of the service. An absent service is appended at the end. Other elements keep their counts. |
| MainPage.ToggleTwice | components/MainPage.tsx:102-108 | Toggling an absent service twice restores the list. |
| MainPage.FetchChatGPTResponse | components/MainPage.tsx:161-224 | See the note after this table. |
| PaymentPage.RenewalAnchor | components/PaymentPage.tsx:75-85 | The anchor is the later of the stored `subscriptionDate` and server time, or server time when there is no stored date. |
| PaymentPage.ExtendFrom | components/PaymentPage.tsx:79-91 | The end date after the product is applied. `ExtensionByProduct` states its value for each product. |
| PaymentPage.ExtensionByProduct | components/PaymentPage.tsx:79-91 | product1 adds the anchor month's length (28 to 31 days). product2 adds exactly 7 days. Any other id, product0 included, adds nothing. |
| PaymentPage.EndNeverEarlier | components/PaymentPage.tsx:75-91 | The new end date is never before server time or before the stored end date. |
| PaymentPage.StackingOnUnexpired | components/PaymentPage.tsx:75-77 | An unexpired subscription is extended from its old end. A lapsed one is extended from server time. |
| PaymentPage.PurchasedRecord | components/PaymentPage.tsx:94-98 | The written node is exactly `{subscriptionType, subscriptionDate, subscriptionPaid: true}`, with no e-mail, usage or `subscription` child. |
| PaymentPage.PurchaseResetsUserNode | components/PaymentPage.tsx:94-98 | After the overwrite, the day's count is 0. The next quota check admits iff `number <= 5`. `checkSubscriptionActive` reads false. |
| PaymentPage.NewSubscriptionEndDate | components/PaymentPage.tsx:75-91 | The computed end date is the anchor extended by the product. It is never before server time or before the stored end date. |
| PaymentPage.HandlePurchase | components/PaymentPage.tsx:50-105 | See the note after this table. |
| PaymentPage.HandlePurchaseAsWritten | components/PaymentPage.tsx:16-70 | With the component's `user` state, which stays `null`, no purchase is ever recorded and the database is unchanged. |

Notes on the rows whose contracts list several cases:

- **LoginPage.HandleLogin.**
  - An invalid form only sets the validation error. `loading` is not set and sign-in is not called.
  - Otherwise `loading` ends false.
  - `isVerified(true)` is reported only for a verified sign-in.
  - An unverified sign-in sets the verify error and shows the resend option.
  - A sign-in error sets its code.
- **LoginPage.HandleRegister.**
  - An invalid form returns before `loading` is set and before sign-up is called.
  - Otherwise `loading` ends false.
  - On success, the node is exactly `{email, subscriptionPaid: false}`, with no other child, and `emailSent` is set.
  - `showResendVerification` and `isVerified` are left as they were.
  - On failure, the error code is set and nothing is written.
- **PasswordResetPage.HandlePasswordReset.**
  - An invalid e-mail only sets the error, and no request is sent.
  - Otherwise `loading` ends false.
  - Success sets `isSentReset` and the message.
  - Failure sets the error and leaves `isSentReset` as it was.
- **MainPage.FetchChatGPTResponse.**
  - The quota is checked first, with the number of selected services. A refusal dispatches `DAY_LIMIT`, after the headroom if there is one, and makes no request.
  - An empty selection or an empty keyword list returns after the quota check.
  - The request is made iff the gate admits the call and neither list is empty.
  - A reply is turned into `CHANGE_DESCRIPTION` with the extracted answer.
  - The dispatched list is exactly: the headroom, if the gate read one; then `DAY_LIMIT`, if the call was refused; then `CHANGE_DESCRIPTION`, if a reply was processed.
- **PaymentPage.HandlePurchase.**
  - No purchase, no server time, no user, a failed read or write, or an end date out of range: nothing is written.
  - Otherwise the user's node is replaced by `PurchasedRecord` with the anchored, extended end date.

## Left out

- **Firebase SDK, Firebase Auth, react-native-iap and the HTTP request to the model.**
  `initializeApp`, `get`/`set`/`update`, `signInWithEmailAndPassword`,
  `createUserWithEmailAndPassword`, `sendEmailVerification`, `sendPasswordResetEmail`,
  `requestPurchase`/`finishTransaction` and `axios.post` are not modelled. Their outcomes are
  parameters: the database is a map, the read/write failure is `StoreFault`, a sign-in result
  is `SignInResult`, a purchase is a boolean, and the model's reply is `Option<string>`.
- **Helpers and state modules.** `getServerTime`, `MAX_KEYWORDS`, `dataPreparationForPromt`
  and the reducer live in the `helpers` and `state` modules, which are not part of this model.
  - Server time is an `Option<Instant>` input.
  - `MAX_KEYWORDS` is a parameter of `HandleInputKeywords`. The input placeholder says 5.
  - The reducer's handling of the dispatched actions is not modelled: the actions are the
    output.
- **Concurrency.** The awaited read and write in `checkApiUsageLimit` can interleave with
  another call. Each call is modelled as one atomic step.
- **Local time.** `Date` local-time semantics, time zones and daylight-saving shifts are not
  modelled. `setMonth` and `setDate` are modelled in UTC. This keeps the `MakeDay` overflow
  rule, so January 31 plus one month is March 2 or 3.
- **Dates stored as strings.** ISO strings stored in the database are modelled as the time
  values they denote. Unparsable or missing strings, which give an invalid `Date` and make
  every comparison false, are not modelled.
- **Inherited property names.** `service in services` at components/MainPage.tsx:206 also
  accepts inherited property names such as `constructor`. The model tests membership in the
  four own keys only.
- **UTF-16.** Strings are sequences of Unicode scalar values, not UTF-16 code units. The
  password length and the regular expressions count a character outside the Basic
  Multilingual Plane once, where JavaScript counts it twice.
- **Rejected promise in `recordSubscription`.** When the thirty-day expiry falls outside the
  range of `Date`, `toISOString` throws outside the `try` and the promise rejects. The model
  only records that nothing is written.
- **Screens and configuration.** App.tsx, IntroPage.tsx, DayLimitModal.tsx, Description.tsx,
  ResetCustomPage.tsx, styling, animation and babel.config.js are not part of this model.
  `resendVerificationEmail` and the `loading` flag of the main screen are not modelled either.
- **The two subscription records are kept apart, as in the code.**
  - `handlePurchase` writes `subscriptionDate` at the node's root.
  - `checkSubscriptionActive` reads `subscription/expirationDate`.
- **Unmatched services.** Keys that no match names keep `""` in the extracted record, as the
  code initialises them. They are not absent.
- **Quota date without server time.** When server time is unavailable, the quota date falls
  back to the device clock (`deviceTime`), as the code does.

## Findings

| source | as written | input that shows it | evidently intended | confidence | as-written member | corrected member |
|---|---|---|---|---|---|---|
| components/PaymentPage.tsx:16 | The `user` state starts as `null`, and nothing in the component ever calls `setUser`. The check at line 68 always throws, so the handler always alerts "Purchase failed" and never writes the subscription. | Any purchase that completes, with server time available. | Use the signed-in user, as the other screens do with `auth.currentUser`, and record the purchase under that user's node. | not executed | PaymentPage.HandlePurchaseAsWritten | PaymentPage.HandlePurchase |
