# Student ID card front end — a Dafny model

The front end looks a student up by a 10-digit national student number
(NISN), shows the record and its photo, uploads a replacement photo, and
hands the record to a print page. Its remote API (a spreadsheet-backed web
app) is outside the model. The model covers the two parts with behaviour
that can be stated precisely:

- **js/config.js** — `validateNISN`; the query that `callAPI` builds and the
  single failure result it turns every error into; the local checks of
  `uploadFile` and its failure results; and the `Session` store over
  `localStorage` with `isLoggedIn`, `login` and `logout`.
- **js/main.js** — the page state (`currentStudent`, the `isUploading`
  guard, whether the search form is hidden and the data section shown, the
  texts on display, the banners) and the handlers `searchStudent`,
  `displayStudentData`, `handlePhotoUpload`, `printCard` and `resetForm`.

Files and modules:

- `js_text.dfy` (`JsText`): the JavaScript string built-ins the code relies
  on, written out: `trim` over the ECMAScript white space set, `startsWith`,
  `split` on one character (with its round trip against `join`), `parseInt`
  with no radix (white space, one sign, `0x` prefix, longest digit prefix),
  and `String(n)`.
- `config.dfy` (`Config`): `ValidateNISN`; `CallApi`, a method whose loop
  appends the present params to the query as the `forEach` does; the
  `uploadFile` guard chain as `UploadFile`. Server answers are `Transport`
  values (thrown, or a reply with its `ok` flag, status and parsed body).
- `session.dfy` (`SessionStore`): JavaScript values, a `JsonCodec` holding
  `JSON.stringify` and `JSON.parse` as functions, with `FaithfulJson` saying
  what the platform guarantees of them, the class `Session` whose `items`
  map is `localStorage`, and the token check `TokenLive`.
- `main.dfy` (`StudentView`): the class `App` with the page state as fields
  and one method per handler (the lookup of `searchStudent` and the upload
  of `handlePhotoUpload` are methods of their own), each keeping the
  invariant that the data section is shown exactly when a record is current
  and the search form is hidden exactly then.

`atob` is a parameter `string -> Option<string>` (`None` when it throws),
`Date.now()` is the integer `now`, and a storage call that throws is the
`fails` (or `storageFails`) argument.

The model follows the code except as listed under "## Left out"; in particular:
`uploadFile` also accepts `image/jpg` and first rejects a missing file;
the failure message of `callAPI` is the Indonesian text in the code;
`handlePhotoUpload` also does nothing without a selected file and raises an
alert (not a banner) for a non-image or an oversized file; and the record's
`foto` is updated only when the page has a photo element.

## Model

| member | source | states |
|---|---|---|
| JsText.DigitOf | js/config.js:165 | the digit value `parseInt` reads: below 10 exactly for the ASCII digits, and then the digit itself |
| JsText.NatToString | js/config.js:90 | the decimal text of a status code is non-empty, all digits, and has no leading zero |
| JsText.LeadingSpaces | js/main.js:38 | counts exactly the white space a string starts with |
| JsText.TrailingSpacesStart | js/main.js:38 | marks exactly the white space a string ends with |
| JsText.Trim | js/main.js:38 | `trim` yields a slice of the input with only white space cut on either side, and neither end of it is white space |
| JsText.TrimEmptyIff | js/main.js:87 | `s.trim() === ''` holds exactly when every character is white space |
| JsText.StartsWith | js/main.js:113 | `startsWith` holds exactly when the prefix fits and agrees with the string position by position |
| JsText.IndexOf | js/config.js:164 | finds the first occurrence of the separator, or the end |
| JsText.Split | js/config.js:164 | `split(':')` gives at least one piece and no piece holds the separator |
| JsText.JoinSplit | js/config.js:164 | joining the pieces of a split gives back the decoded token |
| JsText.SplitJoin | js/config.js:164 | splitting `username:expiry` built from separator-free pieces gives those pieces back |
| JsText.LeadingDigitCount | js/config.js:165 | `parseInt` reads exactly the longest prefix of digits |
| JsText.ParseUnsigned | js/config.js:165 | the unsigned part of `parseInt` is NaN exactly when the text does not start with a digit, or starts with `0x`/`0X` and no hexadecimal digit follows |
| JsText.ParseInt | js/config.js:165 | `parseInt(s)` gives a number only when a digit follows the leading white space and at most one sign, and a negative one only after `-` |
| JsText.DigitsValueOfNat | js/config.js:165 | the digits of `String(n)` have the value `n` |
| JsText.LeadingDigitsOfNat | js/config.js:165 | `parseInt` stops exactly at the end of `String(n)` when a non-digit follows |
| JsText.ParseIntOfNat | js/config.js:165 | `parseInt` reads back the integer that `String(n)` wrote, also with trailing text that starts with a non-digit (after "0", not with `x` or `X`, which would open a hexadecimal number) |
| Config.MatchesDigits | js/config.js:187 | `/^\d+$/` as a recursive predicate; `MatchesDigitsIff` states what it accepts |
| Config.MatchesDigitsIff | js/config.js:187 | `/^\d+$/` matches exactly the non-empty all-digit strings |
| Config.ValidateNISN | js/config.js:182-192 | valid exactly for 10 characters that are all digits, with the empty message; any other length gives the length message first; a 10-character input with a non-digit gives the digits message |
| Config.ValidateNISNExamples | js/config.js:182-192 | "1234567890" is valid, "12345" fails on length, "12345abcde" fails on digits |
| Config.PresentParams | js/config.js:39-43 | the `forEach` filter keeps at most as many pairs as there are params, each one a param holding that text |
| Config.PresentParamsAppend | js/config.js:39-43 | the filter keeps the order of the params, whatever mix of null and undefined values they hold |
| Config.PresentParamsMembers | js/config.js:39-43 | a key and text reach the query exactly when the params hold them; null and undefined params never do |
| Config.PresentParamsKeepsAll | js/config.js:39-43 | with no null or undefined value every param reaches the query, in key order |
| Config.CallApi | js/config.js:34-62 | the query is `action` followed by the present params; a delivered JSON object is returned as is, and every throw, non-ok status or unparsable body gives the one fixed failure result; the result is `CallResult` of the answer, the definition the handlers use |
| Config.UploadRejection | js/config.js:66-79 | checks run as missing file, then size above 2 MiB, then type; a file passes exactly when present, at most 2·1024·1024 bytes, and of type image/jpeg, image/jpg or image/png |
| Config.UploadReplyResult | js/config.js:84-101 | the server's object is returned when delivered; a throw, non-ok status or bad body gives a failure with a non-empty message |
| Config.UploadResult | js/config.js:64-103 | a rejected file fails with its rejection message; an accepted file with a delivered answer gets the server's object, and success comes only that way; an undelivered answer fails with a non-empty message |
| Config.UploadFile | js/config.js:64-103 | the upload request to `upload<kind>` is sent exactly when the local checks pass, and the result is the rejection message or the server's answer |
| SessionStore.StorageText | js/config.js:109-113 | a string is stored as itself, and the stored text of any other value parses back to it under a faithful JSON |
| SessionStore.Retrieve | js/config.js:123-130 | `get` gives null exactly for a missing or empty entry or the text of JSON `null`, the parsed value for other JSON text, and the text itself otherwise |
| SessionStore.GetAfterSet | js/config.js:107-135 | `get` after `set` gives back every value that is not a string: objects and null through JSON, booleans and numbers through their text |
| SessionStore.GetAfterSetText | js/config.js:107-135 | a stored string comes back as itself when non-empty and not JSON text, as null when empty, and parsed when it is JSON text |
| SessionStore.TokenLive | js/config.js:157-169 | the `isLoggedIn` decision on a token: it is live only when the token is truthy (`Truthy`, the `!token` test), its decoding holds ':' and the second ':' piece reads under `parseInt` as a number above `now`; a second piece that `parseInt` reads as NaN makes it not live |
| SessionStore.TokenLiveWellFormed | js/config.js:157-169 | a token decoding to `username:expiry` is logged in exactly when the expiry is after `now` |
| SessionStore.TokenWithoutSeparatorNotLive | js/config.js:162-168 | a decoded token without ':' is never logged in |
| SessionStore.LoginThenLoggedIn | js/config.js:157-173 | after `login` with a well-formed token, `isLoggedIn` holds exactly until its expiry |
| SessionStore.LogoutThenLoggedOut | js/config.js:157-178 | after `logout`, `isLoggedIn` is false |
| SessionStore.Session.constructor | js/config.js:106 | the store starts from what `localStorage` already holds |
| SessionStore.Session.Set | js/config.js:107-119 | stores the value's text under the key and returns true, or changes nothing and returns false when storage throws |
| SessionStore.Session.Get | js/config.js:121-135 | returns null for a missing or empty entry or a storage error, the parsed value for JSON text, the text otherwise |
| SessionStore.Session.Remove | js/config.js:137-145 | drops the key and returns true, or returns false when storage throws |
| SessionStore.Session.Clear | js/config.js:147-155 | empties the store and returns true, or returns false when storage throws |
| SessionStore.Session.IsLoggedIn | js/config.js:157-169 | is false without a token or on a storage error, and otherwise is the token check on the stored value at `now` |
| SessionStore.Session.Login | js/config.js:171-173 | stores the token under `admin_token` |
| SessionStore.Session.Logout | js/config.js:175-178 | removes `admin_token` |
| StudentView.PhotoSource | js/main.js:86-94 | the photo shown is never blank: `foto` itself or the default avatar |
| StudentView.PhotoFallback | js/main.js:84-95 | the photo falls back to the default avatar when `foto` is missing or all white space, and is `foto` otherwise |
| StudentView.Rendered | js/main.js:70-95 | NISN and name are shown as they are; date of birth and address are the record's when it has them and `-` otherwise, so never blank; with a photo element the photo is `PhotoSource` of `foto` (never blank), and without one it stays as it was |
| StudentView.WithFoto | js/main.js:141 | `currentStudent.foto = result.url` sets `foto` (or removes it for undefined) and leaves every other property and `success` as they were |
| StudentView.RenderedExample | js/main.js:70-75 | a record with NISN "1234567890" and name "Budi" only shows both, dashes for date of birth and address, and the default photo |
| StudentView.PrintDataRoundTrip | js/main.js:173-174 | the print page reads back exactly the record stored under `printData` |
| StudentView.PhotoChecksAgree | js/main.js:112-121 | every file `uploadFile` accepts passes the handler's own checks; an image of another type passes them and is turned away by `uploadFile` before any request |
| StudentView.App.constructor | js/main.js:3-5 | the page starts with no record, no upload running, the search form visible and the data section hidden |
| StudentView.App.EnterNisn | js/main.js:35-38 | typing sets the NISN input that `searchStudent` reads and changes nothing else |
| StudentView.App.DisplayStudentData | js/main.js:66-103 | the record becomes current, NISN and name are shown as they are, date of birth and address as a dash when empty, the photo as rendered, the data section shown and the search form hidden |
| StudentView.App.SearchStudent | js/main.js:34-63 | an invalid trimmed NISN shows its message with no request and no change to the record; a valid one is looked up with the outcome `FetchStudent` states |
| StudentView.App.FetchStudent | js/main.js:47-62 | sends `getSiswa` with the NISN; success makes the result current and shows it with the success banner; failure keeps the record and shows the server's message or the not-found text |
| StudentView.App.HandlePhotoUpload | js/main.js:106-158 | nothing changes while uploading, without a record or without a file; a non-image or oversized file only raises an alert; otherwise the upload runs with the outcome `UploadAndUpdate` states |
| StudentView.App.UploadAndUpdate | js/main.js:123-157 | a started upload always ends with the flag cleared, sends the upload only for a file `uploadFile` accepts, sends `updateSiswa` with the record's `nisn` and the upload's `url` (`UpdateQuery`) only after the upload succeeds, and changes `foto` and the photo to the uploaded URL only when both calls succeed and the photo element exists |
| StudentView.App.PrintCard | js/main.js:161-178 | without a record or without a truthy `nisn` and `nama` (`Complete`) it shows the matching error and stores nothing; otherwise it stores the record, as the JavaScript object `AsJsValue` builds, under `printData` and opens the print page |
| StudentView.App.ResetForm | js/main.js:181-196 | the record is cleared, the data section hidden, the search form shown, the input emptied and the banners hidden |

## Left out

- `fetch`, `FormData`, URL building and `response.json()`: each request's outcome is a `Transport` argument; the model logs which requests were sent.
- Response bodies that are not JSON objects (a bare `null` would make the handlers throw): bodies are objects whose properties are read as text, and an absent property reads as the empty string.
- `atob`, `JSON.stringify`, `JSON.parse` and `Date.now()`: parameters; the store's round-trip lemmas assume `FaithfulJson` of the codec.
- Numbers are integers: no fractions, no loss of precision above 2^53 in `parseInt`, and no negative zero.
- Strings are sequences of characters standing for UTF-16 code units; lengths of text outside the Basic Multilingual Plane are not modelled.
- `Object.keys` order: params are given as a sequence in their key order; the rule that integer-like keys come first is not modelled.
- `validateNISN` on null or undefined: the input is always a string here, and null, undefined and the empty string take the same branch in the code.
- Arrays and `undefined` as stored values: `JsValue` has neither, so `Session.set` of an array (stored as JSON) and of `undefined` (stored as the text "undefined", read back as that string) are not modelled.
- `currentStudent.foto = undefined`: JavaScript keeps an own property holding `undefined`, while `WithFoto` drops the key; no read in the code tells the two apart.
- `localStorage` exceptions: only as the `fails` argument (false or null result, nothing changed); the console logging is left out.
- `logout`'s navigation to index.html and `printCard`'s `window.open` beyond logging the opened page name.
- `showLoading`, the `is-invalid` class and `nisnError` text, the five-second auto-hide of the success banner, the image `onerror` fallback, input focus and the clearing of the file input: rendering glue.
- `showNotification`, the global error handler, the keyboard shortcuts, the `DOMContentLoaded` wiring and the `?success` banner on load: event plumbing around the modelled handlers.
- Page elements are assumed present, except the photo element (`hasPhotoElement`), whose absence changes what `handlePhotoUpload` does to the record.
- `SCHOOL_CONFIG`, `THEME_COLORS`, `CARD_SIZE` and the `api_url` override of the endpoint: configuration without behaviour.
- Asynchronous interleaving: handlers run one at a time, so `isUploading` acts only as a re-entrancy guard, and the `catch` branch of `handlePhotoUpload` (reached only if the record is reset during an upload or a reply body is null) is not modelled.
