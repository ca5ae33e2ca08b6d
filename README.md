# License verification core of meso-license-service, in Dafny

This project models `licenses/service.go`, the part of the license service that checks a
professional license against the California Department of Consumer Affairs registry. It
covers the steps after the HTTP round-trip:

- **Search form.** The form body is built from the license: board code, license-type code,
  first and last name, and license number.
- **Text collection.** The parsed HTML tree is walked in pre-order. The text of the last
  `<ul class="actions">` element is kept (`htmlNodeTraversal` and `collectText`).
- **Fact extraction.** The collected text has three possible outcomes
  (`verifyCollectedText`, `expirationDate`):
  - no identity match: `Verify` is set to false;
  - identity match but no status line: the license is returned unchanged;
  - success: `Verify`, `Status` and `Expiration` are set.
- **Page outcome and error wrapping.** `createDcaPost` and `VerifyLicense` turn the above
  into a reply.

Files and modules:

- `text.dfy` (`Text`): the parts of Go's `strings` and `strconv` the code uses: `Split`,
  `Trim(s, " ")`, `ToUpper` and `Itoa`, with `Join` and a decimal reader as their inverses.
- `html.dfy` (`Html`): the node tree. The `FirstChild`/`NextSibling` chain is modelled as a
  sequence of children. The file also defines what the two walks compute, stated over the
  pre-order list of a tree's nodes.
- `collector.dfy` (`Collector`): `collectText` and `htmlNodeTraversal` as imperative methods.
  The `bytes.Buffer` is a class appended to in place. The `*string` out-parameter is a class
  whose field is overwritten. Each method is proved against the pre-order specification.
- `patterns.dfy` (`Patterns`): the two fixed regular expressions, modelled concretely with
  RE2 semantics:
  - leftmost match and greedy repetition;
  - `.` matches every character except `'\n'` (it does match `'\r'`);
  - `\s` is `[\t\n\f\r ]`, `\w` is `[0-9A-Za-z_]` and `\d` is `[0-9]`.
  Lemmas show that the scans return the leftmost match. For the status pattern they also show
  that greedy `.*` reaches the last label on the line.
- `licenses.dfy` (`Licenses`): the `License` record, the error values with their message
  text, and the `(License, error)` reply.
- `service.dfy` (`Service`): the payload and its round trip, fact extraction, `createDcaPost`
  and `VerifyLicense`.

Collaborators that cannot be modelled are passed in as parameters:

- `exchange` is the HTTP round-trip plus `html.Parse`. It takes the request body and returns
  either one of the three transport failures or the parsed page.
- `matches` is `regexp.MustCompile(pattern).MatchString(text)` for the identity pattern. That
  pattern is built at run time from the license (`Service.MatchExpression`, spelled exactly
  as the source spells it, with the stray `+` quantifiers).

The model follows the code in these behaviours, which are easy to misread:

- The target element is the *last* `ul.actions` in pre-order, not the first. A nested match
  wins over its ancestor.
- In the status pattern, `\s*` may cross line breaks. So a status left blank on its line is
  taken from the next line, and `Trim(" ")` does not remove the line break.
- The date pattern accepts any `\s` character (tab, line feed, form feed, carriage return or
  space) between the month and the day and after the comma, not only a space.
- A success can carry an empty status: when nothing follows `License Status:` up to the end
  of the text, `Verify` is set and `Status` is `""` (`Service.SuccessWithEmptyStatus`).

## Model

| member | source | states |
|---|---|---|
| Text.Split | licenses/service.go:143 | `strings.Split` on one character returns at least one piece, and no piece contains the separator |
| Text.JoinSplit | licenses/service.go:143 | joining the pieces with the separator gives back the original text |
| Text.LastPieceAfter | licenses/service.go:143-144 | when `s[p]` is the last separator in `s`, the last piece is exactly the text after it |
| Text.LastPieceIsTail | licenses/service.go:143-144 | the last piece is the suffix after the last separator: a separator-free suffix that is the whole text or is preceded by the separator |
| Text.Trim | licenses/service.go:145 | the trimmed status neither starts nor ends with a blank |
| Text.TrimIsInfix | licenses/service.go:145 | `Trim(s, " ")` removes only blanks, and only at the two ends: the result is a slice of `s` with nothing but blanks before it and nothing but blanks after it |
| Text.TrimKeepsTrimmed | licenses/service.go:145 | a text with no blank at either end is left unchanged |
| Text.TrimIdempotent | licenses/service.go:145 | trimming twice is the same as trimming once |
| Text.ToUpper | licenses/service.go:127 | the upper-cased name has the same length and maps each ASCII lower-case letter to its capital, keeping every other character |
| Text.ToUpperAppend | licenses/service.go:127 | upper-casing `LastName + ", " + FirstName` is upper-casing each part and concatenating: the function works character by character |
| Text.Itoa | licenses/service.go:52-54 | `strconv.Itoa` writes at least one character, all decimal digits except a leading minus sign for negative numbers |
| Text.ItoaRoundTrip | licenses/service.go:52-54 | reading `Itoa(n)` back as a decimal gives `n` for every integer |
| Html.TextOfUnfold | licenses/service.go:108-116 | a subtree's text is the node's own text (if it is a text node) followed by its children's texts in sibling order, with no separators |
| Html.TextOfNonText | licenses/service.go:109-114 | a node that is not a text node contributes only its descendants' text |
| Html.LastActionsTextNone | licenses/service.go:92-105 | if no `ul` element with `class="actions"` is visited, the walk leaves the out-string unchanged |
| Html.LastActionsTextLast | licenses/service.go:92-105 | otherwise the walk ends with the text of the last such element visited |
| Html.LastActionsTextIsLastMatch | licenses/service.go:92-105 | the walk's result is the text of the last actions list in the list, or the starting value if there is none (both cases in one statement) |
| Html.NestedActionsListWins | licenses/service.go:93-104 | because the walk continues into a matched element, a nested actions list wins over its ancestor, whatever the ancestor's text |
| Collector.TextBuffer.WriteString | licenses/service.go:110 | `WriteString` appends its argument to the buffer |
| Collector.CollectText | licenses/service.go:108-116 | `collectText` appends exactly the subtree's text to the buffer, keeping the buffer's previous contents as a prefix, and returns the same buffer |
| Collector.HtmlNodeTraversal | licenses/service.go:92-105 | `htmlNodeTraversal` leaves `*collectedText` equal to the pre-order last-actions-list walk applied to its previous value |
| Patterns.DateEndAtIsMatch | licenses/service.go:164 | the date pattern tried at a position ends at `e` exactly when the slice from that position to `e` has the shape word chars, one `\s`, two digits, a comma, one `\s`, four digits |
| Patterns.FindDate | licenses/service.go:164-165 | the first match of the date pattern is found exactly when the scan finds one, and it is date-shaped: word characters, one `\s`, two digits, a comma, one `\s`, four digits |
| Patterns.DateSpanIsLeftmost | licenses/service.go:164-165 | the scan finds a date-shaped slice with no date-shaped slice starting further left, or reports none exactly when there is none |
| Patterns.FindDateIsLeftmostMatch | licenses/service.go:164-166 | `FindStringSubmatch(s)[0]` is the leftmost date-shaped slice of `s`, and it is nil exactly when `s` has no such slice |
| Patterns.StatusPrefixesAt | licenses/service.go:135 | from a line break, the pattern's `.*License Status:` reaches exactly the labels later on the same line, and greedy `.*` takes the last of them |
| Patterns.StatusSpanIsLeftmost | licenses/service.go:135-138 | the scan returns the leftmost line break that starts a match, with the rightmost label on its line, or none exactly when no match exists |
| Patterns.FindStatus | licenses/service.go:135-138 | `FindAllString(s, 1)` finds a match exactly when the scan finds one; the match is longer than the label, starts with a line break and holds a colon (so `Split(result[0], ":")` has a piece after it) |
| Patterns.FindStatusIsLeftmostMatch | licenses/service.go:135-139 | `FindAllString(s, 1)` is nil exactly when no line break is followed on its line by `License Status:`; otherwise it returns the slice from the first such line break through the label, `\s*` and `[^\n\r]*` |
| Service.Payload | licenses/service.go:52-59 | the request body is the five fields `boardCode`, `licenseType`, `firstName`, `lastName`, `licenseNumber`, each `key=value` with the numbers in decimal, joined by `&` in that order |
| Service.PayloadFields | licenses/service.go:52-59 | when the names contain no delimiter, the form body splits on `&` into exactly the five `key=value` fields in source order |
| Service.PayloadReadsBack | licenses/service.go:52-59 | with delimiter-free names, reading the body back gives exactly the license's board code, license type, names and number |
| Service.PayloadRoundTrip | licenses/service.go:52-59 | for a reader that only splits on `&` and `=` (no URL decoding), reading the body back gives board code, license type, names and number exactly when neither name contains `&` or `=`; nothing is escaped, so such names break the round trip |
| Service.ParsedNamesHaveNoDelimiters | licenses/service.go:59 | any body the form reader accepts has names free of `&` and `=` (this is the only-if half of the round trip) |
| Service.MatchExpression | licenses/service.go:126-131 | the identity pattern starts with the upper-cased last name, `", "` and the upper-cased first name, and ends with the license type name |
| Service.StatusOf | licenses/service.go:143-145 | the status taken from the fragment contains no colon and neither starts nor ends with a blank |
| Service.StatusOfAfterColon | licenses/service.go:143-145 | when `f[p]` is the last colon of the matched fragment, the status is the rest of the fragment after it, trimmed |
| Service.StatusOfFragmentAfterColon | licenses/service.go:143-145 | a slice of the text whose last colon sits just before `m` gives the status `Trim(s[m..e])` |
| Service.StatusFragment | licenses/service.go:135-138 | the status match runs from its line break past the label's colon to the end of the pattern |
| Service.StatusIsRestOfLine | licenses/service.go:135-145 | for the match starting at `i` with its label at `j`: when only blanks follow the label and the value has no colon, the status is the rest of the label's line with its blanks trimmed |
| Service.ExpirationDate | licenses/service.go:163-167 | `expirationDate` returns the slice at the leftmost date match, which is date-shaped; it is defined only when a date exists (`index[0]` panics otherwise) |
| Service.Verified | licenses/service.go:142-146 | the license after a full match has `Verify` set and the same identity; its status is the trimmed last `:`-piece of the status match, with no colon and no blank at either end; its expiration is `expirationDate(s)`, which is date-shaped |
| Service.VerifyCollectedTextAsWritten | licenses/service.go:118-155 | `verifyCollectedText` as written: defined only when a matched status implies a date exists, and there equal to the corrected version |
| Service.VerifyCollectedText | licenses/service.go:118-155 | no identity match: `NoMatch` and only `Verify` set to false; match without status: error and license unchanged; success exactly when identity, status and date all match, with `Verify` true, identity kept, the status read from the status match (colon-free and trimmed) and the expiration equal to the first date match (date-shaped) |
| Service.VerifiedStatusIsRestOfLine | licenses/service.go:135-148 | on success, when only blanks follow the label and the value has no colon, the license's `Status` is the rest of the label's line with its blanks trimmed |
| Service.SuccessWithEmptyStatus | licenses/service.go:138-148 | with an identity match and the text `"a 01, 2030\nLicense Status:"` the call succeeds with `Verify` set and an empty `Status` |
| Service.ExpirationIsLeftmostDate | licenses/service.go:146 | on success the expiration is the leftmost date-shaped slice of the whole collected text, not only of the status line |
| Service.MissingDateReachesPanic | licenses/service.go:146 | a text with an identity match and a status line but no date leaves the as-written function without a defined result (Go panics there); the corrected version reports `ExpirationNotFound` |
| Licenses.Message | licenses/service.go:41-152 | the error text tells the kind of error apart: `createDcaPost reading request: ` (line 64), `createDcaPost: ` shared by send and read failures (69, 74), `err:Bad html` (82), `Regex Status match nil` (140), `No Match` (152), `Failed to Verify: ` (41), and `Expiration match nil` for the missing date |
| Service.CreateDcaPost | licenses/service.go:47-89 | transport failures return the license unchanged with the matching error; an empty collected text returns "Bad html" with the license unchanged and no extraction; otherwise the result is fact extraction on the collected text |
| Service.WrapError | licenses/service.go:40-41 | wrapping keeps nil as nil and prefixes every error message with "Failed to Verify: " |
| Service.VerifyLicense | licenses/service.go:38-44 | passes the `createDcaPost` license through and wraps each of its errors, so every error message starts with "Failed to Verify: " |

## Left out

- The HTTP request, client, content-type header and body read (licenses/service.go:50-75) are network I/O. They become the `exchange` parameter, which returns either a transport failure or the parsed page. Which requests fail is not modelled.
- `html.Parse` (licenses/service.go:78) is an external library, and its error is ignored. The parsed tree is the model's input. Attribute namespaces and node fields the code never reads are left out.
- The identity regular expression (licenses/service.go:131-133) is compiled at run time from user data. Its match is the `matches` parameter. `MustCompile` panics on a name containing unbalanced regex metacharacters, and that panic is not modelled.
- `log.Println` (licenses/service.go:147) is a logging side effect.
- `StoreLicense`, `UpdateLicense` and `NewService` (licenses/service.go:27-36, 169-173) only delegate to the license repository, which is not part of this model. So is the definition of `repository.License`: its fields are taken from how service.go uses them.
- The fall-through `return` at licenses/service.go:154 cannot be reached.
- Text.ToUpper: upper-cases ASCII letters only. Go's `strings.ToUpper` also maps non-ASCII letters. The result only feeds the abstract `matches` parameter.
- Go strings are UTF-8 byte strings, and the regex engine reads them as runes. The model works on Unicode characters, so invalid UTF-8 is not represented.
- `ParsePayload` (the reader used for the round trip) only splits on `&` and `=`. A real receiver reads the body as `application/x-www-form-urlencoded` (licenses/service.go:66), so it also turns `+` into a space and decodes `%XX`. Names holding `+` or `%` are therefore also read back differently; that decoding step is not modelled, and the round trip is stated for the splitting reader only.

## Findings

| source | as written | input that shows it | evidently intended | confidence | as-written member | corrected member |
|---|---|---|---|---|---|---|
| licenses/service.go:146, 163-167 | `expirationDate` returns `index[0]` of `FindStringSubmatch`. When the collected text has no date, that result is nil, so a page whose identity and status both match crashes the call with an index-out-of-range panic. | any identity match with the text `"\nLicense Status: ACTIVE"` (`Service.MissingDateReachesPanic`) | report a recoverable error; here `ExpirationNotFound` with the license unchanged | high; not executed | Service.VerifyCollectedTextAsWritten | Service.VerifyCollectedText |
