/**
 * The verification pipeline of licenses/service.go: the search form sent to the registry,
 * the page outcome once the reply is parsed, the three-way fact extraction on the collected
 * text, and the error wrapping of `VerifyLicense`.
 *
 * The network exchange is a parameter (`exchange`: the request body in, the transport outcome
 * or the parsed page out); the identity regular expression, built at run time from the
 * license, is a parameter too (`matches`: pattern and text in, `MatchString`'s answer out).
 */
module Service {
  import opened Wrappers
  import opened Text
  import opened Html
  import opened Collector
  import opened Patterns
  import opened Licenses

  // ---------------------------------------------------------------------------
  // The search form
  // ---------------------------------------------------------------------------

  /** The body of the POST request: five `key=value` pairs joined by `&`, numbers in decimal,
      names as they are, nothing escaped. */
  function Payload(lic: License): (p: string)
    ensures p == Join(PayloadFieldList(lic), '&')
  {
    var b, t, n := Itoa(lic.desc.boardCode), Itoa(lic.desc.licenseCode), Itoa(lic.number);
    PayloadRegrouped(b, t, lic.firstName, lic.lastName, n);
    PayloadJoined(PayloadFieldList(lic));
    "boardCode=" + b + "&licenseType=" + t + "&firstName=" + lic.firstName +
    "&lastName=" + lic.lastName + "&licenseNumber=" + n
  }

  /** The five values a form reader gets back from the request body. */
  datatype SearchForm = SearchForm(
    boardCode: int, licenseType: int, firstName: string, lastName: string, licenseNumber: int)

  /** The form a license should produce. */
  function FormOf(lic: License): SearchForm {
    SearchForm(lic.desc.boardCode, lic.desc.licenseCode, lic.firstName, lic.lastName, lic.number)
  }

  /** The value of a `key=value` field, when the field is exactly that. */
  function FieldValue(field: string, key: string): Option<string> {
    var parts := Split(field, '=');
    if |parts| == 2 && parts[0] == key then Some(parts[1]) else None
  }

  /** A reader for the request body: splits on `&`, then each field on `=`, and reads the
      numbers back in decimal. */
  function ParsePayload(body: string): Option<SearchForm> {
    var fields := Split(body, '&');
    if |fields| != 5 then None
    else
      var b, t := FieldValue(fields[0], "boardCode"), FieldValue(fields[1], "licenseType");
      var f, l := FieldValue(fields[2], "firstName"), FieldValue(fields[3], "lastName");
      var n := FieldValue(fields[4], "licenseNumber");
      if b.Some? && t.Some? && f.Some? && l.Some? && n.Some? &&
         Atoi(b.value).Some? && Atoi(t.value).Some? && Atoi(n.value).Some?
      then Some(SearchForm(Atoi(b.value).value, Atoi(t.value).value, f.value, l.value,
                           Atoi(n.value).value))
      else None
  }

  /** Neither form delimiter occurs in `s`. */
  predicate NoDelimiters(s: string) {
    '&' !in s && '=' !in s
  }

  /** `Itoa` writes neither delimiter. */
  lemma ItoaHasNoDelimiters(n: int)
    ensures NoDelimiters(Itoa(n))
  {
  }

  /** A field `key=value` whose value has no delimiter reads back as that value. */
  lemma FieldValueOf(key: string, value: string)
    requires '=' !in key && '=' !in value
    ensures FieldValue(key + "=" + value, key) == Some(value)
  {
    SplitAtFirst(key, '=', value);
    SplitNoSeparator(value, '=');
  }

  /** Whatever the reader accepts has names free of delimiters. */
  lemma {:induction false} ParsedNamesHaveNoDelimiters(body: string)
    requires ParsePayload(body).Some?
    ensures NoDelimiters(ParsePayload(body).value.firstName)
    ensures NoDelimiters(ParsePayload(body).value.lastName)
  {
    var fields := Split(body, '&');
    forall i | 2 <= i <= 3
      ensures NoDelimiters(Split(fields[i], '=')[1])
    {
      var parts := Split(fields[i], '=');
      JoinSplit(fields[i], '=');
      assert Join(parts, '=') == parts[0] + ['='] + parts[1];
      assert '&' !in fields[i];
    }
  }

  /** The fields of the body, in order. */
  function PayloadFieldList(lic: License): seq<string> {
    ["boardCode=" + Itoa(lic.desc.boardCode), "licenseType=" + Itoa(lic.desc.licenseCode),
     "firstName=" + lic.firstName, "lastName=" + lic.lastName,
     "licenseNumber=" + Itoa(lic.number)]
  }

  /** Five fields joined by `&`, written out. */
  lemma PayloadJoined(f: seq<string>)
    requires |f| == 5
    ensures Join(f, '&') == f[0] + ['&'] + (f[1] + ['&'] + (f[2] + ['&'] + (f[3] + ['&'] + f[4])))
  {
    var f1 := f[1..];
    var f2 := f1[1..];
    var f3 := f2[1..];
    assert Join(f3, '&') == f3[0] + ['&'] + Join(f3[1..], '&') == f[3] + ['&'] + f[4];
    assert Join(f2, '&') == f[2] + ['&'] + Join(f3, '&');
    assert Join(f1, '&') == f[1] + ['&'] + Join(f2, '&');
  }

  /** The body regrouped as field, `&`, rest. */
  lemma PayloadRegrouped(b: string, t: string, fn: string, ln: string, n: string)
    ensures "boardCode=" + b + "&licenseType=" + t + "&firstName=" + fn + "&lastName=" + ln +
            "&licenseNumber=" + n ==
            ("boardCode=" + b) + ['&'] + (("licenseType=" + t) + ['&'] + (("firstName=" + fn) +
            ['&'] + (("lastName=" + ln) + ['&'] + ("licenseNumber=" + n))))
  {
    assert "&licenseType=" == ['&'] + "licenseType=";
    assert "&firstName=" == ['&'] + "firstName=";
    assert "&lastName=" == ['&'] + "lastName=";
    assert "&licenseNumber=" == ['&'] + "licenseNumber=";
  }

  /** With delimiter-free names the body splits on `&` into exactly the five fields. */
  lemma PayloadFields(lic: License)
    requires NoDelimiters(lic.firstName) && NoDelimiters(lic.lastName)
    ensures Split(Payload(lic), '&') == PayloadFieldList(lic)
  {
    ItoaHasNoDelimiters(lic.desc.boardCode);
    ItoaHasNoDelimiters(lic.desc.licenseCode);
    ItoaHasNoDelimiters(lic.number);
    var f := PayloadFieldList(lic);
    PayloadRegrouped(Itoa(lic.desc.boardCode), Itoa(lic.desc.licenseCode), lic.firstName,
                     lic.lastName, Itoa(lic.number));
    var r3 := f[3] + ['&'] + f[4];
    var r2 := f[2] + ['&'] + r3;
    var r1 := f[1] + ['&'] + r2;
    assert Payload(lic) == f[0] + ['&'] + r1;
    SplitNoSeparator(f[4], '&');
    SplitAtFirst(f[3], '&', f[4]);
    SplitAtFirst(f[2], '&', r3);
    SplitAtFirst(f[1], '&', r2);
    SplitAtFirst(f[0], '&', r1);
  }

  /** The five keys of the form hold no `=`. */
  lemma FormKeysHaveNoEquals()
    ensures '=' !in "boardCode" && '=' !in "licenseType" && '=' !in "firstName"
    ensures '=' !in "lastName" && '=' !in "licenseNumber"
  {
  }

  /** With delimiter-free names each field of the body reads back as the value it was built
      from. */
  lemma PayloadFieldValues(lic: License)
    requires NoDelimiters(lic.firstName) && NoDelimiters(lic.lastName)
    ensures var f := PayloadFieldList(lic);
      FieldValue(f[0], "boardCode") == Some(Itoa(lic.desc.boardCode)) &&
      FieldValue(f[1], "licenseType") == Some(Itoa(lic.desc.licenseCode)) &&
      FieldValue(f[2], "firstName") == Some(lic.firstName) &&
      FieldValue(f[3], "lastName") == Some(lic.lastName) &&
      FieldValue(f[4], "licenseNumber") == Some(Itoa(lic.number))
  {
    FormKeysHaveNoEquals();
    ItoaHasNoDelimiters(lic.desc.boardCode);
    ItoaHasNoDelimiters(lic.desc.licenseCode);
    ItoaHasNoDelimiters(lic.number);
    assert "boardCode=" == "boardCode" + "=";
    FieldValueOf("boardCode", Itoa(lic.desc.boardCode));
    assert "licenseType=" == "licenseType" + "=";
    FieldValueOf("licenseType", Itoa(lic.desc.licenseCode));
    assert "firstName=" == "firstName" + "=";
    FieldValueOf("firstName", lic.firstName);
    assert "lastName=" == "lastName" + "=";
    FieldValueOf("lastName", lic.lastName);
    assert "licenseNumber=" == "licenseNumber" + "=";
    FieldValueOf("licenseNumber", Itoa(lic.number));
  }

  /** With delimiter-free names the reader gets back exactly the license's five values. */
  lemma PayloadReadsBack(lic: License)
    requires NoDelimiters(lic.firstName) && NoDelimiters(lic.lastName)
    ensures ParsePayload(Payload(lic)) == Some(FormOf(lic))
  {
    PayloadFields(lic);
    PayloadFieldValues(lic);
    ItoaRoundTrip(lic.desc.boardCode);
    ItoaRoundTrip(lic.desc.licenseCode);
    ItoaRoundTrip(lic.number);
  }

  /** The round trip of the search form: reading the body back gives the license's five values
      exactly when neither name contains `&` or `=`; otherwise the unescaped names break it. */
  lemma PayloadRoundTrip(lic: License)
    ensures ParsePayload(Payload(lic)) == Some(FormOf(lic)) <==>
      NoDelimiters(lic.firstName) && NoDelimiters(lic.lastName)
  {
    if NoDelimiters(lic.firstName) && NoDelimiters(lic.lastName) {
      PayloadReadsBack(lic);
    } else if ParsePayload(Payload(lic)).Some? {
      ParsedNamesHaveNoDelimiters(Payload(lic));
    }
  }

  // ---------------------------------------------------------------------------
  // Fact extraction (verifyCollectedText, expirationDate)
  // ---------------------------------------------------------------------------

  /** The identity pattern: the upper-cased "LAST, FIRST", the license number and the license
      type name, joined by the separator fragments exactly as the Go source spells them. */
  function MatchExpression(lic: License): (p: string)
    ensures ToUpper(lic.lastName) + ", " + ToUpper(lic.firstName) <= p
    ensures |lic.desc.name| <= |p| && p[|p| - |lic.desc.name|..] == lic.desc.name
  {
    ToUpperAppend(lic.lastName + ", ", lic.firstName);
    ToUpperAppend(lic.lastName, ", ");
    ToUpperKeepsCapitals(", ");
    ToUpper(lic.lastName + ", " + lic.firstName) + "+\\s+License Number:+\\s+" +
    Itoa(lic.number) + "+\\s+License Type:+\\s+" + lic.desc.name
  }

  /** The status read from the matched fragment: its last `:`-separated piece with the blanks
      at both ends removed. It never holds a colon and never starts or ends with a blank. */
  function StatusOf(fragment: string): (st: string)
    ensures StatusValue(st)
  {
    var piece := LastPiece(Split(fragment, ':'));
    TrimWithout(piece, ':');
    Trim(piece)
  }

  /** `expirationDate(s)`: element 0 of the date pattern's first match. Go panics when there
      is no match; here that case is excluded by the precondition. */
  function ExpirationDate(s: string): (d: string)
    requires FindDate(s).Some?
    ensures IsDateShaped(d)
    ensures d == s[DateSpan(s, 0).value.0..DateSpan(s, 0).value.1]
  {
    FindDateIsLeftmostMatch(s);
    FindDate(s).value
  }

  /** `verifyCollectedText` as the Go code is written: it can only return when the date
      pattern matches, because `expirationDate` indexes the match list unconditionally. */
  function VerifyCollectedTextAsWritten(s: string, lic: License, matches: (string, string) -> bool): (r: Reply)
    requires matches(MatchExpression(lic), s) && FindStatus(s).Some? ==> FindDate(s).Some?
    ensures r == VerifyCollectedText(s, lic, matches)
  {
    if matches(MatchExpression(lic), s) then
      match FindStatus(s)
      case None => Reply(lic, Some(StatusNotFound))
      case Some(fragment) =>
        Reply(Verified(lic, fragment, s), None)
    else
      Reply(lic.(verify := false), Some(NoMatch))
  }

  /** A trimmed text: empty, or neither starting nor ending with a blank. */
  predicate Trimmed(t: string) {
    t == [] || (t[0] != ' ' && t[|t| - 1] != ' ')
  }

  /** What a status read from the page looks like: no colon, no blank at either end. */
  predicate StatusValue(t: string) {
    ':' !in t && Trimmed(t)
  }

  /** The license after a full match: verified, with the status read from `fragment` and the
      expiration read from `s`; the identity fields are kept. */
  function Verified(lic: License, fragment: string, s: string): (l: License)
    requires FindDate(s).Some?
    ensures l.verify && SameIdentity(l, lic)
    ensures l.status == StatusOf(fragment) && StatusValue(l.status)
    ensures l.expiration == ExpirationDate(s) && IsDateShaped(l.expiration)
  {
    var status := StatusOf(fragment);
    var expiration := ExpirationDate(s);
    License(lic.number, lic.firstName, lic.lastName, lic.desc, true, status, expiration)
  }

  /** `verifyCollectedText` with the missing-date case reported as `ExpirationNotFound`
      (license unchanged) instead of an out-of-range index. The three outcomes of the source:
      no identity match sets `verify` to false and changes nothing else; a match without a
      status line changes nothing; a full match sets `verify`, the status and the expiration
      and keeps the identity. */
  function VerifyCollectedText(s: string, lic: License, matches: (string, string) -> bool): (r: Reply)
    ensures r.err == Some(NoMatch) <==> !matches(MatchExpression(lic), s)
    ensures r.err == Some(NoMatch) ==> r.license == lic.(verify := false)
    ensures r.err == Some(StatusNotFound) <==> matches(MatchExpression(lic), s) && FindStatus(s).None?
    ensures r.err.None? <==>
      matches(MatchExpression(lic), s) && FindStatus(s).Some? && FindDate(s).Some?
    ensures r.err.Some? && r.err != Some(NoMatch) ==> r.license == lic
    ensures r.err.None? ==>
      r.license.verify && SameIdentity(r.license, lic) && StatusValue(r.license.status) &&
      IsDateShaped(r.license.expiration)
    ensures r.err.None? ==>
      r.license.status == StatusOf(FindStatus(s).value) &&
      r.license.expiration == FindDate(s).value
  {
    if !matches(MatchExpression(lic), s) then Reply(lic.(verify := false), Some(NoMatch))
    else if FindStatus(s).None? then Reply(lic, Some(StatusNotFound))
    else if FindDate(s).None? then Reply(lic, Some(ExpirationNotFound))
    else Reply(Verified(lic, FindStatus(s).value, s), None)
  }

  /** On success the expiration is the leftmost slice of the whole text that has the date's
      shape: no date-shaped slice starts further left. */
  lemma ExpirationIsLeftmostDate(s: string, lic: License, matches: (string, string) -> bool)
    requires VerifyCollectedText(s, lic, matches).err.None?
    ensures DateSpan(s, 0).Some?
    ensures var i, e := DateSpan(s, 0).value.0, DateSpan(s, 0).value.1;
      i <= e <= |s| && VerifyCollectedText(s, lic, matches).license.expiration == s[i..e] &&
      IsDateShaped(s[i..e]) &&
      forall i', e' :: 0 <= i' < i && i' <= e' <= |s| ==> !IsDateShaped(s[i'..e'])
  {
    FindDateIsLeftmostMatch(s);
  }

  /** When only blanks separate `License Status:` from the value and the value holds no colon,
      the status is the rest of the label's line with its blanks trimmed. */
  lemma StatusIsRestOfLine(s: string, i: nat, j: nat)
    requires StatusSpan(s, 0) == Some((i, j))
    requires forall k :: j + |StatusLabel| <= k < SkipSpaces(s, j + |StatusLabel|) ==> s[k] == ' '
    requires ':' !in s[j + |StatusLabel|..SkipToBreak(s, j + |StatusLabel|)]
    ensures StatusOf(FindStatus(s).value) == Trim(s[j + |StatusLabel|..SkipToBreak(s, j + |StatusLabel|)])
  {
    var m := j + |StatusLabel|;
    StatusFragment(s, i, j);
    SkipToBreakOverBlanks(s, m, SkipSpaces(s, m));
    StatusOfFragmentAfterColon(s, i, m, SkipToBreak(s, m));
  }

  /** The status match runs from its line break to `StatusEnd`, past the label's colon. */
  lemma StatusFragment(s: string, i: nat, j: nat)
    requires StatusSpan(s, 0) == Some((i, j))
    ensures LabelAt(s, j) && i < j + |StatusLabel| <= StatusEnd(s, j)
    ensures FindStatus(s) == Some(s[i..StatusEnd(s, j)])
    ensures s[j + |StatusLabel| - 1] == ':'
  {
    assert s[j..j + |StatusLabel|][|StatusLabel| - 1] == StatusLabel[|StatusLabel| - 1];
  }

  /** A fragment `s[i..e]` whose last colon sits just before `m` gives the status
      `Trim(s[m..e])`. */
  lemma StatusOfFragmentAfterColon(s: string, i: nat, m: nat, e: nat)
    requires i < m <= e <= |s| && s[m - 1] == ':' && ':' !in s[m..e]
    ensures StatusOf(s[i..e]) == Trim(s[m..e])
  {
    var f, p := s[i..e], m - 1 - i;
    assert f[p] == ':' && f[p + 1..] == s[m..e];
    StatusOfAfterColon(f, p);
  }

  /** When `f[p]` is the last colon of `f`, the status is the rest of `f`, trimmed. */
  lemma StatusOfAfterColon(f: string, p: nat)
    requires p < |f| && f[p] == ':' && ':' !in f[p + 1..]
    ensures StatusOf(f) == Trim(f[p + 1..])
  {
    LastPieceAfter(f, ':', p);
  }

  /** Skipping blanks first does not move the end of the line. */
  lemma {:induction false} SkipToBreakOverBlanks(s: string, m: nat, m': nat)
    requires m <= m' <= |s|
    requires forall k :: m <= k < m' ==> s[k] == ' '
    ensures SkipToBreak(s, m) == SkipToBreak(s, m')
    decreases m' - m
  {
    if m < m' {
      SkipToBreakOverBlanks(s, m + 1, m');
    }
  }

  /** The text used by `MissingDateReachesPanic`. */
  const StatusWithoutDate: string := "\nLicense Status: ACTIVE"

  lemma StatusWithoutDateHasStatus()
    ensures FindStatus(StatusWithoutDate).Some?
  {
    var s := StatusWithoutDate;
    assert s == "\n" + StatusLabel + " ACTIVE";
    assert s[1..1 + |StatusLabel|] == StatusLabel;
    assert StatusPrefixAt(s, 0, 1);
    FindStatusIsLeftmostMatch(s);
  }

  lemma StatusWithoutDateHasNoDate()
    ensures FindDate(StatusWithoutDate).None?
  {
    var s := StatusWithoutDate;
    assert forall k :: 0 <= k < |s| ==> s[k] != ',';
    forall i, e | 0 <= i <= e <= |s| ensures !IsDateShaped(s[i..e]) {
    }
    FindDateIsLeftmostMatch(s);
  }

  /** An identity match and a status line with no date anywhere in the text: the Go code
      reaches `index[0]` on a nil slice here, so `VerifyCollectedTextAsWritten` cannot be
      applied, while `VerifyCollectedText` reports `ExpirationNotFound`. */
  lemma MissingDateReachesPanic(lic: License)
    ensures var matchAll := (pattern: string, text: string) => true;
      !(matchAll(MatchExpression(lic), StatusWithoutDate) && FindStatus(StatusWithoutDate).Some? ==>
        FindDate(StatusWithoutDate).Some?) &&
      VerifyCollectedText(StatusWithoutDate, lic, matchAll) == Reply(lic, Some(ExpirationNotFound))
  {
    StatusWithoutDateHasStatus();
    StatusWithoutDateHasNoDate();
  }

  /** On success, with only blanks after the label and no colon in the value, the license's
      status is the rest of the label's line, trimmed. */
  lemma VerifiedStatusIsRestOfLine(s: string, lic: License, matches: (string, string) -> bool,
                                   i: nat, j: nat)
    requires VerifyCollectedText(s, lic, matches).err.None?
    requires StatusSpan(s, 0) == Some((i, j))
    requires forall k :: j + |StatusLabel| <= k < SkipSpaces(s, j + |StatusLabel|) ==> s[k] == ' '
    requires ':' !in s[j + |StatusLabel|..SkipToBreak(s, j + |StatusLabel|)]
    ensures VerifyCollectedText(s, lic, matches).license.status ==
      Trim(s[j + |StatusLabel|..SkipToBreak(s, j + |StatusLabel|)])
  {
    StatusIsRestOfLine(s, i, j);
  }

  /** A text whose status line ends right after the label. */
  const EmptyStatusText: string := "a 01, 2030\nLicense Status:"

  lemma EmptyStatusTextHasDate()
    ensures DateSpan(EmptyStatusText, 0) == Some((0, 10))
  {
    var s := EmptyStatusText;
    assert s[0] == 'a' && s[1] == ' ' && s[2] == '0' && s[3] == '1' && s[4] == ',';
    assert s[5] == ' ' && s[6] == '2' && s[7] == '0' && s[8] == '3' && s[9] == '0';
    assert WordEnd(s, 1) == 1;
    assert WordEnd(s, 0) == 1;
    assert DateEndAt(s, 0) == Some(10);
  }

  /** The text's last line is exactly the label. */
  lemma EmptyStatusTextLabelLine()
    ensures LabelAt(EmptyStatusText, 11) && LineEnd(EmptyStatusText, 11) == |EmptyStatusText|
  {
    var s := EmptyStatusText;
    assert s == "a 01, 2030" + "\n" + StatusLabel;
    assert s[11..] == StatusLabel;
    assert '\n' !in s[11..];
    forall k | 11 <= k < |s| ensures s[k] != '\n' {
      assert s[k] == s[11..][k - 11];
    }
  }

  /** The scan passes over the date line and stops at the line break before the label. */
  lemma EmptyStatusTextSpan()
    ensures StatusSpan(EmptyStatusText, 0) == Some((10, 11))
  {
    var s := EmptyStatusText;
    assert s[0] == 'a' && s[1] == ' ' && s[2] == '0' && s[3] == '1' && s[4] == ',';
    assert s[5] == ' ' && s[6] == '2' && s[7] == '0' && s[8] == '3' && s[9] == '0';
    assert s[10] == '\n';
    StatusSpanSkips(s, 0, 10);
    EmptyStatusTextLabelLine();
    assert LastLabel(s, 11, |s|) == Some(11);
  }

  lemma EmptyStatusTextHasStatus()
    ensures FindStatus(EmptyStatusText) == Some(EmptyStatusText[10..])
  {
    var s := EmptyStatusText;
    EmptyStatusTextSpan();
    EmptyStatusTextLabelLine();
    assert |s| == 11 + |StatusLabel|;
    assert SkipSpaces(s, |s|) == |s| && SkipToBreak(s, |s|) == |s|;
    assert StatusEnd(s, 11) == |s|;
    assert FindStatus(s) == Some(s[10..|s|]);
    assert s[10..|s|] == s[10..];
  }

  /** The code reports success with an empty status when nothing follows the label on its
      line: here the status is `""` while `Verify` is set. */
  lemma SuccessWithEmptyStatus(lic: License)
    ensures var r := VerifyCollectedText(EmptyStatusText, lic, (pattern: string, text: string) => true);
      r.err.None? && r.license.verify && r.license.status == ""
  {
    EmptyStatusTextHasDate();
    EmptyStatusTextHasStatus();
    var f := EmptyStatusText[10..];
    assert f[|f| - 1] == ':' && f[|f|..] == [];
    StatusOfAfterColon(f, |f| - 1);
    assert Trim([]) == [];
  }

  // ---------------------------------------------------------------------------
  // The page outcome and the error wrapping (createDcaPost, VerifyLicense)
  // ---------------------------------------------------------------------------

  /** What the HTTP exchange produced: one of the three transport failures, or the parsed
      reply body. */
  datatype Response =
    | RequestError(reason: string)
    | DoError(reason: string)
    | ReadError(reason: string)
    | Page(doc: Node)

  /** The error each transport failure is reported as. */
  function TransportError(response: Response): Error
    requires !response.Page?
  {
    match response
    case RequestError(reason) => RequestFailed(reason)
    case DoError(reason) => SendFailed(reason)
    case ReadError(reason) => ReadFailed(reason)
  }

  /** `createDcaPost`: sends the form, returns the license unchanged with the transport error
      if the exchange fails, with "Bad html" if the page has no (or an empty) actions list,
      and otherwise hands the collected text to fact extraction. */
  method CreateDcaPost(license: License, exchange: string -> Response, matches: (string, string) -> bool)
    returns (r: Reply)
    ensures var response := exchange(Payload(license));
      !response.Page? ==> r == Reply(license, Some(TransportError(response)))
    ensures var response := exchange(Payload(license));
      response.Page? && CollectedText(response.doc) == "" ==> r == Reply(license, Some(BadHtml))
    ensures var response := exchange(Payload(license));
      response.Page? && CollectedText(response.doc) != "" ==>
        r == VerifyCollectedText(CollectedText(response.doc), license, matches)
  {
    var payload := Payload(license);
    var response := exchange(payload);
    if !response.Page? {
      return Reply(license, Some(TransportError(response)));
    }
    var collectedText := new StringRef("");
    HtmlNodeTraversal(response.doc, collectedText);
    if collectedText.value == "" {
      return Reply(license, Some(BadHtml));
    }
    r := VerifyCollectedText(collectedText.value, license, matches);
  }

  /** The prefix `VerifyLicense` puts on every error. */
  function WrapError(err: Option<Error>): (w: Option<Error>)
    ensures w.None? <==> err.None?
    ensures w.Some? ==> Message(w.value) == "Failed to Verify: " + Message(err.value)
  {
    match err
    case None => None
    case Some(e) => Some(FailedToVerify(e))
  }

  /** `VerifyLicense`: the reply of `createDcaPost` with every error prefixed by
      "Failed to Verify: " and the license passed through. */
  method VerifyLicense(lic: License, exchange: string -> Response, matches: (string, string) -> bool)
    returns (r: Reply)
    ensures var response := exchange(Payload(lic));
      !response.Page? ==> r == Reply(lic, Some(FailedToVerify(TransportError(response))))
    ensures var response := exchange(Payload(lic));
      response.Page? && CollectedText(response.doc) == "" ==>
        r == Reply(lic, Some(FailedToVerify(BadHtml)))
    ensures var response := exchange(Payload(lic));
      response.Page? && CollectedText(response.doc) != "" ==>
        var v := VerifyCollectedText(CollectedText(response.doc), lic, matches);
        r == Reply(v.license, WrapError(v.err))
    ensures r.err.Some? ==> Message(r.err.value)[..18] == "Failed to Verify: "
  {
    var license := CreateDcaPost(lic, exchange, matches);
    if license.err.Some? {
      return Reply(license.license, Some(FailedToVerify(license.err.value)));
    }
    return license;
  }
}
