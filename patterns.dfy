/**
 * The two fixed regular expressions of licenses/service.go, evaluated as Go's RE2 engine
 * evaluates them (leftmost match, greedy repetition, `.` matching every character but '\n',
 * `\s` = [\t\n\f\r ], `\d` = [0-9], `\w` = [0-9A-Za-z_]):
 *
 *   status: `[\n\r].*License Status:\s*([^\n\r]*)`   (first match of FindAllString(s, 1))
 *   date:   `\w+\s\d{2},\s\d{4}`                      (first match of FindStringSubmatch(s))
 *
 * Each is computed by a scan over start positions and characterised by a predicate that reads
 * the pattern directly.
 */
module Patterns {
  import opened Wrappers
  import opened Text

  /** RE2's `\s`. */
  predicate IsSpace(ch: char) {
    ch == '\t' || ch == '\n' || ch == '\U{000C}' || ch == '\r' || ch == ' '
  }

  /** RE2's `\w`. */
  predicate IsWordChar(ch: char) {
    'a' <= ch <= 'z' || 'A' <= ch <= 'Z' || IsDigit(ch) || ch == '_'
  }

  /** The class `[\n\r]`. */
  predicate IsLineBreak(ch: char) {
    ch == '\n' || ch == '\r'
  }

  // ---------------------------------------------------------------------------
  // The date pattern  \w+\s\d{2},\s\d{4}
  // ---------------------------------------------------------------------------

  /** `t` as a whole matches `\w+\s\d{2},\s\d{4}`: a non-empty run of word characters, one
      blank, two digits, a comma, one blank, four digits. */
  predicate IsDateShaped(t: string) {
    |t| >= 10 &&
    (forall k :: 0 <= k < |t| - 9 ==> IsWordChar(t[k])) &&
    IsSpace(t[|t| - 9]) && IsDigit(t[|t| - 8]) && IsDigit(t[|t| - 7]) &&
    t[|t| - 6] == ',' && IsSpace(t[|t| - 5]) &&
    IsDigit(t[|t| - 4]) && IsDigit(t[|t| - 3]) && IsDigit(t[|t| - 2]) && IsDigit(t[|t| - 1])
  }

  /** The end of the run of word characters that starts at `i`. */
  function WordEnd(s: string, i: nat): (r: nat)
    requires i <= |s|
    ensures i <= r <= |s|
    ensures forall k :: i <= k < r ==> IsWordChar(s[k])
    ensures r == |s| || !IsWordChar(s[r])
    decreases |s| - i
  {
    if i == |s| || !IsWordChar(s[i]) then i else WordEnd(s, i + 1)
  }

  /** Where the date pattern, tried at position `i`, ends. Since `\s` is never a word
      character, `\w+` can only stop at the end of the word run; that leaves one try. */
  function DateEndAt(s: string, i: nat): Option<nat>
    requires i <= |s|
  {
    var k := WordEnd(s, i);
    if i < k && k + 9 <= |s| && IsSpace(s[k]) && IsDigit(s[k + 1]) && IsDigit(s[k + 2]) &&
       s[k + 3] == ',' && IsSpace(s[k + 4]) && IsDigit(s[k + 5]) && IsDigit(s[k + 6]) &&
       IsDigit(s[k + 7]) && IsDigit(s[k + 8])
    then Some(k + 9) else None
  }

  /** The pattern matches at `i` exactly when some date-shaped slice starts there, and the
      slice it matches is that one. */
  lemma DateEndAtIsMatch(s: string, i: nat, e: nat)
    requires i <= e <= |s|
    ensures DateEndAt(s, i) == Some(e) <==> IsDateShaped(s[i..e])
  {
    var k := WordEnd(s, i);
    var t := s[i..e];
    if IsDateShaped(t) {
      var w := e - 9;
      assert forall q :: i <= q < w ==> IsWordChar(s[q]) by {
        forall q | i <= q < w ensures IsWordChar(s[q]) { assert s[q] == t[q - i]; }
      }
      assert s[w] == t[|t| - 9];
      assert s[w + 1] == t[|t| - 8] && s[w + 2] == t[|t| - 7] && s[w + 3] == t[|t| - 6];
      assert s[w + 4] == t[|t| - 5] && s[w + 5] == t[|t| - 4] && s[w + 6] == t[|t| - 3];
      assert s[w + 7] == t[|t| - 2] && s[w + 8] == t[|t| - 1];
    }
  }

  /** The leftmost date match at or after `from`, as a start and end position. */
  function DateSpan(s: string, from: nat): (r: Option<(nat, nat)>)
    requires from <= |s|
    ensures r.Some? ==> from <= r.value.0 < r.value.1 <= |s|
    decreases |s| - from
  {
    if from == |s| then None
    else match DateEndAt(s, from)
      case Some(e) => Some((from, e))
      case None => DateSpan(s, from + 1)
  }

  /** The first match of the date pattern in `s`, `nil` being `None`. */
  function FindDate(s: string): (r: Option<string>)
    ensures r.Some? <==> DateSpan(s, 0).Some?
    ensures r.Some? ==> IsDateShaped(r.value)
  {
    DateSpanIsLeftmost(s, 0);
    match DateSpan(s, 0)
    case Some((i, e)) => Some(s[i..e])
    case None => None
  }

  /** No date-shaped slice of `s` starts in `[from, to)`. */
  ghost predicate NoDateIn(s: string, from: nat, to: nat) {
    forall i, e :: from <= i < to && i <= e <= |s| ==> !IsDateShaped(s[i..e])
  }

  /** `s[i..e]` is the leftmost date-shaped slice starting at or after `from`. */
  ghost predicate IsFirstDate(s: string, from: nat, i: nat, e: nat) {
    from <= i <= e <= |s| && IsDateShaped(s[i..e]) && NoDateIn(s, from, i)
  }

  /** The scan finds the leftmost date match at or after `from`, or none exactly when there
      is none. */
  lemma {:induction false} DateSpanIsLeftmost(s: string, from: nat)
    requires from <= |s|
    ensures DateSpan(s, from).None? ==> NoDateIn(s, from, |s|)
    ensures DateSpan(s, from).Some? ==>
      IsFirstDate(s, from, DateSpan(s, from).value.0, DateSpan(s, from).value.1)
    decreases |s| - from
  {
    if from == |s| {
      assert NoDateIn(s, from, |s|);
    } else if DateEndAt(s, from).Some? {
      DateSpanHere(s, from);
    } else {
      DateSpanIsLeftmost(s, from + 1);
      DateSpanLater(s, from);
    }
  }

  /** Where the pattern matches, the scan stops. */
  lemma DateSpanHere(s: string, from: nat)
    requires from < |s| && DateEndAt(s, from).Some?
    ensures DateSpan(s, from).Some?
    ensures IsFirstDate(s, from, DateSpan(s, from).value.0, DateSpan(s, from).value.1)
  {
    var e := DateEndAt(s, from).value;
    assert from + 10 <= e <= |s|;
    DateEndAtIsMatch(s, from, e);
    assert DateSpan(s, from) == Some((from, e));
    assert NoDateIn(s, from, from);
  }

  /** Where the pattern does not match, no date-shaped slice starts, and the scan's answer is
      the one from the next position. */
  lemma DateSpanLater(s: string, from: nat)
    requires from < |s| && DateEndAt(s, from).None?
    requires DateSpan(s, from + 1).None? ==> NoDateIn(s, from + 1, |s|)
    requires DateSpan(s, from + 1).Some? ==>
      IsFirstDate(s, from + 1, DateSpan(s, from + 1).value.0, DateSpan(s, from + 1).value.1)
    ensures DateSpan(s, from).None? ==> NoDateIn(s, from, |s|)
    ensures DateSpan(s, from).Some? ==>
      IsFirstDate(s, from, DateSpan(s, from).value.0, DateSpan(s, from).value.1)
  {
    forall e | from <= e <= |s| ensures !IsDateShaped(s[from..e]) {
      DateEndAtIsMatch(s, from, e);
    }
    assert DateSpan(s, from) == DateSpan(s, from + 1);
  }

  /** `FindDate` finds a date exactly when `s` holds a slice of the date's shape, and then it
      returns the leftmost such slice. */
  lemma FindDateIsLeftmostMatch(s: string)
    ensures FindDate(s).None? <==> forall i, e :: 0 <= i <= e <= |s| ==> !IsDateShaped(s[i..e])
    ensures FindDate(s).Some? ==>
      var i, e := DateSpan(s, 0).value.0, DateSpan(s, 0).value.1;
      i <= e <= |s| && FindDate(s).value == s[i..e] && IsDateShaped(s[i..e]) &&
      forall i', e' :: 0 <= i' < i && i' <= e' <= |s| ==> !IsDateShaped(s[i'..e'])
  {
    DateSpanIsLeftmost(s, 0);
    if DateSpan(s, 0).Some? {
      var i, e := DateSpan(s, 0).value.0, DateSpan(s, 0).value.1;
      assert FindDate(s).value == s[i..e];
    } else {
      forall i, e | 0 <= i <= e <= |s| ensures !IsDateShaped(s[i..e]) {
        if i == |s| {
          assert |s[i..e]| == 0;
        }
      }
    }
  }

  // ---------------------------------------------------------------------------
  // The status pattern  [\n\r].*License Status:\s*([^\n\r]*)
  // ---------------------------------------------------------------------------

  const StatusLabel: string := "License Status:"

  predicate LabelAt(s: string, j: nat) {
    j + |StatusLabel| <= |s| && s[j..j + |StatusLabel|] == StatusLabel
  }

  /** `[\n\r].*License Status:` matches `s[i..j + |StatusLabel|]`, with `.*` covering
      `s[i + 1..j]`. */
  predicate StatusPrefixAt(s: string, i: nat, j: nat) {
    i < j <= |s| && IsLineBreak(s[i]) &&
    (forall k :: i < k < j ==> s[k] != '\n') && LabelAt(s, j)
  }

  /** The first '\n' at or after `i`, or the end of `s`. */
  function LineEnd(s: string, i: nat): (r: nat)
    requires i <= |s|
    ensures i <= r <= |s|
    ensures forall k :: i <= k < r ==> s[k] != '\n'
    ensures r == |s| || s[r] == '\n'
    decreases |s| - i
  {
    if i == |s| || s[i] == '\n' then i else LineEnd(s, i + 1)
  }

  /** The last position in `[lo, hi)` where the label starts. */
  function LastLabel(s: string, lo: nat, hi: nat): (r: Option<nat>)
    requires hi <= |s|
    ensures r.Some? ==> lo <= r.value < hi && LabelAt(s, r.value)
    ensures forall j :: lo <= j < hi && LabelAt(s, j) ==> r.Some? && j <= r.value
    decreases hi
  {
    if hi <= lo then None
    else if LabelAt(s, hi - 1) then Some(hi - 1)
    else LastLabel(s, lo, hi - 1)
  }

  /** The end of the run of `\s` characters starting at `i`. */
  function SkipSpaces(s: string, i: nat): (r: nat)
    requires i <= |s|
    ensures i <= r <= |s|
    ensures forall k :: i <= k < r ==> IsSpace(s[k])
    ensures r == |s| || !IsSpace(s[r])
    decreases |s| - i
  {
    if i == |s| || !IsSpace(s[i]) then i else SkipSpaces(s, i + 1)
  }

  /** The end of the run of `[^\n\r]` characters starting at `i`. */
  function SkipToBreak(s: string, i: nat): (r: nat)
    requires i <= |s|
    ensures i <= r <= |s|
    ensures forall k :: i <= k < r ==> !IsLineBreak(s[k])
    ensures r == |s| || IsLineBreak(s[r])
    decreases |s| - i
  {
    if i == |s| || IsLineBreak(s[i]) then i else SkipToBreak(s, i + 1)
  }

  /** Where the whole status pattern ends once `License Status:` has matched at `j`: `\s*`
      and `[^\n\r]*` each take as much as they can. */
  function StatusEnd(s: string, j: nat): nat
    requires LabelAt(s, j)
  {
    SkipToBreak(s, SkipSpaces(s, j + |StatusLabel|))
  }

  /** The leftmost status match at or after `from`: the line break it starts at, where the
      label starts (greedy `.*` puts it as far right on the line as possible), and its end. */
  function StatusSpan(s: string, from: nat): (r: Option<(nat, nat)>)
    requires from <= |s|
    ensures r.Some? ==>
      from <= r.value.0 < r.value.1 < |s| && IsLineBreak(s[r.value.0]) && LabelAt(s, r.value.1)
    decreases |s| - from
  {
    if from == |s| then None
    else if IsLineBreak(s[from]) && LastLabel(s, from + 1, LineEnd(s, from + 1)).Some? then
      Some((from, LastLabel(s, from + 1, LineEnd(s, from + 1)).value))
    else StatusSpan(s, from + 1)
  }

  /** The label inside a line never crosses the line's end. */
  lemma LabelWithinLine(s: string, i: nat, j: nat)
    requires i <= j && LabelAt(s, j)
    requires forall k :: i <= k < j ==> s[k] != '\n'
    ensures j < LineEnd(s, i)
  {
    assert s[j] == s[j..j + |StatusLabel|][0] == 'L';
  }

  /** Positions that hold no line break are skipped by the scan. */
  lemma {:induction false} StatusSpanSkips(s: string, from: nat, to: nat)
    requires from <= to <= |s|
    requires forall k :: from <= k < to ==> !IsLineBreak(s[k])
    ensures StatusSpan(s, from) == StatusSpan(s, to)
    decreases |s| - from
  {
    if from < to {
      StatusSpanSkips(s, from + 1, to);
    }
  }

  /** The prefixes of the pattern that start at a line break `i` are those whose label is
      on the line after `i`; the greedy `.*` picks the last of them. */
  lemma StatusPrefixesAt(s: string, i: nat)
    requires i < |s| && IsLineBreak(s[i])
    ensures var last := LastLabel(s, i + 1, LineEnd(s, i + 1));
      (last.Some? ==> StatusPrefixAt(s, i, last.value)) &&
      (forall j: nat :: StatusPrefixAt(s, i, j) ==> last.Some? && j <= last.value)
  {
    var hi := LineEnd(s, i + 1);
    forall j: nat | StatusPrefixAt(s, i, j)
      ensures i + 1 <= j < hi && LabelAt(s, j)
    {
      LabelWithinLine(s, i + 1, j);
    }
  }

  /** No prefix of the pattern starts in `[from, to)`. */
  ghost predicate NoStatusPrefixIn(s: string, from: nat, to: nat) {
    forall i: nat, j: nat :: from <= i < to ==> !StatusPrefixAt(s, i, j)
  }

  /** `(i, j)` is the leftmost-first prefix match at or after `from`. */
  ghost predicate IsFirstStatusPrefix(s: string, from: nat, i: nat, j: nat) {
    from <= i && StatusPrefixAt(s, i, j) &&
    (forall j': nat :: StatusPrefixAt(s, i, j') ==> j' <= j) &&
    NoStatusPrefixIn(s, from, i)
  }

  /** The scan finds the leftmost status match, or none exactly when there is none. */
  lemma {:induction false} StatusSpanIsLeftmost(s: string, from: nat)
    requires from <= |s|
    ensures StatusSpan(s, from).None? ==> NoStatusPrefixIn(s, from, |s|)
    ensures StatusSpan(s, from).Some? ==>
      IsFirstStatusPrefix(s, from, StatusSpan(s, from).value.0, StatusSpan(s, from).value.1)
    decreases |s| - from
  {
    if from == |s| {
      assert NoStatusPrefixIn(s, from, |s|);
    } else if IsLineBreak(s[from]) && LastLabel(s, from + 1, LineEnd(s, from + 1)).Some? {
      StatusSpanHere(s, from);
    } else {
      StatusSpanIsLeftmost(s, from + 1);
      StatusSpanLater(s, from);
    }
  }

  /** A line break followed on its line by the label starts the match. */
  lemma StatusSpanHere(s: string, from: nat)
    requires from < |s| && IsLineBreak(s[from])
    requires LastLabel(s, from + 1, LineEnd(s, from + 1)).Some?
    ensures StatusSpan(s, from).Some?
    ensures IsFirstStatusPrefix(s, from, StatusSpan(s, from).value.0, StatusSpan(s, from).value.1)
  {
    StatusPrefixesAt(s, from);
    var last := LastLabel(s, from + 1, LineEnd(s, from + 1));
    assert StatusSpan(s, from) == Some((from, last.value));
    assert NoStatusPrefixIn(s, from, from);
  }

  /** Any other position starts no match, so the scan's answer is the one from the next
      position. */
  lemma StatusSpanLater(s: string, from: nat)
    requires from < |s|
    requires !(IsLineBreak(s[from]) && LastLabel(s, from + 1, LineEnd(s, from + 1)).Some?)
    requires StatusSpan(s, from + 1).None? ==> NoStatusPrefixIn(s, from + 1, |s|)
    requires StatusSpan(s, from + 1).Some? ==>
      IsFirstStatusPrefix(s, from + 1, StatusSpan(s, from + 1).value.0, StatusSpan(s, from + 1).value.1)
    ensures StatusSpan(s, from).None? ==> NoStatusPrefixIn(s, from, |s|)
    ensures StatusSpan(s, from).Some? ==>
      IsFirstStatusPrefix(s, from, StatusSpan(s, from).value.0, StatusSpan(s, from).value.1)
  {
    if IsLineBreak(s[from]) {
      StatusPrefixesAt(s, from);
    }
    assert forall j: nat :: !StatusPrefixAt(s, from, j);
    assert StatusSpan(s, from) == StatusSpan(s, from + 1);
  }

  /** The first match of the status pattern in `s`, `nil` being `None`. */
  function FindStatus(s: string): (r: Option<string>)
    ensures r.Some? <==> StatusSpan(s, 0).Some?
    ensures r.Some? ==> |r.value| > |StatusLabel| && IsLineBreak(r.value[0]) && ':' in r.value
  {
    match StatusSpan(s, 0)
    case Some((i, j)) =>
      var f := s[i..StatusEnd(s, j)];
      assert f[j + |StatusLabel| - 1 - i] == s[j..j + |StatusLabel|][|StatusLabel| - 1] == ':';
      Some(f)
    case None => None
  }

  /** `FindStatus` finds a match exactly when some line break is followed, on the same line,
      by the label; the match then starts at the first such line break, runs to the last label
      on that line, and then over `\s*` and `[^\n\r]*`. */
  lemma FindStatusIsLeftmostMatch(s: string)
    ensures FindStatus(s).None? <==> NoStatusPrefixIn(s, 0, |s|)
    ensures FindStatus(s).Some? ==>
      var (i, j) := StatusSpan(s, 0).value;
      IsFirstStatusPrefix(s, 0, i, j) && FindStatus(s).value == s[i..StatusEnd(s, j)]
  {
    StatusSpanIsLeftmost(s, 0);
  }
}
