/**
 * The pieces of Go's `strings` and `strconv` packages that licenses/service.go relies on:
 * `strings.Split` with a one-character separator, `strings.Trim` with the cutset " ",
 * `strings.ToUpper` (ASCII letters only), `strconv.Itoa`, and a decimal reader that
 * undoes `Itoa`.
 */
module Text {

  // ---------------------------------------------------------------------------
  // strings.Split(s, string(c))
  // ---------------------------------------------------------------------------

  /** The pieces of `s` between occurrences of `c`, as `strings.Split` returns them:
      never empty, and no piece contains the separator. */
  function Split(s: string, c: char): (r: seq<string>)
    ensures |r| >= 1
    ensures forall k :: 0 <= k < |r| ==> c !in r[k]
    decreases |s|
  {
    if s == [] then [""]
    else if s[0] == c then [""] + Split(s[1..], c)
    else
      var rest := Split(s[1..], c);
      [[s[0]] + rest[0]] + rest[1..]
  }

  /** `strings.Join(pieces, string(c))`: the inverse of `Split`. */
  function Join(pieces: seq<string>, c: char): string
    requires |pieces| >= 1
    decreases |pieces|
  {
    if |pieces| == 1 then pieces[0] else pieces[0] + [c] + Join(pieces[1..], c)
  }

  /** Splitting and joining again gives back the original text. */
  lemma {:induction false} JoinSplit(s: string, c: char)
    ensures Join(Split(s, c), c) == s
    decreases |s|
  {
    if s == [] {
    } else if s[0] == c {
      JoinSplit(s[1..], c);
      var rest := Split(s[1..], c);
      assert Split(s, c) == [""] + rest;
      assert Join([""] + rest, c) == [c] + Join(rest, c);
      assert s == [c] + s[1..];
    } else {
      JoinSplit(s[1..], c);
      var rest := Split(s[1..], c);
      assert Split(s, c) == [[s[0]] + rest[0]] + rest[1..];
      if |rest| == 1 {
        assert Join(rest, c) == rest[0];
      } else {
        assert Join(rest, c) == rest[0] + [c] + Join(rest[1..], c);
        assert ([[s[0]] + rest[0]] + rest[1..])[1..] == rest[1..];
      }
      assert s == [s[0]] + s[1..];
    }
  }

  /** Text without the separator is a single piece. */
  lemma {:induction false} SplitNoSeparator(s: string, c: char)
    requires c !in s
    ensures Split(s, c) == [s]
    decreases |s|
  {
    if s != [] {
      assert s[0] != c;
      SplitNoSeparator(s[1..], c);
      assert [s[0]] + s[1..] == s;
    }
  }

  /** A leading piece free of the separator, the separator, then the rest: the first piece
      is that prefix and the remaining pieces are those of the rest. */
  lemma {:induction false} SplitAtFirst(a: string, c: char, b: string)
    requires c !in a
    ensures Split(a + [c] + b, c) == [a] + Split(b, c)
    decreases |a|
  {
    if a == [] {
      assert a + [c] + b == [c] + b;
      assert ([c] + b)[1..] == b;
    } else {
      assert a[0] != c;
      SplitAtFirst(a[1..], c, b);
      assert (a + [c] + b)[1..] == a[1..] + [c] + b;
      assert [a[0]] + a[1..] == a;
    }
  }

  /** The last piece of a split. */
  function LastPiece(pieces: seq<string>): string
    requires |pieces| >= 1
  {
    pieces[|pieces| - 1]
  }

  /** The last piece of `Split(s, c)` is the text after the last `c` in `s`: a suffix of `s`
      free of `c`, which is either all of `s` or preceded by `c`. */
  lemma {:induction false} LastPieceIsTail(s: string, c: char)
    ensures var t := LastPiece(Split(s, c));
      |t| <= |s| && t == s[|s| - |t|..] && c !in t &&
      (|t| == |s| || s[|s| - |t| - 1] == c)
    decreases |s|
  {
    if s != [] {
      LastPieceIsTail(s[1..], c);
      var rest := Split(s[1..], c);
      if s[0] == c {
        assert Split(s, c) == [""] + rest;
        assert LastPiece(Split(s, c)) == LastPiece(rest);
      } else if |rest| == 1 {
        JoinSplit(s[1..], c);
        assert Split(s, c) == [[s[0]] + rest[0]];
        assert [s[0]] + s[1..] == s;
      } else {
        var t := LastPiece(rest);
        assert LastPiece(Split(s, c)) == t;
        if |t| == |s| - 1 {
          SplitNoSeparator(s[1..], c);
          assert false;
        }
      }
    }
  }

  /** When `s[p]` is the last `c` in `s`, the last piece of `Split(s, c)` is what follows it. */
  lemma LastPieceAfter(s: string, c: char, p: nat)
    requires p < |s| && s[p] == c && c !in s[p + 1..]
    ensures LastPiece(Split(s, c)) == s[p + 1..]
  {
    LastPieceIsTail(s, c);
    var t := LastPiece(Split(s, c));
    var q := |s| - |t|;
    assert forall x :: q <= x < |s| ==> s[x] != c by {
      forall x | q <= x < |s| ensures s[x] != c { assert s[x] == t[x - q]; }
    }
    assert forall x :: p + 1 <= x < |s| ==> s[x] != c by {
      forall x | p + 1 <= x < |s| ensures s[x] != c { assert s[x] == s[p + 1..][x - p - 1]; }
    }
    assert q == p + 1;
  }

  // ---------------------------------------------------------------------------
  // strings.Trim(s, " ")
  // ---------------------------------------------------------------------------

  /** `s` is blanks only. */
  predicate AllSpaces(s: string) {
    forall k :: 0 <= k < |s| ==> s[k] == ' '
  }

  /** The end of the run of blanks that starts at `i`. */
  function BlanksEnd(s: string, i: nat): (r: nat)
    requires i <= |s|
    ensures i <= r <= |s|
    ensures forall k :: i <= k < r ==> s[k] == ' '
    ensures r == |s| || s[r] != ' '
    decreases |s| - i
  {
    if i == |s| || s[i] != ' ' then i else BlanksEnd(s, i + 1)
  }

  /** The start of the run of blanks that ends at `hi`, looking no further left than `lo`. */
  function BlanksStart(s: string, lo: nat, hi: nat): (r: nat)
    requires lo <= hi <= |s|
    ensures lo <= r <= hi
    ensures forall k :: r <= k < hi ==> s[k] == ' '
    ensures r == lo || s[r - 1] != ' '
    decreases hi
  {
    if hi == lo || s[hi - 1] != ' ' then hi else BlanksStart(s, lo, hi - 1)
  }

  /** `strings.Trim(s, " ")`: the part of `s` left once the blanks at both ends are gone. */
  function Trim(s: string): (r: string)
    ensures r == [] || (r[0] != ' ' && r[|r| - 1] != ' ')
  {
    var lo := BlanksEnd(s, 0);
    s[lo..BlanksStart(s, lo, |s|)]
  }

  /** What `Trim` removes is blanks only, and only at the two ends: the result is a slice of
      `s` with nothing but blanks before it and nothing but blanks after it. */
  lemma TrimIsInfix(s: string)
    ensures var lo := BlanksEnd(s, 0);
      var hi := lo + |Trim(s)|;
      hi <= |s| && Trim(s) == s[lo..hi] && AllSpaces(s[..lo]) && AllSpaces(s[hi..])
  {
    var lo := BlanksEnd(s, 0);
    var hi := BlanksStart(s, lo, |s|);
    assert Trim(s) == s[lo..hi];
    assert forall k :: 0 <= k < lo ==> s[..lo][k] == ' ';
    assert forall k :: 0 <= k < |s| - hi ==> s[hi..][k] == ' ';
  }

  /** A text without blanks at its ends is its own trim. */
  lemma TrimKeepsTrimmed(s: string)
    requires s == [] || (s[0] != ' ' && s[|s| - 1] != ' ')
    ensures Trim(s) == s
  {
    assert BlanksEnd(s, 0) == 0;
    assert BlanksStart(s, 0, |s|) == |s|;
    assert s[0..|s|] == s;
  }

  /** Every character of a trimmed text comes from the text. */
  lemma TrimKeepsCharacters(s: string, x: char)
    requires x in Trim(s)
    ensures x in s
  {
    var lo := BlanksEnd(s, 0);
    var r := Trim(s);
    var k :| 0 <= k < |r| && r[k] == x;
    assert s[lo + k] == x;
  }

  /** A character absent from a text is absent from the trimmed text. */
  lemma TrimWithout(s: string, x: char)
    requires x !in s
    ensures x !in Trim(s)
  {
    if x in Trim(s) {
      TrimKeepsCharacters(s, x);
    }
  }

  /** Trimming is idempotent. */
  lemma TrimIdempotent(s: string)
    ensures Trim(Trim(s)) == Trim(s)
  {
    TrimKeepsTrimmed(Trim(s));
  }

  // ---------------------------------------------------------------------------
  // strings.ToUpper, on ASCII letters
  // ---------------------------------------------------------------------------

  predicate IsLowerAscii(ch: char) {
    'a' <= ch <= 'z'
  }

  function UpperChar(ch: char): (u: char)
    ensures !IsLowerAscii(u)
    ensures IsLowerAscii(ch) ==> u as int == ch as int - 32
    ensures !IsLowerAscii(ch) ==> u == ch
  {
    if IsLowerAscii(ch) then (ch as int - 32) as char else ch
  }

  /** `strings.ToUpper(s)` restricted to ASCII: every lower-case letter becomes its capital,
      everything else is kept, position by position. */
  function ToUpper(s: string): (r: string)
    ensures |r| == |s|
    ensures forall k :: 0 <= k < |s| ==> r[k] == UpperChar(s[k])
  {
    seq(|s|, k requires 0 <= k < |s| => UpperChar(s[k]))
  }

  /** Upper-casing works character by character, so it distributes over concatenation. */
  lemma ToUpperAppend(a: string, b: string)
    ensures ToUpper(a + b) == ToUpper(a) + ToUpper(b)
  {
    var l, r := ToUpper(a + b), ToUpper(a) + ToUpper(b);
    forall k | 0 <= k < |l| ensures l[k] == r[k] {
      if k < |a| {
        assert (a + b)[k] == a[k];
      } else {
        assert (a + b)[k] == b[k - |a|];
      }
    }
  }

  /** Text without lower-case letters is left as it is. */
  lemma ToUpperKeepsCapitals(s: string)
    requires forall k :: 0 <= k < |s| ==> !IsLowerAscii(s[k])
    ensures ToUpper(s) == s
  {
  }

  // ---------------------------------------------------------------------------
  // strconv.Itoa and its inverse
  // ---------------------------------------------------------------------------

  predicate IsDigit(ch: char) {
    '0' <= ch <= '9'
  }

  function DigitChar(d: nat): (ch: char)
    requires d < 10
    ensures IsDigit(ch)
  {
    (48 + d) as char
  }

  function DigitValue(ch: char): (d: nat)
    requires IsDigit(ch)
    ensures d < 10
  {
    ch as int - 48
  }

  /** The decimal digits of `n`, most significant first, with no leading zero. */
  function Decimal(n: nat): (r: string)
    ensures |r| >= 1
    ensures forall k :: 0 <= k < |r| ==> IsDigit(r[k])
    ensures r[0] == '0' ==> n == 0
  {
    if n < 10 then [DigitChar(n)] else Decimal(n / 10) + [DigitChar(n % 10)]
  }

  /** `strconv.Itoa(n)`: a minus sign for negative numbers, then the decimal digits. */
  function Itoa(n: int): (r: string)
    ensures |r| >= 1
    ensures forall k :: 0 <= k < |r| ==> IsDigit(r[k]) || (k == 0 && r[k] == '-' && n < 0)
  {
    if n < 0 then "-" + Decimal(-n) else Decimal(n)
  }

  /** The value of a run of decimal digits. */
  function DecimalValue(s: string): nat
    requires forall k :: 0 <= k < |s| ==> IsDigit(s[k])
    decreases |s|
  {
    if s == [] then 0 else DecimalValue(s[..|s| - 1]) * 10 + DigitValue(s[|s| - 1])
  }

  /** Reads a decimal integer written as `Itoa` writes one; `None` for anything else. */
  function Atoi(s: string): Option<int>
  {
    if |s| >= 1 && s[0] == '-' then
      if |s| >= 2 && forall k :: 1 <= k < |s| ==> IsDigit(s[k])
      then Some(-(DecimalValue(s[1..]) as int)) else None
    else if |s| >= 1 && forall k :: 0 <= k < |s| ==> IsDigit(s[k])
    then Some(DecimalValue(s)) else None
  }

  lemma {:induction false} DecimalRoundTrip(n: nat)
    ensures DecimalValue(Decimal(n)) == n
  {
    if n >= 10 {
      DecimalRoundTrip(n / 10);
      var r := Decimal(n);
      assert r[..|r| - 1] == Decimal(n / 10);
    }
  }

  /** Reading back what `Itoa` wrote gives the original number. */
  lemma ItoaRoundTrip(n: int)
    ensures Atoi(Itoa(n)) == Some(n)
  {
    if n < 0 {
      DecimalRoundTrip(-n);
      assert Itoa(n)[1..] == Decimal(-n);
    } else {
      DecimalRoundTrip(n);
    }
  }

  import opened Wrappers
}
