/**
 * The Python string built-ins the citation verifier relies on, over `seq<char>`:
 * `str.strip()`, `str.replace(old, new)`, `str.split(sep)`, `sep.join(parts)`,
 * `str(int)` and its inverse `int(s)`.
 */
module PyStrings {

  type String = seq<char>

  // ---------------------------------------------------------------------------
  // Whitespace and strip()
  // ---------------------------------------------------------------------------

  /** The characters Python's `str.isspace()` accepts and `str.strip()` removes. */
  predicate IsWhitespace(c: char) {
    || ('\t' <= c <= '\r')
    || ('\U{1C}' <= c <= '\U{1F}')
    || c == ' '
    || c == '\U{85}'
    || c == '\U{A0}'
    || c == '\U{1680}'
    || ('\U{2000}' <= c <= '\U{200A}')
    || c == '\U{2028}'
    || c == '\U{2029}'
    || c == '\U{202F}'
    || c == '\U{205F}'
    || c == '\U{3000}'
  }

  predicate AllWhitespace(s: String) {
    forall i :: 0 <= i < |s| ==> IsWhitespace(s[i])
  }

  /** Neither end of `s` is whitespace: what `strip()` leaves behind. */
  predicate Trimmed(s: String) {
    s == [] || (!IsWhitespace(s[0]) && !IsWhitespace(s[|s| - 1]))
  }

  /** `str.lstrip()`: the longest suffix of `s` that does not start with whitespace. */
  function LStrip(s: String): (r: String)
    ensures |r| <= |s| && r == s[|s| - |r|..]
    ensures AllWhitespace(s[..|s| - |r|])
    ensures r == [] || !IsWhitespace(r[0])
    decreases |s|
  {
    if |s| > 0 && IsWhitespace(s[0]) then
      var r := LStrip(s[1..]);
      assert s[..|s| - |r|] == [s[0]] + s[1..][..|s| - 1 - |r|];
      r
    else s
  }

  /** `str.rstrip()`: the longest prefix of `s` that does not end with whitespace. */
  function RStrip(s: String): (r: String)
    ensures |r| <= |s| && r == s[..|r|]
    ensures AllWhitespace(s[|r|..])
    ensures r == [] || !IsWhitespace(r[|r| - 1])
    decreases |s|
  {
    if |s| > 0 && IsWhitespace(s[|s| - 1]) then
      var r := RStrip(s[..|s| - 1]);
      assert s[|r|..] == s[..|s| - 1][|r|..] + [s[|s| - 1]];
      r
    else s
  }

  /** `str.strip()`: remove leading and trailing whitespace. */
  function Strip(s: String): (r: String)
    ensures Trimmed(r)
    ensures |r| <= |s|
  {
    RStrip(LStrip(s))
  }

  lemma {:induction false} LStripPadded(w: String, t: String)
    requires AllWhitespace(w)
    requires t == [] || !IsWhitespace(t[0])
    ensures LStrip(w + t) == t
    decreases |w|
  {
    if w == [] {
      assert w + t == t;
    } else {
      assert (w + t)[0] == w[0];
      assert (w + t)[1..] == w[1..] + t;
      LStripPadded(w[1..], t);
    }
  }

  lemma {:induction false} RStripPadded(t: String, w: String)
    requires AllWhitespace(w)
    requires t == [] || !IsWhitespace(t[|t| - 1])
    ensures RStrip(t + w) == t
    decreases |w|
  {
    if w == [] {
      assert t + w == t;
    } else {
      assert (t + w)[|t + w| - 1] == w[|w| - 1];
      assert (t + w)[..|t + w| - 1] == t + w[..|w| - 1];
      RStripPadded(t, w[..|w| - 1]);
    }
  }

  /** Stripping removes exactly the whitespace padding around a trimmed core. */
  lemma {:induction false} StripPadded(w1: String, d: String, w2: String)
    requires AllWhitespace(w1) && AllWhitespace(w2)
    requires Trimmed(d)
    ensures Strip(w1 + d + w2) == d
  {
    if d == [] {
      assert w1 + d + w2 == (w1 + w2) + [];
      assert AllWhitespace(w1 + w2) by {
        forall i | 0 <= i < |w1 + w2| ensures IsWhitespace((w1 + w2)[i]) {
          if i < |w1| { assert (w1 + w2)[i] == w1[i]; } else { assert (w1 + w2)[i] == w2[i - |w1|]; }
        }
      }
      LStripPadded(w1 + w2, []);
    } else {
      assert w1 + d + w2 == w1 + (d + w2);
      LStripPadded(w1, d + w2);
      RStripPadded(d, w2);
    }
  }

  /** `strip()` is idempotent. */
  lemma {:induction false} StripIdempotent(s: String)
    ensures Strip(Strip(s)) == Strip(s)
  {
    var r := Strip(s);
    Unpadded(r);
    StripPadded([], r, []);
  }

  // ---------------------------------------------------------------------------
  // Occurrences, replace(), split() and join()
  // ---------------------------------------------------------------------------

  predicate StartsWith(s: String, p: String) {
    |p| <= |s| && s[..|p|] == p
  }

  predicate EndsWith(s: String, p: String) {
    |p| <= |s| && s[|s| - |p|..] == p
  }

  lemma EndsWithConcat(a: String, b: String)
    ensures EndsWith(a + b, b)
  {
    assert (a + b)[|a + b| - |b|..] == b;
  }

  /** Python's `p in s`. */
  predicate Contains(s: String, p: String) {
    exists i :: 0 <= i <= |s| && StartsWith(s[i..], p)
  }

  /** No occurrence of `p` starts anywhere in `s`. */
  predicate NoOccurrence(s: String, p: String) {
    forall i :: 0 <= i < |s| ==> !StartsWith(s[i..], p)
  }

  /**
   * `s.replace(pat, rep)`: scanning left to right, every occurrence of `pat`
   * that does not overlap an earlier replaced one is replaced by `rep`.
   */
  function ReplaceAll(s: String, pat: String, rep: String): (r: String)
    requires |pat| > 0
    ensures |rep| <= |pat| ==> |r| <= |s|
    decreases |s|
  {
    if |s| == 0 then []
    else if StartsWith(s, pat) then rep + ReplaceAll(s[|pat|..], pat, rep)
    else [s[0]] + ReplaceAll(s[1..], pat, rep)
  }

  /**
   * `s.split(sep)`: the pieces between the occurrences that the same
   * left-to-right scan finds. The first piece is a prefix of `s`.
   */
  function SplitOn(s: String, sep: String): (r: seq<String>)
    requires |sep| > 0
    ensures |r| >= 1
    ensures |r[0]| <= |s| && r[0] == s[..|r[0]|]
    decreases |s|
  {
    if |s| == 0 then [[]]
    else if StartsWith(s, sep) then [[]] + SplitOn(s[|sep|..], sep)
    else
      var rest := SplitOn(s[1..], sep);
      assert [s[0]] + rest[0] == s[..1 + |rest[0]|];
      [[s[0]] + rest[0]] + rest[1..]
  }

  /** Concatenation is associative. */
  lemma Assoc<T>(a: seq<T>, b: seq<T>, c: seq<T>)
    ensures a + b + c == a + (b + c)
  {
  }

  /** Empty pieces around a sequence vanish. */
  lemma Unpadded<T>(x: seq<T>)
    ensures [] + x + [] == x
  {
  }

  /** Empty pieces at the ends of a concatenation vanish. */
  lemma EmptyEnds(a: String, b: String)
    ensures [] + a + b + [] == a + b
  {
    assert [] + a == a;
  }

  /** An empty piece inside a concatenation vanishes. */
  lemma EmptyMiddle(a: String, b: String, c: String)
    ensures a + [] + b + c == a + b + c
  {
    assert a + [] == a;
  }

  /** `sep.join(parts)`: it begins with the first part and ends with the last. */
  function Join(parts: seq<String>, sep: String): (r: String)
    ensures |parts| > 0 ==> StartsWith(r, parts[0])
    ensures |parts| > 0 ==> EndsWith(r, parts[|parts| - 1])
    decreases |parts|
  {
    if |parts| == 0 then []
    else if |parts| == 1 then parts[0]
    else parts[0] + sep + Join(parts[1..], sep)
  }

  lemma {:induction false} JoinGrowFirst(c: char, pieces: seq<String>, sep: String)
    requires |pieces| >= 1
    ensures Join([[c] + pieces[0]] + pieces[1..], sep) == [c] + Join(pieces, sep)
  {
    TailOfCons([c] + pieces[0], pieces[1..]);
  }

  lemma TailOfCons<T>(x: T, xs: seq<T>)
    ensures ([x] + xs)[0] == x && ([x] + xs)[1..] == xs
  {
  }

  /** An empty first part contributes only the separator. */
  lemma {:induction false} JoinEmptyFirst(rest: seq<String>, sep: String)
    requires |rest| >= 1
    ensures Join([[]] + rest, sep) == sep + Join(rest, sep)
  {
    TailOfCons([], rest);
  }

  /** Appending one part to a non-empty join adds the separator and the part. */
  lemma {:induction false} JoinSnoc(parts: seq<String>, x: String, sep: String)
    requires |parts| >= 1
    ensures Join(parts + [x], sep) == Join(parts, sep) + sep + x
    decreases |parts|
  {
    if |parts| == 1 {
      assert (parts + [x])[1..] == [x];
    } else {
      assert (parts + [x])[1..] == parts[1..] + [x];
      JoinSnoc(parts[1..], x, sep);
    }
  }

  /** `str.replace` agrees with joining the split pieces with the replacement, `rep.join(s.split(pat))`. */
  lemma {:induction false} ReplaceIsJoinOfSplit(s: String, pat: String, rep: String)
    requires |pat| > 0
    ensures ReplaceAll(s, pat, rep) == Join(SplitOn(s, pat), rep)
    decreases |s|
  {
    if |s| == 0 {
    } else if StartsWith(s, pat) {
      ReplaceIsJoinOfSplit(s[|pat|..], pat, rep);
      JoinEmptyFirst(SplitOn(s[|pat|..], pat), rep);
    } else {
      ReplaceIsJoinOfSplit(s[1..], pat, rep);
      JoinGrowFirst(s[0], SplitOn(s[1..], pat), rep);
    }
  }

  /** Replacing every occurrence of `pat` by itself changes nothing. */
  lemma {:induction false} ReplaceAllBySelf(s: String, pat: String)
    requires |pat| > 0
    ensures ReplaceAll(s, pat, pat) == s
    decreases |s|
  {
    if |s| == 0 {
    } else if StartsWith(s, pat) {
      ReplaceAllBySelf(s[|pat|..], pat);
      assert s == pat + s[|pat|..];
    } else {
      ReplaceAllBySelf(s[1..], pat);
      assert s == [s[0]] + s[1..];
    }
  }

  /** Splitting and joining with the same separator gives back the string. */
  lemma SplitJoinRoundTrip(s: String, sep: String)
    requires |sep| > 0
    ensures Join(SplitOn(s, sep), sep) == s
  {
    ReplaceIsJoinOfSplit(s, sep, sep);
    ReplaceAllBySelf(s, sep);
  }

  /** No piece that `split` produces contains the separator. */
  lemma {:induction false} SplitPiecesFree(s: String, sep: String)
    requires |sep| > 0
    ensures forall k :: 0 <= k < |SplitOn(s, sep)| ==> NoOccurrence(SplitOn(s, sep)[k], sep)
    decreases |s|
  {
    var r := SplitOn(s, sep);
    if |s| == 0 {
    } else if StartsWith(s, sep) {
      SplitPiecesFree(s[|sep|..], sep);
      var rest := SplitOn(s[|sep|..], sep);
      forall k | 0 <= k < |r| ensures NoOccurrence(r[k], sep) {
        if k > 0 { assert r[k] == rest[k - 1]; }
      }
    } else {
      SplitPiecesFree(s[1..], sep);
      var rest := SplitOn(s[1..], sep);
      var head := [s[0]] + rest[0];
      assert head == s[..|head|];
      forall i | 0 <= i < |head| ensures !StartsWith(head[i..], sep) {
        if i == 0 {
          assert head[0..] == head;
        } else {
          assert head[i..] == rest[0][i - 1..];
        }
      }
      forall k | 0 <= k < |r| ensures NoOccurrence(r[k], sep) {
        if k > 0 { assert r[k] == rest[k]; }
      }
    }
  }

  /** Without an occurrence of `pat`, `replace` changes nothing. */
  lemma {:induction false} ReplaceAllNoOccurrence(s: String, pat: String, rep: String)
    requires |pat| > 0
    requires NoOccurrence(s, pat)
    ensures ReplaceAll(s, pat, rep) == s
    decreases |s|
  {
    if |s| > 0 {
      assert s[0..] == s;
      forall i | 0 <= i < |s[1..]| ensures !StartsWith(s[1..][i..], pat) {
        assert s[1..][i..] == s[i + 1..];
      }
      ReplaceAllNoOccurrence(s[1..], pat, rep);
    }
  }

  /** A leading occurrence of `pat` is replaced and the scan resumes after it. */
  lemma {:induction false} ReplaceAllAtMatch(t: String, pat: String, rep: String)
    requires |pat| > 0
    ensures ReplaceAll(pat + t, pat, rep) == rep + ReplaceAll(t, pat, rep)
  {
    assert (pat + t)[..|pat|] == pat;
    assert (pat + t)[|pat|..] == t;
  }

  /** A prefix `x` at which no occurrence of `pat` starts is copied unchanged. */
  lemma {:induction false} ReplaceAllSkip(x: String, t: String, pat: String, rep: String)
    requires |pat| > 0
    requires forall i :: 0 <= i < |x| ==> !StartsWith((x + t)[i..], pat)
    ensures ReplaceAll(x + t, pat, rep) == x + ReplaceAll(t, pat, rep)
    decreases |x|
  {
    if x == [] {
      assert x + t == t;
    } else {
      assert (x + t)[0..] == x + t;
      assert (x + t)[1..] == x[1..] + t;
      forall i | 0 <= i < |x[1..]| ensures !StartsWith((x[1..] + t)[i..], pat) {
        assert (x[1..] + t)[i..] == (x + t)[i + 1..];
      }
      ReplaceAllSkip(x[1..], t, pat, rep);
    }
  }

  /** If the first character of `pat` never appears in `s`, `pat` does not occur in `s`. */
  lemma {:induction false} NoOccurrenceOfAbsentHead(s: String, pat: String)
    requires |pat| > 0
    requires forall i :: 0 <= i < |s| ==> s[i] != pat[0]
    ensures NoOccurrence(s, pat)
  {
    forall i | 0 <= i < |s| ensures !StartsWith(s[i..], pat) {
      assert s[i..][0] == s[i];
    }
  }

  // ---------------------------------------------------------------------------
  // str(int) and int(str)
  // ---------------------------------------------------------------------------

  predicate IsDigit(c: char) {
    '0' <= c <= '9'
  }

  predicate AllDigits(s: String) {
    forall i :: 0 <= i < |s| ==> IsDigit(s[i])
  }

  /** The text Python's `int(s)` accepts in its plain form: an optional `-` and decimal digits. */
  predicate IsIntLiteral(s: String) {
    if |s| > 0 && s[0] == '-' then |s| > 1 && AllDigits(s[1..])
    else |s| > 0 && AllDigits(s)
  }

  function DigitChar(d: nat): (c: char)
    requires d < 10
    ensures IsDigit(c) && c as int - '0' as int == d
  {
    "0123456789"[d]
  }

  function DigitValue(c: char): (d: nat)
    requires IsDigit(c)
    ensures d < 10
  {
    c as int - '0' as int
  }

  /** Decimal numeral of `n`, most significant digit first, without leading zeros. */
  function NatToDecimal(n: nat): (r: String)
    ensures |r| >= 1 && AllDigits(r)
    ensures r[0] == '0' ==> n == 0
    ensures n == 0 ==> r == "0"
    decreases n
  {
    if n < 10 then [DigitChar(n)]
    else NatToDecimal(n / 10) + [DigitChar(n % 10)]
  }

  /** Python's `str(i)` for an `int`. */
  function IntToDecimal(i: int): (r: String)
    ensures IsIntLiteral(r)
    ensures r[0] == '-' <==> i < 0
    ensures var k := if i < 0 then 1 else 0; r[k] == '0' ==> i == 0
    ensures i == 0 ==> r == "0"
  {
    if i < 0 then "-" + NatToDecimal(-i) else NatToDecimal(i)
  }

  function ParseNat(s: String): (n: nat)
    requires AllDigits(s)
    decreases |s|
  {
    if s == [] then 0
    else ParseNat(s[..|s| - 1]) * 10 + DigitValue(s[|s| - 1])
  }

  /** Python's `int(s)` on an integer literal. */
  function ParseInt(s: String): (i: int)
    requires IsIntLiteral(s)
  {
    if s[0] == '-' then -(ParseNat(s[1..]) as int) else ParseNat(s)
  }

  lemma {:induction false} NatDecimalRoundTrip(n: nat)
    ensures ParseNat(NatToDecimal(n)) == n
    decreases n
  {
    if n >= 10 {
      var r := NatToDecimal(n);
      var front := NatToDecimal(n / 10);
      assert r[..|r| - 1] == front;
      NatDecimalRoundTrip(n / 10);
    }
  }

  /** The minus sign and the digits of a negative number parse back to it. */
  lemma {:induction false} NegativeDecimalRoundTrip(n: nat)
    requires n > 0
    ensures ParseInt("-" + NatToDecimal(n)) == -(n as int)
  {
    var digits := NatToDecimal(n);
    var r := "-" + digits;
    assert r[0] == '-' && r[1..] == digits;
    NatDecimalRoundTrip(n);
  }

  /** `int(str(i)) == i`. */
  lemma {:induction false} IntDecimalRoundTrip(i: int)
    ensures ParseInt(IntToDecimal(i)) == i
  {
    if i < 0 {
      NegativeDecimalRoundTrip(-i);
    } else {
      var r := NatToDecimal(i);
      assert IsDigit(r[0]);
      NatDecimalRoundTrip(i);
    }
  }

  /** Distinct integers have distinct decimal forms. */
  lemma IntToDecimalInjective(a: int, b: int)
    requires IntToDecimal(a) == IntToDecimal(b)
    ensures a == b
  {
    IntDecimalRoundTrip(a);
    IntDecimalRoundTrip(b);
  }
}
