// Character and string primitives shared by the rest of the model:
// decimal digit runs, ASCII case folding, suffix tests and the line
// splitting that std::getline performs on the persisted text files.
// Wide and narrow strings are both plain character sequences here.

module Strings {

  datatype Option<T> = None | Some(value: T)

  // ---------------------------------------------------------------
  // Decimal digits
  // ---------------------------------------------------------------

  predicate IsDigit(c: char) { '0' <= c <= '9' }

  function DigitValue(c: char): nat
    requires IsDigit(c)
  {
    c as int - '0' as int
  }

  function DigitChar(d: nat): (c: char)
    requires d < 10
    ensures IsDigit(c) && DigitValue(c) == d
  {
    ('0' as int + d) as char
  }

  predicate AllDigits(s: string)
  {
    forall i :: 0 <= i < |s| ==> IsDigit(s[i])
  }

  /** The value of a run of decimal digits, most significant first, as the
      `v = v * 10 + digit` loops of the parsers accumulate it. */
  function DecimalValue(ds: string): nat
    requires AllDigits(ds)
    decreases |ds|
  {
    if ds == [] then 0 else DecimalValue(ds[..|ds| - 1]) * 10 + DigitValue(ds[|ds| - 1])
  }

  /** The decimal digits of n without leading zeros, as `%d` prints a
      non-negative number. */
  function FormatNat(n: nat): (s: string)
    ensures |s| >= 1 && AllDigits(s)
    ensures n < 10 <==> |s| == 1
  {
    if n < 10 then [DigitChar(n)] else FormatNat(n / 10) + [DigitChar(n % 10)]
  }

  /** `%d` of a possibly negative number. */
  function FormatInt(n: int): (s: string)
    ensures n >= 0 ==> s == FormatNat(n)
    ensures n < 0 ==> s == "-" + FormatNat(-n)
  {
    if n < 0 then "-" + FormatNat(-n) else FormatNat(n)
  }

  /** Reading back what FormatNat printed gives the number again. */
  lemma {:induction false} DecimalValueOfFormatNat(n: nat)
    ensures DecimalValue(FormatNat(n)) == n
  {
    if n >= 10 {
      var s := FormatNat(n);
      assert s[..|s| - 1] == FormatNat(n / 10);
      DecimalValueOfFormatNat(n / 10);
    }
  }

  /** The longest prefix of `s` made of decimal digits. */
  function LeadingDigits(s: string): (d: string)
    ensures |d| <= |s| && d == s[..|d|] && AllDigits(d)
    ensures |d| < |s| ==> !IsDigit(s[|d|])
  {
    if s == [] || !IsDigit(s[0]) then [] else [s[0]] + LeadingDigits(s[1..])
  }

  /** A digit run followed by anything that does not continue it is
      exactly the leading digit run. */
  lemma {:induction false} LeadingDigitsOfRun(ds: string, rest: string)
    requires AllDigits(ds)
    requires rest == [] || !IsDigit(rest[0])
    ensures LeadingDigits(ds + rest) == ds
  {
    if ds == [] {
      assert ds + rest == rest;
    } else {
      assert (ds + rest)[1..] == ds[1..] + rest;
      LeadingDigitsOfRun(ds[1..], rest);
    }
  }

  lemma ConcatAssoc<T>(a: seq<T>, b: seq<T>, c: seq<T>)
    ensures (a + b) + c == a + (b + c)
  {
  }

  predicate StartsWith(s: string, prefix: string)
  {
    |prefix| <= |s| && s[..|prefix|] == prefix
  }

  predicate EndsWith(s: string, suffix: string)
  {
    |suffix| <= |s| && s[|s| - |suffix|..] == suffix
  }

  // ---------------------------------------------------------------
  // ASCII case folding and case-insensitive suffixes
  // ---------------------------------------------------------------

  /** towlower restricted to ASCII. */
  function Lower(c: char): char
  {
    if 'A' <= c <= 'Z' then (c as int + 32) as char else c
  }

  predicate IsLowerAscii(s: string)
  {
    forall i :: 0 <= i < |s| ==> Lower(s[i]) == s[i]
  }

  /** `s` ends with `suf` when both are compared character by character
      after case folding. */
  predicate EndsWithIgnoringCase(s: string, suf: string)
  {
    |suf| <= |s| && forall i :: 0 <= i < |suf| ==> Lower(s[|s| - |suf| + i]) == Lower(suf[i])
  }

  /** EndsWithI: compares the last |suf| characters of `s` with `suf`,
      folding case, and gives up at the first mismatch. */
  method EndsWithI(s: string, suf: string) returns (b: bool)
    ensures b <==> EndsWithIgnoringCase(s, suf)
  {
    if |s| < |suf| {
      return false;
    }
    var a := s[|s| - |suf|..];
    for i := 0 to |suf|
      invariant forall j :: 0 <= j < i ==> Lower(a[j]) == Lower(suf[j])
    {
      if Lower(a[i]) != Lower(suf[i]) {
        return false;
      }
    }
    return true;
  }

  /** Case folding does not matter to the test: upper-casing or
      lower-casing the tested string gives the same answer. */
  lemma EndsWithIgnoringCaseFolds(s: string, t: string, suf: string)
    requires |s| == |t|
    requires forall i :: 0 <= i < |s| ==> Lower(s[i]) == Lower(t[i])
    ensures EndsWithIgnoringCase(s, suf) <==> EndsWithIgnoringCase(t, suf)
  {
    if EndsWithIgnoringCase(s, suf) {
      forall i | 0 <= i < |suf| ensures Lower(t[|t| - |suf| + i]) == Lower(suf[i]) {
        assert Lower(s[|s| - |suf| + i]) == Lower(t[|t| - |suf| + i]);
      }
    }
    if EndsWithIgnoringCase(t, suf) {
      forall i | 0 <= i < |suf| ensures Lower(s[|s| - |suf| + i]) == Lower(suf[i]) {
        assert Lower(s[|s| - |suf| + i]) == Lower(t[|t| - |suf| + i]);
      }
    }
  }

  /** Ending with a suffix implies ending with every shorter suffix of it. */
  lemma EndsWithTail(s: string, suf: string, k: nat)
    requires k <= |suf|
    requires EndsWithIgnoringCase(s, suf)
    ensures EndsWithIgnoringCase(s, suf[k..])
  {
    var t := suf[k..];
    forall i | 0 <= i < |t| ensures Lower(s[|s| - |t| + i]) == Lower(t[i]) {
      assert s[|s| - |t| + i] == s[|s| - |suf| + (k + i)];
      assert t[i] == suf[k + i];
    }
  }

  /** Any string ends with itself appended to anything. */
  lemma EndsWithAppended(p: string, suf: string)
    ensures EndsWithIgnoringCase(p + suf, suf)
  {
    var s := p + suf;
    forall i | 0 <= i < |suf| ensures Lower(s[|s| - |suf| + i]) == Lower(suf[i]) {
      assert s[|s| - |suf| + i] == suf[i];
    }
  }

  // ---------------------------------------------------------------
  // Lines as std::getline reads them
  // ---------------------------------------------------------------

  /** The index of the first `c` in `s`, or |s| when there is none. */
  function FirstIndex(s: string, c: char): (k: nat)
    ensures k <= |s|
    ensures k < |s| ==> s[k] == c
    ensures forall i :: 0 <= i < k ==> s[i] != c
  {
    if s == [] then 0 else if s[0] == c then 0 else 1 + FirstIndex(s[1..], c)
  }

  /** The lines std::getline returns from a text: pieces separated by
      '\n', the terminator not included, and no empty piece after a final
      '\n' (or for an empty text). */
  function GetLines(t: string): seq<string>
    decreases |t|
  {
    if t == [] then []
    else
      var k := FirstIndex(t, '\n');
      if k == |t| then [t] else [t[..k]] + GetLines(t[k + 1..])
  }

  /** Every line written followed by '\n', as the save functions write them. */
  function JoinLines(ls: seq<string>): string
  {
    if ls == [] then [] else ls[0] + "\n" + JoinLines(ls[1..])
  }

  predicate NoNewline(s: string)
  {
    forall i :: 0 <= i < |s| ==> s[i] != '\n'
  }

  /** Reading back written lines gives the same lines, as long as none of
      them holds a line break itself. */
  lemma {:induction false} GetLinesOfJoinLines(ls: seq<string>)
    requires forall i :: 0 <= i < |ls| ==> NoNewline(ls[i])
    ensures GetLines(JoinLines(ls)) == ls
  {
    if ls != [] {
      var t := JoinLines(ls);
      var l := ls[0];
      assert t == l + ("\n" + JoinLines(ls[1..]));
      assert t[|l|] == '\n';
      var k := FirstIndex(t, '\n');
      assert k == |l|;
      assert t[..k] == l;
      assert t[k + 1..] == JoinLines(ls[1..]);
      GetLinesOfJoinLines(ls[1..]);
    }
  }
}
