/**
 * The string helpers of src/utils.c that the instruction encoder relies on.
 *
 * The C functions build freshly allocated buffers with index loops; here each
 * such loop is a method proved against a specification function, and the
 * single-expression helpers are plain functions. Strings are `seq<char>`
 * without the terminating NUL; allocation always succeeds.
 */
module Utils {

  // ---------------------------------------------------------------------------
  // Characters and digit strings
  // ---------------------------------------------------------------------------

  predicate IsDigit(c: char) {
    '0' <= c <= '9'
  }

  /** The characters C's isspace accepts in the "C" locale: ' ', '\t', '\n', '\v', '\f', '\r'. */
  predicate IsSpace(c: char) {
    c == ' ' || 9 <= c as int <= 13
  }

  predicate AllDigits(s: string) {
    forall i :: 0 <= i < |s| ==> IsDigit(s[i])
  }

  /** A string over the alphabet {'0', '1'}. */
  predicate IsBitString(s: string) {
    forall i :: 0 <= i < |s| ==> s[i] == '0' || s[i] == '1'
  }

  function DigitChar(d: nat): (c: char)
    requires d < 10
    ensures IsDigit(c) && c as int - '0' as int == d
  {
    ('0' as int + d) as char
  }

  function DigitValue(c: char): (d: nat)
    requires IsDigit(c)
    ensures d < 10
  {
    c as int - '0' as int
  }

  /** The number written by a non-empty or empty run of decimal digits, most significant first. */
  function DigitsValue(s: string): nat
    requires AllDigits(s)
  {
    if s == [] then 0 else 10 * DigitsValue(s[..|s| - 1]) + DigitValue(s[|s| - 1])
  }

  /** Decimal digits of n, most significant first, with no leading zero except for n == 0 itself. */
  function Decimal(n: nat): (r: string)
    ensures |r| > 0 && AllDigits(r)
    ensures r[0] == '0' ==> n == 0
  {
    if n < 10 then [DigitChar(n)] else Decimal(n / 10) + [DigitChar(n % 10)]
  }

  lemma {:induction false} DecimalValue(n: nat)
    ensures DigitsValue(Decimal(n)) == n
  {
    if n >= 10 {
      var d := Decimal(n);
      assert d[..|d| - 1] == Decimal(n / 10);
      DecimalValue(n / 10);
    }
  }

  // ---------------------------------------------------------------------------
  // strtol(s, NULL, 10) and int_to_string
  // ---------------------------------------------------------------------------

  function SkipSpaces(s: string): (r: string)
    ensures |r| <= |s| && r == s[|s| - |r|..]
    ensures r == [] || !IsSpace(r[0])
    ensures forall i :: 0 <= i < |s| - |r| ==> IsSpace(s[i])
  {
    if |s| > 0 && IsSpace(s[0]) then SkipSpaces(s[1..]) else s
  }

  /** Length of the longest prefix of s made of decimal digits. */
  function LeadingDigits(s: string): (k: nat)
    ensures k <= |s| && AllDigits(s[..k])
    ensures k < |s| ==> !IsDigit(s[k])
  {
    if |s| > 0 && IsDigit(s[0]) then
      var k := 1 + LeadingDigits(s[1..]);
      assert s[..k] == [s[0]] + s[1..][..k - 1];
      k
    else 0
  }

  function UnsignedPrefixValue(s: string): nat {
    DigitsValue(s[..LeadingDigits(s)])
  }

  /**
   * The value C's strtol(s, NULL, 10) returns: leading white space is
   * skipped, one optional sign is accepted, then the longest run of decimal
   * digits is read; no digits at all gives 0. Overflow of `long` is not
   * modelled.
   */
  function StrtolValue(s: string): int {
    var t := SkipSpaces(s);
    if |t| > 0 && t[0] == '-' then -(UnsignedPrefixValue(t[1..]) as int)
    else if |t| > 0 && t[0] == '+' then UnsignedPrefixValue(t[1..])
    else UnsignedPrefixValue(t)
  }

  /** int_to_string: the "%d" rendering of n. */
  function IntToString(n: int): (r: string)
    ensures |r| > 0
    ensures n >= 0 ==> AllDigits(r)
    ensures n < 0 ==> r[0] == '-' && AllDigits(r[1..])
  {
    if n < 0 then "-" + Decimal(-n) else Decimal(n)
  }

  /** A text that starts with a digit is read by strtol as its leading run of digits. */
  lemma StrtolDigitStart(s: string)
    requires |s| > 0 && IsDigit(s[0])
    ensures StrtolValue(s) == UnsignedPrefixValue(s)
  {
    assert !IsSpace(s[0]);
    assert SkipSpaces(s) == s;
    assert s[0] != '-' && s[0] != '+';
  }

  lemma AllDigitsValue(s: string)
    requires AllDigits(s)
    ensures UnsignedPrefixValue(s) == DigitsValue(s)
  {
    assert s[..LeadingDigits(s)] == s;
  }

  /** Reading back the rendering of n, as strtol does, yields n again. */
  lemma StrtolIntToString(n: int)
    ensures StrtolValue(IntToString(n)) == n
  {
    var r := IntToString(n);
    assert SkipSpaces(r) == r;
    if n < 0 {
      assert r[1..] == Decimal(-n);
      AllDigitsValue(Decimal(-n));
      DecimalValue(-n);
    } else {
      AllDigitsValue(Decimal(n));
      DecimalValue(n);
    }
  }

  lemma IntToStringInjective(m: int, n: int)
    requires IntToString(m) == IntToString(n)
    ensures m == n
  {
    StrtolIntToString(m);
    StrtolIntToString(n);
  }

  // ---------------------------------------------------------------------------
  // append_strings and substring
  // ---------------------------------------------------------------------------

  /** append_strings(a, b): a new string holding a followed by b. */
  function AppendStrings(a: string, b: string): (r: string)
    ensures |r| == |a| + |b|
    ensures r[..|a|] == a && r[|a|..] == b
  {
    a + b
  }

  /**
   * substring(s, start, end): start and end are first clamped to the length
   * of s, then end is raised to start; the result is the slice between them.
   */
  function Substring(s: string, start: nat, end: nat): (r: string)
    ensures start <= end <= |s| ==> r == s[start..end]
    ensures start <= |s| <= end ==> r == s[start..]
    ensures end <= start || |s| <= start ==> r == []
  {
    var st := if start > |s| then |s| else start;
    var en := if end > |s| then |s| else end;
    s[st..if en < st then st else en]
  }

  // ---------------------------------------------------------------------------
  // string_search
  // ---------------------------------------------------------------------------

  /** The least index k >= from with s[k] == c, or -1 when there is none. */
  function IndexFrom(s: string, c: char, from: nat): (r: int)
    requires from <= |s|
    ensures r == -1 || from <= r < |s|
    ensures r == -1 ==> forall k :: from <= k < |s| ==> s[k] != c
    ensures r >= 0 ==> s[r] == c && forall k :: from <= k < r ==> s[k] != c
    decreases |s| - from
  {
    if from == |s| then -1
    else if s[from] == c then from
    else IndexFrom(s, c, from + 1)
  }

  /** The least index of c in s, or -1 when s does not contain c. */
  function FirstIndex(s: string, c: char): (r: int)
    ensures -1 <= r < |s|
    ensures r == -1 <==> c !in s
    ensures r >= 0 ==> s[r] == c && forall k :: 0 <= k < r ==> s[k] != c
  {
    IndexFrom(s, c, 0)
  }

  /** An occurrence with none before it is the first one. */
  lemma FirstIndexAt(s: string, c: char, k: nat)
    requires k < |s| && s[k] == c && c !in s[..k]
    ensures FirstIndex(s, c) == k
  {
    assert c in s;
  }

  /** string_search(s, c): a scan from the left that returns at the first match. */
  method StringSearch(s: string, c: char) returns (r: int)
    ensures r == FirstIndex(s, c)
  {
    var i := 0;
    while i < |s|
      invariant 0 <= i <= |s|
      invariant forall k :: 0 <= k < i ==> s[k] != c
    {
      if s[i] == c {
        return i;
      }
      i := i + 1;
    }
    return -1;
  }

  // ---------------------------------------------------------------------------
  // clear_line
  // ---------------------------------------------------------------------------

  /** s with every ' ' dropped and every other character kept, in order. */
  function RemoveSpaces(s: string): (r: string)
    ensures |r| <= |s|
    ensures ' ' !in r
    ensures forall i :: 0 <= i < |r| ==> r[i] in s
  {
    if s == [] then []
    else
      var init := RemoveSpaces(s[..|s| - 1]);
      var last := s[|s| - 1];
      assert forall i :: 0 <= i < |init| ==> init[i] in s by {
        forall i | 0 <= i < |init| ensures init[i] in s {
          assert init[i] in s[..|s| - 1];
        }
      }
      if last == ' ' then init else init + [last]
  }

  /** The index where a comment starts: the first '/', or the length when there is none. */
  function CommentStart(line: string): (k: nat)
    ensures k <= |line| && '/' !in line[..k]
    ensures k < |line| ==> line[k] == '/'
  {
    var i := FirstIndex(line, '/');
    if i == -1 then |line| else i
  }

  /** What clear_line keeps of a raw line: the part before the first '/', without its spaces. */
  function Cleaned(line: string): (r: string)
    ensures ' ' !in r && '/' !in r
  {
    RemoveSpaces(line[..CommentStart(line)])
  }

  lemma {:induction false} RemoveSpacesNoSpace(s: string)
    requires ' ' !in s
    ensures RemoveSpaces(s) == s
  {
    if s != [] {
      assert ' ' !in s[..|s| - 1];
      RemoveSpacesNoSpace(s[..|s| - 1]);
      assert s == s[..|s| - 1] + [s[|s| - 1]];
    }
  }

  lemma RemoveSpacesOne(c: char)
    ensures RemoveSpaces([c]) == if c == ' ' then [] else [c]
  {
    assert [c][..0] == [];
  }

  /** Spaces are dropped character by character: removing them distributes over concatenation. */
  lemma {:induction false} RemoveSpacesAppend(a: string, b: string)
    ensures RemoveSpaces(a + b) == RemoveSpaces(a) + RemoveSpaces(b)
  {
    var ab := a + b;
    if b == [] {
      assert ab == a;
    } else {
      assert ab[..|ab| - 1] == a + b[..|b| - 1];
      assert ab[|ab| - 1] == b[|b| - 1];
      RemoveSpacesAppend(a, b[..|b| - 1]);
    }
  }

  /** A line without a comment keeps all its characters except the spaces. */
  lemma CleanedNoComment(line: string)
    requires '/' !in line
    ensures Cleaned(line) == RemoveSpaces(line)
  {
    assert line[..|line|] == line;
  }

  /** Everything from the first '/' on is dropped. */
  lemma CleanedComment(code: string, comment: string)
    requires '/' !in code
    ensures Cleaned(code + ['/'] + comment) == RemoveSpaces(code)
  {
    var line := code + ['/'] + comment;
    assert line[..|code|] == code;
    FirstIndexAt(line, '/', |code|);
  }

  /** Cleaning an already cleaned line changes nothing. */
  lemma CleanedIdempotent(line: string)
    ensures Cleaned(Cleaned(line)) == Cleaned(line)
  {
    var r := Cleaned(line);
    assert CommentStart(r) == |r|;
    assert r[..|r|] == r;
    RemoveSpacesNoSpace(r);
  }

  /** clear_line: copy characters up to the first '/', skipping spaces. */
  method ClearLine(line: string) returns (r: string)
    ensures r == Cleaned(line)
  {
    r := [];
    var i := 0;
    while i < |line| && line[i] != '/'
      invariant 0 <= i <= |line|
      invariant forall k :: 0 <= k < i ==> line[k] != '/'
      invariant r == RemoveSpaces(line[..i])
    {
      assert line[..i + 1][..i] == line[..i];
      if line[i] != ' ' {
        r := r + [line[i]];
      }
      i := i + 1;
    }
    assert CommentStart(line) == i;
  }

  // ---------------------------------------------------------------------------
  // reverse_string
  // ---------------------------------------------------------------------------

  function Reversed(s: string): (r: string)
    ensures |r| == |s|
  {
    if s == [] then [] else [s[|s| - 1]] + Reversed(s[..|s| - 1])
  }

  lemma {:induction false} ReversedAt(s: string, k: nat)
    requires k < |s|
    ensures Reversed(s)[k] == s[|s| - 1 - k]
  {
    if k > 0 {
      ReversedAt(s[..|s| - 1], k - 1);
    }
  }

  lemma ReversedAppend(s: string, c: char)
    ensures Reversed(s + [c]) == [c] + Reversed(s)
  {
    assert (s + [c])[..|s|] == s;
  }

  /** Reversing twice gives back the original string. */
  lemma ReversedInvolution(s: string)
    ensures Reversed(Reversed(s)) == s
  {
    forall k | 0 <= k < |s|
      ensures Reversed(Reversed(s))[k] == s[k]
    {
      ReversedAt(Reversed(s), k);
      ReversedAt(s, |s| - 1 - k);
    }
  }

  /** reverse_string: result[j] is taken from position len-1-j. */
  method ReverseString(s: string) returns (r: string)
    ensures r == Reversed(s)
  {
    r := [];
    var j := 0;
    while j < |s|
      invariant 0 <= j <= |s| && |r| == j
      invariant forall k :: 0 <= k < j ==> r[k] == s[|s| - 1 - k]
    {
      r := r + [s[|s| - 1 - j]];
      j := j + 1;
    }
    forall k | 0 <= k < |s|
      ensures r[k] == Reversed(s)[k]
    {
      ReversedAt(s, k);
    }
  }

  // ---------------------------------------------------------------------------
  // convert_to_binary
  // ---------------------------------------------------------------------------

  function Pow2(k: nat): (p: nat)
    ensures p >= 1
  {
    if k == 0 then 1 else 2 * Pow2(k - 1)
  }

  /** The binary digits of n, most significant first; empty for 0. */
  function Bits(n: nat): (r: string)
    ensures IsBitString(r)
    ensures n > 0 ==> |r| > 0 && r[0] == '1'
    ensures n == 0 ==> r == []
  {
    if n == 0 then [] else Bits(n / 2) + [if n % 2 == 0 then '0' else '1']
  }

  /** The number a bit string denotes, most significant bit first. */
  function BitsValue(s: string): nat
    requires IsBitString(s)
  {
    if s == [] then 0 else 2 * BitsValue(s[..|s| - 1]) + (if s[|s| - 1] == '1' then 1 else 0)
  }

  /**
   * What convert_to_binary returns for a parsed value v: "0" for zero, the
   * binary digits for a positive value, and the empty string for a negative
   * one (its loop never runs and the empty buffer is reversed).
   */
  function BinaryOf(v: int): (r: string)
    ensures IsBitString(r)
  {
    if v == 0 then "0" else if v < 0 then "" else Bits(v)
  }

  lemma {:induction false} BitsValueOfBits(n: nat)
    ensures BitsValue(Bits(n)) == n
  {
    if n > 0 {
      var b := Bits(n);
      assert b[..|b| - 1] == Bits(n / 2);
      BitsValueOfBits(n / 2);
    }
  }

  /** The binary rendering of n > 0 has exactly k digits when 2^(k-1) <= n < 2^k. */
  lemma {:induction false} BitsLength(n: nat)
    requires n > 0
    ensures Pow2(|Bits(n)| - 1) <= n < Pow2(|Bits(n)|)
  {
    if n > 1 {
      BitsLength(n / 2);
    }
  }

  lemma {:induction false} Pow2Monotone(i: nat, j: nat)
    requires i <= j
    ensures Pow2(i) <= Pow2(j)
  {
    if i < j {
      Pow2Monotone(i, j - 1);
    }
  }

  /** For a positive v, BinaryOf(v) has at most k digits exactly when v < 2^k. */
  lemma BinaryOfFits(v: nat, k: nat)
    requires v > 0
    ensures |BinaryOf(v)| <= k <==> v < Pow2(k)
  {
    BitsLength(v);
    var m := |Bits(v)|;
    if m <= k {
      Pow2Monotone(m, k);
    } else {
      Pow2Monotone(k, m - 1);
    }
  }

  /** One halving step of convert_to_binary: the remainder digit moves from k to the buffer. */
  lemma HalvingStep(k: nat, buffer: string)
    requires k > 0
    ensures Bits(k) + Reversed(buffer)
         == Bits(k / 2) + Reversed(buffer + [if k % 2 == 0 then '0' else '1'])
  {
    ReversedAppend(buffer, if k % 2 == 0 then '0' else '1');
  }

  /** convert_to_binary: parse with strtol, then collect remainders of halving and reverse them. */
  method ConvertToBinary(num: string) returns (r: string)
    ensures r == BinaryOf(StrtolValue(num))
  {
    var v := StrtolValue(num);
    if v == 0 {
      return "0";
    }
    var buffer: string := [];
    var k := v;
    while k > 0
      invariant v > 0 ==> 0 <= k && Bits(v) == Bits(k) + Reversed(buffer)
      invariant v < 0 ==> k == v && buffer == []
    {
      HalvingStep(k, buffer);
      buffer := buffer + [if k % 2 == 0 then '0' else '1'];
      k := k / 2;
    }
    r := ReverseString(buffer);
  }

  // ---------------------------------------------------------------------------
  // pad_left
  // ---------------------------------------------------------------------------

  function Zeros(n: nat): (r: string)
    ensures |r| == n && forall i :: 0 <= i < n ==> r[i] == '0'
  {
    seq(n, _ => '0')
  }

  /**
   * pad_left(num, width): num with '0's in front up to width characters; an
   * unchanged copy when num is already at least that long.
   */
  function Padded(num: string, width: int): (r: string)
    ensures |r| == if |num| >= width then |num| else width
    ensures r[|r| - |num|..] == num
    ensures forall i :: 0 <= i < |r| - |num| ==> r[i] == '0'
    ensures |num| >= width ==> r == num
  {
    if |num| >= width then num else Zeros(width - |num|) + num
  }

  lemma {:induction false} ZerosPrefixValue(k: nat, s: string)
    requires IsBitString(s)
    ensures IsBitString(Zeros(k) + s) && BitsValue(Zeros(k) + s) == BitsValue(s)
  {
    if s == [] {
      assert Zeros(k) + s == Zeros(k);
      if k > 0 {
        assert Zeros(k)[..k - 1] == Zeros(k - 1) + [];
        ZerosPrefixValue(k - 1, []);
      }
    } else {
      assert (Zeros(k) + s)[..|Zeros(k) + s| - 1] == Zeros(k) + s[..|s| - 1];
      ZerosPrefixValue(k, s[..|s| - 1]);
    }
  }

  /** Left padding with '0' keeps a bit string a bit string and keeps its value. */
  lemma PaddedValue(num: string, width: int)
    requires IsBitString(num)
    ensures IsBitString(Padded(num, width))
    ensures BitsValue(Padded(num, width)) == BitsValue(num)
  {
    if |num| < width {
      ZerosPrefixValue(width - |num|, num);
    }
  }

  /** pad_left: write the '0's, then copy num behind them. */
  method PadLeft(num: string, width: int) returns (r: string)
    ensures r == Padded(num, width)
  {
    if |num| >= width {
      return num;
    }
    var padLength := width - |num|;
    r := [];
    var i := 0;
    while i < padLength
      invariant 0 <= i <= padLength && |r| == i
      invariant forall k :: 0 <= k < i ==> r[k] == '0'
    {
      r := r + ['0'];
      i := i + 1;
    }
    assert r == Zeros(padLength);
    r := r + num;
  }
}
