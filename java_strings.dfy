/**
  The few pieces of java.lang.String and java.util.stream.Collectors that the
  analysis code relies on: String.valueOf(int), Collectors.joining,
  String.compareTo and String.hashCode. A Dafny char is a Unicode scalar value,
  while a Java String holds UTF-16 code units, so length, order and hash are
  taken over the explicit UTF-16 encoding Utf16. Each is paired with the
  inverse or the order laws the callers depend on.
*/
module JavaStrings {
  import opened Wrappers

  const DigitChars: set<char> := {'0', '1', '2', '3', '4', '5', '6', '7', '8', '9'}

  /** Every character of `s` belongs to `alphabet`. */
  predicate AllIn(s: string, alphabet: set<char>) {
    forall i :: 0 <= i < |s| ==> s[i] in alphabet
  }

  lemma {:induction false} AllInAppend(a: string, b: string, alphabet: set<char>)
    requires AllIn(a, alphabet) && AllIn(b, alphabet)
    ensures AllIn(a + b, alphabet)
  {
  }

  // ---------------------------------------------------------------------------
  // String.valueOf(int)
  // ---------------------------------------------------------------------------

  function DigitChar(d: nat): (c: char)
    requires d < 10
    ensures c in DigitChars
  {
    "0123456789"[d]
  }

  function DigitValue(c: char): (d: nat)
    requires c in DigitChars
    ensures d < 10 && DigitChar(d) == c
  {
    if c == '0' then 0 else if c == '1' then 1 else if c == '2' then 2
    else if c == '3' then 3 else if c == '4' then 4 else if c == '5' then 5
    else if c == '6' then 6 else if c == '7' then 7 else if c == '8' then 8 else 9
  }

  lemma {:induction false} DigitRoundTrip(d: nat)
    requires d < 10
    ensures DigitValue(DigitChar(d)) == d
  {
    var c := DigitChar(d);
    assert DigitChar(DigitValue(c)) == c;
    assert forall e, f :: 0 <= e < 10 && 0 <= f < 10 && e != f ==> DigitChar(e) != DigitChar(f);
  }

  /** Decimal digits of `n`, most significant first, without leading zeros. */
  function NatToString(n: nat): (s: string)
    ensures |s| >= 1 && AllIn(s, DigitChars)
    decreases n
  {
    if n < 10 then [DigitChar(n)] else NatToString(n / 10) + [DigitChar(n % 10)]
  }

  /** String.valueOf(int): an optional minus sign followed by the decimal digits. */
  function IntToString(i: int): (s: string)
    ensures |s| >= 1 && AllIn(s, DigitChars + {'-'})
  {
    if i < 0 then "-" + NatToString(-i) else NatToString(i)
  }

  /** The value of a string of decimal digits; the inverse of NatToString. */
  function ParseDigits(s: string): nat
    requires AllIn(s, DigitChars)
  {
    if |s| == 0 then 0 else 10 * ParseDigits(s[..|s| - 1]) + DigitValue(s[|s| - 1])
  }

  /** Reads back what IntToString writes; None for anything else. */
  function ParseInt(s: string): Option<int> {
    if |s| == 0 then None
    else if s[0] == '-' then
      if |s| > 1 && AllIn(s[1..], DigitChars) then Some(0 - ParseDigits(s[1..])) else None
    else if AllIn(s, DigitChars) then Some(ParseDigits(s) as int)
    else None
  }

  lemma {:induction false} ParseNatToString(n: nat)
    ensures ParseDigits(NatToString(n)) == n
  {
    if n >= 10 {
      var s := NatToString(n);
      assert s == NatToString(n / 10) + [DigitChar(n % 10)];
      assert s[..|s| - 1] == NatToString(n / 10);
      ParseNatToString(n / 10);
      DigitRoundTrip(n % 10);
    }
  }

  /** A minus sign followed by the digits of m > 0 reads back as -m. */
  lemma {:induction false} ParseNegative(m: nat)
    requires m > 0
    ensures ParseInt("-" + NatToString(m)) == Some(-(m as int))
  {
    var n := NatToString(m);
    assert ("-" + n)[0] == '-' && ("-" + n)[1..] == n;
    ParseNatToString(m);
  }

  /** The digits of m read back as m. */
  lemma {:induction false} ParseNonNegative(m: nat)
    ensures ParseInt(NatToString(m)) == Some(m)
  {
    var n := NatToString(m);
    assert n[0] in DigitChars;
    ParseNatToString(m);
  }

  /** String.valueOf(int) loses nothing: the number can be read back. */
  lemma {:induction false} ParseIntToString(i: int)
    ensures ParseInt(IntToString(i)) == Some(i)
  {
    if i < 0 {
      ParseNegative(-i);
    } else {
      ParseNonNegative(i);
    }
  }

  // ---------------------------------------------------------------------------
  // Collectors.joining(sep) and its inverse
  // ---------------------------------------------------------------------------

  /** Collectors.joining(sep): the parts in order with `sep` between neighbours. */
  function Join(sep: string, parts: seq<string>): string {
    if |parts| == 0 then ""
    else if |parts| == 1 then parts[0]
    else parts[0] + sep + Join(sep, parts[1..])
  }

  lemma {:induction false} JoinAllIn(sep: string, parts: seq<string>, alphabet: set<char>)
    requires AllIn(sep, alphabet)
    requires forall i :: 0 <= i < |parts| ==> AllIn(parts[i], alphabet)
    ensures AllIn(Join(sep, parts), alphabet)
  {
    if |parts| > 1 {
      JoinAllIn(sep, parts[1..], alphabet);
      AllInAppend(parts[0], sep, alphabet);
      AllInAppend(parts[0] + sep, Join(sep, parts[1..]), alphabet);
    }
  }

  /** Index of the first `c` in `s`, or |s| when there is none. */
  function IndexOf(s: string, c: char): (k: nat)
    ensures k <= |s|
    ensures k < |s| ==> s[k] == c
    ensures forall i :: 0 <= i < k ==> s[i] != c
  {
    if |s| == 0 then 0 else if s[0] == c then 0 else 1 + IndexOf(s[1..], c)
  }

  /** The first `c` of `a + [c] + b` is the one after `a` when `a` has none. */
  lemma {:induction false} IndexOfAfter(a: string, c: char, b: string)
    requires c !in a
    ensures IndexOf(a + [c] + b, c) == |a|
  {
    var s := a + [c] + b;
    assert s[|a|] == c;
  }

  /**
    Cuts `s` at the first occurrence of the first character of `sep`, if
    `sep` itself starts there: the text before it and the text after it.
  */
  function Cut(s: string, sep: string): (r: Option<(string, string)>)
    requires |sep| > 0
    ensures r.Some? ==> |r.value.0| + |sep| + |r.value.1| == |s|
  {
    var k := IndexOf(s, sep[0]);
    if k + |sep| <= |s| && s[k..k + |sep|] == sep then Some((s[..k], s[k + |sep|..])) else None
  }

  /** The cut falls right after `a` when `a` does not contain the first character of `sep`. */
  lemma {:induction false} CutAt(a: string, sep: string, b: string)
    requires |sep| > 0 && sep[0] !in a
    ensures Cut(a + sep + b, sep) == Some((a, b))
  {
    var s := a + sep + b;
    assert s == a + [sep[0]] + (sep[1..] + b);
    IndexOfAfter(a, sep[0], sep[1..] + b);
    assert s[|a|..|a| + |sep|] == sep && s[..|a|] == a && s[|a| + |sep|..] == b;
  }

  /**
    Cuts `s` at every occurrence of `sep`, locating each one by its first
    character; the inverse of Join for parts that do not contain that character.
  */
  function Split(s: string, sep: string): (parts: seq<string>)
    requires |sep| > 0
    ensures |parts| >= 1
    decreases |s|
  {
    match Cut(s, sep)
    case Some((before, after)) => [before] + Split(after, sep)
    case None => [s]
  }

  lemma {:induction false} SplitJoin(sep: string, parts: seq<string>)
    requires |sep| > 0 && |parts| >= 1
    requires forall i :: 0 <= i < |parts| ==> sep[0] !in parts[i]
    ensures Split(Join(sep, parts), sep) == parts
  {
    var s := Join(sep, parts);
    if |parts| == 1 {
      assert IndexOf(s, sep[0]) == |s|;
    } else {
      CutAt(parts[0], sep, Join(sep, parts[1..]));
      SplitJoin(sep, parts[1..]);
    }
  }

  // ---------------------------------------------------------------------------
  // Java strings as UTF-16 code units
  // ---------------------------------------------------------------------------

  /**
    The UTF-16 code units of one character: the character itself below
    U+10000, otherwise a high surrogate followed by a low surrogate.
  */
  function CodeUnits(c: char): (r: seq<int>)
    ensures |r| == (if c as int < 0x1_0000 then 1 else 2)
    ensures forall i :: 0 <= i < |r| ==> 0 <= r[i] < 0x1_0000
  {
    var v := c as int;
    if v < 0x1_0000 then [v]
    else [0xD800 + (v - 0x1_0000) / 0x400, 0xDC00 + (v - 0x1_0000) % 0x400]
  }

  /** The code units a Java String holds for `s`, character after character. */
  function Utf16(s: string): (r: seq<int>)
    ensures |r| >= |s|
    ensures forall i :: 0 <= i < |r| ==> 0 <= r[i] < 0x1_0000
    decreases |s|
  {
    if s == [] then [] else CodeUnits(s[0]) + Utf16(s[1..])
  }

  /** String.length(): the number of UTF-16 code units, not of characters. */
  function Length(s: string): (n: nat)
    ensures n >= |s|
  {
    |Utf16(s)|
  }

  /** Reads characters back from UTF-16 code units; None on an unpaired surrogate. */
  function DecodeUtf16(us: seq<int>): (r: Option<string>)
    decreases |us|
  {
    if us == [] then Some([])
    else if 0 <= us[0] < 0xD800 || 0xE000 <= us[0] < 0x1_0000 then
      match DecodeUtf16(us[1..])
      case Some(t) => Some([us[0] as char] + t)
      case None => None
    else if 0xD800 <= us[0] < 0xDC00 && |us| >= 2 && 0xDC00 <= us[1] < 0xE000 then
      var c := 0x1_0000 + (us[0] - 0xD800) * 0x400 + (us[1] - 0xDC00);
      match DecodeUtf16(us[2..])
      case Some(t) => Some([c as char] + t)
      case None => None
    else None
  }

  lemma {:induction false} DecodeCodeUnits(c: char, rest: seq<int>)
    ensures DecodeUtf16(CodeUnits(c) + rest)
         == (match DecodeUtf16(rest) case Some(t) => Some([c] + t) case None => None)
  {
    var us := CodeUnits(c) + rest;
    var v := c as int;
    if v < 0x1_0000 {
      assert us[0] == v && us[1..] == rest;
    } else {
      var w := v - 0x1_0000;
      assert w == (w / 0x400) * 0x400 + w % 0x400;
      assert us[0] == 0xD800 + w / 0x400 && us[1] == 0xDC00 + w % 0x400 && us[2..] == rest;
    }
  }

  /** Decoding the code units of a string gives the string back. */
  lemma {:induction false} DecodeUtf16Encoded(s: string)
    ensures DecodeUtf16(Utf16(s)) == Some(s)
    decreases |s|
  {
    if s != [] {
      DecodeUtf16Encoded(s[1..]);
      DecodeCodeUnits(s[0], Utf16(s[1..]));
      assert [s[0]] + s[1..] == s;
    }
  }

  /** Different strings have different code units. */
  lemma {:induction false} Utf16Injective(a: string, b: string)
    ensures Utf16(a) == Utf16(b) ==> a == b
  {
    DecodeUtf16Encoded(a);
    DecodeUtf16Encoded(b);
  }

  // ---------------------------------------------------------------------------
  // String.compareTo and String.hashCode
  // ---------------------------------------------------------------------------

  /**
    The comparison String.compareTo makes on code units: the difference of
    the first pair that differ, or the difference of the lengths when one
    sequence is a prefix of the other.
  */
  function CompareUnits(a: seq<int>, b: seq<int>): (r: int)
    ensures r == 0 <==> a == b
  {
    if |a| == 0 || |b| == 0 then |a| - |b|
    else if a[0] != b[0] then a[0] - b[0]
    else
      assert a == [a[0]] + a[1..] && b == [b[0]] + b[1..];
      CompareUnits(a[1..], b[1..])
  }

  lemma {:induction false} CompareUnitsAntisymmetric(a: seq<int>, b: seq<int>)
    ensures CompareUnits(b, a) == -CompareUnits(a, b)
  {
    if |a| > 0 && |b| > 0 && a[0] == b[0] {
      CompareUnitsAntisymmetric(a[1..], b[1..]);
    }
  }

  lemma {:induction false} CompareUnitsTransitive(a: seq<int>, b: seq<int>, c: seq<int>)
    requires CompareUnits(a, b) < 0 && CompareUnits(b, c) < 0
    ensures CompareUnits(a, c) < 0
  {
    if |a| > 0 && |b| > 0 && |c| > 0 && a[0] == b[0] && b[0] == c[0] {
      CompareUnitsTransitive(a[1..], b[1..], c[1..]);
    }
  }

  /** String.compareTo, on the UTF-16 code units of the two strings. */
  function CompareTo(a: string, b: string): (r: int)
    ensures r == 0 <==> a == b
  {
    Utf16Injective(a, b);
    CompareUnits(Utf16(a), Utf16(b))
  }

  lemma {:induction false} CompareToAntisymmetric(a: string, b: string)
    ensures CompareTo(b, a) == -CompareTo(a, b)
  {
    CompareUnitsAntisymmetric(Utf16(a), Utf16(b));
  }

  lemma {:induction false} CompareToTransitive(a: string, b: string, c: string)
    requires CompareTo(a, b) < 0 && CompareTo(b, c) < 0
    ensures CompareTo(a, c) < 0
  {
    CompareUnitsTransitive(Utf16(a), Utf16(b), Utf16(c));
  }

  /**
    The order is that of code units, not of characters: U+E000 sorts after
    U+1F600, whose first code unit is the high surrogate 0xD83D.
  */
  lemma {:induction false} CompareToByCodeUnits()
    ensures CompareTo("\U{E000}", "\U{1F600}") > 0
  {
    assert Utf16("\U{E000}") == [0xE000] + Utf16("");
    assert Utf16("\U{1F600}") == CodeUnits('\U{1F600}') + Utf16("");
  }

  /** The base-31 polynomial of String.hashCode, over unbounded integers. */
  function HashUnits(us: seq<int>): int {
    if |us| == 0 then 0 else 31 * HashUnits(us[..|us| - 1]) + us[|us| - 1]
  }

  /** String.hashCode over unbounded integers: the code units as base-31 digits. */
  function HashCode(s: string): int {
    HashUnits(Utf16(s))
  }
}
