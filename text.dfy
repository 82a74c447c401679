/**
 * The Python string operations the assembler relies on, restricted to ASCII:
 * strip(), startswith(), slicing from an index, split(' '), upper(),
 * isnumeric() and int() of a decimal string.
 */
module Text {
  import opened Common
  import opened Binary

  /** str.isspace() on ASCII: space, tab, line feed, vertical tab, form feed, carriage return, 0x1C to 0x1F. */
  predicate IsSpace(c: char)
  {
    c == ' ' || 9 <= c as int <= 13 || 28 <= c as int <= 31
  }

  predicate AllSpace(s: string)
  {
    forall i :: 0 <= i < |s| ==> IsSpace(s[i])
  }

  /** No whitespace at either end: the shape every result of strip() has. */
  predicate IsStripped(s: string)
  {
    s == [] || (!IsSpace(s[0]) && !IsSpace(s[|s| - 1]))
  }

  function TrimStart(s: string): string
  {
    if s != [] && IsSpace(s[0]) then TrimStart(s[1..]) else s
  }

  function TrimEnd(s: string): string
  {
    if s != [] && IsSpace(s[|s| - 1]) then TrimEnd(s[..|s| - 1]) else s
  }

  /** str.strip() with no argument. */
  function Strip(s: string): string
  {
    TrimEnd(TrimStart(s))
  }

  /** str.startswith(p). */
  predicate StartsWith(s: string, p: string)
  {
    |p| <= |s| && s[..|p|] == p
  }

  /** s[1:], which Python gives as "" for the empty string: what follows the first character. */
  function DropFirst(s: string): (t: string)
    ensures s != [] ==> [s[0]] + t == s
    ensures |t| == if s == [] then 0 else |s| - 1
  {
    if s == [] then [] else s[1..]
  }

  predicate IsLower(c: char)
  {
    'a' <= c <= 'z'
  }

  function UpperChar(c: char): char
  {
    if IsLower(c) then (c as int - 32) as char else c
  }

  /** str.upper() on ASCII letters. */
  function Upper(s: string): string
  {
    seq(|s|, i requires 0 <= i < |s| => UpperChar(s[i]))
  }

  predicate HasNoLower(s: string)
  {
    forall i :: 0 <= i < |s| ==> !IsLower(s[i])
  }

  /** "sep".join(tokens). */
  function Join(tokens: seq<string>, sep: char): string
  {
    if tokens == [] then []
    else if |tokens| == 1 then tokens[0]
    else tokens[0] + [sep] + Join(tokens[1..], sep)
  }

  /**
   * str.split(' '): cut at every single space, so two spaces in a row give an
   * empty token and every other character, commas included, stays in its token.
   * Joining the tokens again with ' ' gives back s.
   */
  function Split(s: string): (tokens: seq<string>)
    ensures |tokens| >= 1
    ensures forall t :: t in tokens ==> ' ' !in t
    ensures Join(tokens, ' ') == s
  {
    if s == [] then [""]
    else
      var rest := Split(s[1..]);
      if s[0] == ' ' then
        assert [' '] + s[1..] == s;
        [""] + rest
      else
        assert ([s[0]] + rest[0]) + [' '] == [s[0]] + (rest[0] + [' ']);
        [[s[0]] + rest[0]] + rest[1..]
  }

  /** A string without a space is one token. */
  lemma {:induction false} SplitNoSpace(a: string)
    requires ' ' !in a
    ensures Split(a) == [a]
  {
    if a != [] {
      SplitNoSpace(a[1..]);
      assert [a[0]] + a[1..] == a;
    }
  }

  /** The first space ends the first token; the rest of the tokens are those of what follows it. */
  lemma {:induction false} SplitAtSpace(a: string, b: string)
    requires ' ' !in a
    ensures Split(a + " " + b) == [a] + Split(b)
  {
    if a == [] {
      assert (a + " " + b)[1..] == b;
    } else {
      assert (a + " " + b)[1..] == a[1..] + " " + b;
      SplitAtSpace(a[1..], b);
      assert [a[0]] + a[1..] == a;
    }
  }

  /** A line of three space-free words separated by single spaces splits into those three words. */
  lemma SplitThree(a: string, b: string, c: string)
    requires ' ' !in a && ' ' !in b && ' ' !in c
    ensures Split(a + " " + b + " " + c) == [a, b, c]
  {
    SplitNoSpace(c);
    SplitAtSpace(b, c);
    assert a + " " + b + " " + c == a + " " + (b + " " + c);
    SplitAtSpace(a, b + " " + c);
  }

  predicate IsDigit(c: char)
  {
    '0' <= c <= '9'
  }

  /** str.isnumeric() on ASCII: non-empty and all decimal digits. */
  predicate IsNumeric(s: string)
  {
    s != [] && forall i :: 0 <= i < |s| ==> IsDigit(s[i])
  }

  function DecimalValue(s: string): nat
  {
    if s == [] then 0
    else 10 * DecimalValue(s[..|s| - 1]) + (if IsDigit(s[|s| - 1]) then s[|s| - 1] as int - '0' as int else 0)
  }

  /** int(s) on a string of ASCII digits; any other string raises ValueError. */
  function ParseDecimal(s: string): Option<nat>
  {
    if IsNumeric(s) then Some(DecimalValue(s)) else None
  }

  /** str(n) for n >= 0. */
  function Decimal(n: nat): string
  {
    if n < 10 then [('0' as int + n) as char] else Decimal(n / 10) + [('0' as int + n % 10) as char]
  }

  // ---------------------------------------------------------------------------
  // Lemmas

  function LeadingSpaces(s: string): (n: nat)
    ensures n <= |s|
  {
    if s != [] && IsSpace(s[0]) then 1 + LeadingSpaces(s[1..]) else 0
  }

  function TrailingSpaces(s: string): (n: nat)
    ensures n <= |s|
  {
    if s != [] && IsSpace(s[|s| - 1]) then 1 + TrailingSpaces(s[..|s| - 1]) else 0
  }

  lemma {:induction false} TrimStartShape(s: string)
    ensures TrimStart(s) == s[LeadingSpaces(s)..] && AllSpace(s[..LeadingSpaces(s)])
    ensures TrimStart(s) == [] || !IsSpace(TrimStart(s)[0])
  {
    if s != [] && IsSpace(s[0]) {
      TrimStartShape(s[1..]);
      var n := LeadingSpaces(s[1..]);
      assert s[1..][n..] == s[n + 1..];
      assert s[..n + 1] == [s[0]] + s[1..][..n];
    }
  }

  lemma {:induction false} TrimEndShape(s: string)
    ensures TrimEnd(s) == s[..|s| - TrailingSpaces(s)] && AllSpace(s[|s| - TrailingSpaces(s)..])
    ensures TrimEnd(s) == [] || !IsSpace(TrimEnd(s)[|TrimEnd(s)| - 1])
  {
    if s != [] && IsSpace(s[|s| - 1]) {
      var p := s[..|s| - 1];
      TrimEndShape(p);
      var n := TrailingSpaces(p);
      assert p[..|p| - n] == s[..|s| - (n + 1)];
      assert s[|s| - (n + 1)..] == p[|p| - n..] + [s[|s| - 1]];
    }
  }

  lemma {:induction false} TrimEndKeepsStart(s: string)
    requires s != [] && !IsSpace(s[0])
    ensures TrimEnd(s) == [] || TrimEnd(s)[0] == s[0]
  {
    if IsSpace(s[|s| - 1]) {
      var p := s[..|s| - 1];
      if p != [] {
        TrimEndKeepsStart(p);
      }
    }
  }

  /**
   * strip() cuts off exactly the whitespace at both ends: its result is a slice
   * s[i..j] with only whitespace before i and after j, and it has no whitespace
   * at either end of its own.
   */
  lemma StripShape(s: string)
    ensures exists i, j :: 0 <= i <= j <= |s| && Strip(s) == s[i..j] && AllSpace(s[..i]) && AllSpace(s[j..])
    ensures IsStripped(Strip(s))
  {
    TrimStartShape(s);
    var i := LeadingSpaces(s);
    var t := TrimStart(s);
    TrimEndShape(t);
    var j := i + |t| - TrailingSpaces(t);
    assert Strip(s) == s[i..j];
    assert s[j..] == t[|t| - TrailingSpaces(t)..];
    if t != [] {
      TrimEndKeepsStart(t);
    }
    assert 0 <= i <= j <= |s| && Strip(s) == s[i..j] && AllSpace(s[..i]) && AllSpace(s[j..]);
  }

  /** A string with no whitespace at either end is left alone by strip(). */
  lemma StripOfStripped(s: string)
    requires IsStripped(s)
    ensures Strip(s) == s
  {
  }

  /** strip() is idempotent. */
  lemma StripIdempotent(s: string)
    ensures Strip(Strip(s)) == Strip(s)
  {
    StripShape(s);
    StripOfStripped(Strip(s));
  }

  /**
   * upper() keeps the length, leaves no lower-case letter, turns each
   * lower-case letter into the same letter in upper case, and keeps every
   * other character as it is.
   */
  lemma UpperShape(s: string)
    ensures |Upper(s)| == |s| && HasNoLower(Upper(s))
    ensures forall i :: 0 <= i < |s| && IsLower(s[i]) ==>
      'A' <= Upper(s)[i] <= 'Z' && Upper(s)[i] as int - 'A' as int == s[i] as int - 'a' as int
    ensures forall i :: 0 <= i < |s| && !IsLower(s[i]) ==> Upper(s)[i] == s[i]
  {
  }

  /** upper() leaves a string without lower-case letters unchanged. */
  lemma UpperOfNoLower(s: string)
    requires HasNoLower(s)
    ensures Upper(s) == s
  {
  }

  /** upper() is idempotent. */
  lemma UpperIdempotent(s: string)
    ensures Upper(Upper(s)) == Upper(s)
  {
    UpperShape(s);
    UpperOfNoLower(Upper(s));
  }

  lemma {:induction false} DecimalDigits(n: nat)
    ensures IsNumeric(Decimal(n)) && DecimalValue(Decimal(n)) == n
  {
    var d := Decimal(n);
    if n >= 10 {
      DecimalDigits(n / 10);
      assert d[..|d| - 1] == Decimal(n / 10);
    }
  }

  lemma {:induction false} DecimalOfZeros(k: nat)
    ensures DecimalValue(Zeros(k)) == 0
  {
    if k > 0 {
      assert Zeros(k)[..k - 1] == Zeros(k - 1);
      DecimalOfZeros(k - 1);
    }
  }

  /** Leading zeros change neither whether int() accepts a string of digits nor its value. */
  lemma {:induction false} DecimalLeadingZeros(k: nat, s: string)
    ensures DecimalValue(Zeros(k) + s) == DecimalValue(s)
    ensures IsNumeric(s) ==> IsNumeric(Zeros(k) + s)
  {
    if s == [] {
      assert Zeros(k) + s == Zeros(k);
      DecimalOfZeros(k);
    } else {
      var z := Zeros(k) + s;
      assert z[..|z| - 1] == Zeros(k) + s[..|s| - 1];
      assert z[|z| - 1] == s[|s| - 1];
      DecimalLeadingZeros(k, s[..|s| - 1]);
    }
  }

  /** int(s) of str(n) with any number of leading zeros is n. */
  lemma PaddedDecimal(k: nat, n: nat)
    ensures ParseDecimal(Zeros(k) + Decimal(n)) == Some(n)
  {
    DecimalDigits(n);
    DecimalLeadingZeros(k, Decimal(n));
  }

  /** int(str(n)) == n. */
  lemma DecimalRoundTrip(n: nat)
    ensures ParseDecimal(Decimal(n)) == Some(n)
  {
    DecimalDigits(n);
  }
}
