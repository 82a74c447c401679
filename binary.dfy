/**
 * Binary digit strings as the assembler's helpers build them with Python's
 * bin(), int(s, 2), zero padding and the "swap 0 and 1" replace chain.
 */
module Binary {
  import opened Common

  function Pow2(k: nat): (p: nat)
    ensures p >= 1
  {
    if k == 0 then 1 else 2 * Pow2(k - 1)
  }

  predicate IsBinary(s: string)
  {
    forall i :: 0 <= i < |s| ==> s[i] == '0' || s[i] == '1'
  }

  function DigitChar(b: nat): char
    requires b < 2
  {
    if b == 0 then '0' else '1'
  }

  function DigitValue(c: char): nat
  {
    if c == '1' then 1 else 0
  }

  /** The number a string of binary digits denotes, most significant digit first. */
  function Value(s: string): nat
  {
    if s == [] then 0 else 2 * Value(s[..|s| - 1]) + DigitValue(s[|s| - 1])
  }

  /** bin(n)[2:] for n >= 0: the binary digits of n without leading zeros ("0" for zero). */
  function Bin(n: nat): string
  {
    if n < 2 then [DigitChar(n)] else Bin(n / 2) + [DigitChar(n % 2)]
  }

  /** bin(v)[2:] for any integer: Python writes a negative v as "-0b...", so what is left starts with 'b'. */
  function BinTail(v: int): string
  {
    if v >= 0 then Bin(v) else ['b'] + Bin(-v)
  }

  function Zeros(k: nat): string
  {
    seq(k, _ => '0')
  }

  function Ones(k: nat): string
  {
    seq(k, _ => '1')
  }

  /**
   * Left padding with '0' up to width w: both `'0' * (w - len(s)) + s` (applied
   * only when s is shorter) and `s.zfill(w)` on a string without a sign.
   */
  function ZeroPad(s: string, w: nat): (p: string)
    ensures |p| == (if |s| < w then w else |s|)
    ensures p[|p| - |s|..] == s && p[..|p| - |s|] == Zeros(|p| - |s|)
  {
    if |s| < w then Zeros(w - |s|) + s else s
  }

  /** One character through replace('0', 'x'), replace('1', '0'), replace('x', '1'). */
  function FlipChar(c: char): char
  {
    if c == '0' || c == 'x' then '1' else if c == '1' then '0' else c
  }

  /** The replace chain applied to a whole string. */
  function Flip(s: string): string
  {
    seq(|s|, i requires 0 <= i < |s| => FlipChar(s[i]))
  }

  /** int(s, 2): a non-empty string of binary digits parses, anything else raises. */
  function ParseBin(s: string): Option<nat>
  {
    if s != [] && IsBinary(s) then Some(Value(s)) else None
  }

  // ---------------------------------------------------------------------------
  // Lemmas

  lemma Pow2Add(a: nat, b: nat)
    ensures Pow2(a + b) == Pow2(a) * Pow2(b)
  {
    if a > 0 {
      Pow2Add(a - 1, b);
    }
  }

  lemma {:induction false} Pow2Monotone(a: nat, b: nat)
    requires a <= b
    ensures Pow2(a) <= Pow2(b)
  {
    if a < b {
      Pow2Monotone(a, b - 1);
    }
  }

  /** The powers of two behind the helpers' field widths. */
  lemma Pow2Widths()
    ensures Pow2(4) == 16 && Pow2(7) == 128 && Pow2(8) == 256 && Pow2(11) == 2048 && Pow2(12) == 4096
  {
    assert Pow2(4) == 16;
    assert Pow2(7) == 128;
    assert Pow2(8) == 256;
    assert Pow2(11) == 2048;
  }

  lemma ValueSnoc(s: string, c: char)
    ensures Value(s + [c]) == 2 * Value(s) + DigitValue(c)
  {
    assert (s + [c])[..|s|] == s;
  }

  lemma ShiftStep(x: int, p: int, y: int, d: int)
    ensures 2 * (x * p + y) + d == x * (2 * p) + (2 * y + d)
  {
  }

  /** The value of a concatenation: the left part shifted by the length of the right part. */
  lemma {:induction false} ValueConcat(a: string, b: string)
    ensures Value(a + b) == Value(a) * Pow2(|b|) + Value(b)
  {
    if b == [] {
      assert a + b == a;
    } else {
      var b' := b[..|b| - 1];
      var c := b[|b| - 1];
      assert a + b == (a + b') + [c];
      assert b == b' + [c];
      ValueSnoc(a + b', c);
      ValueSnoc(b', c);
      ValueConcat(a, b');
      assert Pow2(|b|) == 2 * Pow2(|b'|);
      ShiftStep(Value(a), Pow2(|b'|), Value(b'), DigitValue(c));
    }
  }

  lemma {:induction false} ValueBound(s: string)
    ensures Value(s) < Pow2(|s|)
  {
    if s != [] {
      ValueBound(s[..|s| - 1]);
    }
  }

  lemma {:induction false} ValueZeros(k: nat)
    ensures Value(Zeros(k)) == 0
  {
    if k > 0 {
      assert Zeros(k)[..k - 1] == Zeros(k - 1);
      ValueZeros(k - 1);
    }
  }

  lemma {:induction false} ValueOnes(k: nat)
    ensures Value(Ones(k)) == Pow2(k) - 1
  {
    if k > 0 {
      assert Ones(k)[..k - 1] == Ones(k - 1);
      ValueOnes(k - 1);
    }
  }

  /** Zero padding keeps the digits binary and the value unchanged. */
  lemma ZeroPadValue(s: string, w: nat)
    ensures Value(ZeroPad(s, w)) == Value(s)
    ensures IsBinary(s) ==> IsBinary(ZeroPad(s, w))
  {
    if |s| < w {
      ValueConcat(Zeros(w - |s|), s);
      ValueZeros(w - |s|);
    }
  }

  /** A string of binary digits that starts with '1' is at least the weight of that digit. */
  lemma LeadingOne(s: string)
    requires IsBinary(s) && s != [] && s[0] == '1'
    ensures Pow2(|s| - 1) <= Value(s)
  {
    assert s == [s[0]] + s[1..];
    ValueConcat([s[0]], s[1..]);
    assert [s[0]][..0] == [];
  }

  /**
   * bin() is correct: its digits are binary, denote n, start with '1' unless n
   * is zero, and their count is the least k with n < 2^k.
   */
  lemma {:induction false} BinCorrect(n: nat)
    ensures IsBinary(Bin(n)) && Value(Bin(n)) == n
    ensures n > 0 ==> Bin(n)[0] == '1'
    ensures n < Pow2(|Bin(n)|)
    ensures n > 0 ==> Pow2(|Bin(n)| - 1) <= n
  {
    if n < 2 {
      assert Bin(n)[..0] == [];
    } else {
      BinCorrect(n / 2);
      ValueSnoc(Bin(n / 2), DigitChar(n % 2));
    }
  }

  /** bin(n) fits in k digits exactly when n < 2^k. */
  lemma BinFits(n: nat, k: nat)
    requires k >= 1
    ensures |Bin(n)| <= k <==> n < Pow2(k)
  {
    BinCorrect(n);
    if |Bin(n)| <= k {
      Pow2Monotone(|Bin(n)|, k);
    } else {
      Pow2Monotone(k, |Bin(n)| - 1);
    }
  }

  /** bin() inverts Value on digit strings without leading zeros. */
  lemma {:induction false} BinOfValue(s: string)
    requires IsBinary(s) && s != [] && s[0] == '1'
    ensures Bin(Value(s)) == s
  {
    var p := s[..|s| - 1];
    var c := s[|s| - 1];
    assert s == p + [c];
    if p != [] {
      LeadingOne(p);
      BinOfValue(p);
      assert Value(s) == 2 * Value(p) + DigitValue(c);
      assert Value(s) / 2 == Value(p) && Value(s) % 2 == DigitValue(c);
    }
  }

  /** A fixed-width field: n < 2^w padded to w digits is exactly w binary digits denoting n. */
  lemma FixedWidth(n: nat, w: nat)
    requires w >= 1 && n < Pow2(w)
    ensures |ZeroPad(Bin(n), w)| == w
    ensures IsBinary(ZeroPad(Bin(n), w)) && Value(ZeroPad(Bin(n), w)) == n
  {
    BinFits(n, w);
    BinCorrect(n);
    ZeroPadValue(Bin(n), w);
  }

  /** Swapping 0 and 1 in k binary digits gives the k-bit ones' complement. */
  lemma {:induction false} FlipValue(s: string)
    requires IsBinary(s)
    ensures IsBinary(Flip(s))
    ensures Value(Flip(s)) == Pow2(|s|) - 1 - Value(s)
  {
    if s != [] {
      var p := s[..|s| - 1];
      var c := s[|s| - 1];
      assert Flip(s) == Flip(p) + [FlipChar(c)];
      FlipValue(p);
      ValueSnoc(Flip(p), FlipChar(c));
    }
  }

  /** The mask digits: n ones followed by k zeros are bin(2^(n+k) - 2^k). */
  lemma MaskDigits(n: nat, k: nat)
    requires n >= 1
    ensures Pow2(k) <= Pow2(n + k)
    ensures Bin(Pow2(n + k) - Pow2(k)) == Ones(n) + Zeros(k)
  {
    var s := Ones(n) + Zeros(k);
    ValueConcat(Ones(n), Zeros(k));
    ValueOnes(n);
    ValueZeros(k);
    Pow2Add(n, k);
    assert Value(s) == (Pow2(n) - 1) * Pow2(k);
    assert Value(s) == Pow2(n + k) - Pow2(k);
    BinOfValue(s);
  }
}
