/**
 * The helpers of util.py: source-line cleaning, and the integer to bit-string
 * conversions the code generator uses for immediates, addresses, two's
 * complement negation and shift masks.
 */
module Util {
  import opened Common
  import opened Binary
  import opened Text

  // ---------------------------------------------------------------------------
  // clean_lines

  /** The test clean_lines puts to a stripped line: not empty and not a `//` comment. */
  predicate Keep(line: string)
  {
    line != "" && !StartsWith(line, "//")
  }

  /** What clean_lines returns: each line stripped, and kept when it passes Keep. */
  function Cleaned(lines: seq<string>): seq<string>
  {
    if lines == [] then []
    else
      var line := Strip(lines[|lines| - 1]);
      Cleaned(lines[..|lines| - 1]) + (if Keep(line) then [line] else [])
  }

  /**
   * clean_lines (util.py and its verbatim copy in assembler.py): one pass over
   * the lines, appending each stripped line that is neither empty nor a comment.
   */
  method CleanLines(lines: seq<string>) returns (cleaned: seq<string>)
    ensures cleaned == Cleaned(lines)
  {
    cleaned := [];
    for i := 0 to |lines|
      invariant cleaned == Cleaned(lines[..i])
    {
      var line := Strip(lines[i]);
      if line != "" && !StartsWith(line, "//") {
        cleaned := cleaned + [line];
      }
      assert lines[..i + 1][..i] == lines[..i];
    }
    assert lines[..|lines|] == lines;
  }

  /** Every line stripped, in order. */
  function StripAll(lines: seq<string>): seq<string>
  {
    seq(|lines|, i requires 0 <= i < |lines| => Strip(lines[i]))
  }

  /** a is b with some elements left out, the rest in their original order. */
  predicate IsSubsequence(a: seq<string>, b: seq<string>)
  {
    if a == [] then true
    else if b == [] then false
    else
      (a[|a| - 1] == b[|b| - 1] && IsSubsequence(a[..|a| - 1], b[..|b| - 1]))
      || IsSubsequence(a, b[..|b| - 1])
  }

  /** Every line clean_lines returns is stripped, non-empty and not a comment. */
  lemma {:induction false} CleanedWellFormed(lines: seq<string>)
    ensures forall x :: x in Cleaned(lines) ==> IsStripped(x) && Keep(x)
  {
    if lines != [] {
      CleanedWellFormed(lines[..|lines| - 1]);
      StripShape(lines[|lines| - 1]);
    }
  }

  /** The output of clean_lines is the stripped input with lines left out, in input order. */
  lemma {:induction false} CleanedSubsequence(lines: seq<string>)
    ensures IsSubsequence(Cleaned(lines), StripAll(lines))
  {
    if lines != [] {
      var p := lines[..|lines| - 1];
      var line := Strip(lines[|lines| - 1]);
      var stripped := StripAll(lines);
      CleanedSubsequence(p);
      assert stripped[..|stripped| - 1] == StripAll(p);
      assert stripped[|stripped| - 1] == line;
      var c := Cleaned(lines);
      if Keep(line) {
        assert c == Cleaned(p) + [line];
        assert c[..|c| - 1] == Cleaned(p) && c[|c| - 1] == line;
      } else {
        assert c == Cleaned(p);
      }
    }
  }

  /** No line that survives stripping and the comment test is dropped. */
  lemma {:induction false} CleanedComplete(lines: seq<string>, i: nat)
    requires i < |lines| && Keep(Strip(lines[i]))
    ensures Strip(lines[i]) in Cleaned(lines)
  {
    var p := lines[..|lines| - 1];
    if i < |lines| - 1 {
      assert p[i] == lines[i];
      CleanedComplete(p, i);
    }
  }

  /** Cleaning cleaned lines changes nothing. */
  lemma {:induction false} CleanedIdempotent(lines: seq<string>)
    ensures Cleaned(Cleaned(lines)) == Cleaned(lines)
  {
    if lines != [] {
      var p := lines[..|lines| - 1];
      var line := Strip(lines[|lines| - 1]);
      CleanedIdempotent(p);
      if Keep(line) {
        var c := Cleaned(lines);
        assert c == Cleaned(p) + [line];
        assert c[..|c| - 1] == Cleaned(p) && c[|c| - 1] == line;
        StripShape(lines[|lines| - 1]);
        StripOfStripped(line);
        assert Cleaned(c) == Cleaned(Cleaned(p)) + [line];
      } else {
        assert Cleaned(lines) == Cleaned(p);
      }
    }
  }

  // ---------------------------------------------------------------------------
  // Immediates and addresses

  /** get_half_imms: the 8-digit binary of imm split into its first and last four digits. */
  function GetHalfImms(imm: int): Result<(string, string)>
  {
    var s := BinTail(imm);
    if |s| > 8 then Err(TooLarge)
    else
      var p := ZeroPad(s, 8);
      Ok((p[..4], p[4..]))
  }

  /**
   * For an 8-bit immediate the halves are four binary digits each, high nibble
   * first; together they are the zero-padded 8-bit binary of v.
   */
  lemma HalfImmsInRange(v: int)
    requires 0 <= v <= 255
    ensures GetHalfImms(v).Ok?
    ensures var (high, low) := GetHalfImms(v).value;
      |high| == 4 && |low| == 4 && IsBinary(high) && IsBinary(low)
      && high + low == ZeroPad(Bin(v), 8)
      && Value(high) == v / 16 && Value(low) == v % 16
  {
    Pow2Widths();
    FixedWidth(v, 8);
    var p := ZeroPad(Bin(v), 8);
    var (high, low) := (p[..4], p[4..]);
    assert p == high + low;
    ValueConcat(high, low);
    ValueBound(low);
    assert v == 16 * Value(high) + Value(low);
  }

  /** An immediate whose binary needs more than eight characters raises "too large". */
  lemma HalfImmsOutOfRange(v: int)
    requires v > 255 || v <= -128
    ensures GetHalfImms(v) == Err(TooLarge)
  {
    Pow2Widths();
    if v > 255 {
      BinFits(v, 8);
    } else {
      BinFits(-v, 7);
    }
  }

  /**
   * A negative immediate above -128 is not rejected: bin() of it starts "-0b",
   * and the halves returned carry the leftover 'b', so they are not binary.
   */
  lemma HalfImmsSmallNegative(v: int)
    requires -128 < v < 0
    ensures GetHalfImms(v).Ok?
    ensures !IsBinary(GetHalfImms(v).value.0 + GetHalfImms(v).value.1)
  {
    Pow2Widths();
    BinFits(-v, 7);
    var s := BinTail(v);
    var p := ZeroPad(s, 8);
    assert p[8 - |s|] == s[0] == 'b';
    assert p == p[..4] + p[4..];
  }

  /** get_12_bit_memory_address: the 12-digit zero-padded binary of num. */
  function Get12BitMemoryAddress(num: int): Result<string>
  {
    if num < 0 then Err(NegativeValue)
    else
      var s := ZeroPad(Bin(num), 12);
      if |s| > 12 then Err(TooLarge) else Ok(s)
  }

  /** Addresses 0..4095 come back as exactly 12 binary digits that denote them; others raise. */
  lemma MemoryAddressCorrect(n: int)
    ensures 0 <= n < 4096 ==>
      Get12BitMemoryAddress(n).Ok? && |Get12BitMemoryAddress(n).value| == 12
      && ParseBin(Get12BitMemoryAddress(n).value) == Some(n)
    ensures n < 0 ==> Get12BitMemoryAddress(n) == Err(NegativeValue)
    ensures n >= 4096 ==> Get12BitMemoryAddress(n) == Err(TooLarge)
  {
    Pow2Widths();
    if 0 <= n < 4096 {
      FixedWidth(n, 12);
    } else if n >= 4096 {
      BinFits(n, 12);
    }
  }

  /**
   * get_12_bit_twos_comp_negative: flip the 12 digits of num, add one, and
   * return bin() of the sum without padding.
   */
  function Get12BitTwosCompNegative(num: int): Result<string>
  {
    match Get12BitMemoryAddress(num)
    case Err(e) => Err(e)
    case Ok(s) =>
      match ParseBin(Flip(s))
      case None => Err(NotBinary)
      case Some(v) =>
        var t := Bin(v + 1);
        if |t| > 12 then Err(TooSmall) else Ok(t)
  }

  /**
   * For 1 <= n <= 4095 the result is the binary of 4096 - n, twelve digits long
   * exactly when n <= 2048 (the magnitudes of the offsets -2048..-1); zero
   * overflows into a 13th digit and raises, and so does anything outside 0..4095.
   */
  lemma TwosComp12Correct(n: int)
    ensures 1 <= n <= 4095 ==>
      Get12BitTwosCompNegative(n) == Ok(Bin(4096 - n))
      && IsBinary(Bin(4096 - n)) && Value(Bin(4096 - n)) == 4096 - n
      && (|Bin(4096 - n)| == 12 <==> n <= 2048)
    ensures n == 0 ==> Get12BitTwosCompNegative(n) == Err(TooSmall)
    ensures n < 0 ==> Get12BitTwosCompNegative(n) == Err(NegativeValue)
    ensures n > 4095 ==> Get12BitTwosCompNegative(n) == Err(TooLarge)
  {
    MemoryAddressCorrect(n);
    if 0 <= n <= 4095 {
      TwosComp12Flip(n);
      Pow2Widths();
      BinFits(4096 - n, 12);
      BinFits(4096 - n, 11);
      BinCorrect(4096 - n);
    }
  }

  /** The flipped 12-digit address of n reads back as 4095 - n. */
  lemma TwosComp12Flip(n: int)
    requires 0 <= n <= 4095
    ensures Get12BitMemoryAddress(n).Ok?
    ensures ParseBin(Flip(Get12BitMemoryAddress(n).value)) == Some(4095 - n)
  {
    MemoryAddressCorrect(n);
    var s := Get12BitMemoryAddress(n).value;
    assert IsBinary(s) && Value(s) == n;
    FlipValue(s);
    Pow2Widths();
  }

  /**
   * get_twos_complement_negative: pad the binary of num to eight digits, flip
   * them, add one, and pad the sum back to eight digits.
   */
  function GetTwosComplementNegative(num: int): Result<string>
  {
    var s := BinTail(num);
    if |s| > 8 then Err(TooLarge)
    else
      match ParseBin(Flip(ZeroPad(s, 8)))
      case None => Err(NotBinary)
      case Some(v) =>
        var t := Bin(v + 1);
        if |t| > 8 then Err(TooLarge) else Ok(ZeroPad(t, 8))
  }

  /**
   * For 1 <= n <= 255 the result is the 8-bit two's complement of -n: eight
   * binary digits denoting 256 - n. Zero carries into a ninth digit and raises,
   * as do values above 255; negative values raise as TwosComp8Negative says.
   */
  lemma TwosComp8Correct(n: int)
    ensures 1 <= n <= 255 ==>
      GetTwosComplementNegative(n).Ok?
      && |GetTwosComplementNegative(n).value| == 8
      && IsBinary(GetTwosComplementNegative(n).value)
      && Value(GetTwosComplementNegative(n).value) == 256 - n
    ensures n == 0 || n > 255 ==> GetTwosComplementNegative(n) == Err(TooLarge)
    ensures n <= -128 ==> GetTwosComplementNegative(n) == Err(TooLarge)
    ensures -128 < n < 0 ==> GetTwosComplementNegative(n) == Err(NotBinary)
  {
    if 0 <= n <= 255 {
      TwosComp8Byte(n);
    } else if n > 255 {
      Pow2Widths();
      BinFits(n, 8);
    } else {
      TwosComp8Negative(n);
    }
  }

  lemma TwosComp8Byte(n: nat)
    requires n <= 255
    ensures var p := ZeroPad(Bin(n), 8);
      |BinTail(n)| <= 8 && ParseBin(Flip(p)) == Some(255 - n)
    ensures n == 0 ==> GetTwosComplementNegative(n) == Err(TooLarge)
    ensures n >= 1 ==> GetTwosComplementNegative(n) == Ok(ZeroPad(Bin(256 - n), 8))
    ensures n >= 1 ==> (|ZeroPad(Bin(256 - n), 8)| == 8
      && IsBinary(ZeroPad(Bin(256 - n), 8)) && Value(ZeroPad(Bin(256 - n), 8)) == 256 - n)
  {
    Pow2Widths();
    FixedWidth(n, 8);
    BinFits(n, 8);
    var p := ZeroPad(Bin(n), 8);
    FlipValue(p);
    BinFits(256 - n, 8);
    if n >= 1 {
      FixedWidth(256 - n, 8);
    }
  }

  /**
   * A negative n raises in one of two places: from -128 down, its `-0b...`
   * text leaves more than eight characters and the length test raises "too
   * large"; above -128 it is padded, and int(s, 2) meets the `b` and raises.
   */
  lemma TwosComp8Negative(n: int)
    requires n < 0
    ensures n <= -128 ==> GetTwosComplementNegative(n) == Err(TooLarge)
    ensures -128 < n ==> GetTwosComplementNegative(n) == Err(NotBinary)
  {
    Pow2Widths();
    BinFits(-n, 7);
    if |BinTail(n)| <= 8 {
      FlippedSignNotBinary(BinTail(n));
    }
  }

  /** Padding and flipping keep a leading 'b', so int(s, 2) rejects the result. */
  lemma FlippedSignNotBinary(s: string)
    requires |s| <= 8 && s != [] && s[0] == 'b'
    ensures ParseBin(Flip(ZeroPad(s, 8))) == None
  {
    var p := ZeroPad(s, 8);
    assert p[8 - |s|] == 'b';
    assert Flip(p)[8 - |s|] == 'b';
  }

  /** The example at the end of util.py: the negation of 56 is 200, 11001000. */
  lemma TwosCompOf56()
    ensures GetTwosComplementNegative(56) == Ok("11001000")
  {
    TwosComp8Byte(56);
    Bin200();
    assert ZeroPad("11001000", 8) == "11001000";
  }

  lemma Bin200()
    ensures Bin(200) == "11001000"
  {
    assert Bin(3) == "11";
    assert Bin(6) == "110";
    assert Bin(12) == "1100";
    assert Bin(25) == "11001";
    assert Bin(50) == "110010";
    assert Bin(100) == "1100100";
  }

  // ---------------------------------------------------------------------------
  // get_mask_bits_rtl

  /**
   * get_mask_bits_rtl: the binary of 2^7 + 2^6 + ... over num terms, i.e. num
   * ones followed by 8 - num zeros; "0" when num is not positive. From the
   * ninth term on Python computes 2 ** (7 - i) as a float and bin() of the
   * float sum raises TypeError; the loop stops at that term with the same error.
   */
  method GetMaskBitsRtl(num: int) returns (r: Result<string>)
    ensures num <= 0 ==> r == Ok("0")
    ensures 1 <= num <= 8 ==> r == Ok(Ones(num) + Zeros(8 - num))
    ensures 1 <= num <= 8 ==> Value(r.value) == 256 - Pow2(8 - num)
    ensures num > 8 ==> r == Err(NotInteger)
  {
    var mask := 0;
    var i := 0;
    while i < num
      invariant 0 <= i <= 8
      invariant i == 0 || i <= num
      invariant mask == 256 - Pow2(8 - i)
    {
      if 7 - i < 0 {
        return Err(NotInteger);
      }
      mask := mask + Pow2(7 - i);
      i := i + 1;
    }
    MaskBits(i);
    r := Ok(Bin(mask));
  }

  /** The mask after n terms, written in binary: n ones then 8 - n zeros, or "0" for no terms. */
  lemma MaskBits(n: nat)
    requires n <= 8
    ensures Pow2(8 - n) <= 256
    ensures n == 0 ==> Bin(256 - Pow2(8 - n)) == "0"
    ensures n >= 1 ==> Bin(256 - Pow2(8 - n)) == Ones(n) + Zeros(8 - n)
    ensures n >= 1 ==> Value(Ones(n) + Zeros(8 - n)) == 256 - Pow2(8 - n)
  {
    Pow2Widths();
    Pow2Monotone(8 - n, 8);
    if n >= 1 {
      MaskDigits(n, 8 - n);
      BinCorrect(256 - Pow2(8 - n));
    }
  }
}
