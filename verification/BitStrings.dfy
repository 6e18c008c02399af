/** Binary numbers as strings: int2bin, bin2int and binary_range of bindings/python/rad_util.py. */
module BitStrings {

  predicate IsBits(s: string) {
    forall i :: 0 <= i < |s| ==> s[i] == '0' || s[i] == '1'
  }

  function Pow2(n: nat): (p: nat)
    ensures p > 0
  {
    if n == 0 then 1 else 2 * Pow2(n - 1)
  }

  /** int(s, 2): most significant bit first. */
  function BinToInt(s: string): nat
    requires IsBits(s)
  {
    if s == "" then 0 else 2 * BinToInt(s[..|s|-1]) + if s[|s|-1] == '1' then 1 else 0
  }

  function Zeros(n: nat): (s: string)
    ensures |s| == n && forall i :: 0 <= i < n ==> s[i] == '0'
  {
    if n == 0 then "" else Zeros(n - 1) + "0"
  }

  // ----- int2bin -----

  datatype BinResult = Bits(s: string) | TooLarge | BadDigit

  /** The hexadecimal digits of a number, as their values; zero has one digit. */
  function HexDigits(i: nat): (d: seq<nat>)
    ensures forall k :: 0 <= k < |d| ==> d[k] < 16
  {
    if i < 16 then [i] else HexDigits(i / 16) + [i % 16]
  }

  const HEX_TO_BIN := [
    "0000", "0001", "0010", "0011", "0100", "0101", "0110", "0111",
    "1000", "1001", "1010", "1011", "1100", "1101", "1110", "1111"]

  function Nibbles(digits: seq<nat>): string
    requires forall k :: 0 <= k < |digits| ==> digits[k] < 16
  {
    if digits == [] then "" else Nibbles(digits[..|digits|-1]) + HEX_TO_BIN[digits[|digits|-1]]
  }

  /** Python's s[:-n] and s[-n:]; for n == 0 they are empty and the whole string. */
  function AllButLast(s: string, n: nat): string {
    if n == 0 || n >= |s| then "" else s[..|s|-n]
  }

  function LastOnes(s: string, n: nat): string {
    if n == 0 || n >= |s| then s else s[|s|-n..]
  }

  /** Truncation to a width, which must not lose a one, and padding with zeros. */
  function FitToWidth(result: string, n: nat): BinResult {
    if '1' in AllButLast(result, n) then TooLarge else
    var kept := LastOnes(result, n);
    Bits((if n > |kept| then Zeros(n - |kept|) else "") + kept)
  }

  /** For a negative number hex(i)[2:] cuts off the sign and the zero but leaves the x, which has no entry in the
      table. */
  function IntToBin(i: int, n: nat): BinResult {
    if i < 0 then BadDigit else FitToWidth(Nibbles(HexDigits(i)), n)
  }

  function Bit(c: char): nat {
    if c == '1' then 1 else 0
  }

  lemma FourBits(s: string)
    requires |s| == 4 && IsBits(s)
    ensures BinToInt(s) == 8 * Bit(s[0]) + 4 * Bit(s[1]) + 2 * Bit(s[2]) + Bit(s[3])
  {
    assert BinToInt(s[..1]) == 2 * BinToInt(s[..1][..0]) + Bit(s[0]);
    assert s[..2][..1] == s[..1] && s[..3][..2] == s[..2];
    assert BinToInt(s[..2]) == 2 * BinToInt(s[..1]) + Bit(s[1]);
    assert BinToInt(s[..3]) == 2 * BinToInt(s[..2]) + Bit(s[2]);
  }

  /** The table is right. */
  lemma TableSpells(d: nat)
    requires d < 16
    ensures |HEX_TO_BIN[d]| == 4 && IsBits(HEX_TO_BIN[d]) && BinToInt(HEX_TO_BIN[d]) == d
  {
    FourBits(HEX_TO_BIN[d]);
  }

  lemma FourDoublings()
    ensures Pow2(4) == 16
  {
    assert Pow2(2) == 4;
  }

  lemma TimesSixteen(a: nat, p: nat)
    requires p == 16
    ensures a * p == 16 * a
  {
  }

  lemma NibbleValue(s: string, d: nat)
    requires IsBits(s) && d < 16
    ensures IsBits(s + HEX_TO_BIN[d]) && BinToInt(s + HEX_TO_BIN[d]) == 16 * BinToInt(s) + d
  {
    hide BinToInt, Pow2, IsBits;
    TableSpells(d);
    ValueOfBoth(s, HEX_TO_BIN[d]);
    FourDoublings();
    TimesSixteen(BinToInt(s), Pow2(|HEX_TO_BIN[d]|));
  }

  lemma {:induction false} NibblesAreBits(digits: seq<nat>)
    requires forall k :: 0 <= k < |digits| ==> digits[k] < 16
    ensures IsBits(Nibbles(digits)) && |Nibbles(digits)| == 4 * |digits|
  {
    if digits != [] {
      var n := |digits| - 1;
      NibblesAreBits(digits[..n]);
      TableSpells(digits[n]);
      BothAreBits(Nibbles(digits[..n]), HEX_TO_BIN[digits[n]]);
    }
  }

  /** The table spells the number. */
  lemma {:induction false} NibblesSpell(i: nat)
    ensures IsBits(Nibbles(HexDigits(i))) && BinToInt(Nibbles(HexDigits(i))) == i && Nibbles(HexDigits(i)) != ""
  {
    NibblesAreBits(HexDigits(i));
    if i < 16 {
      NibbleValue("", i);
      assert Nibbles([i]) == "" + HEX_TO_BIN[i] by {
        assert [i][..0] == [];
      }
    } else {
      NibblesSpell(i / 16);
      var d := HexDigits(i / 16);
      assert (d + [i % 16])[..|d|] == d;
      NibbleValue(Nibbles(d), i % 16);
    }
  }

  lemma {:induction false} ValueBounds(s: string)
    requires IsBits(s)
    ensures BinToInt(s) < Pow2(|s|)
    ensures BinToInt(s) > 0 <==> '1' in s
  {
    if s != "" {
      ValueBounds(s[..|s|-1]);
      assert s == s[..|s|-1] + [s[|s|-1]];
    }
  }

  lemma ShiftedOnce(a: nat, p: nat, b: nat, c: nat)
    ensures 2 * (a * p + b) + c == a * (2 * p) + (2 * b + c)
  {
  }

  lemma LastBit(s: string)
    requires IsBits(s) && s != ""
    ensures IsBits(s[..|s|-1]) && BinToInt(s) == 2 * BinToInt(s[..|s|-1]) + Bit(s[|s|-1])
    ensures Pow2(|s|) == 2 * Pow2(|s| - 1)
  {
  }

  lemma BothAreBits(s: string, t: string)
    requires IsBits(s) && IsBits(t)
    ensures IsBits(s + t)
  {
  }

  lemma {:induction false} ValueOfBoth(s: string, t: string)
    requires IsBits(s) && IsBits(t)
    ensures IsBits(s + t) && BinToInt(s + t) == BinToInt(s) * Pow2(|t|) + BinToInt(t)
  {
    BothAreBits(s, t);
    if t == "" {
      assert s + t == s;
    } else {
      hide IsBits, BinToInt, Pow2, Bit;
      var n := |t| - 1;
      LastBit(t);
      LastBit(s + t);
      assert (s + t)[..|s|+n] == s + t[..n];
      ValueOfBoth(s, t[..n]);
      ShiftedOnce(BinToInt(s), Pow2(n), BinToInt(t[..n]), Bit(t[n]));
    }
  }

  lemma ZerosAreNothing(n: nat, s: string)
    requires IsBits(s)
    ensures IsBits(Zeros(n) + s) && BinToInt(Zeros(n) + s) == BinToInt(s)
  {
    assert IsBits(Zeros(n));
    ValueBounds(Zeros(n));
    ValueOfBoth(Zeros(n), s);
  }

  lemma {:induction false} Pow2Monotone(m: nat, n: nat)
    requires m <= n
    ensures Pow2(m) <= Pow2(n)
  {
    if m < n {
      Pow2Monotone(m, n - 1);
    }
  }

  lemma CutValue(cut: string, kept: string)
    requires IsBits(cut) && IsBits(kept)
    ensures IsBits(cut + kept)
    ensures '1' in cut ==> BinToInt(cut + kept) >= Pow2(|kept|)
    ensures '1' !in cut ==> BinToInt(cut + kept) == BinToInt(kept) < Pow2(|kept|)
  {
    ValueBounds(cut);
    ValueBounds(kept);
    ValueOfBoth(cut, kept);
    hide BinToInt, Pow2, IsBits;
    AtLeastOnce(BinToInt(cut), Pow2(|kept|));
  }

  lemma AtLeastOnce(c: nat, p: nat)
    ensures if c == 0 then c * p == 0 else c * p >= p
  {
  }

  /** The result spells i in n bits. */
  predicate Spells(r: BinResult, i: nat, n: nat) {
    r.Bits? && |r.s| == n && IsBits(r.s) && BinToInt(r.s) == i
  }

  /** For a positive width: bits are too large exactly from the value 2^n on, and otherwise fitted to n bits that have
      the same value. */
  lemma FittedBits(result: string, n: nat)
    requires n > 0 && IsBits(result)
    ensures FitToWidth(result, n).TooLarge? <==> BinToInt(result) >= Pow2(n)
    ensures BinToInt(result) < Pow2(n) ==> Spells(FitToWidth(result, n), BinToInt(result), n)
  {
    hide BinToInt, Pow2, IsBits;
    var cut, kept := AllButLast(result, n), LastOnes(result, n);
    assert result == cut + kept;
    PartsAreBits(cut, kept);
    CutValue(cut, kept);
    Pow2Monotone(|kept|, n);
    if '1' !in cut {
      if n > |kept| {
        ZerosAreNothing(n - |kept|, kept);
      } else {
        assert "" + kept == kept;
      }
    }
  }

  /** The same for int2bin: the error comes exactly from 2^n on, and otherwise n bits spell the number. */
  lemma IntToBinSpells(i: nat, n: nat)
    requires n > 0
    ensures IntToBin(i, n).TooLarge? <==> i >= Pow2(n)
    ensures i < Pow2(n) ==> Spells(IntToBin(i, n), i, n)
  {
    hide HexDigits, Nibbles, FitToWidth;
    NibblesSpell(i);
    FittedBits(Nibbles(HexDigits(i)), n);
  }

  lemma PartsAreBits(s: string, t: string)
    requires IsBits(s + t)
    ensures IsBits(s) && IsBits(t)
  {
    forall i | 0 <= i < |s| ensures s[i] == '0' || s[i] == '1' {
      assert (s + t)[i] == s[i];
    }
    forall i | 0 <= i < |t| ensures t[i] == '0' || t[i] == '1' {
      assert (s + t)[|s|+i] == t[i];
    }
  }

  /** Width zero asks for no truncation at all: nothing is ever too large, and all nibbles are kept. */
  lemma WidthZeroKeepsAll(i: nat)
    ensures IntToBin(i, 0).Bits? && IsBits(IntToBin(i, 0).s) && BinToInt(IntToBin(i, 0).s) == i
    ensures |IntToBin(i, 0).s| == 4 * |HexDigits(i)|
  {
    NibblesSpell(i);
    NibblesAreBits(HexDigits(i));
    assert "" + Nibbles(HexDigits(i)) == Nibbles(HexDigits(i));
  }

  lemma {:induction false} SameValueSameBits(s: string, t: string)
    requires IsBits(s) && IsBits(t) && |s| == |t| && BinToInt(s) == BinToInt(t)
    ensures s == t
  {
    if s != "" {
      var n := |s| - 1;
      SameValueSameBits(s[..n], t[..n]);
      assert s == s[..n] + [s[n]] && t == t[..n] + [t[n]];
    }
  }

  /** Reading a string of bits and writing its value with the same width gives the string back. */
  lemma BitsRoundTrip(s: string)
    requires s != "" && IsBits(s)
    ensures IntToBin(BinToInt(s), |s|) == Bits(s)
  {
    ValueBounds(s);
    IntToBinSpells(BinToInt(s), |s|);
    SameValueSameBits(IntToBin(BinToInt(s), |s|).s, s);
  }

  // ----- binary_range -----

  /** The value of bits written with the least significant one first. */
  function LowFirst(v: seq<char>): nat {
    if v == [] then 0 else LowFirst(v[..|v|-1]) + if v[|v|-1] == '1' then Pow2(|v| - 1) else 0
  }

  function Reversed(v: seq<char>): string {
    if v == [] then "" else [v[|v|-1]] + Reversed(v[..|v|-1])
  }

  lemma {:induction false} LowFirstUpdate(v: seq<char>, i: nat, c: char)
    requires i < |v|
    ensures LowFirst(v[i := c]) + (if v[i] == '1' then Pow2(i) else 0) == LowFirst(v) + if c == '1' then Pow2(i) else 0
  {
    var n := |v| - 1;
    if i == n {
      assert v[i := c][..n] == v[..n];
    } else {
      assert v[i := c][..n] == v[..n][i := c];
      LowFirstUpdate(v[..n], i, c);
    }
  }

  lemma {:induction false} LowFirstBound(v: seq<char>)
    ensures LowFirst(v) < Pow2(|v|)
  {
    if v != [] {
      LowFirstBound(v[..|v|-1]);
    }
  }

  lemma OneBit(c: char)
    requires IsBits([c])
    ensures BinToInt([c]) == Bit(c)
  {
    assert [c][..0] == "";
  }

  lemma BitTimes(b: nat, p: nat)
    requires b <= 1
    ensures b * p == if b == 1 then p else 0
  {
  }

  /** Reversed, the bits spell the same number with the most significant one first. */
  lemma {:induction false} ReversedSpells(v: seq<char>)
    requires IsBits(v)
    ensures |Reversed(v)| == |v| && IsBits(Reversed(v)) && BinToInt(Reversed(v)) == LowFirst(v)
  {
    if v != [] {
      var n := |v| - 1;
      ReversedSpells(v[..n]);
      OneBit(v[n]);
      ValueOfBoth([v[n]], Reversed(v[..n]));
      BitTimes(Bit(v[n]), Pow2(n));
    }
  }

  lemma {:induction false} ZerosLowFirst(v: seq<char>)
    requires forall i :: 0 <= i < |v| ==> v[i] == '0'
    ensures LowFirst(v) == 0
  {
    if v != [] {
      ZerosLowFirst(v[..|v|-1]);
    }
  }

  /** What a toggle is worth at a place. */
  function Carried(toggle: int, i: nat): int {
    toggle * Pow2(i)
  }

  /** One step of the ripple: a zero takes the carry in, a one passes it on. */
  lemma Ripple(v: seq<char>, i: nat)
    requires i < |v| && IsBits(v)
    ensures Carried(0, i) == 0
    ensures v[i] == '0' ==> LowFirst(v[i := '1']) == LowFirst(v) + Carried(1, i)
    ensures v[i] == '1' ==> LowFirst(v[i := '0']) + Carried(1, i + 1) == LowFirst(v) + Carried(1, i)
  {
    hide LowFirst;
    LowFirstUpdate(v, i, if v[i] == '0' then '1' else '0');
  }

  lemma BitsUpdated(v: seq<char>, i: nat, c: char)
    requires i < |v| && IsBits(v) && (c == '0' || c == '1')
    ensures IsBits(v[i := c])
    ensures v[i] == '0' || v[i] == '1'
  {
  }

  lemma NothingCarried(i: nat)
    ensures Carried(0, i) == 0 && Carried(1, 0) == 1
  {
  }

  /** The inner loop: a carry goes in at the bottom and ripples up as far as it meets ones. Whether it comes out at
      the top is left in the last toggle. */
  method Increment(v: array<char>, toggle: array<int>)
    requires toggle.Length == v.Length + 1 && IsBits(v[..])
    requires toggle[0] == 1 && forall k :: 1 <= k < toggle.Length ==> toggle[k] == 0
    modifies v, toggle
    ensures IsBits(v[..]) && (toggle[v.Length] == 0 || toggle[v.Length] == 1)
    ensures LowFirst(v[..]) + Carried(toggle[v.Length], v.Length) == old(LowFirst(v[..])) + 1
  {
    hide LowFirst, Carried, IsBits;
    var bits := v.Length;
    var i := 0;
    NothingCarried(0);
    while i < bits && toggle[i] == 1
      invariant 0 <= i <= bits && IsBits(v[..])
      invariant (toggle[i] == 0 || toggle[i] == 1) && forall k :: i < k < toggle.Length ==> toggle[k] == 0
      invariant LowFirst(v[..]) + Carried(toggle[i], i) == old(LowFirst(v[..])) + 1
    {
      ghost var before := v[..];
      Ripple(before, i);
      NothingCarried(i + 1);
      BitsUpdated(before, i, '0');
      BitsUpdated(before, i, '1');
      if v[i] == '0' {
        v[i] := '1';
        toggle[i+1] := 0;
      } else {
        v[i] := '0';
        toggle[i+1] := 1;
      }
      assert v[..] == before[i := v[i]];
      i := i + 1;
    }
    NothingCarried(i);
    NothingCarried(bits);
  }

  method ReversedCopy(v: array<char>) returns (s: string)
    ensures s == Reversed(v[..])
  {
    s := "";
    for i := 0 to v.Length
      invariant s == Reversed(v[..i])
    {
      assert v[..i+1][..i] == v[..i];
      s := [v[i]] + s;
    }
    assert v[..v.Length] == v[..];
  }

  /** All binary numbers of a positive width, in order. For width zero the loop is never entered. */
  method BinaryRange(bits: nat) returns (l: seq<string>)
    ensures bits == 0 ==> l == []
    ensures bits > 0 ==> |l| == Pow2(bits)
    ensures forall k :: 0 <= k < |l| ==> |l[k]| == bits && IsBits(l[k]) && BinToInt(l[k]) == k
  {
    hide BinToInt, LowFirst;
    l := [];
    var v := new char[bits](_ => '0');
    var toggle := new int[bits + 1](i => if i == 0 then 1 else 0);
    ZerosLowFirst(v[..]);
    while toggle[bits] != 1
      invariant fresh(v) && fresh(toggle) && v.Length == bits && toggle.Length == bits + 1 && IsBits(v[..])
      invariant bits == 0 ==> toggle[bits] == 1 && l == []
      invariant bits > 0 ==> |l| <= Pow2(bits) && (toggle[bits] == 0 || toggle[bits] == 1)
      invariant bits > 0 ==> LowFirst(v[..]) + Carried(toggle[bits], bits) == |l|
      invariant forall k :: 0 <= k < |l| ==> |l[k]| == bits && IsBits(l[k]) && BinToInt(l[k]) == k
      decreases Pow2(bits) - |l|
    {
      LowFirstBound(v[..]);
      ReversedSpells(v[..]);
      var s := ReversedCopy(v);
      l := l + [s];
      toggle := new int[bits + 1](i => if i == 0 then 1 else 0);
      Increment(v, toggle);
      LowFirstBound(v[..]);
    }
    LowFirstBound(v[..]);
  }
}
