/** Base-58 text of a byte string (wallet/wallet.go, base58Encoding). */
module Base58 {
  import opened Radix
  import opened Wrappers

  type Byte = x: nat | x < 256

  const NUMERALS := "123456789"
  const CAPITALS := "ABCDEFGHJKLMNPQRSTUVWXYZ"
  const SMALLS := "abcdefghijkmnopqrstuvwxyz"
  const ALPHABET: string := NUMERALS + CAPITALS + SMALLS

  // ----- What the text means, independently of how it is computed -----

  function Letter(d: nat): char
    requires d < 58
  {
    ALPHABET[d]
  }

  /** The digit a letter stands for; None for a character outside the alphabet. */
  function DigitOf(c: char): (r: Option<nat>)
    ensures r.Some? ==> r.value < 58 && Letter(r.value) == c
    ensures r.None? ==> forall d :: 0 <= d < 58 ==> Letter(d) != c
  {
    Find(c, 0)
  }

  function Find(c: char, from: nat): (r: Option<nat>)
    requires from <= 58
    ensures r.Some? ==> from <= r.value < 58 && Letter(r.value) == c
    ensures r.None? ==> forall d :: from <= d < 58 ==> Letter(d) != c
    decreases 58 - from
  {
    if from == 58 then None
    else if Letter(from) == c then Some(from)
    else Find(c, from + 1)
  }

  /** The digits of a text; None when a letter is not in the alphabet. */
  function ReadDigits(s: string): (r: Option<seq<nat>>)
    ensures r.Some? ==> |r.value| == |s| && Digits(58, r.value)
    ensures r.Some? ==> forall k :: 0 <= k < |s| ==> Letter(r.value[k]) == s[k]
  {
    if s == "" then Some([]) else
      match (DigitOf(s[0]), ReadDigits(s[1..]))
      case (Some(d), Some(ds)) => Some([d] + ds)
      case _ => None
  }

  function Letters(digits: seq<nat>): (s: string)
    requires Digits(58, digits)
    ensures |s| == |digits| && forall k :: 0 <= k < |s| ==> s[k] == Letter(digits[k])
  {
    seq(|digits|, k requires 0 <= k < |digits| => Letter(digits[k]))
  }

  /** A leading zero byte is a leading '1'; the other bytes are one big-endian number. */
  function Encode(bin: seq<Byte>): string {
    Letters(Recode(256, 58, bin))
  }

  function Decode(s: string): Option<seq<Byte>> {
    match ReadDigits(s)
    case None => None
    case Some(digits) => Some(Bytes(Recode(58, 256, digits)))
  }

  function Bytes(s: seq<nat>): (r: seq<Byte>)
    requires Digits(256, s)
    ensures r == s
  {
    seq(|s|, k requires 0 <= k < |s| => s[k])
  }

  // ----- The alphabet -----

  lemma NumeralsAscend(j: nat)
    requires 1 <= j < 9
    ensures NUMERALS[j - 1] < NUMERALS[j]
  {
  }

  lemma CapitalsAscend(j: nat)
    requires 1 <= j < 24
    ensures CAPITALS[j - 1] < CAPITALS[j]
  {
  }

  lemma SmallsAscend(j: nat)
    requires 1 <= j < 25
    ensures SMALLS[j - 1] < SMALLS[j]
  {
  }

  lemma LetterIn(d: nat)
    requires d < 58
    ensures Letter(d) == if d < 9 then NUMERALS[d] else if d < 33 then CAPITALS[d - 9] else SMALLS[d - 33]
  {
  }

  lemma NextLetter(j: nat)
    requires 1 <= j < 58
    ensures Letter(j - 1) < Letter(j)
  {
    LetterIn(j - 1);
    LetterIn(j);
    hide Letter;
    if j < 9 {
      NumeralsAscend(j);
    } else if 10 <= j < 33 {
      CapitalsAscend(j - 9);
    } else if 34 <= j {
      SmallsAscend(j - 33);
    } else {
      assert NUMERALS[8] == '9' && CAPITALS[0] == 'A' && CAPITALS[23] == 'Z' && SMALLS[0] == 'a';
    }
  }

  /** The 58 letters are in ascending order, so no letter stands for two digits. */
  lemma {:induction false} LettersAscend(i: nat, j: nat)
    requires i < j < 58
    ensures Letter(i) < Letter(j)
    decreases j
  {
    hide Letter;
    NextLetter(j);
    if i < j - 1 {
      LettersAscend(i, j - 1);
    }
  }

  lemma DigitOfLetter(d: nat)
    requires d < 58
    ensures DigitOf(Letter(d)) == Some(d)
  {
    hide Letter;
    var r := DigitOf(Letter(d));
    if r.value < d {
      LettersAscend(r.value, d);
    } else if d < r.value {
      LettersAscend(d, r.value);
    }
  }

  lemma {:induction false} LettersRead(digits: seq<nat>)
    requires Digits(58, digits)
    ensures ReadDigits(Letters(digits)) == Some(digits)
  {
    hide Letter, DigitOf;
    var s := Letters(digits);
    if digits == [] {
    } else {
      assert s[1..] == Letters(digits[1..]);
      LettersRead(digits[1..]);
      DigitOfLetter(digits[0]);
      assert digits == [digits[0]] + digits[1..];
    }
  }

  lemma NumeralAt(i: nat)
    requires i < 9
    ensures NUMERALS[i] as int == '1' as int + i
  {
  }

  lemma CapitalAt(i: nat)
    requires i < 24
    ensures CAPITALS[i] as int == 'A' as int + i + (if 8 <= i then 1 else 0) + if 13 <= i then 1 else 0
  {
  }

  lemma SmallAt(i: nat)
    requires i < 25
    ensures SMALLS[i] as int == 'a' as int + i + if 11 <= i then 1 else 0
  {
  }

  /** Which letter stands for a digit, by character code. */
  lemma LetterCode(d: nat)
    requires d < 58
    ensures Letter(d) as int ==
            if d < 9 then '1' as int + d
            else if d < 33 then 'A' as int + d - 9 + (if 17 <= d then 1 else 0) + (if 22 <= d then 1 else 0)
            else 'a' as int + d - 33 + if 44 <= d then 1 else 0
  {
    LetterIn(d);
    hide Letter;
    assert 33 <= d ==> d - 33 < 25;
    if d < 9 {
      NumeralAt(d);
    } else if d < 33 {
      CapitalAt(d - 9);
    } else {
      SmallAt(d - 33);
    }
  }

  predicate InAlphabet(c: char) {
    '1' <= c <= '9' || ('A' <= c <= 'Z' && c != 'I' && c != 'O') || ('a' <= c <= 'z' && c != 'l')
  }

  lemma DigitFor(c: char) returns (d: nat)
    requires InAlphabet(c)
    ensures d < 58 && Letter(d) == c
  {
    var x := c as int;
    d := if c <= '9' then x - '1' as int
         else if c <= 'Z' then x - 'A' as int + 9 - (if c < 'I' then 0 else if c < 'O' then 1 else 2)
         else x - 'a' as int + 33 - (if c < 'l' then 0 else 1);
    LetterCode(d);
    hide Letter;
  }

  /** The alphabet is the digits and letters without 0, O, I and l. */
  lemma AlphabetIff(c: char)
    ensures DigitOf(c).Some? <==>
            || '1' <= c <= '9' || ('A' <= c <= 'Z' && c != 'I' && c != 'O') || ('a' <= c <= 'z' && c != 'l')
  {
    if InAlphabet(c) {
      var d := DigitFor(c);
    }
    if DigitOf(c).Some? {
      LetterCode(DigitOf(c).value);
    }
    hide Letter, DigitOf;
  }

  // ----- Round trips -----

  /** Reading a text back gives exactly the bytes it was made from. */
  lemma DecodeEncode(bin: seq<Byte>)
    ensures Decode(Encode(bin)) == Some(bin)
  {
    LettersRead(Recode(256, 58, bin));
    RecodeBack(256, 58, bin);
  }

  /** Every text over the alphabet is the text of the bytes it decodes to. */
  lemma EncodeDecode(s: string)
    requires Decode(s).Some?
    ensures Encode(Decode(s).value) == s
  {
    RecodeBack(58, 256, ReadDigits(s).value);
  }

  /** Different byte strings have different texts. */
  lemma EncodeInjective(a: seq<Byte>, b: seq<Byte>)
    requires Encode(a) == Encode(b)
    ensures a == b
  {
    DecodeEncode(a);
    DecodeEncode(b);
  }

  /**
    * The text says the same number as the bytes, most significant digit first, and starts with as many '1's
    * as they start with zeros.
    */
  lemma EncodeIsSameNumber(bin: seq<Byte>)
    ensures var digits := ReadDigits(Encode(bin));
            && digits.Some? && Positional(58, digits.value) == Positional(256, bin)
            && Zeros(digits.value) == Zeros(bin)
  {
    var z := Zeros(bin);
    var rest := bin[z..];
    var digits := Recode(256, 58, bin);
    LettersRead(digits);
    NumeralValue(58, Value(256, rest));
    ZerosConcat(z, Numeral(58, Value(256, rest)));
    ZerosInFront(58, z, Numeral(58, Value(256, rest)));
    ZerosInFront(256, z, rest);
    assert bin == seq(z, _ => 0) + rest;
    ValueIsPositional(58, digits);
    ValueIsPositional(256, bin);
  }

  // ----- Lengths -----

  /** The size the encoder allocates is enough: 256^m <= 58^(138m/100 + 1). */
  lemma BufferLargeEnough(m: nat)
    ensures Pow(256, m) <= Pow(58, m * 138 / 100 + 1)
  {
    var size := m * 138 / 100 + 1;
    assert 11 * m <= 8 * size;
    if Pow(58, size) < Pow(256, m) {
      PowMonotoneBase(Pow(58, size), Pow(256, m), 8);
      PowPow(58, size, 8);
      PowPow(256, m, 8);
      EightBytesInElevenDigits(m);
      PowMonotoneExp(58, 11 * m, size * 8);
      assert false;
    }
  }

  lemma EightBytesInElevenDigits(m: nat)
    ensures Pow(256, m * 8) <= Pow(58, 11 * m)
  {
    assert Pow(256, 8) == 0x1_0000_0000_0000_0000 by { PowValues(); }
    assert Pow(58, 11) == 24986644000165537792 by { PowValues(); }
    PowMonotoneBase(Pow(256, 8), Pow(58, 11), m);
    PowPow(256, 8, m);
    PowPow(58, 11, m);
    assert m * 8 == 8 * m;
  }

  lemma PowValues()
    ensures Pow(256, 8) == 0x1_0000_0000_0000_0000
    ensures Pow(58, 11) == 24986644000165537792
  {
    assert Pow(256, 4) == 0x1_0000_0000;
    PowAdd(256, 4, 4);
    assert Pow(58, 4) == 11316496;
    PowAdd(58, 4, 4);
    assert Pow(58, 3) == 195112;
    PowAdd(58, 8, 3);
  }

  lemma NumeralAtLeast(rest: seq<nat>)
    requires Digits(256, rest) && (rest == [] || rest[0] != 0)
    ensures |rest| <= |Numeral(58, Value(256, rest))|
  {
    var m := |rest|;
    var digits := Numeral(58, Value(256, rest));
    NumeralValue(58, Value(256, rest));
    if |digits| < m {
      ValueLeading(256, rest);
      ValueBound(58, digits);
      PowMonotoneExp(58, |digits|, m - 1);
      PowMonotoneBase(58, 256, m - 1);
    }
  }

  lemma NumeralAtMost(rest: seq<nat>)
    requires Digits(256, rest)
    ensures |Numeral(58, Value(256, rest))| <= |rest| * 138 / 100 + 1
  {
    var size := |rest| * 138 / 100 + 1;
    var digits := Numeral(58, Value(256, rest));
    NumeralValue(58, Value(256, rest));
    ValueBound(256, rest);
    BufferLargeEnough(|rest|);
    hide Pow, Value, Numeral;
    if size < |digits| {
      ValueLeading(58, digits);
      PowMonotoneExp(58, size, |digits| - 1);
    }
  }

  /** A text is never shorter than its bytes and never longer than the encoder's buffer allows. */
  lemma EncodeLength(bin: seq<Byte>)
    ensures |bin| <= |Encode(bin)| <= Zeros(bin) + (|bin| - Zeros(bin)) * 138 / 100 + 1
  {
    NumeralAtLeast(bin[Zeros(bin)..]);
    NumeralAtMost(bin[Zeros(bin)..]);
  }

  // ----- The encoder -----

  /** One pass of the inner loop keeps: digits below j done, carry pending, digits up to j waiting. */
  ghost predicate Pending(done: seq<nat>, carry: nat, waiting: seq<nat>, total: nat) {
    (256 * Value(58, waiting) + carry) * Pow(58, |done|) + Value(58, done) == total
  }

  lemma PendingStep(done: seq<nat>, carry: nat, waiting: seq<nat>, total: nat)
    requires Pending(done, carry, waiting, total) && waiting != []
    ensures var c := carry + 256 * waiting[|waiting| - 1];
            Pending([c % 58] + done, c / 58, waiting[..|waiting| - 1], total)
  {
    var w := waiting[..|waiting| - 1];
    var last := waiting[|waiting| - 1];
    var q, r := DivMod(carry + 256 * last, 58);
    ValueConcat(58, [r], done);
    AppendDigit(58, [], r);
    assert [] + [r] == [r];
    CarryOver(Value(58, w), last, carry, q, r, Pow(58, |done|), Value(58, done));
  }

  lemma CarryOver(w: nat, last: nat, carry: nat, q: nat, r: nat, p: nat, d: nat)
    requires carry + 256 * last == q * 58 + r
    ensures (256 * (w * 58 + last) + carry) * p + d == (256 * w + q) * (58 * p) + (r * p + d)
  {
    assert 256 * (w * 58 + last) + carry == (256 * w + q) * 58 + r;
    assert ((256 * w + q) * 58 + r) * p == (256 * w + q) * 58 * p + r * p;
  }

  lemma PendingAtStart(waiting: seq<nat>, b: nat)
    ensures Pending([], b, waiting, 256 * Value(58, waiting) + b)
  {
  }

  lemma PendingAtLoopExit(done: seq<nat>, waiting: seq<nat>, total: nat)
    requires Pending(done, 0, waiting, total) && forall k :: 0 <= k < |waiting| ==> waiting[k] == 0
    ensures Value(58, waiting + done) == total
  {
    ValueZeros(58, waiting);
    ValueConcat(58, waiting, done);
  }

  lemma DigitBound(c: nat)
    ensures c % 58 < 58
    ensures c <= 255 + 256 * 57 ==> c / 58 < 256
  {
  }

  lemma PendingAtTheEnd(done: seq<nat>, carry: nat, total: nat)
    requires Pending(done, carry, [], total) && total < Pow(58, |done|)
    ensures carry == 0
  {
    if 1 <= carry {
      MulMonotone(1, carry, Pow(58, |done|));
    }
  }

  lemma PrefixValue(bin: seq<Byte>, z: nat, i: nat, size: nat)
    requires z <= i < |bin| && size == (|bin| - z) * 138 / 100 + 1
    ensures Value(256, bin[z..i + 1]) == 256 * Value(256, bin[z..i]) + bin[i]
    ensures Value(256, bin[z..i + 1]) < Pow(58, size)
  {
    AppendDigit(256, bin[z..i], bin[i]);
    assert bin[z..i + 1] == bin[z..i] + [bin[i]];
    ValueBound(256, bin[z..i + 1]);
    PowMonotoneExp(256, i + 1 - z, |bin| - z);
    BufferLargeEnough(|bin| - z);
  }

  // base58Encoding is one Go function; its loops are separate methods here.

  /** The body of the inner loop: the last waiting digit takes the carry. */
  method ShiftDigit(buf: array<nat>, carry: nat, ghost done: seq<nat>, ghost waiting: seq<nat>, ghost total: nat,
                    j: nat) returns (newCarry: nat, ghost newDone: seq<nat>)
    requires |waiting| == j + 1 && buf[..] == waiting + done && carry < 256
    requires Digits(58, waiting) && Digits(58, done) && Pending(done, carry, waiting, total)
    modifies buf
    // carry + 256*buf[j] fits a machine integer, and a digit fits a byte
    ensures buf[..] == waiting[..j] + newDone && |newDone| == |done| + 1 && newCarry < 256
    ensures Digits(58, newDone) && Pending(newDone, newCarry, waiting[..j], total)
  {
    PendingStep(done, carry, waiting, total);
    hide Pending;
    assert buf[j] == (waiting + done)[j] == waiting[j];
    newCarry := carry + 256 * buf[j];
    DigitBound(newCarry);
    newDone := [newCarry % 58] + done;
    buf[j] := newCarry % 58;
    newCarry := newCarry / 58;
    assert buf[..] == (waiting + done)[j := newDone[0]] == waiting[..j] + newDone;
  }

  ghost predicate AllZero(s: seq<nat>) {
    forall k :: 0 <= k < |s| ==> s[k] == 0
  }

  /** The inner loop: buf := 256 * buf + b, in base 58, in place, least significant digit first. */
  method ShiftIn(buf: array<nat>, high: int, b: Byte) returns (newHigh: int)
    requires 0 < buf.Length && -1 <= high < buf.Length && Digits(58, buf[..]) && AllZero(buf[..high + 1])
    requires 256 * Value(58, buf[..]) + b < Pow(58, buf.Length)
    modifies buf
    ensures -1 <= newHigh < buf.Length && Digits(58, buf[..]) && AllZero(buf[..newHigh + 1])
    ensures Value(58, buf[..]) == 256 * Value(58, old(buf[..])) + b
  {
    ghost var opening := buf[..];
    ghost var total := 256 * Value(58, opening) + b;
    PendingAtStart(opening, b);
    hide Pending, Value, Pow;
    var j := buf.Length - 1;
    var carry: nat := b;
    ghost var done: seq<nat> := [];
    assert opening[..j + 1] == opening;
    while j > high || carry != 0
      invariant -1 <= j < buf.Length && carry < 256 && |done| == buf.Length - 1 - j
      invariant buf[..] == opening[..j + 1] + done && Digits(58, done)
      invariant Pending(done, carry, opening[..j + 1], total)
      invariant j == -1 ==> carry == 0
      decreases j
    {
      carry, done := ShiftDigit(buf, carry, done, opening[..j + 1], total, j);
      assert opening[..j + 1][..j] == opening[..j];
      j := j - 1;
      if j == -1 {
        PendingAtTheEnd(done, carry, total);
      }
    }
    assert opening[..j + 1] == opening[..high + 1][..j + 1];
    PendingAtLoopExit(done, opening[..j + 1], total);
    assert buf[..j + 1] == opening[..j + 1];
    newHigh := j;
  }

  /** The last loops: skip the zero digits, then write '1's and letters. */
  method Spell(buf: array<nat>, zcount: nat) returns (text: string)
    requires Digits(58, buf[..])
    ensures text == Letters(seq(zcount, _ => 0) + Numeral(58, Value(58, buf[..])))
  {
    var size := buf.Length;
    var j := 0;
    while j < size && buf[j] == 0
      invariant 0 <= j <= size
      invariant AllZero(buf[..j])
    {
      j := j + 1;
    }
    SkipZeros(buf[..], j);
    text := WriteLetters(buf, j, zcount);
    assert buf[..][j..] == buf[j..];
  }

  method WriteLetters(buf: array<nat>, from: nat, zcount: nat) returns (text: string)
    requires from <= buf.Length && Digits(58, buf[..])
    ensures text == Letters(seq(zcount, _ => 0) + buf[from..])
  {
    hide Letter;
    var size, j := buf.Length, from;
    var b58 := new char[size - j + zcount](_ => '0');
    var i := 0;
    while i < zcount
      invariant 0 <= i <= zcount
      invariant b58[..i] == Letters(seq(i, _ => 0))
    {
      LettersAppend(seq(i, _ => 0), 0);
      assert seq(i, _ => 0) + [0] == seq(i + 1, _ => 0);
      b58[i] := '1';
      i := i + 1;
    }
    i := zcount;
    ghost var ones := seq(zcount, _ => 0);
    assert ones + buf[from..from] == ones;
    while j < size
      invariant from <= j <= size && i == zcount + j - from
      invariant b58[..i] == Letters(ones + buf[from..j])
    {
      LettersAppend(ones + buf[from..j], buf[j]);
      assert ones + buf[from..j] + [buf[j]] == ones + buf[from..j + 1];
      b58[i] := Letter(buf[j]);
      i := i + 1;
      j := j + 1;
    }
    assert b58[..i] == b58[..];
    assert buf[from..j] == buf[from..];
    text := b58[..];
  }

  lemma LettersAppend(digits: seq<nat>, d: nat)
    requires Digits(58, digits) && d < 58
    ensures Digits(58, digits + [d]) && Letters(digits + [d]) == Letters(digits) + [Letter(d)]
    ensures Letter(0) == '1'
  {
  }

  lemma SkipZeros(s: seq<nat>, j: nat)
    requires j <= |s| && Digits(58, s) && AllZero(s[..j])
    requires j < |s| ==> s[j] != 0
    ensures Numeral(58, Value(58, s)) == s[j..]
  {
    assert s == s[..j] + s[j..];
    ValueZeros(58, s[..j]);
    ValueConcat(58, s[..j], s[j..]);
    NumeralUnique(58, s[j..]);
  }

  method Base58Encoding(bin: seq<Byte>) returns (text: string)
    ensures text == Encode(bin)
  {
    var binsz := |bin|;
    var zcount := 0;
    while zcount < binsz && bin[zcount] == 0
      invariant zcount <= Zeros(bin)
    {
      zcount := zcount + 1;
    }

    var size := (binsz - zcount) * 138 / 100 + 1;
    var buf := new nat[size](_ => 0);
    var high := size - 1;
    ValueZeros(58, buf[..]);
    var i := zcount;
    while i < binsz
      invariant zcount <= i <= binsz && -1 <= high < size
      invariant Digits(58, buf[..])
      invariant AllZero(buf[..high + 1])
      invariant Value(58, buf[..]) == Value(256, bin[zcount..i])
    {
      PrefixValue(bin, zcount, i, size);
      high := ShiftIn(buf, high, bin[i]);
      i := i + 1;
    }
    assert bin[zcount..i] == bin[zcount..];
    text := Spell(buf, zcount);
  }
}
