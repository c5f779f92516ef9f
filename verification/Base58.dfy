/** Base58 account addresses: decoding, its inverse, and the length pre-check. */
module Base58 {
  import opened Prelude
  import opened Radix

  const DIGITS := "123456789"
  const UPPER_A := "ABCDEFGH"
  const UPPER_J := "JKLMN"
  const UPPER_P := "PQRSTUVWXYZ"
  const LOWER_A := "abcdefghijk"
  const LOWER_M := "mnopqrstuvwxyz"

  /** The base58 alphabet, written as its runs of consecutive characters. */
  const ALPHABET: string := DIGITS + UPPER_A + UPPER_J + UPPER_P + LOWER_A + LOWER_M

  lemma AlphabetShape()
    ensures |ALPHABET| == 58 && ALPHABET[0] == '1'
    ensures forall i, j :: 0 <= i < j < 58 ==> ALPHABET[i] < ALPHABET[j]
  {
    assert forall i :: 0 <= i < 9 ==> DIGITS[i] as int == '1' as int + i;
    assert forall i :: 0 <= i < 8 ==> UPPER_A[i] as int == 'A' as int + i;
    assert forall i :: 0 <= i < 5 ==> UPPER_J[i] as int == 'J' as int + i;
    assert forall i :: 0 <= i < 11 ==> UPPER_P[i] as int == 'P' as int + i;
    assert forall i :: 0 <= i < 11 ==> LOWER_A[i] as int == 'a' as int + i;
    assert forall i :: 0 <= i < 14 ==> LOWER_M[i] as int == 'm' as int + i;
  }

  /** Letters and digits without the four that look alike. */
  predicate IsBase58(c: char) {
    ('1' <= c <= '9' || 'A' <= c <= 'Z' || 'a' <= c <= 'z') && c != 'I' && c != 'O' && c != 'l'
  }

  /** The alphabet is all of them, in the order of their codes. */
  lemma AlphabetIs(c: char)
    ensures c in ALPHABET <==> IsBase58(c)
  {
    AlphabetShape();
    InRun(DIGITS, '1', c);
    InRun(UPPER_A, 'A', c);
    InRun(UPPER_J, 'J', c);
    InRun(UPPER_P, 'P', c);
    InRun(LOWER_A, 'a', c);
    InRun(LOWER_M, 'm', c);
  }

  lemma InRun(run: string, first: char, c: char)
    requires forall i :: 0 <= i < |run| ==> run[i] as int == first as int + i
    ensures c in run <==> 0 <= c as int - first as int < |run|
  {
    if 0 <= c as int - first as int < |run| {
      assert run[c as int - first as int] == c;
    }
  }

  /** The position of a character in an alphabet, from a position on. */
  function PositionFrom(alphabet: string, c: char, from: nat): (d: Option<nat>)
    requires from <= |alphabet|
    ensures d.Some? ==> from <= d.value < |alphabet| && alphabet[d.value] == c
    ensures d.None? ==> forall i :: from <= i < |alphabet| ==> alphabet[i] != c
    decreases |alphabet| - from
  {
    if from == |alphabet| then None else if alphabet[from] == c then Some(from) else PositionFrom(alphabet, c, from + 1)
  }

  function DigitOf(c: char): (d: Option<nat>)
    ensures d.Some? ==> d.value < 58 && ALPHABET[d.value] == c
    ensures d.None? ==> forall i :: 0 <= i < 58 ==> ALPHABET[i] != c
  {
    AlphabetShape();
    PositionFrom(ALPHABET, c, 0)
  }

  predicate Valid(value: string) {
    forall i :: 0 <= i < |value| ==> DigitOf(value[i]).Some?
  }

  /** Decodable texts are those over the alphabet. */
  lemma ValidIff(value: string)
    ensures Valid(value) <==> forall c :: c in value ==> IsBase58(c)
  {
    forall c ensures DigitOf(c).Some? <==> IsBase58(c) {
      AlphabetShape();
      AlphabetIs(c);
    }
    if Valid(value) {
      forall c | c in value ensures IsBase58(c) {
        var i :| 0 <= i < |value| && value[i] == c;
      }
    }
  }

  function DigitsOf(value: string): (ds: seq<nat>)
    requires Valid(value)
    ensures |ds| == |value| && Digits(ds, 58)
    ensures forall i :: 0 <= i < |ds| ==> ALPHABET[ds[i]] == value[i]
  {
    seq(|value|, i requires 0 <= i < |value| => DigitOf(value[i]).value)
  }

  /** What `base58Decode` computes: base conversion that keeps leading zeros. */
  function Decode(value: string): Option<seq<nat>> {
    if Valid(value) then Some(Convert(DigitsOf(value), 58, 256)) else None
  }

  /** The standard encoder of a byte string. */
  function Encode(bytes: seq<nat>): string {
    var ds := Convert(bytes, 256, 58);
    seq(|ds|, i requires 0 <= i < |ds| => ALPHABET[ds[i]])
  }

  lemma DigitOfAlphabet(d: nat)
    requires d < 58
    ensures DigitOf(ALPHABET[d]) == Some(d)
  {
    AlphabetShape();
  }

  /** Decoding undoes encoding on every byte string. */
  lemma DecodeEncode(bytes: seq<nat>)
    requires Digits(bytes, 256)
    ensures Decode(Encode(bytes)) == Some(bytes)
  {
    var ds := Convert(bytes, 256, 58);
    var text := Encode(bytes);
    forall i | 0 <= i < |text| ensures DigitOf(text[i]) == Some(ds[i]) {
      DigitOfAlphabet(ds[i]);
    }
    assert DigitsOf(text) == ds;
    ConvertBack(bytes, 256, 58);
  }

  /** Encoding undoes decoding on every string of alphabet characters. */
  lemma EncodeDecode(value: string)
    requires Decode(value).Some?
    ensures Digits(Decode(value).value, 256) && Encode(Decode(value).value) == value
  {
    ConvertBack(DigitsOf(value), 58, 256);
  }

  // --- account addresses ----------------------------------------------------------------------

  /** `normalizeSolanaAddress` returns its argument; otherwise it throws. */
  predicate Accepted(value: string) {
    && 32 <= |value| <= 44
    && Decode(value).Some?
    && |Decode(value).value| == 32
  }

  predicate IsAccount(bytes: seq<nat>) {
    |bytes| == 32 && Digits(bytes, 256)
  }

  lemma PowerGap()
    ensures Pow(256, 32) <= Pow(58, 44)
  {
    assert Pow(256, 8) <= Pow(58, 11) by {
      PowAdd(256, 4, 4);
      PowAdd(58, 4, 4);
      PowAdd(58, 8, 3);
      assert Pow(256, 4) == 0x1_0000_0000 && Pow(58, 4) == 11316496 && Pow(58, 3) == 195112;
    }
    Square(256, 8, 58, 11);
    Square(256, 16, 58, 22);
  }

  lemma Square(a: nat, m: nat, b: nat, n: nat)
    requires 1 <= a && Pow(a, m) <= Pow(b, n)
    ensures Pow(a, m + m) <= Pow(b, n + n)
  {
    PowAdd(a, m, m);
    PowAdd(b, n, n);
    PowMonotone(a, a, m);
    Times(Pow(a, m), Pow(b, n), Pow(a, m), Pow(b, n));
  }

  /** Every canonical encoding of a 32-byte account passes the 32..44 length pre-check. */
  lemma AccountLength(bytes: seq<nat>)
    requires IsAccount(bytes)
    ensures 32 <= |Encode(bytes)| <= 44
  {
    PowerGap();
    ConvertLength(bytes, 256, 58, 44);
  }

  /** The accepted addresses are exactly the base58 encodings of 32-byte accounts. */
  lemma AcceptedIffAccount(value: string)
    ensures Accepted(value) <==> exists bytes :: IsAccount(bytes) && Encode(bytes) == value
  {
    if Accepted(value) {
      EncodeDecode(value);
      assert IsAccount(Decode(value).value);
    }
    forall bytes | IsAccount(bytes) && Encode(bytes) == value ensures Accepted(value) {
      DecodeEncode(bytes);
      AccountLength(bytes);
    }
  }

  /** Two accepted addresses that name the same account are the same text. */
  lemma AcceptedAddressesAreIdentities(left: string, right: string)
    requires Accepted(left) && Accepted(right)
    ensures Decode(left) == Decode(right) <==> left == right
  {
    EncodeDecode(left);
    EncodeDecode(right);
  }

  // --- the decoder's loops --------------------------------------------------------------------

  method BuildByteMap() returns (byteMap: map<char, nat>)
    ensures forall c :: c in byteMap <==> DigitOf(c).Some?
    ensures forall c :: c in byteMap ==> DigitOf(c) == Some(byteMap[c])
  {
    AlphabetShape();
    byteMap := map[];
    for alphabetIndex := 0 to 58
      invariant forall i :: 0 <= i < alphabetIndex ==> ALPHABET[i] in byteMap
      invariant forall c :: c in byteMap ==> byteMap[c] < alphabetIndex && ALPHABET[byteMap[c]] == c
    {
      byteMap := byteMap[ALPHABET[alphabetIndex] := alphabetIndex];
    }
    forall c | c in byteMap ensures DigitOf(c) == Some(byteMap[c]) {
      DigitOfAlphabet(byteMap[c]);
    }
  }

  /** Accumulates the number; refuses at the first character outside the alphabet. */
  method ReadNumber(value: string) returns (num: Option<nat>)
    ensures num == if Valid(value) then Some(Value(DigitsOf(value), 58)) else None
  {
    var byteMap := BuildByteMap();
    var n: nat := 0;
    for i := 0 to |value|
      invariant Valid(value[..i]) && n == Value(DigitsOf(value[..i]), 58)
    {
      if value[i] !in byteMap { return None; }
      assert value[..i + 1][..i] == value[..i];
      assert DigitsOf(value[..i + 1])[..i] == DigitsOf(value[..i]);
      n := n * 58 + byteMap[value[i]];
    }
    assert value[..|value|] == value;
    num := Some(n);
  }

  method CountOnes(value: string) returns (zeros: nat)
    requires Valid(value)
    ensures zeros == LeadingZeros(DigitsOf(value))
  {
    AlphabetShape();
    DigitOfAlphabet(0);
    zeros := 0;
    while zeros < |value| && value[zeros] == '1'
      invariant zeros <= |value|
      invariant forall i :: 0 <= i < zeros ==> value[i] == '1'
    {
      zeros := zeros + 1;
    }
    LeadingZerosUnique(DigitsOf(value), zeros);
  }

  method ToBytes(number: nat) returns (bytes: seq<nat>)
    ensures bytes == Numeral(number, 256)
  {
    var num := number;
    bytes := [];
    while num > 0
      invariant Numeral(number, 256) == Numeral(num, 256) + bytes
    {
      MoveDigit(Numeral(num / 256, 256), num % 256, bytes);
      bytes := [num % 256] + bytes;
      num := num / 256;
    }
  }

  lemma MoveDigit(high: seq<nat>, digit: nat, low: seq<nat>)
    ensures (high + [digit]) + low == high + ([digit] + low)
  {
  }

  method Base58Decode(value: string) returns (result: Option<seq<nat>>)
    ensures result == Decode(value)
  {
    var num := ReadNumber(value);
    if num.None? { return None; }
    var zeros := CountOnes(value);
    var bytes := ToBytes(num.value);
    result := Some(Zeros(zeros) + bytes);
  }

  method NormalizeSolanaAddress(value: string) returns (accepted: bool)
    ensures accepted <==> exists bytes :: IsAccount(bytes) && Encode(bytes) == value
  {
    AcceptedIffAccount(value);
    if |value| < 32 || |value| > 44 { return false; }
    var decoded := Base58Decode(value);
    accepted := decoded.Some? && |decoded.value| == 32;
  }
}
