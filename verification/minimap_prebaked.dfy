/**
 The minimap's prebaked character samples are stored as strings of upper-case
 hexadecimal digits, two per byte, high nibble first; `decodeData` turns such
 a string into bytes through a lookup table, and `encodeData` (kept in the
 source as a comment) is its inverse.
 */
module MinimapPreBaked {
  import opened Strings

  /** A value of a `Uint8ClampedArray` cell. */
  type Byte = x: int | 0 <= x < 256

  const HexDigits := "0123456789ABCDEF"

  /**
   `charTable`: the sixteen upper-case hexadecimal digits and their values;
   `None` is JavaScript's `undefined` for a character the table does not list.
   */
  function CharTable(c: char): (v: Option<int>)
    ensures v.Some? <==> c in HexDigits
    ensures v.Some? ==> 0 <= v.value < 16 && HexDigits[v.value] == c
  {
    if '0' <= c <= '9' then Some(c as int - '0' as int)
    else if 'A' <= c <= 'F' then Some(c as int - 'A' as int + 10)
    else None
  }

  /** A lookup as the shift and the mask see it: `undefined` converts to 0. */
  function Nibble(v: Option<int>): (n: int)
    ensures 0 <= n < 16
  {
    if v.Some? && 0 <= v.value < 16 then v.value else 0
  }

  /** The digit at position `i`, or `undefined` past the end of the string. */
  function DigitAt(s: string, i: nat): Option<int> {
    if i < |s| then CharTable(s[i]) else None
  }

  /**
   `(hi << 4) | (lo & 0xF)` for nibbles: the shift multiplies by 16 and the
   two operands of the or have no bit in common, so the or adds them.
   */
  function Combine(hi: int, lo: int): (b: Byte)
    requires 0 <= hi < 16 && 0 <= lo < 16
    ensures b / 16 == hi && b % 16 == lo
  {
    hi * 16 + lo
  }

  /** The bit-level identity behind `Combine`, on eight-bit values. */
  lemma ShiftOrIsAddition(hi: bv8, lo: bv8)
    requires hi < 16 && lo < 16
    ensures (hi << 4) | (lo & 0xF) == hi * 16 + lo
    ensures ((hi << 4) | (lo & 0xF)) >> 4 == hi && ((hi << 4) | (lo & 0xF)) & 0xF == lo
  {
  }

  /** The byte decoded from the digit pair that starts at position `2 * k`. */
  function PairValue(s: string, k: nat): Byte {
    Combine(Nibble(DigitAt(s, 2 * k)), Nibble(DigitAt(s, 2 * k + 1)))
  }

  /**
   `decodeData`: an array of `|s| / 2` bytes (the length is truncated); the
   loop visits every even position, and the write for a trailing odd digit
   falls outside the array and is dropped.
   */
  method DecodeData(s: string) returns (out: seq<Byte>)
    ensures |out| == |s| / 2
    ensures forall k :: 0 <= k < |out| ==> out[k] == 16 * Nibble(CharTable(s[2 * k])) + Nibble(CharTable(s[2 * k + 1]))
    ensures out == Decoded(s)
  {
    var output := new Byte[|s| / 2](_ => 0);
    var i := 0;
    while i < |s|
      invariant 0 <= i <= |s| + 1 && i % 2 == 0
      invariant forall k :: 0 <= k < output.Length && 2 * k < i ==> output[k] == PairValue(s, k)
      decreases |s| - i
    {
      var index := i / 2;
      if index < output.Length {
        output[index] := Combine(Nibble(DigitAt(s, i)), Nibble(DigitAt(s, i + 1)));
      }
      i := i + 2;
    }
    out := output[..];
    PairwiseIsDecoded(s, out);
  }

  /** Bytes that hold the value of each complete pair are the decoding, digit by digit. */
  lemma PairwiseIsDecoded(s: string, out: seq<Byte>)
    requires |out| == |s| / 2
    requires forall k :: 0 <= k < |out| ==> out[k] == PairValue(s, k)
    ensures forall k :: 0 <= k < |out| ==> out[k] == 16 * Nibble(CharTable(s[2 * k])) + Nibble(CharTable(s[2 * k + 1]))
    ensures out == Decoded(s)
  {
    DecodedPairs(s);
  }

  /** The decoding as a function: one byte per complete digit pair. */
  function Decoded(s: string): (bytes: seq<Byte>)
    ensures |bytes| == |s| / 2
    decreases |s|
  {
    if |s| < 2 then [] else [PairValue(s, 0)] + Decoded(s[2..])
  }

  /** The function and the loop agree on every byte. */
  lemma {:induction false} DecodedPairs(s: string)
    ensures forall k :: 0 <= k < |s| / 2 ==> Decoded(s)[k] == PairValue(s, k)
    decreases |s|
  {
    if |s| >= 2 {
      DecodedPairs(s[2..]);
      DecodedStep(s);
      forall k | 1 <= k < |s| / 2
        ensures Decoded(s)[k] == PairValue(s, k)
      {
        PairValueOfSuffix(s, k);
      }
    }
  }

  /** Dropping the first pair shifts every later pair down by one. */
  lemma PairValueOfSuffix(s: string, k: nat)
    requires 1 <= k && 2 * k + 1 < |s|
    ensures PairValue(s[2..], k - 1) == PairValue(s, k)
  {
    assert s[2..][2 * (k - 1)] == s[2 * k];
    assert s[2..][2 * (k - 1) + 1] == s[2 * k + 1];
  }

  /** Decoding a concatenation of even-length strings decodes each part. */
  lemma {:induction false} DecodedAppend(a: string, b: string)
    requires |a| % 2 == 0
    ensures Decoded(a + b) == Decoded(a) + Decoded(b)
    decreases |a|
  {
    if |a| == 0 {
      assert a + b == b;
    } else {
      var rest := a[2..];
      var first := PairValue(a, 0);
      calc {
        Decoded(a + b);
        { DecodedStepOfPrefix(a, b); }
        [first] + Decoded(rest + b);
        { DecodedAppend(rest, b); }
        [first] + (Decoded(rest) + Decoded(b));
        { ConcatAssociative([first], Decoded(rest), Decoded(b)); }
        ([first] + Decoded(rest)) + Decoded(b);
        { DecodedStep(a); }
        Decoded(a) + Decoded(b);
      }
    }
  }

  /** The first pair of a text whose first part holds a whole pair comes from that part. */
  lemma DecodedStepOfPrefix(a: string, b: string)
    requires |a| >= 2
    ensures Decoded(a + b) == [PairValue(a, 0)] + Decoded(a[2..] + b)
  {
    DecodedStep(a + b);
    assert (a + b)[2..] == a[2..] + b;
    PairValueOfPrefix(a, b, 0);
  }

  /** One step of the decoding: the first pair, then the rest. */
  lemma DecodedStep(s: string)
    requires |s| >= 2
    ensures Decoded(s) == [PairValue(s, 0)] + Decoded(s[2..])
  {
  }

  /** `encodeData`: each byte as two upper-case digits, `chars[b >> 4] + chars[b & 0xf]`. */
  function EncodeData(data: seq<Byte>): (s: string)
    ensures |s| == 2 * |data|
    ensures forall i :: 0 <= i < |s| ==> s[i] in HexDigits
    decreases |data|
  {
    if |data| == 0 then ""
    else [HexDigits[data[0] / 16], HexDigits[data[0] % 16]] + EncodeData(data[1..])
  }

  /** The table maps the digit for `v` back to `v`. */
  lemma CharTableOfDigit(v: int)
    requires 0 <= v < 16
    ensures CharTable(HexDigits[v]) == Some(v)
  {
    if v < 10 {
      assert HexDigits[v] as int == '0' as int + v;
    } else {
      assert HexDigits[v] as int == 'A' as int + v - 10;
    }
  }

  /** The two digits `encodeData` writes for a byte decode to that byte. */
  lemma PairOfEncodedByte(b: Byte, rest: string)
    ensures PairValue([HexDigits[b / 16], HexDigits[b % 16]] + rest, 0) == b
  {
    var s := [HexDigits[b / 16], HexDigits[b % 16]] + rest;
    CharTableOfDigit(b / 16);
    CharTableOfDigit(b % 16);
    assert DigitAt(s, 0) == Some(b / 16);
    assert DigitAt(s, 1) == Some(b % 16);
  }

  /** Decoding an encoding gives the bytes back. */
  lemma {:induction false} DecodeEncode(data: seq<Byte>)
    ensures Decoded(EncodeData(data)) == data
    decreases |data|
  {
    if |data| > 0 {
      var s := EncodeData(data);
      DecodeEncode(data[1..]);
      assert s[2..] == EncodeData(data[1..]);
      PairOfEncodedByte(data[0], EncodeData(data[1..]));
    }
  }

  /** A string of upper-case digits of even length is exactly what `encodeData` produces. */
  predicate IsEncoding(s: string) {
    |s| % 2 == 0 && forall i :: 0 <= i < |s| ==> s[i] in HexDigits
  }

  /** Encoding a decoding gives a well-formed string back. */
  lemma {:induction false} EncodeDecode(s: string)
    requires IsEncoding(s)
    ensures EncodeData(Decoded(s)) == s
    decreases |s|
  {
    if |s| > 0 {
      EncodeDecode(s[2..]);
      var b := PairValue(s, 0);
      assert b / 16 == CharTable(s[0]).value;
      assert b % 16 == CharTable(s[1]).value;
      assert Decoded(s)[1..] == Decoded(s[2..]);
      assert s == [s[0], s[1]] + s[2..];
    }
  }

  /** A pair decodes to the byte with the pair's two nibbles. */
  lemma DecodesPair(a: char, b: char)
    ensures Decoded([a, b]) == [16 * Nibble(CharTable(a)) + Nibble(CharTable(b))]
  {
    var s := [a, b];
    assert s[2..] == [];
    assert Decoded(s) == [PairValue(s, 0)] + Decoded([]);
  }

  /** Characters outside the table decode as zero nibbles, lower-case digits among them. */
  lemma LowerCaseDecodesAsZero()
    ensures Decoded("ff") == [0]
    ensures Decoded("F1") == [241]
  {
    assert CharTable('f') == None;
    DecodesPair('f', 'f');
    assert "ff" == ['f', 'f'];
    assert CharTable('F') == Some(15);
    assert CharTable('1') == Some(1);
    DecodesPair('F', '1');
    assert "F1" == ['F', '1'];
  }

  /** Extending a string leaves the pairs inside the original untouched. */
  lemma PairValueOfPrefix(s: string, t: string, k: nat)
    requires 2 * k + 1 < |s|
    ensures PairValue(s + t, k) == PairValue(s, k)
  {
    assert (s + t)[2 * k] == s[2 * k];
    assert (s + t)[2 * k + 1] == s[2 * k + 1];
  }

  /** A trailing unpaired digit is ignored. */
  lemma OddLengthDropsLastDigit(s: string, c: char)
    requires |s| % 2 == 0
    ensures Decoded(s + [c]) == Decoded(s)
  {
    DecodedPairs(s + [c]);
    DecodedPairs(s);
    forall k | 0 <= k < |s| / 2
      ensures Decoded(s + [c])[k] == Decoded(s)[k]
    {
      PairValueOfPrefix(s, [c], k);
    }
    assert |Decoded(s + [c])| == |Decoded(s)|;
  }
}
