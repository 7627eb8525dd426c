/** The hex codec of common/util.ts: `uint8ArrayToHexString` spells a byte
    array as lowercase hexadecimal, two digits per byte with no `0x` prefix,
    and `uint8ArrayfromHexString` reads a hexadecimal string back into bytes,
    one byte per group of up to two digits. */
module Util {
  import opened Hex
  import opened JsBuiltins

  /** An element of a `Uint8Array`. */
  type Byte = b: int | 0 <= b < 256

  /** The exception `uint8ArrayfromHexString` throws: `match` gave `null`
      and calling `.map` on it raises a TypeError. */
  datatype Error = NullMatch

  datatype Result<T> = Ok(value: T) | Err(error: Error)

  // ---------------------------------------------------------------------
  // Encoding: uint8ArrayToHexString
  // ---------------------------------------------------------------------

  /** What the `reduce` callback appends for one byte:
      `byte.toString(16).padStart(2, '0')`. */
  function ByteToHex(b: Byte): (r: string)
    ensures |r| == 2 && IsLowerHexString(r)
  {
    ToRadix16OfByte(b);
    PadStart(ToRadix16(b), 2, '0')
  }

  /** The two characters are the high and the low digit of the byte, so a
      byte below 16 gets a leading `0`. */
  lemma ByteToHexDigits(b: Byte)
    ensures ByteToHex(b) == [HexDigit(b / 16), HexDigit(b % 16)]
  {
    ToRadix16OfByte(b);
    if b < 16 {
      assert HexDigit(0) == '0';
    }
  }

  /** Reference definition of the fold's result: the pieces of the bytes,
      concatenated in order. */
  function Concat(bytes: seq<Byte>, piece: Byte -> string): (r: string)
    requires forall b :: |piece(b)| == 2 && IsLowerHexString(piece(b))
    ensures |r| == 2 * |bytes|
    ensures IsLowerHexString(r)
    decreases |bytes|
  {
    if bytes == [] then [] else piece(bytes[0]) + Concat(bytes[1..], piece)
  }

  /** `uint8ArrayToHexString(bytes)`: the fold with the two-digit callback,
      started from `''`. The result has two characters per byte, all of them
      lowercase hexadecimal digits; the empty array gives the empty string. */
  function ToHexString(bytes: seq<Byte>): (r: string)
    ensures |r| == 2 * |bytes|
    ensures IsLowerHexString(r)
  {
    ReduceIsConcat(bytes, ByteToHex, "");
    assert Reduce(bytes, ByteToHex, "") == Concat(bytes, ByteToHex);
    Reduce(bytes, ByteToHex, "")
  }

  lemma {:induction false} ReduceIsConcat(bytes: seq<Byte>, piece: Byte -> string, acc: string)
    requires forall b :: |piece(b)| == 2 && IsLowerHexString(piece(b))
    ensures Reduce(bytes, piece, acc) == acc + Concat(bytes, piece)
    decreases |bytes|
  {
    if bytes != [] {
      ReduceIsConcat(bytes[1..], piece, acc + piece(bytes[0]));
    }
  }

  lemma {:induction false} ConcatAt(bytes: seq<Byte>, piece: Byte -> string, i: nat)
    requires forall b :: |piece(b)| == 2 && IsLowerHexString(piece(b))
    requires i < |bytes|
    ensures Concat(bytes, piece)[2 * i .. 2 * i + 2] == piece(bytes[i])
    decreases i
  {
    if i > 0 {
      ConcatAt(bytes[1..], piece, i - 1);
    }
  }

  lemma ConcatCharsAt(bytes: seq<Byte>, piece: Byte -> string, i: nat, hi: char, lo: char)
    requires forall b :: |piece(b)| == 2 && IsLowerHexString(piece(b))
    requires i < |bytes| && piece(bytes[i]) == [hi, lo]
    ensures Concat(bytes, piece)[2 * i] == hi && Concat(bytes, piece)[2 * i + 1] == lo
  {
    ConcatAt(bytes, piece, i);
    var pair := Concat(bytes, piece)[2 * i .. 2 * i + 2];
    assert pair[0] == hi && pair[1] == lo;
  }

  lemma {:induction false} ConcatAppend(a: seq<Byte>, b: seq<Byte>, piece: Byte -> string)
    requires forall x :: |piece(x)| == 2 && IsLowerHexString(piece(x))
    ensures Concat(a + b, piece) == Concat(a, piece) + Concat(b, piece)
    decreases |a|
  {
    if a == [] {
      assert a + b == b;
    } else {
      assert (a + b)[1..] == a[1..] + b;
      ConcatAppend(a[1..], b, piece);
      assert Concat(a + b, piece) == piece(a[0]) + Concat(a[1..] + b, piece);
    }
  }

  /** The encoding is the two-digit spellings of the bytes, concatenated in
      order. */
  lemma ToHexStringIsConcat(bytes: seq<Byte>)
    ensures ToHexString(bytes) == Concat(bytes, ByteToHex)
  {
    ReduceIsConcat(bytes, ByteToHex, "");
  }

  /** Byte `i` is spelled by characters `2i` and `2i+1`: its high digit, then
      its low digit, so a byte below 16 gets a leading `0`. */
  lemma ToHexStringAt(bytes: seq<Byte>, i: nat)
    requires i < |bytes|
    ensures ToHexString(bytes)[2 * i] == HexDigit(bytes[i] / 16)
    ensures ToHexString(bytes)[2 * i + 1] == HexDigit(bytes[i] % 16)
    ensures bytes[i] < 16 ==> ToHexString(bytes)[2 * i] == '0'
  {
    ToHexStringIsConcat(bytes);
    SpelledAt(bytes, i);
    if bytes[i] < 16 {
      assert bytes[i] / 16 == 0 && HexDigit(0) == '0';
    }
  }

  lemma SpelledAt(bytes: seq<Byte>, i: nat)
    requires i < |bytes|
    ensures Concat(bytes, ByteToHex)[2 * i] == HexDigit(bytes[i] / 16)
    ensures Concat(bytes, ByteToHex)[2 * i + 1] == HexDigit(bytes[i] % 16)
  {
    ByteToHexDigits(bytes[i]);
    ConcatCharsAt(bytes, ByteToHex, i, HexDigit(bytes[i] / 16), HexDigit(bytes[i] % 16));
  }

  /** A byte below 16 is spelled as `0` followed by its digit. */
  lemma ToHexStringOfDigit(b: Byte)
    requires b < 16
    ensures ToHexString([b]) == ['0', HexDigit(b)]
  {
    ToHexStringAt([b], 0);
  }

  /** Appending a byte below 16 appends `0` and its digit to the encoding. */
  lemma ToHexStringAppendDigit(init: seq<Byte>, last: Byte)
    requires last < 16
    ensures ToHexString(init + [last]) == ToHexString(init) + ['0', HexDigit(last)]
  {
    ToHexStringOfDigit(last);
    ToHexStringAppend(init, [last]);
  }

  /** Encoding a concatenation concatenates the encodings. */
  lemma ToHexStringAppend(a: seq<Byte>, b: seq<Byte>)
    ensures ToHexString(a + b) == ToHexString(a) + ToHexString(b)
  {
    ToHexStringIsConcat(a + b);
    ToHexStringIsConcat(a);
    ToHexStringIsConcat(b);
    ConcatAppend(a, b, ByteToHex);
  }

  // ---------------------------------------------------------------------
  // Decoding: uint8ArrayfromHexString
  // ---------------------------------------------------------------------

  /** `Uint8Array.from(values)`: each value converted by ToUint8. */
  function Uint8ArrayFrom(values: seq<int>): (r: seq<Byte>)
    ensures |r| == |values|
    ensures forall i :: 0 <= i < |values| && 0 <= values[i] < 256 ==> r[i] == values[i]
  {
    seq(|values|, i requires 0 <= i < |values| => ToUint8(values[i]))
  }

  /** `groups.map((byte) => parseInt(byte, 16))` for the groups of a
      hexadecimal string. */
  function ParseGroups(groups: seq<string>): (r: seq<int>)
    requires forall i :: 0 <= i < |groups| ==> 1 <= |groups[i]| <= 2 && IsHexString(groups[i])
    ensures |r| == |groups|
    ensures forall i :: 0 <= i < |groups| ==> r[i] == ParseInt16(groups[i]) && 0 <= r[i] < 256
  {
    seq(|groups|, i requires 0 <= i < |groups| => ParseInt16(groups[i]))
  }

  /** `uint8ArrayfromHexString(s)` for a string of hexadecimal digits: the
      empty string throws, any other string gives one byte per group of up
      to two digits. */
  function FromHexString(s: string): (r: Result<seq<Byte>>)
    requires IsHexString(s)
    ensures r.Err? <==> s == []
    ensures r.Ok? ==> |r.value| == (|s| + 1) / 2
  {
    match MatchPairs(s)
    case None => Err(NullMatch)
    case Some(groups) => Ok(Uint8ArrayFrom(ParseGroups(groups)))
  }

  /** Byte `i` of the decoding is the value of digits `2i` and `2i+1`, or of
      digit `2i` alone when it is the last, odd digit. */
  lemma FromHexStringAt(s: string, i: nat)
    requires IsHexString(s) && s != []
    requires i < (|s| + 1) / 2
    ensures FromHexString(s).Ok? && |FromHexString(s).value| == (|s| + 1) / 2
    ensures FromHexString(s).value[i] ==
      if 2 * i + 1 < |s| then 16 * DigitValue(s[2 * i]) + DigitValue(s[2 * i + 1])
      else DigitValue(s[2 * i])
  {
    var groups := Pairs(s);
    var g := groups[i];
    assert FromHexString(s).value == Uint8ArrayFrom(ParseGroups(groups));
    assert FromHexString(s).value[i] == ParseInt16(g);
    if 2 * i + 1 < |s| {
      assert g[..1] == [s[2 * i]];
      assert ParseInt16(g) == 16 * ParseInt16(g[..1]) + DigitValue(g[1]);
    }
  }

  /** An odd-length string gives ceil(n/2) bytes, the last one the value of
      the single trailing digit. */
  lemma FromHexStringOddTail(s: string)
    requires IsHexString(s) && |s| % 2 == 1
    ensures FromHexString(s).Ok?
    ensures |FromHexString(s).value| == |s| / 2 + 1
    ensures FromHexString(s).value[|s| / 2] == DigitValue(s[|s| - 1])
  {
    FromHexStringAt(s, |s| / 2);
  }

  // ---------------------------------------------------------------------
  // Round trips
  // ---------------------------------------------------------------------

  /** Two strings of even length are equal when they agree pair by pair. */
  lemma EqualByPairs(t: string, u: string)
    requires |t| == |u| && |t| % 2 == 0
    requires forall i :: 0 <= i < |t| / 2 ==> t[2 * i] == u[2 * i] && t[2 * i + 1] == u[2 * i + 1]
    ensures t == u
  {
    forall k | 0 <= k < |t|
      ensures t[k] == u[k]
    {
      var i := k / 2;
      assert k == 2 * i || k == 2 * i + 1;
    }
  }

  /** Re-spelling the byte that two digits decode to gives the two digits
      back, in lower case. */
  lemma RespellPair(hi: char, lo: char)
    requires IsHexDigit(hi) && IsHexDigit(lo)
    ensures var b := 16 * DigitValue(hi) + DigitValue(lo);
      0 <= b < 256 && HexDigit(b / 16) == ToLower(hi) && HexDigit(b % 16) == ToLower(lo)
  {
    DigitOfValue(hi);
    DigitOfValue(lo);
  }

  /** Decoding an encoding gives the bytes back, for every non-empty array. */
  lemma FromHexOfToHex(bytes: seq<Byte>)
    requires bytes != []
    ensures FromHexString(ToHexString(bytes)) == Ok(bytes)
  {
    var s := ToHexString(bytes);
    var r := FromHexString(s);
    forall i | 0 <= i < |bytes|
      ensures r.value[i] == bytes[i]
    {
      ToHexStringAt(bytes, i);
      FromHexStringAt(s, i);
    }
    assert r.value == bytes;
  }

  /** Bytes that hold the values of the digit pairs of an even-length string
      are spelled as that string in lower case. */
  lemma ToHexOfPairValues(s: string, bytes: seq<Byte>)
    requires IsHexString(s) && |s| % 2 == 0 && |bytes| == |s| / 2
    requires forall i :: 0 <= i < |bytes| ==>
      bytes[i] == 16 * DigitValue(s[2 * i]) + DigitValue(s[2 * i + 1])
    ensures ToHexString(bytes) == Lowercase(s)
  {
    var t := ToHexString(bytes);
    var u := Lowercase(s);
    forall i | 0 <= i < |t| / 2
      ensures t[2 * i] == u[2 * i] && t[2 * i + 1] == u[2 * i + 1]
    {
      ToHexStringAt(bytes, i);
      RespellPair(s[2 * i], s[2 * i + 1]);
    }
    EqualByPairs(t, u);
  }

  /** Encoding the decoding of an even-length string gives the string back
      in lower case: `parseInt` accepts both cases, `toString(16)` writes
      lowercase. */
  lemma ToHexOfFromHexEven(s: string)
    requires IsHexString(s) && s != [] && |s| % 2 == 0
    ensures ToHexString(FromHexString(s).value) == Lowercase(s)
  {
    var bytes := FromHexString(s).value;
    forall i | 0 <= i < |bytes|
      ensures bytes[i] == 16 * DigitValue(s[2 * i]) + DigitValue(s[2 * i + 1])
    {
      FromHexStringAt(s, i);
    }
    ToHexOfPairValues(s, bytes);
  }

  /** For a lowercase even-length string the round trip is the identity. */
  lemma ToHexOfFromHexLower(s: string)
    requires IsLowerHexString(s) && s != [] && |s| % 2 == 0
    ensures ToHexString(FromHexString(s).value) == s
  {
    ToHexOfFromHexEven(s);
    LowercaseOfLower(s);
  }

  /** The bytes before the last one of an odd-length decoding are spelled
      as the digits before the last one, in lower case. */
  lemma ToHexOfFromHexOddInit(s: string)
    requires IsHexString(s) && |s| % 2 == 1
    ensures FromHexString(s).Ok? && |FromHexString(s).value| == |s| / 2 + 1
    ensures ToHexString(FromHexString(s).value[..|s| / 2]) == Lowercase(s[..|s| - 1])
  {
    var n, k := |s|, |s| / 2;
    var init := FromHexString(s).value[..k];
    var prefix := s[..n - 1];
    forall i | 0 <= i < k
      ensures init[i] == 16 * DigitValue(prefix[2 * i]) + DigitValue(prefix[2 * i + 1])
    {
      FromHexStringAt(s, i);
    }
    ToHexOfPairValues(prefix, init);
  }

  /** For an odd-length string the trailing digit comes back padded with a
      leading `0`. */
  lemma ToHexOfFromHexOdd(s: string)
    requires IsHexString(s) && |s| % 2 == 1
    ensures ToHexString(FromHexString(s).value) ==
      Lowercase(s[..|s| - 1]) + ['0', ToLower(s[|s| - 1])]
  {
    var n, k := |s|, |s| / 2;
    var bytes := FromHexString(s).value;
    var init, last := bytes[..k], bytes[k];
    ToHexOfFromHexOddInit(s);
    FromHexStringOddTail(s);
    DigitOfValue(s[n - 1]);
    assert bytes == init + [last];
    ToHexStringAppendDigit(init, last);
  }

  // ---------------------------------------------------------------------
  // The empty string
  // ---------------------------------------------------------------------

  /** As written, the pair is not inverse on the empty array: it encodes to
      `""`, and decoding `""` throws. */
  lemma EmptyRoundTripThrows()
    ensures ToHexString([]) == ""
    ensures FromHexString(ToHexString([])) == Err(NullMatch)
  {
  }

  /** `uint8ArrayfromHexString` with the empty-string case corrected: `""`
      gives the empty array, as `Buffer.from("", 'hex')` does; every other
      string decodes as before. */
  function FromHexStringIntended(s: string): (r: seq<Byte>)
    requires IsHexString(s)
    ensures |r| == (|s| + 1) / 2
    ensures s != [] ==> FromHexString(s) == Ok(r)
  {
    if s == [] then [] else FromHexString(s).value
  }

  /** With the empty case corrected, decoding inverts encoding on every array. */
  lemma FromHexIntendedOfToHex(bytes: seq<Byte>)
    ensures FromHexStringIntended(ToHexString(bytes)) == bytes
  {
    if bytes != [] {
      FromHexOfToHex(bytes);
    }
  }
}
