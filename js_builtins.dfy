/** The JavaScript runtime operations the hex codec relies on, each modelled on
    the inputs the codec gives it: `Number.prototype.toString(16)`,
    `String.prototype.padStart`, `parseInt(_, 16)`, `String.prototype.match`
    with the global pattern `/.{1,2}/g`, and the ToUint8 conversion that
    `Uint8Array.from` applies to each element. */
module JsBuiltins {
  import opened Hex

  datatype Option<T> = None | Some(value: T)

  function Pow16(n: nat): (p: nat)
    ensures p >= 1
  {
    if n == 0 then 1 else 16 * Pow16(n - 1)
  }

  /** `n.toString(16)` for a non-negative integer: the shortest lowercase
      spelling, most significant digit first. */
  function ToRadix16(n: nat): (s: string)
    ensures 1 <= |s|
    ensures IsLowerHexString(s)
    decreases n
  {
    if n < 16 then [HexDigit(n)] else ToRadix16(n / 16) + [HexDigit(n % 16)]
  }

  /** Below 256 the spelling is the single digit of a value below 16, or
      else the high digit followed by the low digit. */
  lemma ToRadix16OfByte(n: nat)
    requires n < 256
    ensures n < 16 ==> ToRadix16(n) == [HexDigit(n)]
    ensures 16 <= n ==> ToRadix16(n) == [HexDigit(n / 16), HexDigit(n % 16)]
  {
    if 16 <= n {
      assert ToRadix16(n) == ToRadix16(n / 16) + [HexDigit(n % 16)];
    }
  }

  /** `parseInt(s, 16)` for a non-empty string of hexadecimal digits: the
      digits read most significant first. */
  function ParseInt16(s: string): (v: nat)
    requires 1 <= |s| && IsHexString(s)
    ensures v < Pow16(|s|)
    decreases |s|
  {
    if |s| == 1 then DigitValue(s[0])
    else 16 * ParseInt16(s[..|s| - 1]) + DigitValue(s[|s| - 1])
  }

  /** `parseInt` reads back what `toString(16)` writes. */
  lemma {:induction false} ParseInt16OfToRadix16(n: nat)
    ensures ParseInt16(ToRadix16(n)) == n
    decreases n
  {
    if n >= 16 {
      var s := ToRadix16(n);
      assert s[..|s| - 1] == ToRadix16(n / 16);
      ParseInt16OfToRadix16(n / 16);
    }
  }

  /** `s.padStart(len, fill)` with a one-character filler: copies of `fill`
      in front of `s` until it is `len` long; `s` itself when it is already
      that long. */
  function PadStart(s: string, len: nat, fill: char): (r: string)
    ensures |r| == if |s| >= len then |s| else len
    ensures r[|r| - |s|..] == s
    ensures forall i :: 0 <= i < |r| - |s| ==> r[i] == fill
  {
    if |s| >= len then s else seq(len - |s|, _ => fill) + s
  }

  /** `xs.reduce((str, x) => str + piece(x), acc)`: the callback applied to
      each element in order, each result appended to the string accumulated
      so far, which therefore stays a prefix of the result. */
  function Reduce<T>(xs: seq<T>, piece: T -> string, acc: string): (r: string)
    ensures |acc| <= |r| && r[..|acc|] == acc
    decreases |xs|
  {
    if |xs| == 0 then acc else Reduce(xs[1..], piece, acc + piece(xs[0]))
  }

  /** The pieces `/.{1,2}/g` picks out of a string of hexadecimal digits,
      left to right: characters `2i` and `2i+1` form piece `i`, and the last
      piece is the single last character when the length is odd. */
  function Pairs(s: string): (r: seq<string>)
    requires IsHexString(s)
    ensures |r| == (|s| + 1) / 2
    ensures forall i :: 0 <= i < |r| ==>
      r[i] == if 2 * i + 1 < |s| then [s[2 * i], s[2 * i + 1]] else [s[2 * i]]
    decreases |s|
  {
    if |s| == 0 then []
    else if |s| == 1 then [s]
    else
      var rest := Pairs(s[2..]);
      assert s[..2] == [s[0], s[1]];
      [s[..2]] + rest
  }

  /** `s.match(/.{1,2}/g)` on a string of hexadecimal digits: `null` when
      nothing matches, which is exactly the empty string; otherwise every
      match. */
  function MatchPairs(s: string): (r: Option<seq<string>>)
    requires IsHexString(s)
    ensures r.None? <==> s == []
    ensures r.Some? ==> r.value == Pairs(s)
  {
    var matches := Pairs(s);
    if |matches| == 0 then None else Some(matches)
  }

  /** The ToUint8 conversion: the integer modulo 2^8. */
  function ToUint8(n: int): (b: int)
    ensures 0 <= b < 256
    ensures 0 <= n < 256 ==> b == n
  {
    n % 256
  }
}
