/**
 Hexadecimal text, as Go's encoding/hex writes and reads it.
 */
module Hex {
  import opened Octets
  import opened Results

  function Digit(d: nat): byte
    requires d < 16
  {
    if d < 10 then 48 + d else 87 + d
  }

  predicate LowerHex(b: byte) {
    48 <= b <= 57 || 97 <= b <= 102
  }

  function HexString(b: Bytes): (r: Bytes)
    ensures |r| == 2 * |b|
  {
    if b == [] then [] else HexString(b[..|b| - 1]) + [Digit(b[|b| - 1] / 16), Digit(b[|b| - 1] % 16)]
  }

  /** The value of one digit, of either case. */
  function Nibble(b: byte): (r: Option<nat>)
    ensures r.Some? ==> r.value < 16
  {
    if 48 <= b <= 57 then Some(b - 48)
    else if 97 <= b <= 102 then Some(b - 87)
    else if 65 <= b <= 70 then Some(b - 55)
    else None
  }

  function DecodeHex(s: Bytes): (r: Option<Bytes>)
    ensures r.Some? ==> |s| == 2 * |r.value|
  {
    if s == [] then Some([])
    else if |s| == 1 then None
    else
      var n := |s| - 2;
      var init, hi, lo := DecodeHex(s[..n]), Nibble(s[n]), Nibble(s[n + 1]);
      if init.None? || hi.None? || lo.None? then None else Some(init.value + [16 * hi.value + lo.value])
  }

  /** Encoded text is lower-case hex... */
  lemma {:induction false} EncodesLower(b: Bytes)
    ensures forall i :: 0 <= i < 2 * |b| ==> LowerHex(HexString(b)[i])
  {
    if b != [] {
      EncodesLower(b[..|b| - 1]);
    }
  }

  /** ...and decodes to what was encoded. */
  lemma {:induction false} DecodesEncoded(b: Bytes)
    ensures DecodeHex(HexString(b)) == Some(b)
  {
    if b == [] {
      assert HexString([]) == [];
    } else {
      hide HexString, DecodeHex, Nibble, Digit;
      var n := |b| - 1;
      DecodesEncoded(b[..n]);
      OneMoreByte(b);
      DecodesOneMore(HexString(b[..n]), b[n]);
      assert b == b[..n] + [b[n]];
    }
  }

  lemma {:induction false} OneMoreByte(b: Bytes)
    requires b != []
    ensures var n := |b| - 1; HexString(b) == HexString(b[..n]) + [Digit(b[n] / 16), Digit(b[n] % 16)]
  {
  }

  lemma {:induction false} DecodesOneMore(s: Bytes, b: byte)
    requires DecodeHex(s).Some?
    ensures DecodeHex(s + [Digit(b / 16), Digit(b % 16)]) == Some(DecodeHex(s).value + [b])
  {
    hide Nibble, Digit;
    var t, n := s + [Digit(b / 16), Digit(b % 16)], |s|;
    DigitReads(b / 16);
    DigitReads(b % 16);
    assert t[..n] == s && t[n] == Digit(b / 16) && t[n + 1] == Digit(b % 16);
  }

  lemma DigitReads(d: nat)
    requires d < 16
    ensures Nibble(Digit(d)) == Some(d)
  {
  }
}
