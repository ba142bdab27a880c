/**
 The exit-status trailer folded into the captured stream.
 */
module Trailers {
  import opened Octets
  import opened Results

  const MINUS: byte := 45
  const NEWLINE: byte := 10

  // "\n[lastro] exit-status="
  const MARKER: Bytes := [
    10, 91, 108, 97, 115, 116, 114, 111, 93, 32, 101, 120, 105, 116, 45, 115, 116, 97, 116, 117, 115, 61
  ]

  predicate Digit(b: byte) {
    48 <= b <= 57
  }

  /** fmt's %d for a non-negative number. */
  function Decimal(n: nat): (s: Bytes)
    ensures s != [] && forall i :: 0 <= i < |s| ==> Digit(s[i])
  {
    if n < 10 then [48 + n] else Decimal(n / 10) + [48 + n % 10]
  }

  function DecimalInt(n: int): Bytes {
    if n < 0 then [MINUS] + Decimal(-n) else Decimal(n)
  }

  function Trailer(exitCode: int): Bytes {
    MARKER + DecimalInt(exitCode) + [NEWLINE]
  }

  /** The captured stream: the raw output, then the trailer. */
  function Sealed(output: Bytes, exitCode: int): Bytes {
    output + Trailer(exitCode)
  }

  // Reading it back ----------------------------------------------------------

  function Number(s: Bytes): int {
    if s == [] then 0 else Number(s[..|s| - 1]) * 10 + (s[|s| - 1] as int - 48)
  }

  function NumberInt(s: Bytes): int {
    if s != [] && s[0] == MINUS then -Number(s[1..]) else Number(s)
  }

  predicate Numeral(b: byte) {
    Digit(b) || b == MINUS
  }

  /** Where the run of numeral characters ending at `end` begins. */
  function NumeralStart(s: Bytes, end: nat): (k: nat)
    requires end <= |s|
    ensures k <= end
  {
    if end > 0 && Numeral(s[end - 1]) then NumeralStart(s, end - 1) else end
  }

  /** Takes a captured stream apart from its end. */
  function Unseal(s: Bytes): Option<(Bytes, int)> {
    if |s| == 0 || s[|s| - 1] != NEWLINE then None
    else
      var k := NumeralStart(s, |s| - 1);
      if k < |MARKER| || s[k - |MARKER|..k] != MARKER then None
      else Some((s[..k - |MARKER|], NumberInt(s[k..|s| - 1])))
  }

  lemma {:induction false} DecimalReads(n: nat)
    ensures Number(Decimal(n)) == n
  {
    if n < 10 {
      assert [48 + n][..0] == [];
    } else {
      DecimalReads(n / 10);
      assert Decimal(n)[..|Decimal(n)| - 1] == Decimal(n / 10);
    }
  }

  /** No leading zero is written above one digit. */
  lemma {:induction false} NoLeadingZero(n: nat)
    ensures n < 10 ==> Decimal(n) == [48 + n]
    ensures n >= 10 ==> |Decimal(n)| > 1 && Decimal(n)[0] != 48
  {
    if n >= 10 {
      NoLeadingZero(n / 10);
    }
  }

  lemma DecimalIntReads(n: int)
    ensures NumberInt(DecimalInt(n)) == n
    ensures forall i :: 0 <= i < |DecimalInt(n)| ==> Numeral(DecimalInt(n)[i])
  {
    if n < 0 {
      DecimalReads(-n);
      assert DecimalInt(n)[1..] == Decimal(-n);
    } else {
      DecimalReads(n);
    }
  }

  lemma {:induction false} NumeralStartFinds(s: Bytes, k: nat, end: nat)
    requires 0 < k <= end <= |s| && !Numeral(s[k - 1])
    requires forall i :: k <= i < end ==> Numeral(s[i])
    ensures NumeralStart(s, end) == k
    decreases end
  {
    if k < end {
      NumeralStartFinds(s, k, end - 1);
    }
  }

  /** The parts of a sealed stream, where the reader looks for them. */
  lemma SealedParts(output: Bytes, d: Bytes)
    ensures var s, m := output + MARKER + d + [NEWLINE], |output|;
            var k := m + |MARKER|;
            && |s| == k + |d| + 1 && s[|s| - 1] == NEWLINE && s[k..|s| - 1] == d
            && s[m..k] == MARKER && s[..m] == output
  {
    hide MARKER;
    var s, k := output + MARKER + d + [NEWLINE], |output| + |MARKER|;
    assert output + MARKER + d + [NEWLINE] == output + (MARKER + (d + [NEWLINE]));
    assert s[..k] == output + MARKER;
    assert s[..k][|output|..] == MARKER;
  }

  /** Reading from the end recovers output and exit code, even from output that
      contains trailer-like lines of its own. */
  lemma UnsealsSealed(output: Bytes, exitCode: int)
    ensures Unseal(Sealed(output, exitCode)) == Some((output, exitCode))
  {
    hide Decimal, Number, DecimalInt, NumberInt, Numeral, MARKER;
    var s, d := Sealed(output, exitCode), DecimalInt(exitCode);
    var k := |output| + |MARKER|;
    DecimalIntReads(exitCode);
    assert s == output + MARKER + d + [NEWLINE] by { SealedIs(output, exitCode); }
    SealedParts(output, d);
    MarkerEndsPlain();
    assert s[k - 1] == s[|output|..k][|MARKER| - 1];
    forall i | k <= i < |s| - 1
      ensures Numeral(s[i])
    {
      assert s[i] == s[k..|s| - 1][i - k];
    }
    NumeralStartFinds(s, k, |s| - 1);
  }

  lemma SealedIs(output: Bytes, exitCode: int)
    ensures Sealed(output, exitCode) == output + MARKER + DecimalInt(exitCode) + [NEWLINE]
  {
    hide DecimalInt;
  }

  lemma MarkerEndsPlain()
    ensures |MARKER| > 0 && !Numeral(MARKER[|MARKER| - 1])
  {
  }

  /** The captured stream determines the raw output and the exit code. */
  lemma TrailerUnambiguous(output1: Bytes, exit1: int, output2: Bytes, exit2: int)
    requires Sealed(output1, exit1) == Sealed(output2, exit2)
    ensures output1 == output2 && exit1 == exit2
  {
    hide Sealed, Unseal;
    UnsealsSealed(output1, exit1);
    UnsealsSealed(output2, exit2);
  }
}
