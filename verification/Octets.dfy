/**
 Bytes, machine-width integers and the two byte orders the wire uses:
 big-endian numbers and the lexicographic order of CA keys.
 */
module Octets {
  type byte = x: int | 0 <= x < 256
  type Bytes = seq<byte>

  const TWO_16 := 0x1_0000
  const TWO_32 := 0x1_0000_0000
  const TWO_64 := 0x1_0000_0000_0000_0000

  type uint32 = x: int | 0 <= x < TWO_32
  type uint64 = x: int | 0 <= x < TWO_64

  const SLASH: byte := 47

  // Go's fixed-size arrays.
  type Bytes8 = b: Bytes | |b| == 8 witness Zeros(8)
  type Bytes16 = b: Bytes | |b| == 16 witness Zeros(16)
  type Bytes32 = b: Bytes | |b| == 32 witness Zeros(32)

  function Zeros(n: nat): (b: Bytes)
    ensures |b| == n
  {
    seq(n, _ => 0)
  }

  function Pow256(w: nat): (r: nat)
    ensures r >= 1
  {
    if w == 0 then 1 else 256 * Pow256(w - 1)
  }

  lemma Widths()
    ensures Pow256(1) == 256 && Pow256(2) == TWO_16 && Pow256(4) == TWO_32 && Pow256(8) == TWO_64
  {
    assert Pow256(3) == 256 * Pow256(2);
    assert Pow256(4) == 256 * Pow256(3);
    assert Pow256(6) == 256 * (256 * Pow256(4));
    assert Pow256(8) == 256 * (256 * Pow256(6));
  }

  /** The low `w` bytes of `n`, most significant first; a Go conversion to a
      narrower unsigned type drops the same high bytes. */
  function BE(w: nat, n: nat): (b: Bytes)
    ensures |b| == w
  {
    if w == 0 then [] else BE(w - 1, n / 256) + [n % 256]
  }

  lemma OneByte(n: byte)
    ensures BE(1, n) == [n]
  {
    assert BE(0, n / 256) == [];
  }

  function FromBE(b: Bytes): (n: nat)
    ensures n < Pow256(|b|)
  {
    if b == [] then 0 else FromBE(b[..|b| - 1]) * 256 + b[|b| - 1]
  }

  lemma {:induction false} FromBEofBE(w: nat, n: nat)
    requires n < Pow256(w)
    ensures FromBE(BE(w, n)) == n
  {
    if w > 0 {
      FromBEofBE(w - 1, n / 256);
      assert BE(w, n)[..w - 1] == BE(w - 1, n / 256);
    }
  }

  lemma {:induction false} BEofFromBE(b: Bytes)
    ensures BE(|b|, FromBE(b)) == b
  {
    if b != [] {
      var init, last := b[..|b| - 1], b[|b| - 1];
      BEofFromBE(init);
      assert FromBE(b) / 256 == FromBE(init) && FromBE(b) % 256 == last;
      assert b == init + [last];
    }
  }

  /** `n` without its last `i` digits in this base. */
  function Without(n: int, base: int, i: nat): int
    requires base > 0
    decreases i
  {
    if i == 0 then n else Without(n / base, base, i - 1)
  }

  /** Most significant byte first: w - 1 - i bytes follow byte i. */
  lemma {:induction false} BEDigit(w: nat, n: nat, i: nat)
    requires i < w
    ensures BE(w, n)[i] == Without(n, 256, w - 1 - i) % 256
  {
    if i < w - 1 {
      BEDigit(w - 1, n / 256, i);
    }
  }

  lemma {:induction false} BEInjective(w: nat, m: nat, n: nat)
    requires m < Pow256(w) && n < Pow256(w) && BE(w, m) == BE(w, n)
    ensures m == n
  {
    FromBEofBE(w, m);
    FromBEofBE(w, n);
  }

  lemma Associative(a: Bytes, b: Bytes, c: Bytes)
    ensures a + (b + c) == (a + b) + c
  {
  }

  lemma ThreeParts(s: Bytes, i: nat, j: nat)
    requires i <= j <= |s|
    ensures s == s[..i] + s[i..j] + s[j..]
  {
    assert s[..j] == s[..i] + s[i..j];
    assert s == s[..j] + s[j..];
  }

  lemma PartsBack(a: Bytes, b: Bytes, c: Bytes)
    ensures var s := a + b + c;
            s[..|a|] == a && s[|a|..|a| + |b|] == b && s[|a| + |b|..] == c
  {
    var s, ab := a + b + c, a + b;
    assert s[..|ab|] == ab && s[|ab|..] == c;
    assert s[..|a|] == ab[..|a|] == a && s[|a|..|ab|] == ab[|a|..] == b;
  }

  lemma SliceOfSlice(s: Bytes, from: nat, to: nat, i: nat, j: nat)
    requires from <= to <= |s| && i <= j <= to - from
    ensures s[from..to][i..j] == s[from + i..from + j]
  {
    var a, b := s[from..to][i..j], s[from + i..from + j];
    assert forall k :: 0 <= k < j - i ==> a[k] == s[from + (i + k)];
    assert forall k :: 0 <= k < j - i ==> b[k] == s[(from + i) + k];
  }

  /** bytes.Compare(a, b) < 0. */
  predicate Less(a: Bytes, b: Bytes) {
    b != [] && (a == [] || a[0] < b[0] || (a[0] == b[0] && Less(a[1..], b[1..])))
  }

  /** The two first differ at k, where `a` is smaller or has ended. */
  predicate DiffersAt(a: Bytes, b: Bytes, k: nat) {
    k <= |a| && k < |b| && a[..k] == b[..k] && (k == |a| || a[k] < b[k])
  }

  /** Less is the lexicographic order: decided at the first difference. */
  lemma {:induction false} LessIff(a: Bytes, b: Bytes)
    ensures Less(a, b) <==> exists k: nat :: DiffersAt(a, b, k)
  {
    if a != [] && b != [] && a[0] == b[0] {
      LessIff(a[1..], b[1..]);
      if k: nat :| DiffersAt(a[1..], b[1..], k) {
        assert a[..k + 1] == [a[0]] + a[1..][..k] && b[..k + 1] == [b[0]] + b[1..][..k];
        assert DiffersAt(a, b, k + 1);
      }
      if k: nat :| DiffersAt(a, b, k) {
        assert k > 0;
        assert a[1..][..k - 1] == a[..k][1..] && b[1..][..k - 1] == b[..k][1..];
        assert DiffersAt(a[1..], b[1..], k - 1);
      }
    } else if a == [] && b != [] {
      assert DiffersAt(a, b, 0);
    } else if b != [] {
      HeadsDiffer(a, b);
      assert Less(a, b) ==> DiffersAt(a, b, 0);
    }
  }

  lemma HeadsDiffer(a: Bytes, b: Bytes)
    requires a != [] && b != [] && a[0] != b[0]
    ensures forall k: nat :: DiffersAt(a, b, k) ==> k == 0
  {
    forall k: nat | 0 < k <= |a| && k < |b|
      ensures a[..k] != b[..k]
    {
      assert a[..k][0] == a[0] && b[..k][0] == b[0];
    }
  }

  /** Of two different keys one comes first. */
  lemma {:induction false} LessTotal(a: Bytes, b: Bytes)
    ensures a == b || Less(a, b) || Less(b, a)
  {
    if a != [] && b != [] {
      LessTotal(a[1..], b[1..]);
      assert a == [a[0]] + a[1..] && b == [b[0]] + b[1..];
    }
  }

  lemma {:induction false} LessTransitive(a: Bytes, b: Bytes, c: Bytes)
    requires Less(a, b) && Less(b, c)
    ensures Less(a, c)
  {
    if a != [] && a[0] == b[0] == c[0] {
      LessTransitive(a[1..], b[1..], c[1..]);
    }
  }

  lemma {:induction false} LessIrreflexive(a: Bytes)
    ensures !Less(a, a)
  {
    if a != [] {
      LessIrreflexive(a[1..]);
    }
  }

  /** Pasting `src` over `s` at `off`, as Go's copy(s[off:], src) does when it fits. */
  function Splice(s: Bytes, off: nat, src: Bytes): (r: Bytes)
    requires off + |src| <= |s|
    ensures |r| == |s|
  {
    s[..off] + src + s[off + |src|..]
  }

  /** Writes side by side add up to one write. */
  lemma AdjacentSplices(s: Bytes, off: nat, a: Bytes, b: Bytes)
    requires off + |a| + |b| <= |s|
    ensures Splice(Splice(s, off, a), off + |a|, b) == Splice(s, off, a + b)
  {
  }

  lemma SpliceAtStart(s: Bytes, a: Bytes)
    requires |a| <= |s|
    ensures Splice(s, 0, a) == a + s[|a|..] && Splice(s, 0, a)[..|a|] == a
  {
  }

  lemma SpliceNothing(s: Bytes, off: nat)
    requires off <= |s|
    ensures Splice(s, off, []) == s
  {
  }

  /** A header at the start and a trailer at `n` leave what lies between and after. */
  lemma HeaderAndTrailer(s: Bytes, header: Bytes, n: nat, trailer: Bytes)
    requires |header| <= n && n + |trailer| <= |s|
    ensures Splice(s, 0, header)[..n] == header + s[|header|..n]
    ensures Splice(Splice(s, 0, header), n, trailer) == header + s[|header|..n] + trailer + s[n + |trailer|..]
  {
    var t := Splice(s, 0, header);
    assert t[..n] == header + s[|header|..n];
    assert t[n + |trailer|..] == s[n + |trailer|..];
  }

  method CopyInto(dst: array<byte>, off: nat, src: Bytes)
    requires off + |src| <= dst.Length
    modifies dst
    ensures dst[..] == Splice(old(dst[..]), off, src)
  {
    for i := 0 to |src|
      invariant forall k :: 0 <= k < dst.Length ==>
                  dst[k] == if off <= k < off + i then src[k - off] else old(dst[k])
    {
      dst[off + i] := src[i];
    }
  }
}
