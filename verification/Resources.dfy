/**
 The `{sha}` template and the resource grammar.
 */
module Resources {
  import opened Octets
  import opened Results
  import opened Hex

  // Template -----------------------------------------------------------------

  const PLACEHOLDER: Bytes := [123, 115, 104, 97, 125]   // "{sha}"

  predicate OccursAt(s: Bytes, i: nat) {
    i + 5 <= |s| && s[i..i + 5] == PLACEHOLDER
  }

  predicate Contains(s: Bytes) {
    exists i: nat :: i <= |s| && OccursAt(s, i)
  }

  /** strings.ReplaceAll(p, "{sha}", sha): leftmost first, never overlapping. */
  function ReplaceAll(p: Bytes, sha: Bytes): Bytes {
    if OccursAt(p, 0) then sha + ReplaceAll(p[5..], sha)
    else if p == [] then []
    else [p[0]] + ReplaceAll(p[1..], sha)
  }

  predicate Space(b: byte) {
    9 <= b <= 13 || b == 32
  }

  /** The UTF-8 encodings of the Unicode white space outside ASCII: U+0085, U+00A0,
      U+1680, U+2000 to U+200A, U+2028, U+2029, U+202F, U+205F and U+3000. */
  predicate WideSpace(s: Bytes) {
    || s == [0xC2, 0x85] || s == [0xC2, 0xA0] || s == [0xE1, 0x9A, 0x80]
    || (|s| == 3 && s[..2] == [0xE2, 0x80] && (0x80 <= s[2] <= 0x8A || s[2] == 0xA8 || s[2] == 0xA9 || s[2] == 0xAF))
    || s == [0xE2, 0x81, 0x9F] || s == [0xE3, 0x80, 0x80]
  }

  function LeadingSpace(s: Bytes): (n: nat)
    ensures n <= |s|
  {
    if s != [] && Space(s[0]) then 1
    else if |s| >= 2 && WideSpace(s[..2]) then 2
    else if |s| >= 3 && WideSpace(s[..3]) then 3
    else 0
  }

  function TrailingSpace(s: Bytes): (n: nat)
    ensures n <= |s|
  {
    if s != [] && Space(s[|s| - 1]) then 1
    else if |s| >= 2 && WideSpace(s[|s| - 2..]) then 2
    else if |s| >= 3 && WideSpace(s[|s| - 3..]) then 3
    else 0
  }

  function TrimLeft(s: Bytes): Bytes {
    if LeadingSpace(s) > 0 then TrimLeft(s[LeadingSpace(s)..]) else s
  }

  function TrimRight(s: Bytes): Bytes {
    if TrailingSpace(s) > 0 then TrimRight(s[..|s| - TrailingSpace(s)]) else s
  }

  /** ASCII only: no other character lowers to a hex digit, so what the hex check below
      refuses is the same. */
  function ToLower(s: Bytes): Bytes {
    seq(|s|, i requires 0 <= i < |s| => if 65 <= s[i] <= 90 then s[i] + 32 else s[i])
  }

  /** A HEAD is accepted when it is 7 to 64 lowercase hex digits once trimmed. */
  predicate CommitSha(sha: Bytes) {
    7 <= |sha| <= 64 && forall i :: 0 <= i < |sha| ==> LowerHex(sha[i])
  }

  /** `head` is what git answered; None when git failed. */
  function Resolve(p: Bytes, head: Option<Bytes>): Option<Bytes> {
    if !Contains(p) then Some(p)
    else if head.None? then None
    else
      var sha := ToLower(TrimRight(TrimLeft(head.value)));
      if !CommitSha(sha) then None else Some(ReplaceAll(p, sha))
  }

  predicate Hash(sha: Bytes) {
    |sha| >= 2 && forall i :: 0 <= i < |sha| ==> LowerHex(sha[i])
  }

  /** Hex digits can supply at most the 'a' of the placeholder, and a hash is longer. */
  lemma NoTailInHash(sha: Bytes, rest: Bytes, k: nat)
    requires Hash(sha) && 1 <= k < 5
    ensures !(PLACEHOLDER[k..] <= sha + rest)
  {
    var r, tail := sha + rest, PLACEHOLDER[k..];
    assert r[0] == sha[0] && r[1] == sha[1];
    assert tail[0] == PLACEHOLDER[k];
    assert k == 3 ==> tail[1] == PLACEHOLDER[4];
  }

  /** If the output starts like a tail of the placeholder, so did the input. */
  lemma {:induction false} TailIsOriginal(q: Bytes, sha: Bytes, k: nat)
    requires Hash(sha) && 1 <= k <= 5
    ensures PLACEHOLDER[k..] <= ReplaceAll(q, sha) ==> PLACEHOLDER[k..] <= q
    decreases 5 - k
  {
    hide Hash;
    if k < 5 {
      if OccursAt(q, 0) {
        NoTailInHash(sha, ReplaceAll(q[5..], sha), k);
      } else if q != [] {
        TailIsOriginal(q[1..], sha, k + 1);
        SplitTail(k, q[0], q[1..]);
        SplitTail(k, q[0], ReplaceAll(q[1..], sha));
        assert q == [q[0]] + q[1..];
      }
    }
  }

  lemma SplitTail(k: nat, b: byte, t: Bytes)
    requires k < 5
    ensures PLACEHOLDER[k..] <= [b] + t <==> b == PLACEHOLDER[k] && PLACEHOLDER[k + 1..] <= t
  {
    var s := [b] + t;
    assert PLACEHOLDER[k..] == [PLACEHOLDER[k]] + PLACEHOLDER[k + 1..];
    assert s[0] == b && s[1..] == t;
  }

  lemma OccursIsPrefix(s: Bytes)
    ensures OccursAt(s, 0) <==> PLACEHOLDER[0..] <= s
  {
  }

  lemma OccursShifted(a: Bytes, b: Bytes, i: nat)
    requires i >= |a|
    ensures OccursAt(a + b, i) == OccursAt(b, i - |a|)
  {
    var j := i - |a|;
    if i + 5 <= |a + b| {
      assert (a + b)[i..i + 5] == b[j..j + 5];
    }
  }

  /** No placeholder survives replacement, nor forms across a seam. */
  lemma {:induction false} ReplacedClean(p: Bytes, sha: Bytes, i: nat)
    requires Hash(sha)
    ensures !OccursAt(ReplaceAll(p, sha), i)
    decreases |p|, i
  {
    if OccursAt(p, 0) {
      var rest := ReplaceAll(p[5..], sha);
      if i < |sha| {
        HashHasNoBrace(sha, rest, i);
      } else {
        OccursShifted(sha, rest, i);
        ReplacedClean(p[5..], sha, i - |sha|);
      }
    } else if p != [] {
      var rest := ReplaceAll(p[1..], sha);
      if i > 0 {
        OccursShifted([p[0]], rest, i);
        ReplacedClean(p[1..], sha, i - 1);
      } else {
        TailIsOriginal(p[1..], sha, 1);
        SplitTail(0, p[0], p[1..]);
        SplitTail(0, p[0], rest);
        assert p == [p[0]] + p[1..];
        OccursIsPrefix(p);
        OccursIsPrefix([p[0]] + rest);
      }
    }
  }

  lemma HashHasNoBrace(sha: Bytes, rest: Bytes, i: nat)
    requires Hash(sha) && i < |sha|
    ensures !OccursAt(sha + rest, i)
  {
    var r := sha + rest;
    assert r[i] == sha[i];
    if i + 5 <= |r| {
      assert r[i..i + 5][0] == r[i];
      assert PLACEHOLDER[0] == 123;
    }
  }

  /** Whatever the path and HEAD, a resolved path has no placeholder left. */
  lemma ResolvedComplete(p: Bytes, head: Option<Bytes>)
    requires Resolve(p, head).Some?
    ensures !Contains(Resolve(p, head).value)
  {
    hide ReplaceAll, OccursAt, LowerHex;
    if Contains(p) {
      var sha := ToLower(TrimRight(TrimLeft(head.value)));
      assert Hash(sha);
      forall i: nat
        ensures !OccursAt(ReplaceAll(p, sha), i)
      {
        ReplacedClean(p, sha, i);
      }
    }
  }

  // What resolving gives --------------------------------------------------------

  /** `parts` with `sep` between each two. */
  function Join(parts: seq<Bytes>, sep: Bytes): Bytes {
    if parts == [] then [] else if |parts| == 1 then parts[0] else parts[0] + (sep + Join(parts[1..], sep))
  }

  /** A part without placeholder is copied, up to the placeholder or end behind it. */
  lemma {:induction false} ReplacePast(part: Bytes, rest: Bytes, sha: Bytes)
    requires !Contains(part) && (rest == [] || OccursAt(rest, 0))
    ensures ReplaceAll(part + rest, sha) == part + ReplaceAll(rest, sha)
  {
    hide Contains, OccursAt, ReplaceAll;
    var p, after := part + rest, ReplaceAll(rest, sha);
    if part == [] {
      assert p == rest && [] + after == after;
    } else {
      NotHere(part, rest);
      CopiesOne(p, sha);
      assert p[0] == part[0] && p[1..] == part[1..] + rest;
      TailClean(part);
      ReplacePast(part[1..], rest, sha);
      assert [part[0]] + (part[1..] + after) == part + after;
    }
  }

  lemma CopiesOne(p: Bytes, sha: Bytes)
    requires p != [] && !OccursAt(p, 0)
    ensures ReplaceAll(p, sha) == [p[0]] + ReplaceAll(p[1..], sha)
  {
  }

  lemma NotHere(part: Bytes, rest: Bytes)
    requires part != [] && !Contains(part) && (rest == [] || OccursAt(rest, 0))
    ensures !OccursAt(part + rest, 0)
  {
    var p, n := part + rest, |part|;
    if n >= 5 {
      assert p[0..5] == part[0..5];
      assert !OccursAt(part, 0);
    } else if rest != [] {
      assert p[n] == rest[0] == rest[0..5][0] == PLACEHOLDER[0];
      assert p[0..5][n] == p[n] && PLACEHOLDER[n] != PLACEHOLDER[0];
    }
  }

  lemma TailClean(part: Bytes)
    requires part != [] && !Contains(part)
    ensures !Contains(part[1..])
  {
    hide OccursAt;
    forall i: nat | i <= |part[1..]|
      ensures !OccursAt(part[1..], i)
    {
      OccursShifted([part[0]], part[1..], i + 1);
      assert [part[0]] + part[1..] == part;
      assert !OccursAt(part, i + 1);
    }
  }

  /** Exactly the placeholders are replaced, each by the whole hash. */
  lemma {:induction false} ReplacesEach(parts: seq<Bytes>, sha: Bytes)
    requires forall i :: 0 <= i < |parts| ==> !Contains(parts[i])
    ensures ReplaceAll(Join(parts, PLACEHOLDER), sha) == Join(parts, sha)
  {
    hide Contains, OccursAt;
    if |parts| == 1 {
      ReplacePast(parts[0], [], sha);
      NothingOccurs();
      assert parts[0] + [] == parts[0];
    } else if |parts| > 1 {
      var rest := PLACEHOLDER + Join(parts[1..], PLACEHOLDER);
      ReplacesEach(parts[1..], sha);
      OccursInFront(Join(parts[1..], PLACEHOLDER));
      ReplacePast(parts[0], rest, sha);
    } else {
      NothingOccurs();
    }
  }

  lemma OccursInFront(t: Bytes)
    ensures OccursAt(PLACEHOLDER + t, 0) && (PLACEHOLDER + t)[5..] == t
  {
    assert (PLACEHOLDER + t)[0..5] == PLACEHOLDER;
  }

  lemma NothingOccurs()
    ensures !OccursAt([], 0)
  {
  }

  /** `h` is the hash in either case. */
  predicate Spells(h: Bytes, sha: Bytes) {
    |h| == |sha| && forall i :: 0 <= i < |h| ==> h[i] == sha[i] || (97 <= sha[i] <= 102 && h[i] == sha[i] - 32)
  }

  predicate Blank(s: Bytes) {
    forall i :: 0 <= i < |s| ==> Space(s[i])
  }

  /** With git's answer, a commit hash in either case with white space around it, a path
      joined by placeholders from parts that have none resolves to the parts joined by the
      lower-case hash. */
  lemma ResolvesToHash(parts: seq<Bytes>, sha: Bytes, before: Bytes, h: Bytes, after: Bytes)
    requires |parts| > 1 && CommitSha(sha) && forall i :: 0 <= i < |parts| ==> !Contains(parts[i])
    requires Spells(h, sha) && Blank(before) && Blank(after)
    ensures Resolve(Join(parts, PLACEHOLDER), Some(before + (h + after))) == Some(Join(parts, sha))
  {
    hide OccursAt, ReplaceAll, TrimLeft, TrimRight, ToLower, Blank, Spells;
    var p, rest := Join(parts, PLACEHOLDER), Join(parts[1..], PLACEHOLDER);
    OccursInFront(rest);
    OccursShifted(parts[0], PLACEHOLDER + rest, |parts[0]|);
    assert OccursAt(p, |parts[0]|);
    NoSpaceInHash(h, sha, after);
    TrimsBefore(before, h + after);
    TrimsAfter(h, after);
    ReplacesEach(parts, sha);
  }

  /** A path without placeholder is left alone; one with it needs a HEAD, of 7 bytes or more. */
  lemma ResolveRefuses(p: Bytes, head: Option<Bytes>)
    ensures !Contains(p) ==> Resolve(p, head) == Some(p)
    ensures Contains(p) && (head == None || |head.value| < 7) ==> Resolve(p, head) == None
  {
    hide OccursAt;
    if head.Some? {
      TrimShortens(head.value);
    }
  }

  lemma TrimShortens(s: Bytes)
    ensures |ToLower(TrimRight(TrimLeft(s)))| <= |s|
  {
    TrimLeftShortens(s);
    TrimRightShortens(TrimLeft(s));
  }

  lemma {:induction false} TrimLeftShortens(s: Bytes)
    ensures |TrimLeft(s)| <= |s|
  {
    hide LeadingSpace;
    if LeadingSpace(s) > 0 {
      TrimLeftShortens(s[LeadingSpace(s)..]);
    }
  }

  lemma {:induction false} TrimRightShortens(s: Bytes)
    ensures |TrimRight(s)| <= |s|
  {
    hide TrailingSpace;
    if TrailingSpace(s) > 0 {
      TrimRightShortens(s[..|s| - TrailingSpace(s)]);
    }
  }

  lemma NoSpaceInHash(h: Bytes, sha: Bytes, after: Bytes)
    requires CommitSha(sha) && Spells(h, sha)
    ensures LeadingSpace(h + after) == 0 && TrailingSpace(h) == 0 && ToLower(h) == sha
  {
    hide LeadingSpace, TrailingSpace;
    var n := |h|;
    NothingLeading(h + after);
    assert (h + after)[0] == h[0];
    NothingTrailing(h);
    assert ToLower(h) == sha;
  }

  // A character a hash can have in front or behind.
  predicate Alnum(b: byte) {
    48 <= b <= 57 || 65 <= b <= 70 || 97 <= b <= 102
  }

  lemma NothingLeading(s: Bytes)
    requires s != [] && Alnum(s[0])
    ensures LeadingSpace(s) == 0
  {
    assert |s| >= 2 ==> s[..2][0] == s[0];
    assert |s| >= 3 ==> s[..3][0] == s[0];
  }

  lemma NothingTrailing(h: Bytes)
    requires |h| >= 3 && Alnum(h[|h| - 1]) && Alnum(h[|h| - 2]) && Alnum(h[|h| - 3])
    ensures TrailingSpace(h) == 0
  {
    var n := |h|;
    assert h[n - 2..][0] == h[n - 2] && h[n - 3..][0] == h[n - 3];
  }

  lemma OneSpace(s: Bytes)
    requires s != []
    ensures Space(s[0]) ==> LeadingSpace(s) == 1
    ensures Space(s[|s| - 1]) ==> TrailingSpace(s) == 1
  {
    hide WideSpace;
  }

  lemma {:induction false} TrimsBefore(before: Bytes, rest: Bytes)
    requires Blank(before) && LeadingSpace(rest) == 0
    ensures TrimLeft(before + rest) == rest
  {
    hide LeadingSpace, Space;
    var s := before + rest;
    if before == [] {
      assert s == rest;
    } else {
      OneSpace(s);
      assert s[0] == before[0] && s[1..] == before[1..] + rest;
      TrimsBefore(before[1..], rest);
    }
  }

  lemma {:induction false} TrimsAfter(h: Bytes, after: Bytes)
    requires Blank(after) && TrailingSpace(h) == 0
    ensures TrimRight(h + after) == h
  {
    hide TrailingSpace, Space, Blank, TrimRight;
    if after == [] {
      assert h + after == h;
      TrimsNothing(h);
    } else {
      var n := |after| - 1;
      BlankParts(after);
      LastOf(h, after);
      TrimsOne(h + after);
      TrimsAfter(h, after[..n]);
    }
  }

  lemma TrimsNothing(h: Bytes)
    requires TrailingSpace(h) == 0
    ensures TrimRight(h) == h
  {
  }

  lemma TrimsOne(s: Bytes)
    requires s != [] && Space(s[|s| - 1])
    ensures TrimRight(s) == TrimRight(s[..|s| - 1])
  {
    OneSpace(s);
  }

  lemma BlankParts(s: Bytes)
    requires s != [] && Blank(s)
    ensures Space(s[|s| - 1]) && Blank(s[..|s| - 1])
  {
  }

  lemma LastOf(a: Bytes, b: Bytes)
    requires b != []
    ensures (a + b)[..|a + b| - 1] == a + b[..|b| - 1] && (a + b)[|a + b| - 1] == b[|b| - 1]
  {
  }

  /** The minimum length matters: a one-digit hash can complete a placeholder. */
  lemma SeamCounterexample()
    ensures var p := [123, 115, 104] + PLACEHOLDER + [125];   // "{sh{sha}}"
            ReplaceAll(p, [97]) == PLACEHOLDER && Contains(ReplaceAll(p, [97]))
  {
    var p := [123, 115, 104] + PLACEHOLDER + [125];
    assert p[1..] == [115, 104] + PLACEHOLDER + [125];
    assert p[2..] == [104] + PLACEHOLDER + [125];
    assert p[3..] == PLACEHOLDER + [125];
    assert p[3..][..5] == PLACEHOLDER && p[3..][5..] == [125];
    assert ReplaceAll([125], [97]) == [125];
    assert ReplaceAll(p[3..], [97]) == [97, 125];
    assert ReplaceAll(p[2..], [97]) == [104, 97, 125];
    assert ReplaceAll(p[1..], [97]) == [115, 104, 97, 125];
    assert ReplaceAll(p, [97]) == PLACEHOLDER;
    assert OccursAt(PLACEHOLDER, 0);
  }

  method ResolveShaTemplate(p: Bytes, head: Option<Bytes>) returns (r: Option<Bytes>)
    ensures r == Resolve(p, head)
  {
    hide ReplaceAll, OccursAt, LowerHex, TrimLeft, TrimRight, ToLower;
    if !Contains(p) {
      return Some(p);
    }
    if head.None? {
      return None;
    }
    var sha := ToLower(TrimRight(TrimLeft(head.value)));
    if |sha| < 7 || |sha| > 64 {
      return None;
    }
    for i := 0 to |sha|
      invariant forall j :: 0 <= j < i ==> LowerHex(sha[j])
    {
      if !LowerHex(sha[i]) {
        return None;
      }
    }
    return Some(ReplaceAll(p, sha));
  }

  // Resource grammar ---------------------------------------------------------

  const DOT: byte := 46

  predicate NamespaceChar(b: byte) {
    97 <= b <= 122 || 48 <= b <= 57 || b == 45
  }

  predicate PathChar(b: byte) {
    NamespaceChar(b) || b == DOT || b == 95 || b == SLASH
  }

  predicate BadSegment(seg: Bytes) {
    seg == [] || seg == [DOT] || seg == [DOT, DOT]
  }

  /** p[i..j] is one whole segment of the path. */
  predicate Segment(p: Bytes, i: nat, j: nat) {
    && i <= j <= |p|
    && (i == 0 || p[i - 1] == SLASH) && (j == |p| || p[j] == SLASH)
    && forall k :: i <= k < j ==> p[k] != SLASH
  }

  /** The grammar: 1 to 32 namespace characters; 1 to 180 path characters, no segment
      of the path empty, "." or "..". */
  ghost predicate ValidResource(ns: Bytes, p: Bytes) {
    && 1 <= |ns| <= 32 && (forall i :: 0 <= i < |ns| ==> NamespaceChar(ns[i]))
    && 1 <= |p| <= 180 && (forall i :: 0 <= i < |p| ==> PathChar(p[i]))
    && forall i: nat, j: nat :: Segment(p, i, j) ==> !BadSegment(p[i..j])
  }

  function SegmentEnd(p: Bytes, i: nat): (e: nat)
    requires i <= |p|
    ensures i <= e <= |p| && (e == |p| || p[e] == SLASH) && forall k :: i <= k < e ==> p[k] != SLASH
    decreases |p| - i
  {
    if i == |p| || p[i] == SLASH then i else SegmentEnd(p, i + 1)
  }

  /** strings.Split(p[i..], "/"). */
  function SplitFrom(p: Bytes, i: nat): (segs: seq<Bytes>)
    requires i <= |p|
    decreases |p| - i
  {
    var e := SegmentEnd(p, i);
    [p[i..e]] + if e == |p| then [] else SplitFrom(p, e + 1)
  }

  ghost predicate ListsBad(segs: seq<Bytes>) {
    exists i :: 0 <= i < |segs| && BadSegment(segs[i])
  }

  /** Some whole segment from `i` on is bad. */
  ghost predicate BadFrom(p: Bytes, i: nat) {
    exists a: nat, b: nat :: i <= a && Segment(p, a, b) && BadSegment(p[a..b])
  }

  /** Splitting at slashes meets a bad segment exactly when there is one. */
  lemma {:induction false} SplitIsSegments(p: Bytes, i: nat)
    requires i <= |p| && (i == 0 || p[i - 1] == SLASH)
    ensures ListsBad(SplitFrom(p, i)) <==> BadFrom(p, i)
    decreases |p| - i
  {
    hide ListsBad, BadFrom, BadSegment, SplitFrom, Segment;
    var e := SegmentEnd(p, i);
    FirstIsSegment(p, i);
    FirstSegment(p, i, e);
    SplitStep(p, i);
    if e < |p| {
      SplitIsSegments(p, e + 1);
      ListedFirst(p[i..e], SplitFrom(p, e + 1));
    } else {
      ListedFirst(p[i..e], []);
      NothingBad();
    }
  }

  lemma FirstIsSegment(p: Bytes, i: nat)
    requires i <= |p| && (i == 0 || p[i - 1] == SLASH)
    ensures Segment(p, i, SegmentEnd(p, i))
  {
  }

  lemma SplitStep(p: Bytes, i: nat)
    requires i <= |p|
    ensures var e := SegmentEnd(p, i); SplitFrom(p, i) == [p[i..e]] + if e == |p| then [] else SplitFrom(p, e + 1)
  {
  }

  lemma NothingBad()
    ensures !ListsBad([])
  {
  }

  lemma ListedFirst(here: Bytes, rest: seq<Bytes>)
    ensures ListsBad([here] + rest) <==> BadSegment(here) || ListsBad(rest)
  {
    hide BadSegment;
    var segs := [here] + rest;
    assert segs[0] == here;
    assert forall i :: 0 <= i < |rest| ==> segs[i + 1] == rest[i];
  }

  lemma FirstSegment(p: Bytes, i: nat, e: nat)
    requires Segment(p, i, e)
    ensures BadFrom(p, i) <==> BadSegment(p[i..e]) || (e < |p| && BadFrom(p, e + 1))
  {
    hide BadSegment;
    forall a: nat, b: nat | i <= a && Segment(p, a, b)
      ensures (a == i && b == e) || (e < |p| && e + 1 <= a)
    {
      OneSegmentHere(p, i, e, a, b);
    }
  }

  lemma OneSegmentHere(p: Bytes, i: nat, e: nat, a: nat, b: nat)
    requires Segment(p, i, e) && Segment(p, a, b) && i <= a
    ensures (a == i && b == e) || (e < |p| && e + 1 <= a)
  {
  }

  method ValidateResource(ns: Bytes, p: Bytes) returns (ok: bool)
    ensures ok <==> ValidResource(ns, p)
  {
    hide NamespaceChar, PathChar, Segment, BadSegment, SplitFrom;
    if |ns| == 0 || |ns| > 32 {
      return false;
    }
    for i := 0 to |ns|
      invariant forall j :: 0 <= j < i ==> NamespaceChar(ns[j])
    {
      if !NamespaceChar(ns[i]) {
        return false;
      }
    }
    if |p| == 0 || |p| > 180 {
      return false;
    }
    for i := 0 to |p|
      invariant forall j :: 0 <= j < i ==> PathChar(p[j])
    {
      if !PathChar(p[i]) {
        return false;
      }
    }
    var segs := SplitFrom(p, 0);
    SplitIsSegments(p, 0);
    for i := 0 to |segs|
      invariant forall j :: 0 <= j < i ==> !BadSegment(segs[j])
    {
      if BadSegment(segs[i]) {
        return false;
      }
    }
    return true;
  }
}
