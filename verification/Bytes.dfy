/** Bytes, byte classes and the position predicate used by every module that
    reads a text. Sizes are mathematical integers; the width of the platform's
    size type appears as SIZE_MAX wherever the program depends on it. */
module Bytes {
  type byte = b: int | 0 <= b < 256
  type bytes = seq<byte>

  /** What an operation answers. */
  datatype Status =
    | Ok | InvalidJson | Overflow | Truncated | InternalError | AllocationFailed | IoError | InvalidArgument

  const SIZE_MAX: int := 0xFFFF_FFFF_FFFF_FFFF

  const QUOTE: byte := 34
  const BACKSLASH: byte := 92
  const COMMA: byte := 44
  const COLON: byte := 58
  const ZERO: byte := 48
  const MINUS: byte := 45
  const PLUS: byte := 43
  const POINT: byte := 46

  function Min(a: nat, b: nat): nat {
    if a < b then a else b
  }

  predicate IsSpace(b: int) {
    b == 32 || b == 9 || b == 10 || b == 13
  }

  predicate IsDigit(b: int) {
    48 <= b <= 57
  }

  ghost predicate AllSpace(w: bytes) {
    forall i :: 0 <= i < |w| ==> IsSpace(w[i])
  }

  ghost predicate AllDigits(w: bytes) {
    forall i :: 0 <= i < |w| ==> IsDigit(w[i])
  }

  /** `x` stands at position `p` of `s`. */
  ghost predicate At(s: bytes, p: nat, x: bytes) {
    p + |x| <= |s| && s[p..p + |x|] == x
  }

  lemma AtConcat(s: bytes, p: nat, a: bytes, b: bytes)
    ensures At(s, p, a + b) <==> At(s, p, a) && At(s, p + |a|, b)
  {
    if p + |a| + |b| <= |s| {
      assert s[p..p + |a| + |b|] == s[p..p + |a|] + s[p + |a|..p + |a| + |b|];
      if At(s, p, a + b) {
        assert a == (a + b)[..|a|] == s[p..p + |a|];
        assert b == (a + b)[|a|..] == s[p + |a|..p + |a| + |b|];
      }
    }
  }

  lemma AtIndex(s: bytes, p: nat, x: bytes, i: nat)
    requires At(s, p, x) && i < |x|
    ensures s[p + i] == x[i]
  {
    assert s[p..p + |x|][i] == s[p + i];
  }

  /** Chunks joined. */
  ghost function Concat(chunks: seq<bytes>): bytes {
    if chunks == [] then [] else chunks[0] + Concat(chunks[1..])
  }

  lemma {:induction false} ConcatTake(chunks: seq<bytes>, i: nat)
    requires i < |chunks|
    ensures Concat(chunks[..i + 1]) == Concat(chunks[..i]) + chunks[i]
  {
    if i == 0 {
      assert chunks[..1][1..] == [] && chunks[..0] == [];
      assert Concat(chunks[..1]) == chunks[0] + Concat(chunks[..1][1..]);
    } else {
      ConcatTake(chunks[1..], i - 1);
      assert chunks[..i + 1][1..] == chunks[1..][..i] && chunks[..i][1..] == chunks[1..][..i - 1];
      assert chunks[0] + (Concat(chunks[1..][..i - 1]) + chunks[i]) == chunks[0] + Concat(chunks[1..][..i - 1]) + chunks[i];
    }
  }
}
