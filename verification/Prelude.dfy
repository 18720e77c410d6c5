/** Shared vocabulary: optional values, and the regroupings of concatenated sequences that
    proofs ask for by name. */
module Prelude {

  datatype Option<+T> = None | Some(value: T)

  /** Conversion to a signed 32-bit integer. */
  function Narrow32(x: int): int {
    (x + 0x8000_0000) % 0x1_0000_0000 - 0x8000_0000
  }

  predicate Fits32(x: int) {
    -0x8000_0000 <= x < 0x8000_0000
  }

  lemma NarrowFits(x: int)
    ensures Fits32(Narrow32(x)) && (Narrow32(x) == x <==> Fits32(x))
  {
  }

  lemma NarrowIsModular(x: int)
    ensures -0x8000_0000 <= Narrow32(x) < 0x8000_0000 && (Narrow32(x) - x) % 0x1_0000_0000 == 0
  {
  }

  lemma Assoc<T>(a: seq<T>, b: seq<T>, c: seq<T>)
    ensures a + b + c == a + (b + c)
  {
  }

  lemma Regroup<T>(a: seq<T>, b: seq<T>, c: seq<T>, d: seq<T>)
    ensures a + (b + c) + d == a + b + (c + d)
    ensures a + (b + c) + d == (a + b) + c + d
  {
  }

  lemma NothingAround<T>(a: seq<T>)
    ensures [] + a == a && a + [] == a
  {
  }

  lemma HeadOfAppend<T>(a: seq<T>, b: seq<T>)
    requires a != []
    ensures (a + b)[0] == a[0] && (a + b)[1..] == a[1..] + b
  {
  }

  lemma SuffixStep<T>(s: seq<T>, i: nat)
    requires i < |s|
    ensures s[i..] != [] && s[i..][0] == s[i] && s[i..][1..] == s[i + 1..]
  {
  }

  lemma PrefixStep<T>(s: seq<T>, i: nat)
    requires i < |s|
    ensures s[..i + 1] == s[..i] + [s[i]] && s[..i + 1][..i] == s[..i]
  {
  }
}
