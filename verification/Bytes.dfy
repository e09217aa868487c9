/** Bytes and byte strings, shared by every codec of the model. */
module Bytes {

  /** An `unsigned char`. */
  type byte = x: int | 0 <= x < 256

  type Bytestring = seq<byte>

  /** `b` is what `s` holds from position `p` on. */
  ghost predicate At<T>(s: seq<T>, p: nat, b: seq<T>) {
    p + |b| <= |s| && s[p..p + |b|] == b
  }

  lemma AtConcat<T>(s: seq<T>, p: nat, a: seq<T>, b: seq<T>)
    requires At(s, p, a + b)
    ensures At(s, p, a) && At(s, p + |a|, b)
  {
    assert s[p..p + |a + b|][..|a|] == s[p..p + |a|];
    assert s[p..p + |a + b|][|a|..] == s[p + |a|..p + |a| + |b|];
  }

  lemma AtIndex<T>(s: seq<T>, p: nat, b: seq<T>, i: nat)
    requires At(s, p, b) && i < |b|
    ensures p + i < |s| && s[p + i] == b[i]
  {
    assert s[p..p + |b|][i] == s[p + i];
  }
}
