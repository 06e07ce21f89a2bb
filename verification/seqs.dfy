/** Small facts about sequence concatenation used by the codec proofs. */
module Seqs {

  /** Five decoders run one after another consume the concatenation of what
      each consumed. */
  lemma Chain<T>(s0: seq<T>, a: seq<T>, s1: seq<T>, b: seq<T>, s2: seq<T>, c: seq<T>, s3: seq<T>,
                 d: seq<T>, s4: seq<T>, e: seq<T>, s5: seq<T>)
    requires s0 == a + s1 && s1 == b + s2 && s2 == c + s3 && s3 == d + s4 && s4 == e + s5
    ensures s0 == a + b + c + d + e + s5
  {
  }

  lemma SplitAt<T>(s: seq<T>, k: nat)
    requires k <= |s|
    ensures s == s[..k] + s[k..]
  {
  }

  lemma Assoc<T>(a: seq<T>, b: seq<T>, c: seq<T>)
    ensures a + b + c == a + (b + c)
  {
  }
}
