/** The consonant-cluster rewrites that the backend normaliser, the
    alias-mining script and the search keys all apply to Hinglish
    spellings. */
module Hinglish {
  import opened Text

  /** `loosen_hinglish` (normalization.py) and the `loosen` helper of
      scripts/mine-aliases.js: each of the five rewrites once, in this order.
      Every replacement is shorter than its pattern. */
  function Loosen(s: string): (r: string)
    ensures |r| <= |s|
    ensures !Contains(r, "ph")
  {
    var s1 := ReplaceAll(s, "chh", "ch");
    var s2 := ReplaceAll(s1, "sh", "s");
    var s3 := ReplaceAll(s2, "th", "t");
    var s4 := ReplaceAll(s3, "dh", "d");
    ReplacePairRemoves(s4, 'p', 'h', 'f');
    ReplaceAll(s4, "ph", "f")
  }

  /** Every pattern holds an `h`, so text without one is left alone. */
  lemma LoosenWithoutH(s: string)
    requires 'h' !in s
    ensures Loosen(s) == s
  {
    forall p | p in ["chh", "sh", "th", "dh", "ph"]
      ensures !Contains(s, p)
    {
      if Contains(s, p) {
        ContainsChar(s, p, |p| - 1);
      }
    }
    ReplaceAbsent(s, "chh", "ch");
    ReplaceAbsent(s, "sh", "s");
    ReplaceAbsent(s, "th", "t");
    ReplaceAbsent(s, "dh", "d");
    ReplaceAbsent(s, "ph", "f");
  }
}
