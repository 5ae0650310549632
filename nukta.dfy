/** Nukta folding: the table of precomposed nukta letters and the class of
    combining marks that the search keys (src/utils/tag-search.ts) and the
    backend normaliser (api/src/parsing/normalization.py) both use, with the
    same entries in the same two passes: map each nukta letter to its base
    consonant, then delete every combining mark. */
module Nukta {
  import opened Text

  /** NUKTA_MAP: precomposed nukta letter to its base consonant. */
  const NuktaMap: map<char, char> := map[
    '\U{0958}' := '\U{0915}',  // qa  -> ka
    '\U{0959}' := '\U{0916}',  // khha -> kha
    '\U{095A}' := '\U{0917}',  // ghha -> ga
    '\U{095B}' := '\U{091C}',  // za  -> ja
    '\U{095E}' := '\U{092B}',  // fa  -> pha
    '\U{095C}' := '\U{0921}',  // dddha -> dda
    '\U{095D}' := '\U{0922}',  // rha -> ddha
    '\U{0931}' := '\U{0930}',  // rra -> ra
    '\U{095F}' := '\U{092F}'   // yya -> ya
  ]

  /** COMBINING: nukta sign, virama, zero-width non-joiner and joiner, and
      the variation selectors U+FE00..U+FE0F. */
  predicate IsCombining(c: char)
  {
    c == '\U{093C}' || c == '\U{094D}' || c == '\U{200C}' || c == '\U{200D}'
    || ('\U{FE00}' <= c <= '\U{FE0F}')
  }

  function Base(c: char): char
  {
    if c in NuktaMap then NuktaMap[c] else c
  }

  /** The first pass: every character through the table. */
  function MapBase(s: string): (r: string)
    ensures |r| == |s|
    ensures forall i :: 0 <= i < |r| ==> r[i] !in NuktaMap
  {
    seq(|s|, i requires 0 <= i < |s| => Base(s[i]))
  }

  /** The second pass: delete every combining mark. */
  function RemoveCombining(s: string): (r: string)
    ensures |r| <= |s|
    ensures forall i :: 0 <= i < |r| ==> !IsCombining(r[i])
    ensures (forall i :: 0 <= i < |s| ==> s[i] !in NuktaMap) ==>
      forall i :: 0 <= i < |r| ==> r[i] !in NuktaMap
    decreases |s|
  {
    if s == [] then []
    else if IsCombining(s[0]) then RemoveCombining(s[1..])
    else [s[0]] + RemoveCombining(s[1..])
  }

  /** A string that folding leaves alone: no nukta letter, no combining mark. */
  predicate Folded(s: string)
  {
    forall i :: 0 <= i < |s| ==> s[i] !in NuktaMap && !IsCombining(s[i])
  }

  /** `replaceNukta` (tag-search.ts) and `fold_nukta` (normalization.py). */
  function Fold(s: string): (r: string)
    ensures |r| <= |s|
    ensures Folded(r)
  {
    RemoveCombining(MapBase(s))
  }

  lemma {:induction false} RemoveCombiningOfClean(s: string)
    requires forall i :: 0 <= i < |s| ==> !IsCombining(s[i])
    ensures RemoveCombining(s) == s
    decreases |s|
  {
    if s != [] {
      RemoveCombiningOfClean(s[1..]);
    }
  }

  /** Folding changes nothing in a string that is already folded. */
  lemma FoldOfFolded(s: string)
    requires Folded(s)
    ensures Fold(s) == s
  {
    assert MapBase(s) == s;
    RemoveCombiningOfClean(s);
  }

  /** Folding twice is folding once. */
  lemma FoldIdempotent(s: string)
    ensures Fold(Fold(s)) == Fold(s)
  {
    FoldOfFolded(Fold(s));
  }

  /** Folding commutes with concatenation. */
  lemma {:induction false} RemoveCombiningConcat(a: string, b: string)
    ensures RemoveCombining(a + b) == RemoveCombining(a) + RemoveCombining(b)
    decreases |a|
  {
    if a == [] {
      assert a + b == b;
    } else {
      assert (a + b)[1..] == a[1..] + b;
      RemoveCombiningConcat(a[1..], b);
    }
  }

  lemma FoldConcat(a: string, b: string)
    ensures Fold(a + b) == Fold(a) + Fold(b)
  {
    assert MapBase(a + b) == MapBase(a) + MapBase(b);
    RemoveCombiningConcat(MapBase(a), MapBase(b));
  }

  /** Folding one character: a nukta letter becomes its base, a combining
      mark disappears, any other character stays. */
  lemma FoldChar(c: char)
    ensures Fold([c]) == if IsCombining(c) then [] else [Base(c)]
  {
    assert MapBase([c]) == [Base(c)];
    if !IsCombining(c) {
      assert !IsCombining(Base(c));
    }
  }

  /** fold_nukta('ज़िला') == 'जिला' with the nukta written as a separate
      combining sign U+093C. */
  lemma FoldZila()
    ensures Fold("\U{091C}\U{093C}\U{093F}\U{0932}\U{093E}") == "\U{091C}\U{093F}\U{0932}\U{093E}"
  {
    var s := "\U{091C}\U{093C}\U{093F}\U{0932}\U{093E}";
    var t := "\U{093F}\U{0932}\U{093E}";
    assert MapBase(s) == s;
    assert s[1..][1..] == t;
    RemoveCombiningOfClean(t);
    assert RemoveCombining(s[1..]) == t;
    assert !IsCombining(s[0]);
    assert RemoveCombining(s) == [s[0]] + t;
  }

  /** The same word with the precomposed letter U+095B folds to the same
      text: the two encodings give one key. */
  lemma FoldZilaPrecomposed()
    ensures Fold("\U{095B}\U{093F}\U{0932}\U{093E}") == "\U{091C}\U{093F}\U{0932}\U{093E}"
  {
    var s := "\U{095B}\U{093F}\U{0932}\U{093E}";
    var m := MapBase(s);
    assert m == "\U{091C}\U{093F}\U{0932}\U{093E}";
    RemoveCombiningOfClean(m);
  }
}
