/** Search keys for Hindi / Hinglish / English hashtags and place names
    (src/utils/tag-search.ts): a raw tag becomes a set of keys (lower case,
    nukta-free, Latin transliterations and their Hinglish loosenings, fixed
    place synonyms), and two strings match when some key of one contains
    some key of the other. */
module TagSearch {
  import opened Text
  import Nukta
  import Hinglish

  /* ------------------------------------------------------------ tables */

  /** DEVANAGARI_TO_LATIN, looked up one character at a time. The source
      also lists DDDHA and RHA, but writes their keys as a base letter
      followed by the nukta sign: two characters, which a one-character
      lookup never finds, so they have no entry here. */
  const LetterLatin: map<char, string> := map[
    'अ' := "a", 'आ' := "aa", 'इ' := "i", 'ई' := "ii", 'उ' := "u",
    'ऊ' := "uu", 'ए' := "e", 'ऐ' := "ai", 'ओ' := "o", 'औ' := "au", 'ऋ' := "ri",
    'क' := "k", 'ख' := "kh", 'ग' := "g", 'घ' := "gh", 'ङ' := "n",
    'च' := "ch", 'छ' := "chh", 'ज' := "j", 'झ' := "jh", 'ञ' := "ny",
    'ट' := "t", 'ठ' := "th", 'ड' := "d", 'ढ' := "dh", 'ण' := "n",
    'त' := "t", 'थ' := "th", 'द' := "d", 'ध' := "dh", 'न' := "n",
    'प' := "p", 'फ' := "ph", 'ब' := "b", 'भ' := "bh", 'म' := "m",
    'य' := "y", 'र' := "r", 'ल' := "l", 'व' := "v",
    'श' := "sh", 'ष' := "sh", 'स' := "s", 'ह' := "h",
    '\U{0958}' := "q", '\U{0959}' := "kh", '\U{095A}' := "gh", '\U{095B}' := "z",
    '\U{095E}' := "f", '\U{0931}' := "r", '\U{095F}' := "y"
  ]

  /** MATRA_TO_LATIN: the dependent vowel signs. */
  const MatraLatin: map<char, string> := map[
    '\U{093E}' := "aa", '\U{093F}' := "i", '\U{0940}' := "ii", '\U{0941}' := "u",
    '\U{0942}' := "uu", '\U{0947}' := "e", '\U{0948}' := "ai", '\U{094B}' := "o",
    '\U{094C}' := "au", '\U{0943}' := "ri", '\U{0949}' := "o", '\U{0945}' := "ae"
  ]

  /** The text of the regular expression in the "unmapped Devanagari" branch:
      written without brackets, it is the three characters U+0900, '-',
      U+097F rather than a range. */
  const UnmappedPattern: string := "\U{0900}-\U{097F}"

  /* -------------------------------------------------- small operations */

  /** `stripHashAt`: drops one leading `#` or `@`. */
  function StripHashAt(s: string): (r: string)
    ensures |s| - 1 <= |r| <= |s| && r == s[|s| - |r|..]
    ensures |r| < |s| <==> |s| > 0 && (s[0] == '#' || s[0] == '@')
  {
    if |s| > 0 && (s[0] == '#' || s[0] == '@') then s[1..] else s
  }

  /** `isDevanagari`: some character lies in U+0900..U+097F. */
  predicate IsDevanagari(s: string)
  {
    exists i :: 0 <= i < |s| && '\U{0900}' <= s[i] <= '\U{097F}'
  }

  /** What one character of the nukta-folded input contributes, given the
      matra and letter tables. */
  function Piece(ch: char, matra: map<char, string>, letter: map<char, string>): string
  {
    if ch in matra then matra[ch]
    else if ch in letter then letter[ch]
    else if Contains([ch], UnmappedPattern) then ""
    else [ch]
  }

  /** The text accumulated in `out` over a prefix of the folded input. */
  function Pieces(s: string, matra: map<char, string>, letter: map<char, string>): string
    decreases |s|
  {
    if s == [] then [] else Pieces(s[..|s| - 1], matra, letter) + Piece(s[|s| - 1], matra, letter)
  }

  /** What `transliterateDevanagariToLatin` returns. */
  function Transliterated(input: string): string
  {
    Lower(Pieces(Nukta.Fold(input), MatraLatin, LetterLatin))
  }

  /** The bracket-less regular expression never matches one character, so
      the branch that was meant to drop unmapped Devanagari is dead. */
  lemma UnmappedBranchDead(ch: char)
    ensures !Contains([ch], UnmappedPattern)
  {
    assert !StartsWith([ch], UnmappedPattern);
    assert !StartsWith([ch][1..], UnmappedPattern);
  }

  /** A character that is in neither table is copied unchanged. */
  lemma PieceCopies(ch: char, matra: map<char, string>, letter: map<char, string>)
    requires ch !in matra && ch !in letter
    ensures Piece(ch, matra, letter) == [ch]
  {
    UnmappedBranchDead(ch);
  }

  lemma PiecesSnoc(s: string, x: char, matra: map<char, string>, letter: map<char, string>)
    ensures Pieces(s + [x], matra, letter) == Pieces(s, matra, letter) + Piece(x, matra, letter)
  {
    assert (s + [x])[..|s|] == s;
  }

  /** Text with no tabled letter or matra comes out of the transliteration
      unchanged. */
  lemma {:induction false} PiecesOfUntabled(s: string, matra: map<char, string>, letter: map<char, string>)
    requires forall i :: 0 <= i < |s| ==> s[i] !in matra && s[i] !in letter
    ensures Pieces(s, matra, letter) == s
    decreases |s|
  {
    if s != [] {
      var c, x := s[..|s| - 1], s[|s| - 1];
      PiecesOfUntabled(c, matra, letter);
      PieceCopies(x, matra, letter);
      assert c + [x] == s;
      PiecesSnoc(c, x, matra, letter);
    }
  }

  /** Nukta-free text with no tabled letter or matra is only lower-cased. */
  lemma TransliteratedOfUntabled(s: string)
    requires Nukta.Folded(s)
    requires forall i :: 0 <= i < |s| ==> s[i] !in MatraLatin && s[i] !in LetterLatin
    ensures Transliterated(s) == Lower(s)
  {
    Nukta.FoldOfFolded(s);
    PiecesOfUntabled(s, MatraLatin, LetterLatin);
  }

  /** `transliterateDevanagariToLatin`: fold the nukta, transliterate, and
      lower-case. */
  method TransliterateDevanagariToLatin(input: string) returns (r: string)
    ensures r == Transliterated(input)
    ensures forall i :: 0 <= i < |r| ==> !IsUpper(r[i])
  {
    var s := Nukta.Fold(input);
    var out := AppendPieces(s, MatraLatin, LetterLatin);
    r := Lower(out);
  }

  /** The `for (const ch of s)` loop that builds `out`, over the two tables. */
  method AppendPieces(s: string, matra: map<char, string>, letter: map<char, string>) returns (out: string)
    ensures out == Pieces(s, matra, letter)
  {
    out := "";
    for i := 0 to |s|
      invariant out == Pieces(s[..i], matra, letter)
    {
      var ch := s[i];
      assert s[..i + 1][..i] == s[..i];
      if ch in matra {
        out := out + matra[ch];
      } else if ch in letter {
        out := out + letter[ch];
      } else if Contains([ch], UnmappedPattern) {
        // unmapped Devanagari: nothing is appended
      } else {
        out := out + [ch];
      }
    }
    assert s[..|s|] == s;
  }

  /* ------------------------------------------------- Hinglish variants */

  /** The `loosen` helper of `collapseVariants`: the five consonant
      rewrites, then four vowel rewrites, each once and in this order. */
  function Loosen(s: string): (r: string)
    ensures |r| <= |s|
  {
    var s5 := Hinglish.Loosen(s);
    var s6 := ReplaceAll(s5, "ee", "i");
    var s7 := ReplaceAll(s6, "ii", "i");
    var s8 := ReplaceAll(s7, "oo", "u");
    ReplaceAll(s8, "uu", "u")
  }

  /** The six base spellings: as given, `aa` collapsed, z/j swapped both
      ways, and the swaps with `aa` collapsed. */
  function Bases(lat: string): (r: seq<string>)
    ensures |r| == 6
  {
    var collapsed := ReplaceAll(lat, "aa", "a");
    var zToJ := ReplaceAll(lat, "z", "j");
    var jToZ := ReplaceAll(lat, "j", "z");
    [lat, collapsed, zToJ, jToZ, ReplaceAll(zToJ, "aa", "a"), ReplaceAll(jToZ, "aa", "a")]
  }

  /** The six forms added for one base spelling. */
  function Forms(b: string): (r: seq<string>)
    ensures |r| == 6
  {
    [b, Loosen(b), ReplaceAll(b, "v", "w"), ReplaceAll(b, "w", "v"),
     CollapseRuns(b), CollapseRuns(Loosen(b))]
  }

  /** The forms of every base, in the order they are added. */
  function FormsOf(bases: seq<string>): (r: seq<string>)
    ensures |r| == 6 * |bases|
    decreases |bases|
  {
    if bases == [] then [] else Forms(bases[0]) + FormsOf(bases[1..])
  }

  lemma {:induction false} FormsOfSnoc(bases: seq<string>, b: string)
    ensures FormsOf(bases + [b]) == FormsOf(bases) + Forms(b)
    decreases |bases|
  {
    if bases == [] {
      assert FormsOf([b]) == Forms(b) + FormsOf([]);
    } else {
      assert (bases + [b])[1..] == bases[1..] + [b];
      FormsOfSnoc(bases[1..], b);
    }
  }

  /** The set that `collapseVariants` returns, in insertion order. */
  function Variants(lat: string): seq<string>
  {
    Distinct(FormsOf(Bases(lat)))
  }

  /** The spelling given and its `aa`-collapsed form are always variants. */
  lemma VariantsContainBase(lat: string)
    ensures lat in Variants(lat) && ReplaceAll(lat, "aa", "a") in Variants(lat)
  {
    var base := Bases(lat);
    assert FormsOf(base)[0] == lat;
    assert FormsOf(base)[6] == Forms(base[1])[0];
  }

  /** The outer loop of `collapseVariants`: every form of every base,
      added in order. */
  method AddForms(base: seq<string>) returns (out: seq<string>)
    ensures out == Distinct(FormsOf(base))
  {
    out := [];
    for i := 0 to |base|
      invariant out == AddAll([], FormsOf(base[..i]))
    {
      var lst := Forms(base[i]);
      AddFormsNext(base, i);
      out := AddEach(out, lst);
    }
    assert base[..|base|] == base;
  }

  lemma AddFormsNext(base: seq<string>, i: nat)
    requires i < |base|
    ensures AddAll([], FormsOf(base[..i + 1])) == AddAll(AddAll([], FormsOf(base[..i])), Forms(base[i]))
  {
    assert base[..i + 1] == base[..i] + [base[i]];
    FormsOfSnoc(base[..i], base[i]);
    AddAllAppend([], FormsOf(base[..i]), Forms(base[i]));
  }

  /** `collapseVariants`. */
  method CollapseVariants(lat: string) returns (out: seq<string>)
    ensures out == Variants(lat)
    ensures NoDup(out) && |out| <= 36
    ensures lat in out && ReplaceAll(lat, "aa", "a") in out
  {
    out := AddForms(Bases(lat));
    VariantsContainBase(lat);
  }

  /* ---------------------------------------------------------- synonyms */

  /** The pieces of the regular expressions that decide the synonyms:
      literal text, `\s*`, and `\b`. */
  datatype Atom = Lit(text: string) | Spaces | WordBoundary

  /** `\b` at position `i`: a word character on exactly one side. */
  predicate AtBoundary(s: string, i: nat)
    requires i <= |s|
  {
    (i > 0 && IsWordChar(s[i - 1])) != (i < |s| && IsWordChar(s[i]))
  }

  /** The pattern matches at position `i`. `\s*` is taken greedily; in every
      pattern here it is followed by text that starts with a non-space
      character, so no backtracking is ever needed. */
  predicate MatchAt(s: string, i: nat, p: seq<Atom>)
    requires i <= |s|
    decreases |p|
  {
    if p == [] then true
    else match p[0]
      case Lit(w) => StartsWith(s[i..], w) && MatchAt(s, i + |w|, p[1..])
      case Spaces => MatchAt(s, SkipJsSpace(s, i), p[1..])
      case WordBoundary => AtBoundary(s, i) && MatchAt(s, i, p[1..])
  }

  /** `regex.test(s)`: the pattern matches at some position from `i` on. */
  predicate SearchFrom(s: string, p: seq<Atom>, i: nat)
    requires i <= |s|
    decreases |s| - i
  {
    MatchAt(s, i, p) || (i < |s| && SearchFrom(s, p, i + 1))
  }

  predicate Test(s: string, p: seq<Atom>)
  {
    SearchFrom(s, p, 0)
  }

  function Word(w: string): seq<Atom> { [WordBoundary, Lit(w), WordBoundary] }

  // /(^|\b)new\s*delhi\b/; before the word character 'n', `^` implies `\b`.
  const NewDelhi: seq<Atom> := [WordBoundary, Lit("new"), Spaces, Lit("delhi"), WordBoundary]
  // /(\b)nai|nayi\s*dilli\b/ is the alternation of `\bnai` and `nayi\s*dilli\b`.
  const NaiPrefix: seq<Atom> := [WordBoundary, Lit("nai")]
  const NayiDilli: seq<Atom> := [Lit("nayi"), Spaces, Lit("dilli"), WordBoundary]
  // /नई\s*दिल्ली|नयी\s*दिल्ली/
  const NaiDilliDev: seq<Atom> := [Lit("नई"), Spaces, Lit("दिल्ली")]
  const NayiDilliDev: seq<Atom> := [Lit("नयी"), Spaces, Lit("दिल्ली")]
  const RaigarhDev: string := "\U{0930}\U{093E}\U{092F}\U{0917}\U{0922}\U{093C}"  // रायगढ़

  predicate IsNewDelhiKey(k: string)
  {
    Test(k, NewDelhi) || Test(k, NaiPrefix) || Test(k, NayiDilli)
    || Test(k, NaiDilliDev) || Test(k, NayiDilliDev)
  }

  predicate IsDelhiKey(k: string)
  {
    Test(k, Word("delhi")) || Test(k, Word("dilli")) || Contains(k, "दिल्ली")
  }

  predicate IsRaigarhKey(k: string)
  {
    Test(k, Word("raigarh")) || Test(k, Word("raygarh")) || Contains(k, RaigarhDev)
  }

  predicate IsRaipurKey(k: string)
  {
    Test(k, Word("raipur")) || Contains(k, "रायपुर")
  }

  const NewDelhiNames: seq<string> :=
    ["new delhi", "nayi dilli", "nai dilli", "नई दिल्ली", "नयी दिल्ली", "delhi", "dilli"]

  /** The keys that one existing key adds, in the order the four rules add them. */
  function Synonyms(k: string): seq<string>
  {
    (if IsNewDelhiKey(k) then NewDelhiNames else [])
    + (if IsDelhiKey(k) then ["delhi", "dilli"] else [])
    + (if IsRaigarhKey(k) then ["raigarh", "raygarh"] else [])
    + (if IsRaipurKey(k) then ["raipur"] else [])
  }

  /** The synonyms of every key of the snapshot, in order. */
  function SynonymsOf(snapshot: seq<string>): seq<string>
    decreases |snapshot|
  {
    if snapshot == [] then []
    else SynonymsOf(snapshot[..|snapshot| - 1]) + Synonyms(snapshot[|snapshot| - 1])
  }

  /* ------------------------------------------------------- search keys */

  /** The keys before synonym enrichment. */
  function BaseKeys(raw: string): seq<string>
  {
    var s := Lower(StripHashAt(raw));
    var keys := Add([s], Nukta.Fold(s));
    if IsDevanagari(s) then AddAll(keys, Variants(Transliterated(s))) else keys
  }

  /** The set that `buildSearchKeys` returns, in insertion order. */
  function SearchKeys(raw: string): seq<string>
  {
    var keys := BaseKeys(raw);
    AddAll(keys, SynonymsOf(keys))
  }

  /** The synonym loop of `buildSearchKeys`: the rules run over a snapshot
      of the keys, so added synonyms are not themselves enriched. */
  method AddSynonyms(snapshot: seq<string>) returns (keys: seq<string>)
    ensures keys == AddAll(snapshot, SynonymsOf(snapshot))
  {
    keys := snapshot;
    for i := 0 to |snapshot|
      invariant keys == AddAll(snapshot, SynonymsOf(snapshot[..i]))
    {
      assert snapshot[..i + 1][..i] == snapshot[..i];
      AddAllAppend(snapshot, SynonymsOf(snapshot[..i]), Synonyms(snapshot[i]));
      keys := AddEach(keys, Synonyms(snapshot[i]));
    }
    assert snapshot[..|snapshot|] == snapshot;
  }

  method BuildSearchKeys(raw: string) returns (keys: seq<string>)
    ensures keys == SearchKeys(raw)
    ensures NoDup(keys)
  {
    var s := Lower(StripHashAt(raw));
    keys := [s];
    var noNukta := Nukta.Fold(s);
    keys := Add(keys, noNukta);
    if IsDevanagari(s) {
      var latin := TransliterateDevanagariToLatin(s);
      var variants := CollapseVariants(latin);
      keys := AddEach(keys, variants);
    }
    assert NoDup([s]);
    keys := AddSynonyms(keys);
  }

  /* ------------------------------------------------- search-key lemmas */

  /** The lower-cased tag and its nukta-free form are always keys. */
  lemma KeysContainBase(raw: string)
    ensures Lower(StripHashAt(raw)) in SearchKeys(raw)
    ensures Nukta.Fold(Lower(StripHashAt(raw))) in SearchKeys(raw)
  {
  }

  lemma {:induction false} SynonymsOfCovers(snapshot: seq<string>, i: nat)
    requires i < |snapshot|
    ensures forall x :: x in Synonyms(snapshot[i]) ==> x in SynonymsOf(snapshot)
    decreases |snapshot|
  {
    if i < |snapshot| - 1 {
      assert snapshot[..|snapshot| - 1][i] == snapshot[i];
      SynonymsOfCovers(snapshot[..|snapshot| - 1], i);
    }
  }

  /** If any key before enrichment names Raigarh in either spelling or in
      Devanagari, both Latin spellings are keys. */
  lemma RaigarhBothSpellings(raw: string, k: string)
    requires k in BaseKeys(raw) && IsRaigarhKey(k)
    ensures "raigarh" in SearchKeys(raw) && "raygarh" in SearchKeys(raw)
  {
    var keys := BaseKeys(raw);
    var i :| 0 <= i < |keys| && keys[i] == k;
    RaigarhSynonyms(k);
    SynonymKept(keys, i, "raigarh");
    SynonymKept(keys, i, "raygarh");
  }

  /** A Raigarh key adds both Latin spellings. */
  lemma RaigarhSynonyms(k: string)
    requires IsRaigarhKey(k)
    ensures "raigarh" in Synonyms(k) && "raygarh" in Synonyms(k)
  {
    var off := |(if IsNewDelhiKey(k) then NewDelhiNames else [])|
      + |(if IsDelhiKey(k) then ["delhi", "dilli"] else [])|;
    assert Synonyms(k)[off] == "raigarh" && Synonyms(k)[off + 1] == "raygarh";
  }

  /** A synonym of any key of the snapshot ends up in the keys. */
  lemma SynonymKept(keys: seq<string>, i: nat, x: string)
    requires i < |keys| && x in Synonyms(keys[i])
    ensures x in AddAll(keys, SynonymsOf(keys))
  {
    SynonymsOfCovers(keys, i);
  }

  /** A key without Devanagari gets no transliterated variants: every key
      is the key itself, its nukta-free form, or a fixed synonym. */
  lemma {:induction false} NoLatinVariantsWithoutDevanagari(raw: string, x: string)
    requires !IsDevanagari(Lower(StripHashAt(raw)))
    requires x in SearchKeys(raw)
    ensures var s := Lower(StripHashAt(raw));
      x == s || x == Nukta.Fold(s) || x in SynonymsOf(BaseKeys(raw))
  {
  }

  /** The tag itself, once lower-cased and without `#`/`@`, is a key before
      enrichment. */
  lemma BaseKeysContainTag(raw: string)
    ensures Lower(StripHashAt(raw)) in BaseKeys(raw)
  {
  }

  /** `\braigarh\b` matches the whole word "raigarh". */
  lemma RaigarhWordMatches()
    ensures IsRaigarhKey("raigarh")
  {
    var s := "raigarh";
    assert MatchAt(s, 7, []);
    assert AtBoundary(s, 7);
    assert MatchAt(s, 7, [WordBoundary]);
    assert StartsWith(s[0..], "raigarh");
    assert MatchAt(s, 0, [Lit("raigarh"), WordBoundary]);
    assert AtBoundary(s, 0);
    assert MatchAt(s, 0, Word("raigarh"));
    assert Test(s, Word("raigarh"));
  }

  /** buildSearchKeys('raigarh') contains 'raygarh'. */
  lemma RaigarhExample()
    ensures "raygarh" in SearchKeys("raigarh")
  {
    var s := "raigarh";
    assert StripHashAt(s) == s;
    LowerOfLowercase(s);
    BaseKeysContainTag(s);
    RaigarhWordMatches();
    RaigarhBothSpellings(s, s);
  }

  /* ------------------------------------------------------------ matching */

  /** Some key of one contains some key of the other. */
  predicate Related(a: string, b: string)
  {
    Contains(a, b) || Contains(b, a)
  }

  /** Some key in `xs` and some key in `ys` are related. */
  predicate AnyRelated(xs: seq<string>, ys: seq<string>)
  {
    exists a, b :: a in xs && b in ys && Related(a, b)
  }

  /** What `matchTagFlexible(tag, query)` (and `matchTextFlexible`, the same
      function under a second name) returns. */
  predicate Matches(tag: string, query: string)
  {
    tag != "" && query != "" && AnyRelated(SearchKeys(tag), SearchKeys(query))
  }

  /** The two nested loops of `matchTagFlexible`, which stop at the first
      related pair. */
  method FindRelated(tagKeys: seq<string>, queryKeys: seq<string>) returns (found: bool)
    ensures found == AnyRelated(tagKeys, queryKeys)
  {
    for i := 0 to |tagKeys|
      invariant forall a, b :: 0 <= a < i && 0 <= b < |queryKeys| ==> !Related(tagKeys[a], queryKeys[b])
    {
      for j := 0 to |queryKeys|
        invariant forall b :: 0 <= b < j ==> !Related(tagKeys[i], queryKeys[b])
      {
        if Contains(tagKeys[i], queryKeys[j]) || Contains(queryKeys[j], tagKeys[i]) {
          assert Related(tagKeys[i], queryKeys[j]);
          return true;
        }
      }
    }
    forall a, b | a in tagKeys && b in queryKeys
      ensures !Related(a, b)
    {
      var x :| 0 <= x < |tagKeys| && tagKeys[x] == a;
      var y :| 0 <= y < |queryKeys| && queryKeys[y] == b;
    }
    return false;
  }

  method MatchTagFlexible(tag: string, query: string) returns (r: bool)
    ensures r == Matches(tag, query)
  {
    if tag == "" || query == "" {
      return false;
    }
    var tagKeys := BuildSearchKeys(tag);
    var queryKeys := BuildSearchKeys(query);
    r := FindRelated(tagKeys, queryKeys);
  }

  /** An empty argument never matches. */
  lemma MatchEmpty(t: string)
    ensures !Matches("", t) && !Matches(t, "")
  {
  }

  /** The match does not depend on the order of its arguments. */
  lemma MatchSymmetric(tag: string, query: string)
    ensures Matches(tag, query) == Matches(query, tag)
  {
    if Matches(tag, query) {
      var a, b :| a in SearchKeys(tag) && b in SearchKeys(query) && Related(a, b);
      assert Related(b, a);
    }
    if Matches(query, tag) {
      var a, b :| a in SearchKeys(query) && b in SearchKeys(tag) && Related(a, b);
      assert Related(b, a);
    }
  }

  /** Every non-empty tag matches itself. */
  lemma MatchReflexive(t: string)
    requires t != ""
    ensures Matches(t, t)
  {
    var s := Lower(StripHashAt(t));
    KeysContainBase(t);
    ContainsSelf(s);
    assert Related(s, s);
  }

  /** Two tags that agree once the leading `#`/`@`, case and nukta are
      folded away always match: the nukta-free keys coincide. */
  lemma MatchNuktaVariants(tag: string, query: string)
    requires tag != "" && query != ""
    requires Nukta.Fold(Lower(StripHashAt(tag))) == Nukta.Fold(Lower(StripHashAt(query)))
    ensures Matches(tag, query)
  {
    var k := Nukta.Fold(Lower(StripHashAt(tag)));
    KeysContainBase(tag);
    KeysContainBase(query);
    ContainsSelf(k);
    assert Related(k, k);
  }

  /** The nukta-free form of the tag text of '#रोज़गार' with the nukta sign
      written separately. */
  lemma FoldRozgar()
    ensures Nukta.Fold("\U{0930}\U{094B}\U{091C}\U{093C}\U{0917}\U{093E}\U{0930}")
         == "\U{0930}\U{094B}\U{091C}\U{0917}\U{093E}\U{0930}"
  {
    var plain := "\U{0930}\U{094B}\U{091C}\U{0917}\U{093E}\U{0930}";
    var nukta := "\U{0930}\U{094B}\U{091C}\U{093C}\U{0917}\U{093E}\U{0930}";
    var head, tail := plain[..3], plain[3..];
    assert nukta == (head + ['\U{093C}']) + tail;
    assert Nukta.Folded(plain);
    Nukta.FoldOfFolded(plain);
    Nukta.FoldConcat(head, tail);
    assert head + tail == plain;
    Nukta.FoldConcat(head + ['\U{093C}'], tail);
    Nukta.FoldConcat(head, ['\U{093C}']);
    Nukta.FoldChar('\U{093C}');
  }

  /** matchTagFlexible('#रोज़गार', '#रोजगार') is true. */
  lemma RozgarMatchesRojgar()
    ensures Matches("#\U{0930}\U{094B}\U{091C}\U{093C}\U{0917}\U{093E}\U{0930}",
                    "#\U{0930}\U{094B}\U{091C}\U{0917}\U{093E}\U{0930}")
  {
    var tag := "#\U{0930}\U{094B}\U{091C}\U{093C}\U{0917}\U{093E}\U{0930}";
    var query := "#\U{0930}\U{094B}\U{091C}\U{0917}\U{093E}\U{0930}";
    var plain := "\U{0930}\U{094B}\U{091C}\U{0917}\U{093E}\U{0930}";
    var nukta := "\U{0930}\U{094B}\U{091C}\U{093C}\U{0917}\U{093E}\U{0930}";
    assert StripHashAt(tag) == nukta && StripHashAt(query) == plain;
    assert Lower(nukta) == nukta && Lower(plain) == plain;
    FoldRozgar();
    Nukta.FoldOfFolded(plain);
    MatchNuktaVariants(tag, query);
  }
}
