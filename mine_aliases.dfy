/** The offline alias miner script (scripts/mine-aliases.js): for every
    hashtag and known place in the posts, the stripped keys of its spellings
    that the alias table does not list are merged into a suggestion table.
    The posts and the alias table are parameters; reading and writing the
    files is not modelled. */
module MineAliases {
  import opened Text
  import opened JsonData
  import opened Maps
  import opened Patterns
  import Hinglish
  import TagSearch

  /* -------------------------------------------------------- stripping */

  /** `strip` of a text: one leading `#` or `@` dropped, lower-cased. */
  function StripText(s: string): (r: string)
    ensures |r| <= |s|
    ensures forall i :: 0 <= i < |r| ==> !IsUpper(r[i])
  {
    Lower(TagSearch.StripHashAt(s))
  }

  /** `strip(s)` of any value: `String(s || '')`, so null, undefined, false,
      0 and the empty text all give the empty text. */
  function Strip(v: Json): (r: string)
    ensures !Truthy(v) ==> r == ""
    ensures v.JString? ==> r == StripText(v.s)
  {
    if Truthy(v) then StripText(JsString(v)) else ""
  }

  function StripAll(vs: seq<Json>): (r: seq<string>)
    ensures |r| == |vs| && forall i :: 0 <= i < |vs| ==> r[i] == Strip(vs[i])
  {
    seq(|vs|, i requires 0 <= i < |vs| => Strip(vs[i]))
  }

  function StripTexts(ks: seq<string>): (r: seq<string>)
    ensures |r| == |ks| && forall i :: 0 <= i < |ks| ==> r[i] == StripText(ks[i])
  {
    seq(|ks|, i requires 0 <= i < |ks| => StripText(ks[i]))
  }

  /* -------------------------------------------------- transliteration */

  const Matra: map<char, string> := map[
    '\U{093E}' := "aa", '\U{093F}' := "i", '\U{0940}' := "ii", '\U{0941}' := "u",
    '\U{0942}' := "uu", '\U{0947}' := "e", '\U{0948}' := "ai", '\U{094B}' := "o",
    '\U{094C}' := "au", '\U{0943}' := "ri", '\U{0949}' := "o", '\U{0945}' := "ae"
  ]

  const Letters: map<char, string> := map[
    'अ' := "a", 'आ' := "aa", 'इ' := "i", 'ई' := "ii", 'उ' := "u", 'ऊ' := "uu",
    'ए' := "e", 'ऐ' := "ai", 'ओ' := "o", 'औ' := "au", 'ऋ' := "ri", 'क' := "k",
    'ख' := "kh", 'ग' := "g", 'घ' := "gh", 'च' := "ch", 'छ' := "chh", 'ज' := "j",
    'झ' := "jh", 'ट' := "t", 'ठ' := "th", 'ड' := "d", 'ढ' := "dh", 'ण' := "n",
    'त' := "t", 'थ' := "th", 'द' := "d", 'ध' := "dh", 'न' := "n", 'प' := "p",
    'फ' := "ph", 'ब' := "b", 'भ' := "bh", 'म' := "m", 'य' := "y", 'र' := "r", 'ल' := "l",
    'व' := "v", 'श' := "sh", 'ष' := "sh", 'स' := "s", 'ह' := "h", '\U{0902}' := "n",
    '\U{0901}' := "n", '\U{0903}' := "h"
  ]

  /** What one character contributes, given the matra and letter tables:
      the matra table is consulted first. */
  function Piece(ch: char, matra: map<char, string>, letters: map<char, string>): string
  {
    if ch in matra then matra[ch] else if ch in letters then letters[ch] else [ch]
  }

  function Pieces(s: string, matra: map<char, string>, letters: map<char, string>): string
    decreases |s|
  {
    if s == [] then [] else Pieces(s[..|s| - 1], matra, letters) + Piece(s[|s| - 1], matra, letters)
  }

  lemma PiecesSnoc(s: string, x: char, matra: map<char, string>, letters: map<char, string>)
    ensures Pieces(s + [x], matra, letters) == Pieces(s, matra, letters) + Piece(x, matra, letters)
  {
    assert (s + [x])[..|s|] == s;
  }

  /** What `devanagariToLatin(s)` returns. */
  function ToLatin(s: string): (r: string)
    ensures forall i :: 0 <= i < |r| ==> !IsUpper(r[i])
  {
    Lower(Pieces(s, Matra, Letters))
  }

  /** A matra's own spelling wins, the
      anusvara and candrabindu give `n` and the visarga `h`. */
  lemma PieceTables(ch: char)
    ensures ch in Matra ==> Piece(ch, Matra, Letters) == Matra[ch]
    ensures ch == '\U{0902}' || ch == '\U{0901}' ==> Piece(ch, Matra, Letters) == "n"
    ensures ch == '\U{0903}' ==> Piece(ch, Matra, Letters) == "h"
    ensures ch !in Matra && ch !in Letters ==> Piece(ch, Matra, Letters) == [ch]
  {
  }

  /** Text in neither table comes out unchanged. */
  lemma {:induction false} PiecesOfUntabled(s: string, matra: map<char, string>, letters: map<char, string>)
    requires forall i :: 0 <= i < |s| ==> s[i] !in matra && s[i] !in letters
    ensures Pieces(s, matra, letters) == s
    decreases |s|
  {
    if s != [] {
      var init, x := s[..|s| - 1], s[|s| - 1];
      PiecesOfUntabled(init, matra, letters);
      assert init + [x] == s;
      PiecesSnoc(init, x, matra, letters);
    }
  }

  /** Text in neither table is only lower-cased. */
  lemma ToLatinOfUntabled(s: string)
    requires forall i :: 0 <= i < |s| ==> s[i] !in Matra && s[i] !in Letters
    ensures ToLatin(s) == Lower(s)
  {
    PiecesOfUntabled(s, Matra, Letters);
  }

  /** `devanagariToLatin`: transliterate, then lower-case. */
  method DevanagariToLatin(s: string) returns (r: string)
    ensures r == ToLatin(s)
  {
    var out := AppendPieces(s, Matra, Letters);
    r := Lower(out);
  }

  /** The `for (const ch of s)` loop of `devanagariToLatin`, over the two
      tables. */
  method AppendPieces(s: string, matra: map<char, string>, letters: map<char, string>) returns (out: string)
    ensures out == Pieces(s, matra, letters)
  {
    out := "";
    for i := 0 to |s|
      invariant out == Pieces(s[..i], matra, letters)
    {
      assert s[..i + 1][..i] == s[..i];
      var ch := s[i];
      if ch in matra {
        out := out + matra[ch];
      } else if ch in letters {
        out := out + letters[ch];
      } else {
        out := out + [ch];
      }
    }
    assert s[..|s|] == s;
  }

  /* --------------------------------------------------------- variants */

  predicate IsConsonant(c: char)
  {
    LowerChar(c) in "bcdfghjklmnpqrstvwxyz"
  }

  /** `insertSchwaStart`: an `a` between two leading consonants (of either
      case); any other text is unchanged. */
  function InsertSchwaStart(s: string): (r: string)
    ensures |s| >= 2 && IsConsonant(s[0]) && IsConsonant(s[1]) ==>
      |r| == |s| + 1 && r[1] == 'a' && r[..1] + r[2..] == s
    ensures !(|s| >= 2 && IsConsonant(s[0]) && IsConsonant(s[1])) ==> r == s
  {
    if |s| >= 2 && IsConsonant(s[0]) && IsConsonant(s[1]) then
      var r := [s[0]] + "a" + s[1..];
      assert r[..1] + r[2..] == s;
      r
    else s
  }

  /** The six forms added for one base spelling. */
  function Forms(b: string): (r: seq<string>)
    ensures |r| == 6 && r[0] == b
  {
    [b, Hinglish.Loosen(b), ReplaceAll(b, "v", "w"), ReplaceAll(b, "w", "v"),
     CollapseRuns(b), InsertSchwaStart(b)]
  }

  /** The forms of every base, in the order they are added. */
  function FormsOf(bases: seq<string>): (r: seq<string>)
    ensures |r| == 6 * |bases|
    decreases |bases|
  {
    if bases == [] then [] else FormsOf(bases[..|bases| - 1]) + Forms(bases[|bases| - 1])
  }

  /** The set `collapseVariants(lat)` returns, in insertion order. */
  function Variants(lat: string): seq<string>
  {
    Distinct(FormsOf([lat, ReplaceAll(lat, "aa", "a")]))
  }

  /** The spelling and its `aa`-collapsed form are variants, and there are
      at most twelve. */
  lemma VariantsSpec(lat: string)
    ensures NoDup(Variants(lat)) && |Variants(lat)| <= 12
    ensures lat in Variants(lat) && ReplaceAll(lat, "aa", "a") in Variants(lat)
  {
    var bases := [lat, ReplaceAll(lat, "aa", "a")];
    assert bases[..1] == [lat];
    assert FormsOf(bases) == FormsOf([lat]) + Forms(bases[1]);
    assert FormsOf([lat]) == FormsOf([]) + Forms(lat);
    assert FormsOf(bases)[0] == lat;
    assert FormsOf(bases)[6] == bases[1];
  }

  /** `collapseVariants`: the forms of the spelling and of its
      `aa`-collapsed form, each once. */
  method CollapseVariants(lat: string) returns (out: seq<string>)
    ensures out == Variants(lat)
  {
    var bases := [lat, ReplaceAll(lat, "aa", "a")];
    out := [];
    for i := 0 to |bases|
      invariant out == AddAll([], FormsOf(bases[..i]))
    {
      var forms := Forms(bases[i]);
      AddFormsNext(bases, i);
      out := AddEach(out, forms);
    }
    assert bases[..|bases|] == bases;
  }

  lemma AddFormsNext(bases: seq<string>, i: nat)
    requires i < |bases|
    ensures AddAll([], FormsOf(bases[..i + 1])) == AddAll(AddAll([], FormsOf(bases[..i])), Forms(bases[i]))
  {
    assert bases[..i + 1][..i] == bases[..i];
    AddAllAppend([], FormsOf(bases[..i]), Forms(bases[i]));
  }

  /** `/^[ऀ-ॿ#]+/.test(raw)`. */
  predicate StartsDevanagariOrHash(raw: string)
  {
    |raw| > 0 && (('\U{0900}' <= raw[0] <= '\U{097F}') || raw[0] == '#')
  }

  /** The set `buildKeys(raw)` returns, in insertion order. */
  function Keys(raw: string): seq<string>
  {
    if StartsDevanagariOrHash(raw) then AddAll([StripText(raw)], Variants(ToLatin(raw)))
    else [StripText(raw)]
  }

  /** The stripped raw text is always a key; Latin variants come only for a
      text starting with a Devanagari character or `#`. */
  lemma KeysSpec(raw: string)
    ensures StripText(raw) in Keys(raw) && NoDup(Keys(raw))
    ensures !StartsDevanagariOrHash(raw) ==> Keys(raw) == [StripText(raw)]
    ensures StartsDevanagariOrHash(raw) ==> ToLatin(raw) in Keys(raw)
  {
    assert NoDup([StripText(raw)]);
    if StartsDevanagariOrHash(raw) {
      VariantsSpec(ToLatin(raw));
    }
  }

  method BuildKeys(raw: string) returns (keys: seq<string>)
    ensures keys == Keys(raw)
  {
    keys := [StripText(raw)];
    if StartsDevanagariOrHash(raw) {
      var lat := DevanagariToLatin(raw);
      var variants := CollapseVariants(lat);
      keys := AddEach(keys, variants);
    }
  }

  /* ------------------------------------------------------------ merge */

  /** `existing.<domain>[canonical]?.variants || []`. */
  function ExistingVariants(table: map<string, seq<Json>>, canonical: string): seq<Json>
  {
    if canonical in table then table[canonical] else []
  }

  /** The keep condition of `newVars`. */
  predicate IsNewKey(k: string, existing: seq<Json>, canonical: string)
  {
    k != "" && k !in StripAll(existing) && k != StripText(canonical)
  }

  /** `newVars` for one match. */
  function NewVars(raw: string, canonical: string, existing: seq<Json>): (r: seq<string>)
    ensures NoDup(r)
    ensures forall k :: k in r <==> k in StripTexts(Keys(raw)) && IsNewKey(k, existing, canonical)
  {
    Distinct(Filter(StripTexts(Keys(raw)), k => IsNewKey(k, existing, canonical)))
  }

  /** `m[canonical]?.variants || []`. */
  function Current(m: map<string, seq<string>>, canonical: string): seq<string>
  {
    if canonical in m then m[canonical] else []
  }

  /** `h.replace(/^#/, '')`. */
  function DropHashOnce(raw: string): string
  {
    if |raw| > 0 && raw[0] == '#' then raw[1..] else raw
  }

  /** The canonical of a match: a tag drops its `#`, a place is the match. */
  function CanonicalOf(raw: string, isTag: bool): string
  {
    if isTag then DropHashOnce(raw) else raw
  }

  /** The new variants of one match of a domain. */
  function FreshFor(raw: string, isTag: bool, table: map<string, seq<Json>>): seq<string>
  {
    NewVars(raw, CanonicalOf(raw, isTag), ExistingVariants(table, CanonicalOf(raw, isTag)))
  }

  /** `if (newVars.length) m[canonical] = { variants: [...new Set([...old, ...newVars])] }`. */
  function MergeStep(m: map<string, seq<string>>, canonical: string, newVars: seq<string>): map<string, seq<string>>
  {
    if newVars != [] then m[canonical := Distinct(Current(m, canonical) + newVars)] else m
  }

  /** Merging the matches one after another, given each match's canonical
      and new variants. */
  function MergeAllBy(m: map<string, seq<string>>, items: seq<string>, canon: string -> string, added: string -> seq<string>): map<string, seq<string>>
    decreases |items|
  {
    if items == [] then m
    else
      var raw := items[|items| - 1];
      MergeStep(MergeAllBy(m, items[..|items| - 1], canon, added), canon(raw), added(raw))
  }

  function MergeAll(m: map<string, seq<string>>, items: seq<string>, isTag: bool, table: map<string, seq<Json>>): map<string, seq<string>>
  {
    MergeAllBy(m, items, raw => CanonicalOf(raw, isTag), raw => FreshFor(raw, isTag, table))
  }

  lemma {:induction false} MergeAllByAppend(m: map<string, seq<string>>, a: seq<string>, b: seq<string>, canon: string -> string, added: string -> seq<string>)
    ensures MergeAllBy(m, a + b, canon, added) == MergeAllBy(MergeAllBy(m, a, canon, added), b, canon, added)
    decreases |b|
  {
    if b == [] {
      assert a + b == a;
    } else {
      assert (a + b)[..|a + b| - 1] == a + b[..|b| - 1];
      MergeAllByAppend(m, a, b[..|b| - 1], canon, added);
    }
  }

  lemma MergeAllAppend(m: map<string, seq<string>>, a: seq<string>, b: seq<string>, isTag: bool, table: map<string, seq<Json>>)
    ensures MergeAll(m, a + b, isTag, table) == MergeAll(MergeAll(m, a, isTag, table), b, isTag, table)
  {
    MergeAllByAppend(m, a, b, raw => CanonicalOf(raw, isTag), raw => FreshFor(raw, isTag, table));
  }

  /** The body of the inner loop for one match. */
  method MergeMatch(m: map<string, seq<string>>, raw: string, isTag: bool, table: map<string, seq<Json>>)
    returns (r: map<string, seq<string>>)
    ensures r == MergeStep(m, CanonicalOf(raw, isTag), FreshFor(raw, isTag, table))
  {
    var canonical := CanonicalOf(raw, isTag);
    var existingVars := ExistingVariants(table, canonical);
    var keys := BuildKeys(raw);
    var stripped := StripTexts(keys);
    var newVars := Distinct(Filter(stripped, k => IsNewKey(k, existingVars, canonical)));
    r := m;
    if |newVars| > 0 {
      r := r[canonical := Distinct(Current(r, canonical) + newVars)];
    }
  }

  lemma MergeAllBySnoc(m: map<string, seq<string>>, items: seq<string>, raw: string, canon: string -> string, added: string -> seq<string>)
    ensures MergeAllBy(m, items + [raw], canon, added) == MergeStep(MergeAllBy(m, items, canon, added), canon(raw), added(raw))
  {
    assert (items + [raw])[..|items|] == items;
  }

  /** Merging one more match of `items`. */
  lemma MergeAllNext(m: map<string, seq<string>>, items: seq<string>, j: int, isTag: bool, table: map<string, seq<Json>>)
    requires 0 <= j < |items|
    ensures MergeAll(m, items[..j + 1], isTag, table)
         == MergeStep(MergeAll(m, items[..j], isTag, table), CanonicalOf(items[j], isTag), FreshFor(items[j], isTag, table))
  {
    assert items[..j + 1] == items[..j] + [items[j]];
    MergeAllBySnoc(m, items[..j], items[j], raw => CanonicalOf(raw, isTag), raw => FreshFor(raw, isTag, table));
  }

  /** The inner loop over one post's matches. */
  method MergeMatches(m: map<string, seq<string>>, items: seq<string>, isTag: bool, table: map<string, seq<Json>>)
    returns (r: map<string, seq<string>>)
    ensures r == MergeAll(m, items, isTag, table)
  {
    r := m;
    for j := 0 to |items|
      invariant r == MergeAll(m, items[..j], isTag, table)
    {
      MergeAllNext(m, items, j, isTag, table);
      r := MergeMatch(r, items[j], isTag, table);
    }
    assert items[..|items|] == items;
  }

  datatype Suggestions = Suggestions(tags: map<string, seq<string>>, locations: map<string, seq<string>>)

  /** What `main` writes, for the posts' contents and the alias tables'
      variant lists. */
  function Mined(posts: seq<string>, existingTags: map<string, seq<Json>>, existingLocations: map<string, seq<Json>>): Suggestions
  {
    Suggestions(MergeAll(map[], MatchedHashtags(posts), true, existingTags),
                MergeAll(map[], MatchedPlaces(posts), false, existingLocations))
  }

  /** The loop of `main` over the posts. */
  method MineSuggestions(posts: seq<string>, existingTags: map<string, seq<Json>>, existingLocations: map<string, seq<Json>>)
    returns (s: Suggestions)
    ensures s == Mined(posts, existingTags, existingLocations)
  {
    var tags: map<string, seq<string>> := map[];
    var locs: map<string, seq<string>> := map[];
    for i := 0 to |posts|
      invariant tags == MergeAll(map[], MatchedHashtags(posts[..i]), true, existingTags)
      invariant locs == MergeAll(map[], MatchedPlaces(posts[..i]), false, existingLocations)
    {
      assert posts[..i + 1][..i] == posts[..i];
      MergeAllAppend(map[], MatchedHashtags(posts[..i]), HashtagMatches(posts[i]), true, existingTags);
      MergeAllAppend(map[], MatchedPlaces(posts[..i]), PlaceMatches(posts[i]), false, existingLocations);
      tags := MergeMatches(tags, HashtagMatches(posts[i]), true, existingTags);
      locs := MergeMatches(locs, PlaceMatches(posts[i]), false, existingLocations);
    }
    assert posts[..|posts|] == posts;
    s := Suggestions(tags, locs);
  }

  /* ------------------------------------------------------- properties */

  /** The variants a table may suggest for `c`: each once, and only keys
      that are new for it. */
  predicate NewFor(v: seq<string>, c: string, table: map<string, seq<Json>>)
  {
    NoDup(v) && forall k :: k in v ==> IsNewKey(k, ExistingVariants(table, c), c)
  }

  /** A suggestion table in which every list is non-empty and new. */
  predicate Sound(m: map<string, seq<string>>, table: map<string, seq<Json>>)
  {
    forall c :: c in m ==> m[c] != [] && NewFor(m[c], c, table)
  }

  /** One merge step keeps the table sound, keeps every earlier variant list
      as a prefix of the new one, and touches only the given canonical. */
  lemma MergeStepSpec(m: map<string, seq<string>>, c: string, newVars: seq<string>, table: map<string, seq<Json>>)
    requires Sound(m, table) && NewFor(newVars, c, table)
    ensures Sound(MergeStep(m, c, newVars), table)
    ensures forall d :: d in m ==> d in MergeStep(m, c, newVars) && m[d] <= MergeStep(m, c, newVars)[d]
    ensures forall d :: d != c ==> (d in MergeStep(m, c, newVars) <==> d in m)
    ensures forall d :: d != c && d in m ==> MergeStep(m, c, newVars)[d] == m[d]
    ensures forall k :: k in newVars ==> c in MergeStep(m, c, newVars) && k in MergeStep(m, c, newVars)[c]
    ensures c in MergeStep(m, c, newVars) ==>
      forall k :: k in MergeStep(m, c, newVars)[c] <==> k in Current(m, c) || k in newVars
  {
    if newVars != [] {
      var before := Current(m, c);
      MergedNew(before, newVars, c, table);
      var merged := Distinct(before + newVars);
      assert MergeStep(m, c, newVars) == m[c := merged];
    }
  }

  /** A list merged with new variants stays new, keeps its order, and holds
      the new variants. */
  lemma MergedNew(before: seq<string>, newVars: seq<string>, c: string, table: map<string, seq<Json>>)
    requires NewFor(before, c, table) && NewFor(newVars, c, table)
    ensures NewFor(Distinct(before + newVars), c, table)
    ensures before <= Distinct(before + newVars)
    ensures forall k :: k in newVars ==> k in Distinct(before + newVars)
  {
    AddAllAppend([], before, newVars);
    DistinctOfNoDup(before);
    assert Distinct(before + newVars) == AddAll(before, newVars);
    forall k | k in Distinct(before + newVars)
      ensures IsNewKey(k, ExistingVariants(table, c), c)
    {
      assert k in before || k in newVars;
    }
  }

  lemma FreshForNew(raw: string, isTag: bool, table: map<string, seq<Json>>)
    ensures NewFor(FreshFor(raw, isTag, table), CanonicalOf(raw, isTag), table)
  {
  }

  lemma {:induction false} MergeAllBySound(m: map<string, seq<string>>, items: seq<string>, canon: string -> string,
                                           added: string -> seq<string>, table: map<string, seq<Json>>)
    requires Sound(m, table)
    requires forall raw :: NewFor(added(raw), canon(raw), table)
    ensures Sound(MergeAllBy(m, items, canon, added), table)
    ensures forall c :: c in m ==> c in MergeAllBy(m, items, canon, added) && m[c] <= MergeAllBy(m, items, canon, added)[c]
    decreases |items|
  {
    if items != [] {
      var raw := items[|items| - 1];
      MergeAllBySound(m, items[..|items| - 1], canon, added, table);
      MergeStepSpec(MergeAllBy(m, items[..|items| - 1], canon, added), canon(raw), added(raw), table);
    }
  }

  /** The suggestions of a domain are sound, and a later match only ever
      adds to what earlier ones suggested. */
  lemma MergeAllSound(m: map<string, seq<string>>, items: seq<string>, isTag: bool, table: map<string, seq<Json>>)
    requires Sound(m, table)
    ensures Sound(MergeAll(m, items, isTag, table), table)
    ensures forall c :: c in m ==> c in MergeAll(m, items, isTag, table) && m[c] <= MergeAll(m, items, isTag, table)[c]
  {
    var canon := raw => CanonicalOf(raw, isTag);
    var added := raw => FreshFor(raw, isTag, table);
    forall raw
      ensures NewFor(added(raw), canon(raw), table)
    {
      FreshForNew(raw, isTag, table);
    }
    MergeAllBySound(m, items, canon, added, table);
  }

  /** One merge step loses no variant and brings in only the given ones. */
  lemma MergeStepMembers(m: map<string, seq<string>>, c: string, newVars: seq<string>, d: string, k: string)
    ensures d in m && k in m[d] ==> d in MergeStep(m, c, newVars) && k in MergeStep(m, c, newVars)[d]
    ensures k in newVars ==> c in MergeStep(m, c, newVars) && k in MergeStep(m, c, newVars)[c]
    ensures d in MergeStep(m, c, newVars) && k in MergeStep(m, c, newVars)[d] ==>
      (d in m && k in m[d]) || (d == c && k in newVars)
  {
  }

  /** Every new variant of every match ends up under the match's canonical. */
  lemma {:induction false} MergeAllByComplete(m: map<string, seq<string>>, items: seq<string>, canon: string -> string,
                                              added: string -> seq<string>, j: int, k: string)
    requires 0 <= j < |items| && k in added(items[j])
    ensures canon(items[j]) in MergeAllBy(m, items, canon, added)
    ensures k in MergeAllBy(m, items, canon, added)[canon(items[j])]
    decreases |items|
  {
    var init := items[..|items| - 1];
    var raw := items[|items| - 1];
    var before := MergeAllBy(m, init, canon, added);
    MergeStepMembers(before, canon(raw), added(raw), canon(items[j]), k);
    if j < |items| - 1 {
      assert init[j] == items[j];
      MergeAllByComplete(m, init, canon, added, j, k);
    }
  }

  /** Every suggested variant was in the starting table or is a new
      variant of a match with that canonical. */
  lemma {:induction false} MergeAllByOrigin(m: map<string, seq<string>>, items: seq<string>, canon: string -> string,
                                            added: string -> seq<string>, c: string, k: string)
    requires c in MergeAllBy(m, items, canon, added) && k in MergeAllBy(m, items, canon, added)[c]
    ensures (c in m && k in m[c]) || exists j :: 0 <= j < |items| && canon(items[j]) == c && k in added(items[j])
    decreases |items|
  {
    if items != [] {
      var init := items[..|items| - 1];
      var raw := items[|items| - 1];
      var before := MergeAllBy(m, init, canon, added);
      MergeStepMembers(before, canon(raw), added(raw), c, k);
      if c in before && k in before[c] {
        MergeAllByOrigin(m, init, canon, added, c, k);
        if !(c in m && k in m[c]) {
          var j :| 0 <= j < |init| && canon(init[j]) == c && k in added(init[j]);
          assert items[j] == init[j];
        }
      } else {
        assert items[|items| - 1] == raw;
      }
    }
  }

  /** Each suggested variant of a domain is a new variant of one of its
      matches with that canonical. */
  lemma MergeAllOrigin(items: seq<string>, isTag: bool, table: map<string, seq<Json>>, c: string, k: string)
    requires c in MergeAll(map[], items, isTag, table) && k in MergeAll(map[], items, isTag, table)[c]
    ensures exists raw :: raw in items && CanonicalOf(raw, isTag) == c && k in FreshFor(raw, isTag, table)
  {
    var canon := raw => CanonicalOf(raw, isTag);
    var added := raw => FreshFor(raw, isTag, table);
    MergeAllByOrigin(map[], items, canon, added, c, k);
    var j :| 0 <= j < |items| && canon(items[j]) == c && k in added(items[j]);
    assert items[j] in items;
  }

  /** Each new variant of each match of a domain is suggested under the
      match's canonical. */
  lemma MergeAllComplete(items: seq<string>, isTag: bool, table: map<string, seq<Json>>, raw: string, k: string)
    requires raw in items && k in FreshFor(raw, isTag, table)
    ensures CanonicalOf(raw, isTag) in MergeAll(map[], items, isTag, table)
    ensures k in MergeAll(map[], items, isTag, table)[CanonicalOf(raw, isTag)]
  {
    var canon := raw => CanonicalOf(raw, isTag);
    var added := raw => FreshFor(raw, isTag, table);
    var j :| 0 <= j < |items| && items[j] == raw;
    MergeAllByComplete(map[], items, canon, added, j, k);
  }

  /** The suggestions of a domain are exactly the new variants of its
      matches, each under the match's canonical. */
  lemma MergeAllExact(items: seq<string>, isTag: bool, table: map<string, seq<Json>>, c: string, k: string)
    ensures (c in MergeAll(map[], items, isTag, table) && k in MergeAll(map[], items, isTag, table)[c])
        <==> exists raw :: raw in items && CanonicalOf(raw, isTag) == c && k in FreshFor(raw, isTag, table)
  {
    if c in MergeAll(map[], items, isTag, table) && k in MergeAll(map[], items, isTag, table)[c] {
      MergeAllOrigin(items, isTag, table, c, k);
    }
    if exists raw :: raw in items && CanonicalOf(raw, isTag) == c && k in FreshFor(raw, isTag, table) {
      var raw :| raw in items && CanonicalOf(raw, isTag) == c && k in FreshFor(raw, isTag, table);
      MergeAllComplete(items, isTag, table, raw, k);
    }
  }

  /** `main` suggests, under a hashtag's canonical, exactly the new variants
      of the hashtags the posts hold with that canonical. */
  lemma MinedTagsExact(posts: seq<string>, existingTags: map<string, seq<Json>>, existingLocations: map<string, seq<Json>>,
                       c: string, k: string)
    ensures (c in Mined(posts, existingTags, existingLocations).tags && k in Mined(posts, existingTags, existingLocations).tags[c])
        <==> exists raw :: raw in MatchedHashtags(posts) && CanonicalOf(raw, true) == c && k in FreshFor(raw, true, existingTags)
  {
    MergeAllExact(MatchedHashtags(posts), true, existingTags, c, k);
  }

  /** `main` suggests, under a place, exactly the new variants of that place
      when the posts name it. */
  lemma MinedPlacesExact(posts: seq<string>, existingTags: map<string, seq<Json>>, existingLocations: map<string, seq<Json>>,
                         c: string, k: string)
    ensures (c in Mined(posts, existingTags, existingLocations).locations && k in Mined(posts, existingTags, existingLocations).locations[c])
        <==> c in MatchedPlaces(posts) && k in FreshFor(c, false, existingLocations)
  {
    MergeAllExact(MatchedPlaces(posts), false, existingLocations, c, k);
  }

  lemma MinedSound(posts: seq<string>, existingTags: map<string, seq<Json>>, existingLocations: map<string, seq<Json>>)
    ensures Sound(Mined(posts, existingTags, existingLocations).tags, existingTags)
    ensures Sound(Mined(posts, existingTags, existingLocations).locations, existingLocations)
  {
    MergeAllSound(map[], MatchedHashtags(posts), true, existingTags);
    MergeAllSound(map[], MatchedPlaces(posts), false, existingLocations);
  }
}
