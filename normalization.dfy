/** The backend normaliser (api/src/parsing/normalization.py): nukta
    folding (shared with the search keys, module Nukta), a one-table
    transliteration, the five Hinglish rewrites (module Hinglish), and the table from each token
    to its set of spellings. */
module Normalization {
  import opened Text
  import Nukta
  import Hinglish

  /** The table inside `translit_basic`: independent vowels and consonants
      only, no matras and no nukta letters. */
  const BasicLatin: map<char, string> := map[
    'अ' := "a", 'आ' := "aa", 'इ' := "i", 'ई' := "ii", 'उ' := "u", 'ऊ' := "uu",
    'ए' := "e", 'ऐ' := "ai", 'ओ' := "o", 'औ' := "au",
    'क' := "k", 'ख' := "kh", 'ग' := "g", 'घ' := "gh", 'च' := "ch", 'छ' := "chh",
    'ज' := "j", 'झ' := "jh", 'ट' := "t", 'ठ' := "th", 'ड' := "d", 'ढ' := "dh", 'ण' := "n",
    'त' := "t", 'थ' := "th", 'द' := "d", 'ध' := "dh", 'न' := "n", 'प' := "p", 'फ' := "ph",
    'ब' := "b", 'भ' := "bh", 'म' := "m", 'य' := "y", 'र' := "r", 'ल' := "l", 'व' := "v",
    'श' := "sh", 'ष' := "sh", 'स' := "s", 'ह' := "h"
  ]

  /** `m.get(ch, ch)`. */
  function BasicPiece(ch: char): (r: string)
    ensures |r| >= 1
    ensures ch !in BasicLatin ==> r == [ch]
  {
    if ch in BasicLatin then BasicLatin[ch] else [ch]
  }

  /** What `translit_basic` returns. */
  function Translit(dev: string): (r: string)
    decreases |dev|
  {
    if dev == [] then [] else Translit(dev[..|dev| - 1]) + BasicPiece(dev[|dev| - 1])
  }

  /** Every character turns into at least one, so the output is never
      shorter than the input. */
  lemma {:induction false} TranslitLonger(dev: string)
    ensures |Translit(dev)| >= |dev|
    decreases |dev|
  {
    if dev != [] {
      TranslitLonger(dev[..|dev| - 1]);
    }
  }

  lemma {:induction false} TranslitConcat(a: string, b: string)
    ensures Translit(a + b) == Translit(a) + Translit(b)
    decreases |b|
  {
    if b == [] {
      assert a + b == a;
    } else {
      assert (a + b)[..|a + b| - 1] == a + b[..|b| - 1];
      TranslitConcat(a, b[..|b| - 1]);
    }
  }

  lemma TranslitSnoc(dev: string, x: char)
    ensures Translit(dev + [x]) == Translit(dev) + BasicPiece(x)
  {
    assert (dev + [x])[..|dev|] == dev;
  }

  /** Characters outside the table, matras and Latin text among them, are
      kept as they are. */
  lemma {:induction false} TranslitKeepsUntabled(dev: string)
    requires forall i :: 0 <= i < |dev| ==> dev[i] !in BasicLatin
    ensures Translit(dev) == dev
    decreases |dev|
  {
    if dev != [] {
      var init, x := dev[..|dev| - 1], dev[|dev| - 1];
      TranslitKeepsUntabled(init);
      assert init + [x] == dev;
      TranslitSnoc(init, x);
    }
  }

  /** The loop of `translit_basic`, appending to `out`. */
  method TranslitBasic(dev: string) returns (r: string)
    ensures r == Translit(dev)
    ensures |r| >= |dev|
  {
    var out := "";
    for i := 0 to |dev|
      invariant out == Translit(dev[..i])
    {
      assert dev[..i + 1][..i] == dev[..i];
      out := out + BasicPiece(dev[i]);
    }
    assert dev[..|dev|] == dev;
    r := out;
    TranslitLonger(dev);
  }

  /* ------------------------------------------------------------ tokens */

  /** A character of `[\wऀ-ॿ]`, with `\w` taken as ASCII. */
  predicate IsTokenChar(c: char)
  {
    IsWordChar(c) || ('\U{0900}' <= c <= '\U{097F}')
  }

  /** The end of the run of token characters that starts at `i`. */
  function RunEnd(s: string, i: nat): (j: nat)
    requires i <= |s|
    ensures i <= j <= |s|
    decreases |s| - i
  {
    if i < |s| && IsTokenChar(s[i]) then RunEnd(s, i + 1) else i
  }

  /** The run is as long as it can be. */
  lemma {:induction false} RunEndMaximal(s: string, i: nat)
    requires i <= |s|
    ensures forall k :: i <= k < RunEnd(s, i) ==> IsTokenChar(s[k])
    ensures RunEnd(s, i) == |s| || !IsTokenChar(s[RunEnd(s, i)])
    decreases |s| - i
  {
    if i < |s| && IsTokenChar(s[i]) {
      RunEndMaximal(s, i + 1);
    }
  }

  /** A token: an optional `#` or `@`, then one or more token characters. */
  predicate IsToken(t: string)
  {
    |t| > 0
    && (IsTokenChar(t[0]) || ((t[0] == '#' || t[0] == '@') && |t| > 1))
    && forall k :: 0 < k < |t| ==> IsTokenChar(t[k])
  }

  /** `re.findall(r"[#@]?[\wऀ-ॿ]+", text)` from position `i`. */
  function TokensFrom(s: string, i: nat): seq<string>
    requires i <= |s|
    decreases |s| - i
  {
    if i == |s| then []
    else if (s[i] == '#' || s[i] == '@') && i + 1 < |s| && IsTokenChar(s[i + 1]) then
      var j := RunEnd(s, i + 1);
      [s[i..j]] + TokensFrom(s, j)
    else if IsTokenChar(s[i]) then
      var j := RunEnd(s, i);
      [s[i..j]] + TokensFrom(s, j)
    else TokensFrom(s, i + 1)
  }

  function FindTokens(text: string): seq<string>
  {
    TokensFrom(text, 0)
  }

  /** Every match is a token. */
  lemma {:induction false} TokensFromAreTokens(s: string, i: nat)
    requires i <= |s|
    ensures forall k :: 0 <= k < |TokensFrom(s, i)| ==> IsToken(TokensFrom(s, i)[k])
    decreases |s| - i
  {
    if i < |s| {
      if (s[i] == '#' || s[i] == '@') && i + 1 < |s| && IsTokenChar(s[i + 1]) {
        RunEndMaximal(s, i + 1);
        TokensFromAreTokens(s, RunEnd(s, i + 1));
      } else if IsTokenChar(s[i]) {
        RunEndMaximal(s, i);
        TokensFromAreTokens(s, RunEnd(s, i));
      } else {
        TokensFromAreTokens(s, i + 1);
      }
    }
  }

  /** Tokens hold no whitespace, so stripping leaves them alone. */
  lemma StripToken(t: string)
    requires IsToken(t)
    ensures PyStrip(t) == t
  {
    assert !IsPySpace(t[0]) && !IsPySpace(t[|t| - 1]);
  }

  /** `tokens or re.findall(…, text or '')`: an absent token list is the
      empty one and an absent text the empty text. */
  function Items(text: string, tokens: seq<string>): seq<string>
  {
    if |tokens| > 0 then tokens else FindTokens(text)
  }

  /* ------------------------------------------------------- normalising */

  /** The spellings kept for one stripped token:
      {base, base.lower(), folded, lat.lower(), loosened}. */
  function Spellings(base: string): set<string>
  {
    var d := Nukta.Fold(base);
    var latLower := Lower(Translit(d));
    {base, Lower(base), d, latLower, Hinglish.Loosen(latLower)}
  }

  lemma SpellingsBounds(base: string)
    ensures base in Spellings(base)
    ensures 1 <= |Spellings(base)| <= 5
  {
    var d := Nukta.Fold(base);
    var latLower := Lower(Translit(d));
    var a := {base, Lower(base)};
    var b := a + {d};
    var c := b + {latLower};
    assert Spellings(base) == c + {Hinglish.Loosen(latLower)};
    assert |a| <= 2;
  }

  /** The table built from a list of items: each non-empty stripped item,
      last occurrence last, maps to `f` of itself. */
  function Tabulate(items: seq<string>, f: string -> set<string>): map<string, set<string>>
    decreases |items|
  {
    if items == [] then map[]
    else
      var m := Tabulate(items[..|items| - 1], f);
      var base := PyStrip(items[|items| - 1]);
      if base == "" then m else m[base := f(base)]
  }

  /** The table `normalize_tokens` builds. */
  function Normalized(items: seq<string>): map<string, set<string>>
  {
    Tabulate(items, Spellings)
  }

  /** The keys are exactly the non-empty stripped items. */
  lemma {:induction false} TabulateKeys(items: seq<string>, f: string -> set<string>, k: string)
    ensures k in Tabulate(items, f) <==> k != "" && exists t :: t in items && PyStrip(t) == k
    decreases |items|
  {
    if items != [] {
      var init, last := items[..|items| - 1], items[|items| - 1];
      TabulateKeys(init, f, k);
      assert items == init + [last];
      TabulateNext(items, f, |items| - 1);
      assert items[..|items|] == items;
      assert k in Tabulate(items, f) <==> k in Tabulate(init, f) || (k != "" && PyStrip(last) == k);
      ListedLast(items, k);
    }
  }

  /** Some item strips to `k` when some earlier item does or the last one does. */
  lemma ListedLast(items: seq<string>, k: string)
    requires items != []
    ensures (exists t :: t in items && PyStrip(t) == k)
        <==> (exists t :: t in items[..|items| - 1] && PyStrip(t) == k) || PyStrip(items[|items| - 1]) == k
  {
    var init, last := items[..|items| - 1], items[|items| - 1];
    assert items == init + [last];
    if t :| t in items && PyStrip(t) == k {
      if t != last {
        assert t in init;
      }
    }
    if t :| t in init && PyStrip(t) == k {
      assert t in items;
    }
    assert last in items;
  }

  /** One more item of the loop. */
  lemma TabulateNext(items: seq<string>, f: string -> set<string>, i: nat)
    requires i < |items|
    ensures Tabulate(items[..i + 1], f)
         == (var base := PyStrip(items[i]);
             if base == "" then Tabulate(items[..i], f) else Tabulate(items[..i], f)[base := f(base)])
  {
    assert items[..i + 1][..i] == items[..i];
  }

  /** Every value is `f` of its key. */
  lemma {:induction false} TabulateValues(items: seq<string>, f: string -> set<string>, k: string)
    requires k in Tabulate(items, f)
    ensures Tabulate(items, f)[k] == f(k)
    decreases |items|
  {
    var init := items[..|items| - 1];
    if k in Tabulate(init, f) {
      TabulateValues(init, f, k);
    }
  }

  /** The keys of `normalize_tokens`'s result are the non-empty stripped
      items, and each maps to its spelling set. */
  lemma NormalizedEntries(items: seq<string>, k: string)
    ensures k in Normalized(items) <==> k != "" && exists t :: t in items && PyStrip(t) == k
    ensures k in Normalized(items) ==> Normalized(items)[k] == Spellings(k)
  {
    TabulateKeys(items, Spellings, k);
    if k in Normalized(items) {
      TabulateValues(items, Spellings, k);
    }
  }

  /** The body of the loop of `normalize_tokens` for one stripped token. */
  method Spell(base: string) returns (variants: set<string>)
    ensures variants == Spellings(base)
    ensures base in variants && 1 <= |variants| <= 5
  {
    var d := Nukta.Fold(base);
    var baseLower := Lower(base);
    var lat := TranslitBasic(d);
    var latLower := Lower(lat);
    var loosened := Hinglish.Loosen(latLower);
    variants := {base, baseLower, d, latLower, loosened};
    SpellingsBounds(base);
  }

  /** The loop of `normalize_tokens`, filling `normalized` item by item. */
  method NormalizeItems(items: seq<string>) returns (normalized: map<string, set<string>>)
    ensures normalized == Normalized(items)
  {
    normalized := map[];
    for i := 0 to |items|
      invariant normalized == Normalized(items[..i])
    {
      TabulateNext(items, Spellings, i);
      var base := PyStrip(items[i]);
      if base == "" {
        continue;
      }
      var variants := Spell(base);
      normalized := normalized[base := variants];
    }
    assert items[..|items|] == items;
  }

  /** `normalize_tokens(text, tokens)`. */
  method NormalizeTokens(text: string, tokens: seq<string>) returns (normalized: map<string, set<string>>)
    ensures normalized == Normalized(Items(text, tokens))
  {
    var items := if |tokens| > 0 then tokens else FindTokens(text);
    normalized := NormalizeItems(items);
  }

  /** Without a token list, the keys are exactly the tokens the scan of the
      text finds. */
  lemma ScannedKeys(text: string, k: string)
    ensures k in Normalized(Items(text, [])) <==> k in FindTokens(text)
  {
    var items := FindTokens(text);
    assert Items(text, []) == items;
    TokensFromAreTokens(text, 0);
    NormalizedEntries(items, k);
    forall t | t in items
      ensures PyStrip(t) == t && t != ""
    {
      var i :| 0 <= i < |items| && items[i] == t;
      assert IsToken(TokensFrom(text, 0)[i]);
      StripToken(t);
    }
  }
}
