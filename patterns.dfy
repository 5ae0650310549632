/** The regular expressions the front end and the mining script share:
    the known-place alternation (identical in src/utils/parse.ts,
    src/utils/metrics.ts, src/utils/alias-miner.ts and
    scripts/mine-aliases.js), `#[^\s#]+` for hashtags and
    `@[A-Za-z0-9_]+` for mentions, each applied with the global flag as
    `text.match(re) || []`. */
module Patterns {
  import opened Text

  /** The alternatives of the place pattern, in the order they are tried.
      Three of them spell the nukta as a separate U+093C. */
  const Places: seq<string> := [
    "नई दिल्ली",
    "नयी दिल्ली",
    "रायगढ़",
    "दिल्ली",
    "रायपुर",
    "भारत",
    "छत्तीसगढ़",
    "खरसिया",
    "गढ़ उमरिया",
    "बस्तर",
    "सरगुजा",
    "जशपुर",
    "बगीचा"
  ]

  /** The first of `alts`, in order, that `t` starts with. */
  function FirstAlt(t: string, alts: seq<string>): (r: Option<string>)
    ensures r.Some? ==> r.value in alts && StartsWith(t, r.value)
    decreases |alts|
  {
    if alts == [] then None
    else if StartsWith(t, alts[0]) then Some(alts[0])
    else FirstAlt(t, alts[1..])
  }

  /** No alternative at all starts the text when the first one found is none. */
  lemma {:induction false} FirstAltNone(t: string, alts: seq<string>, a: string)
    requires FirstAlt(t, alts).None? && a in alts
    ensures !StartsWith(t, a)
    decreases |alts|
  {
    if alts[0] != a {
      FirstAltNone(t, alts[1..], a);
    }
  }

  lemma PlacesNonEmpty()
    ensures forall a :: a in Places ==> |a| >= 3
  {
  }

  /** The global match of an alternation of non-empty literals from
      position `i`: at the leftmost position where some alternative starts,
      the first such alternative is taken and the scan resumes after it. */
  function AltMatchesFrom(s: string, i: nat, alts: seq<string>): seq<string>
    requires i <= |s|
    requires forall a :: a in alts ==> |a| > 0
    decreases |s| - i
  {
    if i == |s| then []
    else
      match FirstAlt(s[i..], alts)
      case Some(p) => [p] + AltMatchesFrom(s, i + |p|, alts)
      case None => AltMatchesFrom(s, i + 1, alts)
  }

  /** `s.match(PLACE_REGEX) || []`. */
  function PlaceMatches(s: string): seq<string>
  {
    PlacesNonEmpty();
    AltMatchesFrom(s, 0, Places)
  }

  /** Every match is one of the alternatives and occurs in the text. */
  lemma {:induction false} AltMatchesFromSound(s: string, i: nat, alts: seq<string>)
    requires i <= |s|
    requires forall a :: a in alts ==> |a| > 0
    ensures forall t :: t in AltMatchesFrom(s, i, alts) ==> t in alts && Contains(s, t)
    decreases |s| - i
  {
    if i < |s| {
      match FirstAlt(s[i..], alts)
      case Some(p) =>
        AltMatchesFromSound(s, i + |p|, alts);
        assert s[i..][..|p|] == s[i..i + |p|];
        ContainsAt(s, p, i);
      case None =>
        AltMatchesFromSound(s, i + 1, alts);
    }
  }

  lemma PlaceMatchesSound(s: string)
    ensures forall t :: t in PlaceMatches(s) ==> t in Places && Contains(s, t)
  {
    PlacesNonEmpty();
    AltMatchesFromSound(s, 0, Places);
  }

  /** If no alternative starts anywhere at or after `i`, nothing matches. */
  lemma {:induction false} AltMatchesFromNone(s: string, i: nat, alts: seq<string>)
    requires i <= |s|
    requires forall a :: a in alts ==> |a| > 0
    requires forall k, a :: i <= k < |s| && a in alts ==> !StartsWith(s[k..], a)
    ensures AltMatchesFrom(s, i, alts) == []
    decreases |s| - i
  {
    if i < |s| {
      AltMatchesFromNone(s, i + 1, alts);
    }
  }

  /* ------------------------------------------- a lead character and a run */

  /** Where the run of `body` characters starting at `i` ends. */
  function BodyEnd(s: string, i: nat, body: char -> bool): (j: nat)
    requires i <= |s|
    ensures i <= j <= |s|
    ensures i < |s| && body(s[i]) ==> i < j
    decreases |s| - i
  {
    if i < |s| && body(s[i]) then BodyEnd(s, i + 1, body) else i
  }

  lemma {:induction false} BodyEndMaximal(s: string, i: nat, body: char -> bool)
    requires i <= |s|
    ensures forall k :: i <= k < BodyEnd(s, i, body) ==> body(s[k])
    ensures BodyEnd(s, i, body) == |s| || !body(s[BodyEnd(s, i, body)])
    decreases |s| - i
  {
    if i < |s| && body(s[i]) {
      BodyEndMaximal(s, i + 1, body);
    }
  }

  /** The global match of `<lead><body>+` from position `i`; the run is
      greedy, and a failed attempt resumes one character later. */
  function LeadMatchesFrom(s: string, i: nat, lead: char, body: char -> bool): seq<string>
    requires i <= |s|
    decreases |s| - i
  {
    if i == |s| then []
    else if s[i] == lead && i + 1 < |s| && body(s[i + 1]) then
      var j := BodyEnd(s, i + 1, body);
      [s[i..j]] + LeadMatchesFrom(s, j, lead, body)
    else LeadMatchesFrom(s, i + 1, lead, body)
  }

  /** A match of `<lead><body>+`. */
  predicate IsLeadRun(t: string, lead: char, body: char -> bool)
  {
    |t| >= 2 && t[0] == lead && forall k :: 1 <= k < |t| ==> body(t[k])
  }

  lemma {:induction false} LeadMatchesFromSound(s: string, i: nat, lead: char, body: char -> bool)
    requires i <= |s|
    ensures forall t :: t in LeadMatchesFrom(s, i, lead, body) ==> IsLeadRun(t, lead, body) && Contains(s, t)
    decreases |s| - i
  {
    if i < |s| {
      if s[i] == lead && i + 1 < |s| && body(s[i + 1]) {
        var j := BodyEnd(s, i + 1, body);
        BodyEndMaximal(s, i + 1, body);
        LeadMatchesFromSound(s, j, lead, body);
        ContainsAt(s, s[i..j], i);
      } else {
        LeadMatchesFromSound(s, i + 1, lead, body);
      }
    }
  }

  /** A character of `[^\s#]`. */
  predicate IsHashtagChar(c: char)
  {
    !IsJsSpace(c) && c != '#'
  }

  /** `s.match(/#[^\s#]+/g) || []`. */
  function HashtagMatches(s: string): seq<string>
  {
    LeadMatchesFrom(s, 0, '#', IsHashtagChar)
  }

  /** `s.match(/@[A-Za-z0-9_]+/g) || []`. */
  function MentionMatches(s: string): seq<string>
  {
    LeadMatchesFrom(s, 0, '@', IsWordChar)
  }

  /** Every hashtag found is `#` and then one or more characters that are
      neither whitespace nor `#`, taken from the text. */
  lemma HashtagMatchesSound(s: string)
    ensures forall t :: t in HashtagMatches(s) ==> IsLeadRun(t, '#', IsHashtagChar) && Contains(s, t)
  {
    LeadMatchesFromSound(s, 0, '#', IsHashtagChar);
  }

  /** Every mention found is `@` and then one or more ASCII word characters,
      taken from the text. */
  lemma MentionMatchesSound(s: string)
    ensures forall t :: t in MentionMatches(s) ==> IsLeadRun(t, '@', IsWordChar) && Contains(s, t)
  {
    LeadMatchesFromSound(s, 0, '@', IsWordChar);
  }

  /* -------------------------------------------------------- keywords */

  /** The action keywords, in order (the same list in src/utils/parse.ts
      and src/utils/metrics.ts). */
  const Actions: seq<string> := [
    "बैठक",
    "समापन",
    "शिलान्यास",
    "निरीक्षण",
    "भूमिपूजन",
    "उद्घाटन",
    "संवाद",
    "जन्मदिन",
    "स्वागत",
    "नमन",
    "प्रार्थना",
    "शुभकामनायें",
    "लोकार्पण",
    "समीक्षा",
    "समारोह",
    "सम्मिलित"
  ]

  /** The keywords the text contains, in keyword order:
      `for (const k of keywords) if (content.includes(k)) what.push(k)`. */
  function Mentioned(keywords: seq<string>, content: string): seq<string>
    decreases |keywords|
  {
    if keywords == [] then []
    else
      var k := keywords[|keywords| - 1];
      Mentioned(keywords[..|keywords| - 1], content) + (if Contains(content, k) then [k] else [])
  }

  /** Exactly the contained keywords, each once when the list repeats none. */
  lemma {:induction false} MentionedSpec(keywords: seq<string>, content: string)
    ensures forall x :: x in Mentioned(keywords, content) <==> x in keywords && Contains(content, x)
    ensures NoDup(keywords) ==> NoDup(Mentioned(keywords, content))
    ensures |Mentioned(keywords, content)| <= |keywords|
    decreases |keywords|
  {
    if keywords != [] {
      var init := keywords[..|keywords| - 1];
      var k := keywords[|keywords| - 1];
      MentionedSpec(init, content);
      assert keywords == init + [k];
      if NoDup(keywords) {
        assert NoDup(init) by {
          forall i, j | 0 <= i < j < |init|
            ensures init[i] != init[j]
          {
            assert init[i] == keywords[i] && init[j] == keywords[j];
          }
        }
        assert k !in init by {
          forall i | 0 <= i < |init|
            ensures init[i] != k
          {
            assert init[i] == keywords[i];
          }
        }
      }
    }
  }

  /** That loop. */
  method CollectMentioned(keywords: seq<string>, content: string) returns (what: seq<string>)
    ensures what == Mentioned(keywords, content)
  {
    what := [];
    for i := 0 to |keywords|
      invariant what == Mentioned(keywords[..i], content)
    {
      assert keywords[..i + 1][..i] == keywords[..i];
      if Contains(content, keywords[i]) {
        what := what + [keywords[i]];
      }
    }
    assert keywords[..|keywords|] == keywords;
  }

  lemma ActionsNoDup()
    ensures NoDup(Actions)
  {
  }

  /* ------------------------------------------------- over many posts */

  /** Every hashtag match of the posts, post after post. */
  function MatchedHashtags(posts: seq<string>): seq<string>
    decreases |posts|
  {
    if posts == [] then []
    else MatchedHashtags(posts[..|posts| - 1]) + HashtagMatches(posts[|posts| - 1])
  }

  /** Every place match of the posts, post after post. */
  function MatchedPlaces(posts: seq<string>): seq<string>
    decreases |posts|
  {
    if posts == [] then []
    else MatchedPlaces(posts[..|posts| - 1]) + PlaceMatches(posts[|posts| - 1])
  }
}
