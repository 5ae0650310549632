# Dhruv: search keys, alias tables, post parsing and counters

Dhruv collects social-media posts written in Hindi, in Hinglish (Hindi in
Latin letters) and in English, and makes them searchable by tag and by place.
This project models the string and table logic underneath, with the
behaviour it has in the repository:

- **Search keys and flexible matching** (`src/utils/tag-search.ts`,
  `api/src/parsing/normalization.py`, the helpers of
  `scripts/mine-aliases.js`):
  - nukta folding and removal of combining marks;
  - table-driven Devanagari-to-Latin transliteration and Hinglish loosening;
  - the variant and synonym sets built for a tag;
  - the substring match between the key sets of two tags.
- **Alias tables**:
  - validation of `aliases.json` and the variant-to-canonical index of
    `alias_loader.py`;
  - the lower-case lookup map and the hashtag enrichment of `alias-enrich.ts`;
  - mining new variant suggestions from posts in `alias-miner.ts` and
    `mine-aliases.js`.
- **Post extraction and counting**:
  - the Hindi date line and place, action, hashtag and mention extraction
    of `parse.ts`;
  - tally and top-N ranking in `metrics.ts`;
  - the counter registry of `api/src/metrics.py`.
- **The TODO rewriter** `scripts/update-todo.js`: it validates the task id,
  rewrites the task's line as completed, and restamps the "Last Updated"
  header.

Strings are sequences of code points. JavaScript `Set`s whose order can be
seen are modelled as duplicate-free sequences. Python sets are modelled as
Dafny sets, and dictionaries and plain objects as maps. A map filled by a
loop is described as the writes the loop performs, in order
(`Maps.Assign`), so last-writer-wins can be stated exactly.

Parsed JSON (`aliases.json`, the posts) is passed in as a value. So are the
current time and the contents of the TODO file.

Modules follow the source files: `TagSearch`, `Normalization`, `AliasLoader`,
`AliasEnrich`, `AliasMiner`, `MineAliases`, `Metrics`, `Parse`, `Counters` and
`UpdateTodo`. Shared modules hold code several files use:

- `Nukta`: the nukta table and combining-mark class, which `tag-search.ts`
  and `normalization.py` share;
- `Patterns`: the PLACE, HASHTAG and MENTION regular expressions and the
  action keywords;
- `Hinglish`: Python's loosening chain;
- `Text`: JavaScript and Python string primitives;
- `JsonData`: parsed JSON values;
- `Maps`: maps filled by a sequence of writes.

Where the code and its description differ, the model follows the code:

- `translit_basic` has no matra table.
- `validate_aliases` does not check the range of `confidence`.
- The "unmapped Devanagari" branch of `transliterateDevanagariToLatin` can
  never be taken.

## Model

| member | source | states |
|---|---|---|
| JsonData.Get | api/src/parsing/alias_loader.py:34 | `d.get(key)`: present exactly when a member has the key, and then the value of the last such member, as a parsed object keeps it |
| TagSearch.StripHashAt | src/utils/tag-search.ts:49-51 | the result is the input with at most its first character removed, and that character is removed exactly when it is `#` or `@` |
| Nukta.MapBase | src/utils/tag-search.ts:53-57 | the per-character nukta map keeps the length and leaves no nukta letter |
| Nukta.RemoveCombining | src/utils/tag-search.ts:47-58 | no nukta, virama, ZWJ, ZWNJ or variation selector is left, and removal cannot reintroduce a nukta letter |
| Nukta.Fold | api/src/parsing/normalization.py:4-12 | `replaceNukta` / `fold_nukta`: the result is never longer and is fully folded (no nukta letter, no combining mark) |
| Nukta.FoldOfFolded | api/src/parsing/normalization.py:11-12 | a folded string is a fixed point |
| Nukta.FoldIdempotent | src/utils/tag-search.ts:53-59 | folding twice is folding once |
| Nukta.FoldConcat | api/src/parsing/normalization.py:11-12 | folding works character by character: it distributes over concatenation |
| Nukta.FoldChar | api/src/parsing/normalization.py:4-12 | one character folds to nothing if it is combining, else to its base letter |
| Nukta.FoldZila | api/src/parsing/normalization.py:11-12 | `ज़िला` written with a separate nukta folds to `जिला` |
| Nukta.FoldZilaPrecomposed | api/src/parsing/normalization.py:4-6 | `ज़िला` with the precomposed letter U+095B folds to `जिला` |
| TagSearch.UnmappedBranchDead | src/utils/tag-search.ts:73 | the bracket-less pattern `/ऀ-ॿ/` is found in no one-character string, so that branch never runs |
| TagSearch.PieceCopies | src/utils/tag-search.ts:69-77 | a character in neither table is copied unchanged |
| TagSearch.PiecesOfUntabled | src/utils/tag-search.ts:68-79 | a text with no tabled character is copied unchanged by the loop |
| TagSearch.TransliteratedOfUntabled | src/utils/tag-search.ts:65-81 | on a folded text with no tabled character, transliteration is only lower-casing |
| TagSearch.AppendPieces | src/utils/tag-search.ts:68-79 | the loop's output is each character's piece, with the matra table consulted before the letter table |
| TagSearch.TransliterateDevanagariToLatin | src/utils/tag-search.ts:65-81 | the result is the folded input, piece by piece, lower-cased, and holds no upper-case letter |
| TagSearch.Loosen | src/utils/tag-search.ts:90-100 | the nine rewrites never lengthen a string |
| TagSearch.Bases | src/utils/tag-search.ts:84-88 | there are exactly six base spellings |
| TagSearch.Forms | src/utils/tag-search.ts:107 | there are exactly six forms per base |
| TagSearch.VariantsContainBase | src/utils/tag-search.ts:83-111 | the variants contain the spelling and its `aa`-collapsed form |
| TagSearch.AddForms | src/utils/tag-search.ts:106-109 | the nested loop adds the forms of every base in order, once each |
| TagSearch.CollapseVariants | src/utils/tag-search.ts:83-111 | the result is duplicate-free, has at most 36 elements, and contains `lat` and `lat` with `aa`→`a` |
| TagSearch.AddSynonyms | src/utils/tag-search.ts:126-140 | the synonyms are added for the snapshot of the keys, so added synonyms are not themselves expanded |
| TagSearch.BuildSearchKeys | src/utils/tag-search.ts:113-142 | the keys are the base keys followed by their synonyms, with no duplicates |
| TagSearch.KeysContainBase | src/utils/tag-search.ts:114-118 | the stripped lower-cased tag and its nukta-folded form are always keys |
| TagSearch.BaseKeysContainTag | src/utils/tag-search.ts:114-115 | the stripped lower-cased tag is the first base key |
| TagSearch.NoLatinVariantsWithoutDevanagari | src/utils/tag-search.ts:120-123 | without a U+0900–U+097F character, the only keys are the tag, its folded form and synonyms |
| TagSearch.RaigarhBothSpellings | src/utils/tag-search.ts:134-136 | when any key matches `raigarh`, `raygarh` or `रायगढ़`, both `raigarh` and `raygarh` are keys |
| TagSearch.RaigarhWordMatches | src/utils/tag-search.ts:134 | `raigarh` satisfies the word-bounded Raigarh test |
| TagSearch.RaigarhExample | src/utils/tag-search.ts:113-142 | the keys of `raigarh` include `raygarh` |
| TagSearch.FindRelated | src/utils/tag-search.ts:150-155 | the nested loop returns true exactly when some tag key and some query key contain one another |
| TagSearch.MatchTagFlexible | src/utils/tag-search.ts:145-158 | the result is the flexible-match relation, which `matchTextFlexible` shares |
| TagSearch.MatchEmpty | src/utils/tag-search.ts:146 | an empty tag or query never matches |
| TagSearch.MatchSymmetric | src/utils/tag-search.ts:145-156 | matching is symmetric in its two arguments |
| TagSearch.MatchReflexive | src/utils/tag-search.ts:145-156 | a non-empty tag matches itself |
| TagSearch.MatchNuktaVariants | src/utils/tag-search.ts:117-118 | two non-empty tags whose folded keys agree match |
| TagSearch.FoldRozgar | src/utils/tag-search.ts:53-59 | `रोज़गार` folds to `रोजगार` |
| TagSearch.RozgarMatchesRojgar | src/utils/tag-search.ts:145-158 | `#रोज़गार` matches `#रोजगार` |
| Hinglish.Loosen | api/src/parsing/normalization.py:28-35 | the five replacements, applied once each in order, never lengthen the text and leave no `ph` |
| Hinglish.LoosenWithoutH | api/src/parsing/normalization.py:28-35 | a text without `h` is unchanged |
| Normalization.BasicPiece | api/src/parsing/normalization.py:17-24 | each character maps to a non-empty string, and one outside the table to itself |
| Normalization.TranslitLonger | api/src/parsing/normalization.py:15-25 | the output is never shorter than the input |
| Normalization.TranslitConcat | api/src/parsing/normalization.py:23-25 | transliteration works character by character: it distributes over concatenation |
| Normalization.TranslitKeepsUntabled | api/src/parsing/normalization.py:24 | characters outside the table, matras included, are kept |
| Normalization.TranslitBasic | api/src/parsing/normalization.py:15-25 | the loop computes the per-character transliteration, never shorter than its input |
| Normalization.RunEndMaximal | api/src/parsing/normalization.py:39 | the scan takes the longest run of word or Devanagari characters |
| Normalization.TokensFromAreTokens | api/src/parsing/normalization.py:39 | every scanned token is an optional `#`/`@` followed by a non-empty run |
| Normalization.StripToken | api/src/parsing/normalization.py:42 | `strip()` leaves a scanned token unchanged |
| Normalization.SpellingsBounds | api/src/parsing/normalization.py:45-50 | the value set contains the base and has one to five distinct elements |
| Normalization.TabulateKeys | api/src/parsing/normalization.py:41-50 | the keys are exactly the non-empty stripped items |
| Normalization.TabulateValues | api/src/parsing/normalization.py:50 | each value is computed from its own key |
| Normalization.NormalizedEntries | api/src/parsing/normalization.py:38-51 | a key is present exactly when some item strips to it, and its value is that key's spelling set |
| Normalization.Spell | api/src/parsing/normalization.py:45-50 | the spelling set contains the base and has one to five elements |
| Normalization.NormalizeItems | api/src/parsing/normalization.py:40-51 | the loop builds the normalised table of the items |
| Normalization.NormalizeTokens | api/src/parsing/normalization.py:38-51 | the items are the tokens when given, else the scan of the text |
| Normalization.ScannedKeys | api/src/parsing/normalization.py:39 | with no tokens, the keys are exactly the tokens the scan finds |
| AliasLoader.CheckPayload | api/src/parsing/alias_loader.py:38-45 | an accepted payload reports `ok` |
| AliasLoader.CheckPayloadIff | api/src/parsing/alias_loader.py:38-45 | a payload is accepted exactly when it is a dict, has a list `variants`, and has a number `confidence` if any |
| AliasLoader.CheckEntries | api/src/parsing/alias_loader.py:37-45 | an accepted table reports `ok` |
| AliasLoader.CheckEntriesIff | api/src/parsing/alias_loader.py:37-45 | a table is accepted exactly when every payload is; otherwise the first bad payload's message is returned |
| AliasLoader.CheckDomain | api/src/parsing/alias_loader.py:34-45 | an accepted domain reports `ok` |
| AliasLoader.ValidateAliases | api/src/parsing/alias_loader.py:30-46 | a non-dict root gives `(False, 'root not dict')`, and success reports `ok` |
| AliasLoader.ValidateIff | api/src/parsing/alias_loader.py:30-46 | validation succeeds exactly when the root is a dict and both domains, missing ones counting as empty, hold only good payloads |
| AliasLoader.MinimalValid | api/src/parsing/alias_loader.py:30-46 | `{'tags': {'x': {'variants': []}}, 'locations': {}}` validates ok |
| AliasLoader.EmptyValid | api/src/parsing/alias_loader.py:34 | `{}` validates ok |
| AliasLoader.VariantsNotListRejected | api/src/parsing/alias_loader.py:42-43 | a string `variants` gives `tags.x.variants not list` |
| AliasLoader.EntryWrites | api/src/parsing/alias_loader.py:20-24 | one entry writes its canonical, then each listed variant, all to `(domain, canonical)` |
| AliasLoader.PayloadWrites | api/src/parsing/alias_loader.py:20-21 | one payload write per entry, under `(domain, canonical)`, with the payload unchanged |
| AliasLoader.AliasIndex.constructor | api/src/parsing/alias_loader.py:7-27 | version defaults to 1; both indexes are the tags writes followed by the locations writes |
| AliasLoader.AliasIndex.IngestEntry | api/src/parsing/alias_loader.py:19-24 | one entry's writes are performed on both maps, and nothing else changes |
| AliasLoader.AliasIndex.Ingest | api/src/parsing/alias_loader.py:18-24 | `ingest` performs its table's writes in order, and nothing else changes |
| AliasLoader.VariantWritesDomain | api/src/parsing/alias_loader.py:22-24 | every write of `ingest(domain, …)` names that domain |
| AliasLoader.VariantWritesCover | api/src/parsing/alias_loader.py:22-24 | every canonical and every listed variant is written |
| AliasLoader.IndexCoversListed | api/src/parsing/alias_loader.py:17-27 | after construction, every canonical and listed variant of either domain is a key of `variant_to_canonical` |
| AliasLoader.LocationsWin | api/src/parsing/alias_loader.py:26-27 | a string written by `locations` maps to a locations entry |
| AliasLoader.IndexLastWriterWins | api/src/parsing/alias_loader.py:22-27 | every key maps to its last write |
| AliasLoader.PayloadWritesKeys | api/src/parsing/alias_loader.py:20-21 | the payload keys of a domain are exactly its `(domain, canonical)` pairs |
| AliasLoader.PayloadsExact | api/src/parsing/alias_loader.py:20-21 | `canonical_payload` holds exactly the `(domain, canonical)` pairs of both domains |
| AliasLoader.PayloadStored | api/src/parsing/alias_loader.py:21 | each payload is stored unchanged |
| AliasLoader.LoadAliases | api/src/parsing/alias_loader.py:49-57 | `ValueError('aliases.json invalid: …')` exactly when validation fails; otherwise the built index (or Python's `TypeError` for an unhashable variant) |
| AliasEnrich.EntryWrites | src/utils/alias-enrich.ts:13-18 | the lower-cased canonical maps to `{tag: canonical}`, then each variant to `{tag: variant}`, all with the entry's domain and canonical |
| AliasEnrich.AddEntry | src/utils/alias-enrich.ts:13-18 | one entry's writes are applied to the map |
| AliasEnrich.AddDomain | src/utils/alias-enrich.ts:11-19 | one domain's writes are applied in key order |
| AliasEnrich.BuildVariantMap | src/utils/alias-enrich.ts:7-22 | the map is the tags writes followed by the locations writes |
| AliasEnrich.VariantMapSound | src/utils/alias-enrich.ts:7-22 | every entry's key is its lower-cased tag, and its domain and canonical exist in the aliases |
| AliasEnrich.VariantMapCovers | src/utils/alias-enrich.ts:14-18 | every canonical and every array variant, lower-cased, is a key |
| AliasEnrich.LocationsOverwriteTags | src/utils/alias-enrich.ts:9-10 | a key written by `locations` holds a locations entry |
| AliasEnrich.DomainWritesDomain | src/utils/alias-enrich.ts:10-19 | every write of a domain names that domain |
| AliasEnrich.LastWriteWins | src/utils/alias-enrich.ts:14-17 | every key holds its last write |
| AliasEnrich.HitsBounded | src/utils/alias-enrich.ts:26-34 | the hits number at most the hashtags and all come from the map |
| AliasEnrich.EnrichHashtags | src/utils/alias-enrich.ts:26-34 | the output is exactly the map hits, in input order, and is no longer than the input |
| AliasEnrich.HitsAsWrittenOne | src/utils/alias-enrich.ts:29-31 | as written, a key that is missing but names an inherited property of a plain object is also a hit |
| AliasEnrich.ConstructorKey | src/utils/alias-enrich.ts:29 | the lookup key of `#constructor` is `constructor` |
| AliasEnrich.ConstructorHashtag | src/utils/alias-enrich.ts:30-31 | `#constructor` is a hit as written but not in the own-key lookup |
| AliasMiner.ToKeys | src/utils/alias-miner.ts:21-23 | element-wise `toKey` |
| AliasMiner.Remove | src/utils/alias-miner.ts:27-28 | `Set.delete` removes exactly that value |
| AliasMiner.RemoveEach | src/utils/alias-miner.ts:29 | the deletions remove exactly the given keys |
| AliasMiner.CandidatesSpec | src/utils/alias-miner.ts:25-29 | the candidates are exactly the input variants that are non-empty, not `toKey(canonical)` and not `toKey` of an existing variant |
| AliasMiner.PrunedSpec | src/utils/alias-miner.ts:25-31 | at most 20 distinct new variants, each of length ≥ 2; with fewer than 20, all such variants are kept |
| AliasMiner.AddVariants | src/utils/alias-miner.ts:25-32 | `addVariants` returns the pruned candidates |
| AliasMiner.DeleteEach | src/utils/alias-miner.ts:29 | the loop of deletions removes the given keys |
| AliasMiner.CountAll | src/utils/alias-miner.ts:40-42 | the counting loop adds each match to the counts |
| AliasMiner.CountMatches | src/utils/alias-miner.ts:38-43 | the counts are the tallies of all hashtag and all place matches |
| AliasMiner.HashtagCountsTotal | src/utils/alias-miner.ts:38-40 | a hashtag's count is the number of its matches over all posts |
| AliasMiner.PlaceCountsTotal | src/utils/alias-miner.ts:41-42 | a place's count is the number of its matches over all posts |
| AliasMiner.InsertByCountSpec | src/utils/alias-miner.ts:49 | inserting keeps counts descending and adds exactly the entry |
| AliasMiner.SortByCountSpec | src/utils/alias-miner.ts:49 | the sort orders by descending count and is a permutation |
| AliasMiner.DropHash | src/utils/alias-miner.ts:50 | the result is the input or the input without a leading `#`, and it is the input exactly when there was no `#` |
| AliasMiner.AssignSuggestions | src/utils/alias-miner.ts:49-56 | the loop over sorted entries writes the non-empty suggestions in order |
| AliasMiner.SuggestFor | src/utils/alias-miner.ts:50-54 | a tag's canonical drops its `#` and a place's is the raw match; the variants are the pruned keys |
| AliasMiner.Suggest | src/utils/alias-miner.ts:49-66 | a mining loop's table is its writes over the entries sorted by count |
| AliasMiner.MineAliasesFromPosts | src/utils/alias-miner.ts:34-69 | the suggestions for tags and for locations, from the counted matches |
| AliasMiner.SuggestedAcceptable | src/utils/alias-miner.ts:54-55 | a non-empty suggestion has at most 20 distinct new variants of length ≥ 2 |
| AliasMiner.SuggestionsAcceptable | src/utils/alias-miner.ts:55-65 | every stored suggestion is non-empty and acceptable |
| AliasMiner.SuggestionsComplete | src/utils/alias-miner.ts:55-65 | every counted entry with a non-empty suggestion has its canonical in the table |
| MineAliases.StripText | scripts/mine-aliases.js:9-11 | the result is no longer than the input and holds no upper-case letter |
| MineAliases.Strip | scripts/mine-aliases.js:9-11 | a falsy value strips to `''`, and a string to its stripped text |
| MineAliases.StripAll | scripts/mine-aliases.js:67 | element-wise `strip` |
| MineAliases.StripTexts | scripts/mine-aliases.js:66 | element-wise `strip` on strings |
| MineAliases.ToLatin | scripts/mine-aliases.js:28-39 | the transliteration holds no upper-case letter |
| MineAliases.PieceTables | scripts/mine-aliases.js:29-37 | matras are checked first; `ं`/`ँ` give `n` and `ः` gives `h`; other characters are copied |
| MineAliases.ToLatinOfUntabled | scripts/mine-aliases.js:33-38 | untabled text is only lower-cased |
| MineAliases.AppendPieces | scripts/mine-aliases.js:33-37 | the loop appends each character's piece |
| MineAliases.DevanagariToLatin | scripts/mine-aliases.js:28-39 | the method computes the transliteration |
| MineAliases.InsertSchwaStart | scripts/mine-aliases.js:19 | with two leading consonants, one `a` goes between them; otherwise nothing changes |
| MineAliases.Forms | scripts/mine-aliases.js:23 | six forms, the first being the base |
| MineAliases.VariantsSpec | scripts/mine-aliases.js:13-26 | the variants are duplicate-free, at most 12, and contain `lat` and its `aa`-collapsed form |
| MineAliases.CollapseVariants | scripts/mine-aliases.js:13-26 | the loop builds the variant set |
| MineAliases.KeysSpec | scripts/mine-aliases.js:41-48 | `strip(raw)` is always a key, and Latin variants come only when `raw` starts with Devanagari or `#` |
| MineAliases.BuildKeys | scripts/mine-aliases.js:41-48 | the method builds the key set |
| MineAliases.NewVars | scripts/mine-aliases.js:67 | the new variants are exactly the stripped keys that are non-empty, not stripped existing variants and not the stripped canonical, with no duplicates |
| MineAliases.MergeMatch | scripts/mine-aliases.js:63-68 | one match performs one merge step |
| MineAliases.MergeMatches | scripts/mine-aliases.js:63-77 | the loop over the matches merges each one in order |
| MineAliases.MineSuggestions | scripts/mine-aliases.js:58-78 | the suggestions are the merges over all hashtag and place matches |
| MineAliases.MergeStepSpec | scripts/mine-aliases.js:68 | a merge keeps the table sound, extends the old list, holds exactly the old and the new variants, and touches no other canonical |
| MineAliases.MergeStepMembers | scripts/mine-aliases.js:68 | a merge loses no variant, adds the new ones under the canonical, and brings in no others |
| MineAliases.FreshForNew | scripts/mine-aliases.js:67 | every match's new variants are new for its canonical |
| MineAliases.MergeAllSound | scripts/mine-aliases.js:61-78 | merging keeps every list non-empty and new, and never drops a variant |
| MineAliases.MinedSound | scripts/mine-aliases.js:58-78 | every mined list, for tags and for locations, is non-empty, duplicate-free and new |
| MineAliases.MergeAllByComplete | scripts/mine-aliases.js:63-68 | every new variant of every match is listed under that match's canonical once all matches are merged |
| MineAliases.MergeAllByOrigin | scripts/mine-aliases.js:63-76 | every listed variant was already there or is a new variant of a match with that canonical |
| MineAliases.MergeAllOrigin | scripts/mine-aliases.js:63-76 | from an empty table, every suggested variant is a new variant of a match with that canonical |
| MineAliases.MergeAllComplete | scripts/mine-aliases.js:63-76 | every new variant of a match is suggested under the match's canonical |
| MineAliases.MergeAllExact | scripts/mine-aliases.js:63-76 | a variant is suggested under a canonical exactly when it is new for some match with that canonical |
| MineAliases.MinedTagsExact | scripts/mine-aliases.js:58-68 | `tags[c]` holds `k` exactly when some hashtag of the posts has canonical `c` and `k` among its new variants |
| MineAliases.MinedPlacesExact | scripts/mine-aliases.js:58-77 | `locations[c]` holds `k` exactly when the posts name place `c` and `k` is among its new variants |
| Metrics.Tally | src/utils/metrics.ts:6-13 | the loop computes the tally |
| Metrics.TalliedSpec | src/utils/metrics.ts:6-13 | each count is the number of occurrences; empty strings are ignored; keys are distinct and counts positive |
| Metrics.BeforeOrder | src/utils/metrics.ts:17 | count-descending, key-ascending order is a strict total order |
| Metrics.InsertSpec | src/utils/metrics.ts:17 | insertion keeps the rank order and adds exactly the entry |
| Metrics.SortEntriesSpec | src/utils/metrics.ts:17 | the sort is ranked and a permutation |
| Metrics.TopNSpec | src/utils/metrics.ts:15-20 | `min(n, entries)` entries, ranked, a sub-multiset of the tally, and none left out ranks before one kept |
| Metrics.SortKeysDistinct | src/utils/metrics.ts:16-17 | sorting entries whose keys are distinct keeps them distinct |
| Metrics.TopNKeysDistinct | src/utils/metrics.ts:15-20 | over a tally with distinct keys, each key is listed at most once, with the count the tally gives it |
| Metrics.ComputeMetrics | src/utils/metrics.ts:42-59 | the top 5 places and the top 10 actions of the per-post deduplicated lists |
| Metrics.TopPlacesCounted | src/utils/metrics.ts:45-56 | each of the top places is a known place, listed once, counted as often as the posts name it |
| Metrics.TopActionsCounted | src/utils/metrics.ts:46-57 | each of the top actions is a known action keyword, listed once, counted as often as the posts name it |
| Metrics.PlaceCountsBounded | src/utils/metrics.ts:45 | a place is counted at most once per post and is a known place |
| Metrics.ActionCountsBounded | src/utils/metrics.ts:47 | an action is counted at most once per post and is a known keyword |
| Counters.Initial | api/src/metrics.py:3-7 | exactly the three counters, all 0 |
| Counters.Bumped | api/src/metrics.py:10-11 | only `name` changes, by `by` from its value or 0 |
| Counters.BumpedTwice | api/src/metrics.py:10-11 | two increments of one name equal one increment by the sum |
| Counters.BumpedCommute | api/src/metrics.py:10-11 | increments of different names commute |
| Counters.BumpedFresh | api/src/metrics.py:11 | an unknown name is created, starting from 0 |
| Counters.InitialThenBump | api/src/metrics.py:3-11 | incrementing a built-in counter keeps the same three names |
| Counters.Registry.constructor | api/src/metrics.py:3-7 | the registry starts as the initial counters |
| Counters.Registry.Inc | api/src/metrics.py:10-11 | `inc` updates the counters in place |
| Counters.Registry.Snapshot | api/src/metrics.py:14-15 | `snapshot` returns a value copy equal to the counters and changes nothing |
| Parse.CivilFromDays | src/utils/parse.ts:23-27 | the UTC month is in 1..12 and the day in 1..31 |
| Parse.CivilRoundTrip | src/utils/parse.ts:23-27 | the date's fields count back to the same day |
| Parse.WeekDay | src/utils/parse.ts:24 | the weekday indexes the seven day names |
| Parse.FormatHindiDate | src/utils/parse.ts:20-28 | `''` exactly when the time is unparsable or out of `Date` range |
| Parse.FormatExample | src/utils/parse.ts:20-28 | 2025-09-05T10:30:00Z gives `शुक्रवार, 05 सितंबर 2025` |
| Parse.GroupEnd | src/utils/parse.ts:69 | the lazy group ends at least two characters on, where `\s+में` follows |
| Parse.InGroupsFromClass | src/utils/parse.ts:69 | every captured group consists of characters of the class |
| Parse.PlacesHaveMarks | src/utils/parse.ts:31 | every place alternative contains a combining mark |
| Parse.HeuristicNeverFires | src/utils/parse.ts:68-77 | as written, the `में` heuristic adds nothing, so `where` is the deduplicated direct matches |
| Parse.RaigarhGroup | src/utils/parse.ts:69 | with marks in the class, `रायगढ़ में` captures `रायगढ़` |
| Parse.RaigarhKnown | src/utils/parse.ts:74 | `रायगढ़` is found as a known place |
| Parse.HeuristicFindsRaigarh | src/utils/parse.ts:68-77 | with marks in the class, the heuristic finds `रायगढ़` before `में` |
| Parse.HeuristicInKnown | src/utils/parse.ts:74-75 | the heuristic adds only known places |
| Parse.Prefixed | src/utils/parse.ts:87 | each keyword prefixed with `#` |
| Parse.TagKeywords | src/utils/parse.ts:84-92 | a keyword loop collects the contained keywords and adds `#k` for each |
| Parse.AddKnown | src/utils/parse.ts:70-77 | the heuristic loop adds each found place |
| Parse.ParsePost | src/utils/parse.ts:62-105 | the date line; the places (as written: the distinct regex matches only; with the corrected class, also the heuristic's); the actions in table order; distinct mentions; the hashtag set; and `how`, the prefix of the trimmed content of length `min(180, length)` |
| Parse.WhereSound | src/utils/parse.ts:64-78 | `where` has no duplicates, and every element is a known place matched directly or by the heuristic |
| Parse.HashtagsSound | src/utils/parse.ts:80-94 | `hashtags` has no duplicates, and each is a match or `#k` for a contained keyword |
| Parse.HashtagsComplete | src/utils/parse.ts:80-92 | every hashtag match, and `#k` for every action or noun keyword the text contains, is in `hashtags` |
| Patterns.FirstAlt | src/utils/parse.ts:31 | the first alternative matching at a position is a listed place |
| Patterns.PlacesNonEmpty | src/utils/parse.ts:31 | every place alternative has at least three characters |
| Patterns.PlaceMatchesSound | src/utils/parse.ts:66 | every place match is an alternative contained in the text |
| Patterns.HashtagMatchesSound | src/utils/parse.ts:32 | every hashtag match is `#` plus a run of non-space, non-`#` characters in the text |
| Patterns.MentionMatchesSound | src/utils/parse.ts:33 | every mention match is `@` plus a word run in the text |
| Patterns.MentionedSpec | src/utils/parse.ts:83-89 | the contained keywords, exactly, with no duplicates when the table has none |
| Patterns.CollectMentioned | src/utils/parse.ts:84-89 | the loop collects the contained keywords in table order |
| Patterns.ActionsNoDup | src/utils/parse.ts:34-51 | the action keyword table has no duplicates |
| UpdateTodo.CloseParen | scripts/update-todo.js:35 | the first `)` from a position, or none |
| UpdateTodo.RemoveMetaFrom | scripts/update-todo.js:35 | removing metadata never lengthens the text |
| UpdateTodo.RemoveMetaFromPlain | scripts/update-todo.js:35 | text without `(` is unchanged |
| UpdateTodo.RewriteLine | scripts/update-todo.js:32-44 | a line with neither prefix is unchanged |
| UpdateTodo.RewriteLineCompletes | scripts/update-todo.js:33-43 | a task line becomes `- [x] ID:` plus the trimmed rest and ` (completed: now)` |
| UpdateTodo.CompletedIsFinal | scripts/update-todo.js:36 | a completed line starts with `- [x] ID:` and matches neither prefix |
| UpdateTodo.RewriteLineIdempotent | scripts/update-todo.js:29-45 | rewriting a line twice equals rewriting it once |
| UpdateTodo.RewriteAll | scripts/update-todo.js:31-45 | the line count is kept, and each line is rewritten on its own |
| UpdateTodo.RewriteAllIdempotent | scripts/update-todo.js:28-46 | running the loop on its own output changes nothing |
| UpdateTodo.RewriteLines | scripts/update-todo.js:31-45 | the in-place loop over the line array performs the rewrite |
| UpdateTodo.Split | scripts/update-todo.js:28 | at least one line, and no line holds `\n` |
| UpdateTodo.JoinSplit | scripts/update-todo.js:28-46 | joining the split lines gives back the text |
| UpdateTodo.SplitJoin | scripts/update-todo.js:28-46 | splitting joined `\n`-free lines gives them back |
| UpdateTodo.HeaderAt | scripts/update-todo.js:50 | the first occurrence of `Last Updated:` |
| UpdateTodo.LineEnd | scripts/update-todo.js:50 | `.*` stops at the first line terminator |
| UpdateTodo.UpdateHeader | scripts/update-todo.js:49-52 | a text without the header is unchanged |
| UpdateTodo.UpdateHeaderKeeps | scripts/update-todo.js:49-52 | only the rest of the first header line, after the blanks, is replaced by `now` |
| UpdateTodo.UpdateHeaderIdempotent | scripts/update-todo.js:49-52 | restamping with the same time changes nothing |
| UpdateTodo.Run | scripts/update-todo.js:5-54 | usage, invalid-id and missing-file errors exactly when the source gives them; otherwise the new text |

## Left out

- File I/O, process exit codes and console output: `mineFromRepo`, the `fs` calls of `mine-aliases.js` and `update-todo.js`, and the JSON imports of `metrics.ts` and `alias-enrich.ts`. Their data are parameters.
- `Date`: parsing a timestamp and reading the clock are not modelled. `FormatHindiDate` takes the parsed time value, and `UpdateTodo.Run` takes `now`.
- minimist's argument coercions: `--task` arrives as text or is absent.
- The vector store, embedding normaliser, deterministic linker and disambiguation engine are not part of this model.
- Test expectations that contradict the code are not properties: `translit_basic` has no matra table, `confidence` has no range check, and no route calls `inc`.
- Text.Lower: `toLowerCase()` / `lower()` are modelled for ASCII letters only; Unicode case mappings beyond ASCII are not modelled.
- Parse.IsLetter: `\p{L}` and `\p{M}` are modelled for ASCII and Devanagari only. JavaScript `\b` and `\w` are ASCII, as the engine has them.
- Metrics.TopNSpec: `localeCompare` is replaced by code-point order, a total order like the locale's.
- Metrics.Tally: `Object.entries` lists integer-like keys first in JavaScript; the model keeps insertion order.
- AliasEnrich.BuildVariantMap: a `tags` or `locations` value that is not an object is treated as empty, whereas `Object.keys` of a string lists its indices.
- AliasEnrich.BuildVariantMap: writing the key `__proto__` replaces the object's prototype in JavaScript; the model stores it as an ordinary key.
- AliasLoader.AliasIndex.constructor: Python's `True == 1` and `1 == 1.0` key collisions are not modelled; variants are compared as JSON values. Constructing an index from unvalidated data is not modelled.
- MineAliases.StripAll: a non-array `variants` value is read as no variants, and `String()` of an object is not modelled.
- AliasMiner.SortByCountSpec: stability of the sort among equal counts is not proved; the order and the permutation are.
- UpdateTodo.RemoveMetaFrom: the metadata removal is not proved idempotent, because nested parentheses can leave new metadata behind.
- Parse.ParsePost: `slice(0, 180)` counts UTF-16 code units; the model counts code points.
- Normalization.IsTokenChar: Python's `\w` matches every Unicode letter, digit and underscore (so `café` is one token); the model takes `\w` as ASCII letters, digits and `_`, plus the Devanagari block of the pattern. The same limit applies to Normalization.RunEndMaximal, Normalization.TokensFromAreTokens, Normalization.NormalizeTokens and Normalization.ScannedKeys.
- Text.CollapseRuns: `/(.)\1+/g` has no `u` flag, so JavaScript compares UTF-16 units and `🙏🙏` is not collapsed; the model compares code points. The same limit applies to TagSearch.Forms and MineAliases.Forms, which use it.
- AliasMiner.PrunedSpec: `v.length >= 2` counts UTF-16 units, so a single astral character passes there; the model counts code points.
- AliasMiner.MineAliasesFromPosts: writing the canonical `__proto__` into `tags` or `locations` replaces the object's prototype in JavaScript; the model stores it as an ordinary key.
- MineAliases.MineSuggestions: the same `__proto__` write into `tags` or `locs` is stored as an ordinary key.
- AliasEnrich.AddDomain: `Object.keys(table)` lists integer-like canonicals first in JavaScript; the model visits the table's entries in their given order.

## Findings

| source | as written | input that shows it | evidently intended | confidence | as-written member | corrected member |
|---|---|---|---|---|---|---|
| src/utils/parse.ts:69 | `[\p{L} ]` has no combining marks, and every known place contains a matra or nukta, so the heuristic never adds anything | `रायगढ़ में` | the token before `में` (e.g. `रायगढ़`) is found, as the comment at line 68 says | not executed | Parse.HeuristicNeverFires | Parse.HeuristicFindsRaigarh |
| src/utils/alias-enrich.ts:30-31 | `VARIANT_MAP[key]` also reads inherited properties of a plain object | `#constructor` yields `Object.prototype.constructor` as a hit | only the map's own entries are hits | not executed | AliasEnrich.ConstructorHashtag | AliasEnrich.EnrichHashtags |
