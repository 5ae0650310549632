/** Alias suggestions mined from posts (src/utils/alias-miner.ts): every
    hashtag and known place found in the posts is counted, and for each, in
    descending count order, its search keys that the alias table does not
    already list become suggested variants. The posts and the existing alias
    table are parameters. */
module AliasMiner {
  import opened Text
  import opened Maps
  import opened Patterns
  import Metrics
  import TagSearch

  /** `toKey`: drop one leading `#` or `@`, trim, lower-case. */
  function ToKey(s: string): string
  {
    Lower(JsTrim(TagSearch.StripHashAt(s)))
  }

  function ToKeys(xs: seq<string>): (r: seq<string>)
    ensures |r| == |xs| && forall i :: 0 <= i < |xs| ==> r[i] == ToKey(xs[i])
  {
    seq(|xs|, i requires 0 <= i < |xs| => ToKey(xs[i]))
  }

  /* ------------------------------------------------------- addVariants */

  /** `set.delete(x)` on a set kept in insertion order. */
  function Remove(s: seq<string>, x: string): (r: seq<string>)
    ensures forall y :: y in r <==> y in s && y != x
  {
    Filter(s, y => y != x)
  }

  /** Deleting every element of `xs` in turn. */
  function RemoveEach(s: seq<string>, xs: seq<string>): (r: seq<string>)
    ensures forall y :: y in r <==> y in s && y !in xs
    decreases |xs|
  {
    if xs == [] then s
    else Remove(RemoveEach(s, xs[..|xs| - 1]), xs[|xs| - 1])
  }

  lemma {:induction false} RemoveEachNoDup(s: seq<string>, xs: seq<string>)
    requires NoDup(s)
    ensures NoDup(RemoveEach(s, xs))
    decreases |xs|
  {
    if xs != [] {
      RemoveEachNoDup(s, xs[..|xs| - 1]);
      FilterNoDup(RemoveEach(s, xs[..|xs| - 1]), y => y != xs[|xs| - 1]);
    }
  }

  lemma ToKeysMembers(existing: seq<string>, v: string)
    ensures v in ToKeys(existing) <==> exists e :: e in existing && ToKey(e) == v
  {
    if v in ToKeys(existing) {
      var i :| 0 <= i < |existing| && ToKeys(existing)[i] == v;
      assert existing[i] in existing;
    }
    if exists e :: e in existing && ToKey(e) == v {
      var e :| e in existing && ToKey(e) == v;
      var i :| 0 <= i < |existing| && existing[i] == e;
      assert ToKeys(existing)[i] == v;
    }
  }

  predicate LongEnough(v: string) { |v| >= 2 }

  /** The candidates left once the empty key, the canonical's key and the
      existing variants' keys are deleted. */
  function Candidates(canonical: string, variants: seq<string>, existing: seq<string>): seq<string>
  {
    RemoveEach(Remove(Remove(variants, ""), ToKey(canonical)), ToKeys(existing))
  }

  /** What `addVariants(canonical, variants, existing)` returns. */
  function Pruned(canonical: string, variants: seq<string>, existing: seq<string>): seq<string>
  {
    Take(Filter(Candidates(canonical, variants, existing), LongEnough), 20)
  }

  /** A new variant: none of the keys already given. */
  predicate IsNew(v: string, canonical: string, existing: seq<string>)
  {
    v != "" && v != ToKey(canonical) && forall e :: e in existing ==> v != ToKey(e)
  }

  lemma CandidatesSpec(canonical: string, variants: seq<string>, existing: seq<string>)
    ensures forall v :: v in Candidates(canonical, variants, existing) <==> v in variants && IsNew(v, canonical, existing)
  {
    forall v
      ensures v in Candidates(canonical, variants, existing) <==> v in variants && IsNew(v, canonical, existing)
    {
      ToKeysMembers(existing, v);
    }
  }

  /** The suggested variants are candidates the canonical and the existing
      variants do not already give, at least two characters long, at most
      twenty, each once; below twenty, every such candidate is kept. */
  lemma PrunedSpec(canonical: string, variants: seq<string>, existing: seq<string>)
    requires NoDup(variants)
    ensures NoDup(Pruned(canonical, variants, existing)) && |Pruned(canonical, variants, existing)| <= 20
    ensures forall v :: v in Pruned(canonical, variants, existing) ==>
      v in variants && IsNew(v, canonical, existing) && |v| >= 2
    ensures |Pruned(canonical, variants, existing)| < 20 ==>
      forall v :: v in variants && IsNew(v, canonical, existing) && |v| >= 2 ==> v in Pruned(canonical, variants, existing)
  {
    var out := Candidates(canonical, variants, existing);
    CandidatesSpec(canonical, variants, existing);
    var kept := Filter(out, LongEnough);
    FilterNoDup(variants, y => y != "");
    FilterNoDup(Remove(variants, ""), y => y != ToKey(canonical));
    RemoveEachNoDup(Remove(Remove(variants, ""), ToKey(canonical)), ToKeys(existing));
    FilterNoDup(out, LongEnough);
    TakeNoDup(kept, 20);
    var r := Take(kept, 20);
    assert forall v :: v in r ==> v in kept;
    if |r| < 20 {
      assert r == kept;
    }
  }

  /** `addVariants`: the copied set loses the empty key, the canonical's key
      and each existing variant's key, then is filtered and cut to twenty. */
  method AddVariants(canonical: string, variants: seq<string>, existing: seq<string>) returns (r: seq<string>)
    ensures r == Pruned(canonical, variants, existing)
  {
    var out := variants;
    out := Remove(out, "");
    out := Remove(out, ToKey(canonical));
    out := DeleteEach(out, ToKeys(existing));
    r := Take(Filter(out, LongEnough), 20);
  }

  /** `for (const v of existing) out.delete(toKey(v))`, over the keys of
      the existing variants. */
  method DeleteEach(s: seq<string>, keys: seq<string>) returns (out: seq<string>)
    ensures out == RemoveEach(s, keys)
  {
    out := s;
    for i := 0 to |keys|
      invariant out == RemoveEach(s, keys[..i])
    {
      assert keys[..i + 1] == keys[..i] + [keys[i]];
      RemoveEachSnoc(s, keys[..i], keys[i]);
      out := Remove(out, keys[i]);
    }
    assert keys[..|keys|] == keys;
  }

  lemma RemoveEachSnoc(s: seq<string>, xs: seq<string>, x: string)
    ensures RemoveEach(s, xs + [x]) == Remove(RemoveEach(s, xs), x)
  {
    assert (xs + [x])[..|xs|] == xs;
  }

  /* ------------------------------------------------------------ counts */

  /** Tallying more items continues the tally. */
  lemma {:induction false} TalliedAppend(done: seq<string>, items: seq<string>)
    requires forall t :: t in items ==> t != ""
    ensures Metrics.Tallied(done + items) == TalliedOnto(Metrics.Tallied(done), items)
    decreases |items|
  {
    if items != [] {
      var init := items[..|items| - 1];
      assert forall t :: t in init ==> t in items;
      TalliedAppend(done, init);
      assert (done + items)[..|done + items| - 1] == done + init;
      assert (done + items)[|done + items| - 1] == items[|items| - 1];
      assert items[|items| - 1] in items;
      assert Metrics.Tallied(done + items) == Metrics.Bump(Metrics.Tallied(done + init), items[|items| - 1]);
    } else {
      assert done + items == done;
    }
  }

  /** The counts after `map.set(t, (map.get(t) || 0) + 1)` for each item. */
  function TalliedOnto(c: Metrics.Counts, items: seq<string>): Metrics.Counts
    decreases |items|
  {
    if items == [] then c
    else Metrics.Bump(TalliedOnto(c, items[..|items| - 1]), items[|items| - 1])
  }

  /** The inner loop over one post's matches. */
  method CountAll(counts: Metrics.Counts, items: seq<string>) returns (r: Metrics.Counts)
    ensures r == TalliedOnto(counts, items)
  {
    r := counts;
    for j := 0 to |items|
      invariant r == TalliedOnto(counts, items[..j])
    {
      assert items[..j + 1][..j] == items[..j];
      r := Metrics.Bump(r, items[j]);
    }
    assert items[..|items|] == items;
  }

  lemma HashtagsNonEmpty(content: string)
    ensures forall t :: t in HashtagMatches(content) ==> t != ""
  {
    HashtagMatchesSound(content);
  }

  lemma PlacesFound(content: string)
    ensures forall t :: t in PlaceMatches(content) ==> t != ""
  {
    PlaceMatchesSound(content);
    PlacesNonEmpty();
  }

  /** The counting loop over the posts. */
  method CountMatches(posts: seq<string>) returns (tagCounts: Metrics.Counts, placeCounts: Metrics.Counts)
    ensures tagCounts == Metrics.Tallied(MatchedHashtags(posts))
    ensures placeCounts == Metrics.Tallied(MatchedPlaces(posts))
  {
    tagCounts, placeCounts := [], [];
    for i := 0 to |posts|
      invariant tagCounts == Metrics.Tallied(MatchedHashtags(posts[..i]))
      invariant placeCounts == Metrics.Tallied(MatchedPlaces(posts[..i]))
    {
      assert posts[..i + 1][..i] == posts[..i];
      var hashtags := HashtagMatches(posts[i]);
      HashtagsNonEmpty(posts[i]);
      TalliedAppend(MatchedHashtags(posts[..i]), hashtags);
      tagCounts := CountAll(tagCounts, hashtags);
      var places := PlaceMatches(posts[i]);
      PlacesFound(posts[i]);
      TalliedAppend(MatchedPlaces(posts[..i]), places);
      placeCounts := CountAll(placeCounts, places);
    }
    assert posts[..|posts|] == posts;
  }

  /** How often `t` is among the matches the posts give, post by post. */
  function Occurrences(posts: seq<string>, matches: string -> seq<string>, t: string): nat
    decreases |posts|
  {
    if posts == [] then 0
    else Occurrences(posts[..|posts| - 1], matches, t) + multiset(matches(posts[|posts| - 1]))[t]
  }

  /** The count of a hashtag is the number of its matches over all posts. */
  lemma {:induction false} HashtagCountsTotal(posts: seq<string>, h: string)
    requires h != ""
    ensures Metrics.CountOf(Metrics.Tallied(MatchedHashtags(posts)), h) == Occurrences(posts, HashtagMatches, h)
    decreases |posts|
  {
    Metrics.TalliedSpec(MatchedHashtags(posts));
    if posts != [] {
      var init := posts[..|posts| - 1];
      HashtagCountsTotal(init, h);
      Metrics.TalliedSpec(MatchedHashtags(init));
      assert multiset(MatchedHashtags(posts)) == multiset(MatchedHashtags(init)) + multiset(HashtagMatches(posts[|posts| - 1]));
    }
  }

  /** The count of a place is the number of its matches over all posts. */
  lemma {:induction false} PlaceCountsTotal(posts: seq<string>, w: string)
    requires w != ""
    ensures Metrics.CountOf(Metrics.Tallied(MatchedPlaces(posts)), w) == Occurrences(posts, PlaceMatches, w)
    decreases |posts|
  {
    Metrics.TalliedSpec(MatchedPlaces(posts));
    if posts != [] {
      var init := posts[..|posts| - 1];
      PlaceCountsTotal(init, w);
      Metrics.TalliedSpec(MatchedPlaces(init));
      assert multiset(MatchedPlaces(posts)) == multiset(MatchedPlaces(init)) + multiset(PlaceMatches(posts[|posts| - 1]));
    }
  }

  /* ----------------------------------------------------------- sorting */

  predicate CountDescending(s: Metrics.Counts)
  {
    forall i, j :: 0 <= i < j < |s| ==> s[i].1 >= s[j].1
  }

  /** One step of a stable insertion sort by descending count: `e` goes
      after every entry whose count is at least its own. */
  function InsertByCount(e: (string, nat), s: Metrics.Counts): Metrics.Counts
    decreases |s|
  {
    if s == [] || s[|s| - 1].1 >= e.1 then s + [e]
    else InsertByCount(e, s[..|s| - 1]) + [s[|s| - 1]]
  }

  /** `entries.sort((a, b) => b[1] - a[1])`, which is stable. */
  function SortByCount(xs: Metrics.Counts): Metrics.Counts
    decreases |xs|
  {
    if xs == [] then [] else InsertByCount(xs[|xs| - 1], SortByCount(xs[..|xs| - 1]))
  }

  lemma {:induction false} InsertByCountPerm(e: (string, nat), s: Metrics.Counts)
    ensures multiset(InsertByCount(e, s)) == multiset(s) + multiset{e}
    decreases |s|
  {
    if !(s == [] || s[|s| - 1].1 >= e.1) {
      var init, last := s[..|s| - 1], s[|s| - 1];
      assert s == init + [last];
      InsertByCountPerm(e, init);
    }
  }

  lemma DescendingSnoc(r: Metrics.Counts, x: (string, nat))
    requires CountDescending(r)
    requires forall y :: y in r ==> y.1 >= x.1
    ensures CountDescending(r + [x])
  {
    forall i, j | 0 <= i < j < |r + [x]|
      ensures (r + [x])[i].1 >= (r + [x])[j].1
    {
      assert (r + [x])[i] == r[i];
      if j == |r| {
        assert r[i] in r;
      } else {
        assert (r + [x])[j] == r[j];
      }
    }
  }

  lemma {:induction false} InsertByCountOrder(e: (string, nat), s: Metrics.Counts)
    requires CountDescending(s)
    ensures CountDescending(InsertByCount(e, s))
    decreases |s|
  {
    if s == [] || s[|s| - 1].1 >= e.1 {
      forall y | y in s
        ensures y.1 >= e.1
      {
        var i :| 0 <= i < |s| && s[i] == y;
        assert s[i].1 >= s[|s| - 1].1 || i == |s| - 1;
      }
      DescendingSnoc(s, e);
    } else {
      var init, last := s[..|s| - 1], s[|s| - 1];
      assert CountDescending(init) by {
        forall i, j | 0 <= i < j < |init|
          ensures init[i].1 >= init[j].1
        {
          assert init[i] == s[i] && init[j] == s[j];
        }
      }
      InsertByCountOrder(e, init);
      InsertByCountPerm(e, init);
      var r := InsertByCount(e, init);
      forall x | x in r
        ensures x.1 >= last.1
      {
        assert x in multiset(r);
        if x != e {
          assert x in multiset(init);
          var i :| 0 <= i < |init| && init[i] == x;
          assert s[i] == x;
        }
      }
      DescendingSnoc(r, last);
    }
  }

  lemma InsertByCountSpec(e: (string, nat), s: Metrics.Counts)
    requires CountDescending(s)
    ensures CountDescending(InsertByCount(e, s))
    ensures multiset(InsertByCount(e, s)) == multiset(s) + multiset{e}
  {
    InsertByCountOrder(e, s);
    InsertByCountPerm(e, s);
  }

  /** The sort orders by descending count and keeps every entry. */
  lemma {:induction false} SortByCountSpec(xs: Metrics.Counts)
    ensures CountDescending(SortByCount(xs))
    ensures multiset(SortByCount(xs)) == multiset(xs)
    decreases |xs|
  {
    if xs != [] {
      var init := xs[..|xs| - 1];
      SortByCountSpec(init);
      InsertByCountSpec(xs[|xs| - 1], SortByCount(init));
      assert xs == init + [xs[|xs| - 1]];
    }
  }

  /* ------------------------------------------------------- suggestions */

  /** `raw.replace(/^#/, '')`. */
  function DropHash(raw: string): (r: string)
    ensures raw == r || raw == "#" + r
    ensures r == raw <==> raw == [] || raw[0] != '#'
  {
    if |raw| > 0 && raw[0] == '#' then raw[1..] else raw
  }

  /** `existing.<domain>[canonical]?.variants || []`. */
  function ExistingVariants(table: map<string, seq<string>>, canonical: string): seq<string>
  {
    if canonical in table then table[canonical] else []
  }

  /** The canonical of a counted entry: a tag drops its `#`, a place is the
      match itself. */
  function CanonicalOf(raw: string, isTag: bool): string
  {
    if isTag then DropHash(raw) else raw
  }

  /** The suggested variants for one counted entry. */
  function Suggested(raw: string, isTag: bool, table: map<string, seq<string>>): seq<string>
  {
    var canonical := CanonicalOf(raw, isTag);
    Pruned(canonical, Distinct(ToKeys(TagSearch.SearchKeys(raw))), ExistingVariants(table, canonical))
  }

  /** The assignments `out[canonical] = { variants }` a mining loop makes,
      in order, from the canonical and the suggested variants of each raw
      entry: only for a non-empty variant list. */
  function WritesBy(entries: Metrics.Counts, canon: string -> string, suggest: string -> seq<string>): seq<(string, seq<string>)>
    decreases |entries|
  {
    if entries == [] then []
    else
      var raw := entries[|entries| - 1].0;
      WritesBy(entries[..|entries| - 1], canon, suggest)
      + if suggest(raw) != [] then [(canon(raw), suggest(raw))] else []
  }

  function SuggestWrites(entries: Metrics.Counts, isTag: bool, table: map<string, seq<string>>): seq<(string, seq<string>)>
  {
    WritesBy(entries, raw => CanonicalOf(raw, isTag), raw => Suggested(raw, isTag, table))
  }

  /** What one mining loop builds from its counts. */
  function SuggestionsFor(counts: Metrics.Counts, isTag: bool, table: map<string, seq<string>>): map<string, seq<string>>
  {
    Assign(map[], SuggestWrites(SortByCount(counts), isTag, table))
  }

  datatype Suggestions = Suggestions(tags: map<string, seq<string>>, locations: map<string, seq<string>>)

  /** What `mineAliasesFromPosts(posts, existing)` returns. */
  function Mined(posts: seq<string>, existingTags: map<string, seq<string>>, existingLocations: map<string, seq<string>>): Suggestions
  {
    Suggestions(
      SuggestionsFor(Metrics.Tallied(MatchedHashtags(posts)), true, existingTags),
      SuggestionsFor(Metrics.Tallied(MatchedPlaces(posts)), false, existingLocations))
  }

  lemma WritesBySnoc(entries: Metrics.Counts, e: (string, nat), canon: string -> string, suggest: string -> seq<string>)
    ensures WritesBy(entries + [e], canon, suggest)
      == WritesBy(entries, canon, suggest) + if suggest(e.0) != [] then [(canon(e.0), suggest(e.0))] else []
  {
    assert (entries + [e])[..|entries|] == entries;
  }

  /** One step of a mining loop keeps the map equal to the writes so far. */
  lemma AssignStep(out: map<string, seq<string>>, sorted: Metrics.Counts, i: nat,
                   canon: string -> string, suggest: string -> seq<string>, canonical: string, variants: seq<string>)
    requires i < |sorted|
    requires out == Assign(map[], WritesBy(sorted[..i], canon, suggest))
    requires canonical == canon(sorted[i].0) && variants == suggest(sorted[i].0)
    ensures (if |variants| > 0 then out[canonical := variants] else out)
         == Assign(map[], WritesBy(sorted[..i + 1], canon, suggest))
  {
    assert sorted[..i + 1] == sorted[..i] + [sorted[i]];
    WritesBySnoc(sorted[..i], sorted[i], canon, suggest);
    if |variants| > 0 {
      AssignAppend(map[], WritesBy(sorted[..i], canon, suggest), [(canonical, variants)]);
    } else {
      assert WritesBy(sorted[..i], canon, suggest) + [] == WritesBy(sorted[..i], canon, suggest);
    }
  }

  /** The loop over the sorted entries. */
  method AssignSuggestions(sorted: Metrics.Counts, isTag: bool, table: map<string, seq<string>>) returns (out: map<string, seq<string>>)
    ensures out == Assign(map[], SuggestWrites(sorted, isTag, table))
  {
    var canon := raw => CanonicalOf(raw, isTag);
    var suggest := raw => Suggested(raw, isTag, table);
    out := map[];
    for i := 0 to |sorted|
      invariant out == Assign(map[], WritesBy(sorted[..i], canon, suggest))
    {
      var canonical, variants := SuggestFor(sorted[i].0, isTag, table);
      AssignStep(out, sorted, i, canon, suggest, canonical, variants);
      if |variants| > 0 {
        out := out[canonical := variants];
      }
    }
    assert sorted[..|sorted|] == sorted;
  }

  /** The body of a mining loop for one raw entry. */
  method SuggestFor(raw: string, isTag: bool, table: map<string, seq<string>>) returns (canonical: string, variants: seq<string>)
    ensures canonical == CanonicalOf(raw, isTag)
    ensures variants == Suggested(raw, isTag, table)
  {
    canonical := CanonicalOf(raw, isTag);
    var keys := TagSearch.BuildSearchKeys(raw);
    variants := AddVariants(canonical, Distinct(ToKeys(keys)), ExistingVariants(table, canonical));
  }

  /** One mining loop: over the entries by descending count. */
  method Suggest(counts: Metrics.Counts, isTag: bool, table: map<string, seq<string>>) returns (out: map<string, seq<string>>)
    ensures out == SuggestionsFor(counts, isTag, table)
  {
    var sorted := SortByCount(counts);
    out := AssignSuggestions(sorted, isTag, table);
  }

  /** `mineAliasesFromPosts`. */
  method MineAliasesFromPosts(posts: seq<string>, existingTags: map<string, seq<string>>, existingLocations: map<string, seq<string>>)
    returns (s: Suggestions)
    ensures s == Mined(posts, existingTags, existingLocations)
  {
    var tagCounts, placeCounts := CountMatches(posts);
    var tags := Suggest(tagCounts, true, existingTags);
    var locations := Suggest(placeCounts, false, existingLocations);
    s := Suggestions(tags, locations);
  }

  /* -------------------------------------------- what is suggested */

  /** A suggestion a table may hold under `canonical`: a non-empty list of
      new variants, at least two characters long, at most twenty, each
      once. */
  predicate Acceptable(table: map<string, seq<string>>, canonical: string, v: seq<string>)
  {
    && v != [] && |v| <= 20 && NoDup(v)
    && forall x :: x in v ==> |x| >= 2 && IsNew(x, canonical, ExistingVariants(table, canonical))
  }

  lemma SuggestedAcceptable(raw: string, isTag: bool, table: map<string, seq<string>>)
    requires Suggested(raw, isTag, table) != []
    ensures Acceptable(table, CanonicalOf(raw, isTag), Suggested(raw, isTag, table))
  {
    var canonical := CanonicalOf(raw, isTag);
    PrunedSpec(canonical, Distinct(ToKeys(TagSearch.SearchKeys(raw))), ExistingVariants(table, canonical));
  }

  lemma {:induction false} WritesByHold(entries: Metrics.Counts, canon: string -> string, suggest: string -> seq<string>, p: (string, seq<string>) -> bool)
    requires forall raw :: suggest(raw) != [] ==> p(canon(raw), suggest(raw))
    ensures forall i :: 0 <= i < |WritesBy(entries, canon, suggest)| ==>
      p(WritesBy(entries, canon, suggest)[i].0, WritesBy(entries, canon, suggest)[i].1)
    decreases |entries|
  {
    if entries != [] {
      WritesByHold(entries[..|entries| - 1], canon, suggest, p);
    }
  }

  /** Every suggestion lists only new variants, at least two characters
      long, at most twenty, each once, and never none. */
  lemma SuggestionsAcceptable(counts: Metrics.Counts, isTag: bool, table: map<string, seq<string>>, k: string)
    requires k in SuggestionsFor(counts, isTag, table)
    ensures Acceptable(table, k, SuggestionsFor(counts, isTag, table)[k])
  {
    var canon := raw => CanonicalOf(raw, isTag);
    var suggest := raw => Suggested(raw, isTag, table);
    var p := (c, v) => Acceptable(table, c, v);
    forall raw | suggest(raw) != []
      ensures p(canon(raw), suggest(raw))
    {
      SuggestedAcceptable(raw, isTag, table);
    }
    WritesByHold(SortByCount(counts), canon, suggest, p);
    AssignPreserves(map[], WritesBy(SortByCount(counts), canon, suggest), p, k);
  }

  lemma {:induction false} WritesByCover(entries: Metrics.Counts, canon: string -> string, suggest: string -> seq<string>, i: nat)
    requires i < |entries| && suggest(entries[i].0) != []
    ensures Writes(WritesBy(entries, canon, suggest), canon(entries[i].0))
    decreases |entries|
  {
    var init := entries[..|entries| - 1];
    var raw := entries[|entries| - 1].0;
    var last := if suggest(raw) != [] then [(canon(raw), suggest(raw))] else [];
    WritesAppend(WritesBy(init, canon, suggest), last, canon(entries[i].0));
    if i < |entries| - 1 {
      WritesByCover(init, canon, suggest, i);
    } else {
      assert last[0].0 == canon(entries[i].0);
    }
  }

  /** Sorting loses no entry: every counted key with something to suggest
      is written. */
  lemma SortedWritesCover(counts: Metrics.Counts, canon: string -> string, suggest: string -> seq<string>, raw: string)
    requires raw in Metrics.Keys(counts) && suggest(raw) != []
    ensures canon(raw) in Assign(map[], WritesBy(SortByCount(counts), canon, suggest))
  {
    var sorted := SortByCount(counts);
    SortByCountSpec(counts);
    var i :| 0 <= i < |counts| && Metrics.Keys(counts)[i] == raw;
    assert counts[i] in multiset(sorted);
    var j :| 0 <= j < |sorted| && sorted[j] == counts[i];
    WritesByCover(sorted, canon, suggest, j);
    AssignKeys(map[], WritesBy(sorted, canon, suggest), canon(raw));
  }

  /** Every counted entry with a non-empty variant list is suggested. */
  lemma SuggestionsComplete(counts: Metrics.Counts, isTag: bool, table: map<string, seq<string>>, raw: string)
    requires raw in Metrics.Keys(counts) && Suggested(raw, isTag, table) != []
    ensures CanonicalOf(raw, isTag) in SuggestionsFor(counts, isTag, table)
  {
    SortedWritesCover(counts, raw => CanonicalOf(raw, isTag), raw => Suggested(raw, isTag, table), raw);
  }
}
