/** The dashboard metrics (src/utils/metrics.ts): per post the distinct
    known places and the action keywords mentioned, tallied over all posts,
    and the five most frequent places and ten most frequent actions. The
    posts are a parameter. */
module Metrics {
  import opened Text
  import opened Patterns

  /** A `Record<string, number>` of counts, as its entries in insertion
      order. */
  type Counts = seq<(string, nat)>

  function Keys(c: Counts): seq<string>
  {
    seq(|c|, i requires 0 <= i < |c| => c[i].0)
  }

  /** `map[k] || 0`. */
  function CountOf(c: Counts, k: string): nat
    decreases |c|
  {
    if c == [] then 0 else if c[0].0 == k then c[0].1 else CountOf(c[1..], k)
  }

  /** `map[item] = (map[item] || 0) + 1`. */
  function Bump(c: Counts, item: string): Counts
    decreases |c|
  {
    if c == [] then [(item, 1)]
    else if c[0].0 == item then [(item, c[0].1 + 1)] + c[1..]
    else [c[0]] + Bump(c[1..], item)
  }

  /** What `tally(arr)` returns. */
  function Tallied(arr: seq<string>): Counts
    decreases |arr|
  {
    if arr == [] then []
    else
      var c := Tallied(arr[..|arr| - 1]);
      var item := arr[|arr| - 1];
      if item == "" then c else Bump(c, item)
  }

  /** `tally(arr)`: empty items are skipped. */
  method Tally(arr: seq<string>) returns (counts: Counts)
    ensures counts == Tallied(arr)
  {
    counts := [];
    for i := 0 to |arr|
      invariant counts == Tallied(arr[..i])
    {
      assert arr[..i + 1][..i] == arr[..i];
      var item := arr[i];
      if item == "" {
        continue;
      }
      counts := Bump(counts, item);
    }
    assert arr[..|arr|] == arr;
  }

  /** A bump adds one under its key and nothing elsewhere. */
  lemma {:induction false} BumpCount(c: Counts, item: string, k: string)
    ensures CountOf(Bump(c, item), k) == CountOf(c, k) + (if k == item then 1 else 0)
    decreases |c|
  {
    if c != [] && c[0].0 != item && c[0].0 != k {
      BumpCount(c[1..], item, k);
      assert Bump(c, item)[1..] == Bump(c[1..], item);
    }
  }

  lemma KeysCons(e: (string, nat), c: Counts)
    ensures Keys([e] + c) == [e.0] + Keys(c)
  {
  }

  /** The keys afterwards are the old ones plus the item. */
  lemma {:induction false} BumpKeys(c: Counts, item: string)
    ensures forall k :: k in Keys(Bump(c, item)) <==> k in Keys(c) || k == item
    decreases |c|
  {
    if c == [] {
      assert Keys(Bump(c, item)) == [item];
    } else if c[0].0 != item {
      BumpKeys(c[1..], item);
      KeysCons(c[0], Bump(c[1..], item));
      KeysCons(c[0], c[1..]);
      assert c == [c[0]] + c[1..];
    } else {
      KeysCons((item, c[0].1 + 1), c[1..]);
      KeysCons(c[0], c[1..]);
      assert c == [c[0]] + c[1..];
    }
  }

  /** A bump never repeats a key. */
  lemma {:induction false} BumpNoDup(c: Counts, item: string)
    requires NoDup(Keys(c))
    ensures NoDup(Keys(Bump(c, item)))
    decreases |c|
  {
    if c != [] {
      var t := c[1..];
      assert c == [c[0]] + t;
      KeysCons(c[0], t);
      assert NoDup(Keys(t)) by {
        forall i, j | 0 <= i < j < |Keys(t)|
          ensures Keys(t)[i] != Keys(t)[j]
        {
          assert Keys(t)[i] == Keys(c)[i + 1] && Keys(t)[j] == Keys(c)[j + 1];
        }
      }
      assert c[0].0 !in Keys(t) by {
        forall m | 0 <= m < |Keys(t)|
          ensures Keys(t)[m] != c[0].0
        {
          assert Keys(c)[m + 1] == Keys(t)[m] && Keys(c)[0] == c[0].0;
        }
      }
      if c[0].0 != item {
        BumpNoDup(t, item);
        BumpKeys(t, item);
        KeysCons(c[0], Bump(t, item));
        var kb := Keys(Bump(t, item));
        assert c[0].0 !in kb;
        assert Keys(Bump(c, item)) == [c[0].0] + kb;
      } else {
        KeysCons((item, c[0].1 + 1), t);
        assert Keys(Bump(c, item)) == Keys(c);
      }
    }
  }

  /** Counts stay positive. */
  lemma {:induction false} BumpPositive(c: Counts, item: string)
    requires forall i :: 0 <= i < |c| ==> c[i].1 >= 1
    ensures forall i :: 0 <= i < |Bump(c, item)| ==> Bump(c, item)[i].1 >= 1
    decreases |c|
  {
    if c != [] && c[0].0 != item {
      assert forall i :: 0 <= i < |c[1..]| ==> c[1..][i] == c[i + 1];
      BumpPositive(c[1..], item);
      assert forall i :: 0 < i < |Bump(c, item)| ==> Bump(c, item)[i] == Bump(c[1..], item)[i - 1];
    }
  }

  /** The count under every key is the number of times the key occurs among
      the items, the keys are the non-empty items, each once, and no count
      is zero. */
  lemma {:induction false} TalliedSpec(arr: seq<string>)
    ensures forall k :: CountOf(Tallied(arr), k) == if k == "" then 0 else multiset(arr)[k]
    ensures forall k :: k in Keys(Tallied(arr)) <==> k != "" && k in arr
    ensures NoDup(Keys(Tallied(arr)))
    ensures forall i :: 0 <= i < |Tallied(arr)| ==> Tallied(arr)[i].1 >= 1
    decreases |arr|
  {
    if arr != [] {
      var init := arr[..|arr| - 1];
      var item := arr[|arr| - 1];
      TalliedSpec(init);
      assert arr == init + [item];
      assert multiset(arr) == multiset(init) + multiset{item};
      if item != "" {
        forall k
          ensures CountOf(Tallied(arr), k) == if k == "" then 0 else multiset(arr)[k]
        {
          BumpCount(Tallied(init), item, k);
        }
        BumpKeys(Tallied(init), item);
        BumpNoDup(Tallied(init), item);
        BumpPositive(Tallied(init), item);
      }
    }
  }

  /* ------------------------------------------------------------ ranking */

  /** Code-point lexicographic order, standing in for `localeCompare`. */
  predicate Less(x: string, y: string)
    decreases |x|
  {
    |y| > 0 && (|x| == 0 || x[0] < y[0] || (x[0] == y[0] && Less(x[1..], y[1..])))
  }

  lemma {:induction false} LessIrreflexive(x: string)
    ensures !Less(x, x)
    decreases |x|
  {
    if |x| > 0 {
      LessIrreflexive(x[1..]);
    }
  }

  lemma {:induction false} LessTransitive(x: string, y: string, z: string)
    requires Less(x, y) && Less(y, z)
    ensures Less(x, z)
    decreases |x|
  {
    if |x| > 0 && x[0] == y[0] && y[0] == z[0] {
      LessTransitive(x[1..], y[1..], z[1..]);
    }
  }

  lemma {:induction false} LessTotal(x: string, y: string)
    requires x != y
    ensures Less(x, y) || Less(y, x)
    decreases |x|
  {
    if |x| > 0 && |y| > 0 && x[0] == y[0] {
      assert x[1..] != y[1..];
      LessTotal(x[1..], y[1..]);
    }
  }

  /** The order of `sort((a, b) => b[1] - a[1] || a[0].localeCompare(b[0]))`:
      higher counts first, ties by key. */
  predicate Before(a: (string, nat), b: (string, nat))
  {
    a.1 > b.1 || (a.1 == b.1 && Less(a.0, b.0))
  }

  lemma BeforeOrder(a: (string, nat), b: (string, nat), c: (string, nat))
    ensures !Before(a, a)
    ensures a != b ==> Before(a, b) || Before(b, a)
    ensures Before(a, b) ==> !Before(b, a)
    ensures Before(a, b) && Before(b, c) ==> Before(a, c)
  {
    LessIrreflexive(a.0);
    if a != b && a.1 == b.1 {
      LessTotal(a.0, b.0);
    }
    if Before(a, b) && Before(b, a) {
      LessTransitive(a.0, b.0, a.0);
    }
    if Before(a, b) && Before(b, c) && a.1 == b.1 == c.1 {
      LessTransitive(a.0, b.0, c.0);
    }
  }

  lemma NotBeforeTransitive(x: (string, nat), y: (string, nat), z: (string, nat))
    requires !Before(x, y) && !Before(y, z)
    ensures !Before(x, z)
  {
    BeforeOrder(x, y, z);
    BeforeOrder(y, z, x);
    BeforeOrder(z, y, x);
    BeforeOrder(z, x, x);
  }

  /** No later entry goes before an earlier one. */
  predicate Ranked(s: Counts)
  {
    forall i, j :: 0 <= i < j < |s| ==> !Before(s[j], s[i])
  }

  /** Insertion into a ranked list, after the entries that go before it. */
  function Insert(e: (string, nat), s: Counts): Counts
    decreases |s|
  {
    if s == [] then [e]
    else if Before(s[0], e) then [s[0]] + Insert(e, s[1..])
    else [e] + s
  }

  /** The stable sort of the entries. */
  function SortEntries(xs: Counts): Counts
    decreases |xs|
  {
    if xs == [] then [] else Insert(xs[0], SortEntries(xs[1..]))
  }

  lemma {:induction false} InsertPerm(e: (string, nat), s: Counts)
    ensures multiset(Insert(e, s)) == multiset(s) + multiset{e}
    decreases |s|
  {
    if s != [] && Before(s[0], e) {
      InsertPerm(e, s[1..]);
      assert s == [s[0]] + s[1..];
    }
  }

  /** An entry that no later one goes before can head a ranked list. */
  lemma RankedCons(x: (string, nat), t: Counts)
    requires Ranked(t)
    requires forall j :: 0 <= j < |t| ==> !Before(t[j], x)
    ensures Ranked([x] + t)
  {
    var r := [x] + t;
    forall i, j | 0 <= i < j < |r|
      ensures !Before(r[j], r[i])
    {
      assert r[j] == t[j - 1];
      if i > 0 {
        assert r[i] == t[i - 1];
      }
    }
  }

  lemma RankedTail(s: Counts)
    requires Ranked(s) && s != []
    ensures Ranked(s[1..])
  {
    var t := s[1..];
    forall i, j | 0 <= i < j < |t|
      ensures !Before(t[j], t[i])
    {
      assert t[i] == s[i + 1] && t[j] == s[j + 1];
    }
  }

  lemma {:induction false} InsertRanked(e: (string, nat), s: Counts)
    requires Ranked(s)
    ensures Ranked(Insert(e, s))
    decreases |s|
  {
    if s == [] {
      RankedCons(e, []);
    } else if Before(s[0], e) {
      var t := s[1..];
      RankedTail(s);
      InsertRanked(e, t);
      InsertPerm(e, t);
      var u := Insert(e, t);
      forall j | 0 <= j < |u|
        ensures !Before(u[j], s[0])
      {
        assert u[j] in multiset(u);
        if u[j] == e {
          BeforeOrder(s[0], e, e);
        } else {
          assert u[j] in multiset(t);
          var m :| 0 <= m < |t| && t[m] == u[j];
          assert s[m + 1] == u[j];
        }
      }
      RankedCons(s[0], u);
    } else {
      forall j | 0 <= j < |s|
        ensures !Before(s[j], e)
      {
        if j > 0 {
          NotBeforeTransitive(s[j], s[0], e);
        }
      }
      RankedCons(e, s);
    }
  }

  lemma InsertSpec(e: (string, nat), s: Counts)
    requires Ranked(s)
    ensures Ranked(Insert(e, s))
    ensures multiset(Insert(e, s)) == multiset(s) + multiset{e}
  {
    InsertRanked(e, s);
    InsertPerm(e, s);
  }

  /** The sort yields a ranked permutation of its input. */
  lemma {:induction false} SortEntriesSpec(xs: Counts)
    ensures Ranked(SortEntries(xs))
    ensures multiset(SortEntries(xs)) == multiset(xs)
    decreases |xs|
  {
    if xs != [] {
      SortEntriesSpec(xs[1..]);
      InsertSpec(xs[0], SortEntries(xs[1..]));
      assert xs == [xs[0]] + xs[1..];
    }
  }

  /** `topN(map, n)`. */
  function TopN(entries: Counts, n: nat): Counts
  {
    Take(SortEntries(entries), n)
  }

  /** The first `n` entries in rank order: no more than `n`, all from the
      tally, ranked, and none of the entries left out goes before one that
      was kept. */
  lemma TopNSpec(entries: Counts, n: nat)
    ensures |TopN(entries, n)| == if n < |entries| then n else |entries|
    ensures Ranked(TopN(entries, n))
    ensures forall e :: e in TopN(entries, n) ==> e in entries
    ensures forall x, e :: x in entries && x !in TopN(entries, n) && e in TopN(entries, n) ==> !Before(x, e)
    ensures multiset(TopN(entries, n)) <= multiset(entries)
  {
    var s := SortEntries(entries);
    SortEntriesSpec(entries);
    assert |s| == |multiset(s)| == |multiset(entries)| == |entries|;
    var t := TopN(entries, n);
    assert t == s[..|t|];
    assert s == t + s[|t|..];
    forall e | e in t
      ensures e in entries
    {
      assert e in multiset(s);
    }
    forall x, e | x in entries && x !in t && e in t
      ensures !Before(x, e)
    {
      assert x in multiset(s);
      var j :| 0 <= j < |s| && s[j] == x;
      var i :| 0 <= i < |t| && t[i] == e;
      assert s[i] == e;
      PrefixIndexNotIn(s, |t|, j);
    }
  }

  /** A key is listed exactly when some entry carries it. */
  lemma KeysOf(c: Counts, k: string)
    ensures k in Keys(c) <==> exists e :: e in c && e.0 == k
  {
    if k in Keys(c) {
      var i :| 0 <= i < |c| && Keys(c)[i] == k;
      assert c[i] in c;
    }
    if exists e :: e in c && e.0 == k {
      var e :| e in c && e.0 == k;
      var i :| 0 <= i < |c| && c[i] == e;
      assert Keys(c)[i] == k;
    }
  }

  /** Two permutations carry the same keys. */
  lemma PermKeys(a: Counts, b: Counts, k: string)
    requires multiset(a) == multiset(b)
    ensures k in Keys(a) <==> k in Keys(b)
  {
    KeysOf(a, k);
    KeysOf(b, k);
    forall y | y in a
      ensures y in b
    {
      assert y in multiset(a);
    }
    forall y | y in b
      ensures y in a
    {
      assert y in multiset(b);
    }
  }

  lemma {:induction false} InsertKeysDistinct(e: (string, nat), s: Counts)
    requires NoDup(Keys(s)) && e.0 !in Keys(s)
    ensures NoDup(Keys(Insert(e, s)))
    decreases |s|
  {
    if s != [] && Before(s[0], e) {
      var t := s[1..];
      assert s == [s[0]] + t;
      KeysCons(s[0], t);
      NoDupCons(s[0].0, Keys(t));
      InsertKeysDistinct(e, t);
      var u := Insert(e, t);
      InsertPerm(e, t);
      PermKeys(u, [e] + t, s[0].0);
      KeysCons(e, t);
      KeysCons(s[0], u);
      NoDupCons(s[0].0, Keys(u));
    } else {
      KeysCons(e, s);
      NoDupCons(e.0, Keys(s));
    }
  }

  /** Sorting entries with distinct keys keeps the keys distinct. */
  lemma {:induction false} SortKeysDistinct(xs: Counts)
    requires NoDup(Keys(xs))
    ensures NoDup(Keys(SortEntries(xs)))
    decreases |xs|
  {
    if xs != [] {
      var t := xs[1..];
      assert xs == [xs[0]] + t;
      KeysCons(xs[0], t);
      NoDupCons(xs[0].0, Keys(t));
      SortKeysDistinct(t);
      SortEntriesSpec(t);
      PermKeys(SortEntries(t), t, xs[0].0);
      InsertKeysDistinct(xs[0], SortEntries(t));
    }
  }

  /** With distinct keys, an entry's count is the value under its key. */
  lemma {:induction false} CountOfEntry(c: Counts, e: (string, nat))
    requires NoDup(Keys(c)) && e in c
    ensures CountOf(c, e.0) == e.1
    decreases |c|
  {
    if c[0] != e {
      var t := c[1..];
      assert c == [c[0]] + t;
      KeysCons(c[0], t);
      NoDupCons(c[0].0, Keys(t));
      KeysOf(t, e.0);
      CountOfEntry(t, e);
    }
  }

  /** Over a tally, `topN` lists each key at most once, with its count. */
  lemma TopNKeysDistinct(entries: Counts, n: nat)
    requires NoDup(Keys(entries))
    ensures NoDup(Keys(TopN(entries, n)))
    ensures forall e :: e in TopN(entries, n) ==> CountOf(entries, e.0) == e.1
  {
    var s := SortEntries(entries);
    SortKeysDistinct(entries);
    TopNSpec(entries, n);
    var t := TopN(entries, n);
    assert forall i :: 0 <= i < |t| ==> Keys(t)[i] == Keys(s)[i];
    forall e | e in t
      ensures CountOf(entries, e.0) == e.1
    {
      CountOfEntry(entries, e);
    }
  }

  /* ----------------------------------------------------------- metrics */

  /** The places of `p.content.match(PLACE_REGEX)`, each once. */
  function PostPlaces(content: string): seq<string>
  {
    Distinct(PlaceMatches(content))
  }

  /** `parsed.flatMap((p) => p.where)` */
  function AllPlaces(contents: seq<string>): seq<string>
    decreases |contents|
  {
    if contents == [] then [] else AllPlaces(contents[..|contents| - 1]) + PostPlaces(contents[|contents| - 1])
  }

  /** `parsed.flatMap((p) => p.what)` */
  function AllActions(contents: seq<string>): seq<string>
    decreases |contents|
  {
    if contents == [] then [] else AllActions(contents[..|contents| - 1]) + Mentioned(Actions, contents[|contents| - 1])
  }

  /** `computeMetrics()` over the posts' contents: the top five places and
      the top ten actions. */
  method ComputeMetrics(contents: seq<string>) returns (places: Counts, actions: Counts)
    ensures places == TopN(Tallied(AllPlaces(contents)), 5)
    ensures actions == TopN(Tallied(AllActions(contents)), 10)
  {
    var allPlaces: seq<string> := [];
    var allActions: seq<string> := [];
    for i := 0 to |contents|
      invariant allPlaces == AllPlaces(contents[..i])
      invariant allActions == AllActions(contents[..i])
    {
      assert contents[..i + 1][..i] == contents[..i];
      var where := PostPlaces(contents[i]);
      var what := CollectMentioned(Actions, contents[i]);
      allPlaces := allPlaces + where;
      allActions := allActions + what;
    }
    assert contents[..|contents|] == contents;
    var placeCounts := Tally(allPlaces);
    var actionCounts := Tally(allActions);
    places := TopN(placeCounts, 5);
    actions := TopN(actionCounts, 10);
  }

  /** A place is counted at most once per post, and only known places are
      counted. */
  lemma {:induction false} PlaceCountsBounded(contents: seq<string>, k: string)
    ensures CountOf(Tallied(AllPlaces(contents)), k) <= |contents|
    ensures k in Keys(Tallied(AllPlaces(contents))) ==> k in Places
    decreases |contents|
  {
    TalliedSpec(AllPlaces(contents));
    if contents != [] {
      var init := contents[..|contents| - 1];
      var last := PostPlaces(contents[|contents| - 1]);
      PlaceCountsBounded(init, k);
      TalliedSpec(AllPlaces(init));
      assert multiset(AllPlaces(contents)) == multiset(AllPlaces(init)) + multiset(last);
      DistinctCountAtMostOne(last, k);
      PlaceMatchesSound(contents[|contents| - 1]);
      if k in Keys(Tallied(AllPlaces(contents))) && k !in AllPlaces(init) {
        assert k in last;
      }
    }
  }

  /** An action is counted at most once per post. */
  lemma {:induction false} ActionCountsBounded(contents: seq<string>, k: string)
    ensures CountOf(Tallied(AllActions(contents)), k) <= |contents|
    ensures k in Keys(Tallied(AllActions(contents))) ==> k in Actions
    decreases |contents|
  {
    TalliedSpec(AllActions(contents));
    if contents != [] {
      var init := contents[..|contents| - 1];
      var last := Mentioned(Actions, contents[|contents| - 1]);
      ActionCountsBounded(init, k);
      TalliedSpec(AllActions(init));
      assert multiset(AllActions(contents)) == multiset(AllActions(init)) + multiset(last);
      ActionsNoDup();
      MentionedSpec(Actions, contents[|contents| - 1]);
      DistinctCountAtMostOne(last, k);
      if k in Keys(Tallied(AllActions(contents))) && k !in AllActions(init) {
        assert k in last;
      }
    }
  }

  /** Each place in the `topPlaces` of `computeMetrics()` is a known place,
      listed once, counted as often as the posts name it. */
  lemma TopPlacesCounted(contents: seq<string>)
    ensures NoDup(Keys(TopN(Tallied(AllPlaces(contents)), 5)))
    ensures forall e :: e in TopN(Tallied(AllPlaces(contents)), 5) ==>
      e.0 in Places && e.1 == multiset(AllPlaces(contents))[e.0]
  {
    var c := Tallied(AllPlaces(contents));
    TalliedSpec(AllPlaces(contents));
    TopNKeysDistinct(c, 5);
    TopNSpec(c, 5);
    forall e | e in TopN(c, 5)
      ensures e.0 in Places && e.1 == multiset(AllPlaces(contents))[e.0]
    {
      KeysOf(c, e.0);
      PlaceCountsBounded(contents, e.0);
    }
  }

  /** Each action in the `topActions` of `computeMetrics()` is a known action,
      listed once, counted as often as the posts name it. */
  lemma TopActionsCounted(contents: seq<string>)
    ensures NoDup(Keys(TopN(Tallied(AllActions(contents)), 10)))
    ensures forall e :: e in TopN(Tallied(AllActions(contents)), 10) ==>
      e.0 in Actions && e.1 == multiset(AllActions(contents))[e.0]
  {
    var c := Tallied(AllActions(contents));
    TalliedSpec(AllActions(contents));
    TopNKeysDistinct(c, 10);
    TopNSpec(c, 10);
    forall e | e in TopN(c, 10)
      ensures e.0 in Actions && e.1 == multiset(AllActions(contents))[e.0]
    {
      KeysOf(c, e.0);
      ActionCountsBounded(contents, e.0);
    }
  }

  lemma {:induction false} DistinctCountAtMostOne(s: seq<string>, k: string)
    requires NoDup(s)
    ensures multiset(s)[k] <= 1
    decreases |s|
  {
    if s != [] {
      var t := s[1..];
      assert s == [s[0]] + t;
      assert NoDup(t) by {
        forall i, j | 0 <= i < j < |t|
          ensures t[i] != t[j]
        {
          assert t[i] == s[i + 1] && t[j] == s[j + 1];
        }
      }
      DistinctCountAtMostOne(t, k);
      if s[0] == k {
        assert k !in t by {
          forall i | 0 <= i < |t|
            ensures t[i] != k
          {
            assert t[i] == s[i + 1];
          }
        }
      }
    }
  }
}
