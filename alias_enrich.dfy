/** The front-end alias lookup (src/utils/alias-enrich.ts): a table from
    the lowercase form of every canonical name and variant of the alias
    document to what it stands for, and the enrichment of a post's hashtags
    through it. The alias document is a parameter. */
module AliasEnrich {
  import opened Text
  import opened JsonData
  import opened Maps
  import TagSearch

  /** `{ tag, domain, canonical }`. */
  datatype Enriched = Enriched(tag: string, domain: string, canonical: string)

  const Domains: seq<string> := ["tags", "locations"]

  /** `(aliases as any)[d] || {}`; a table that is not an object is taken to
      have no entries. */
  function TableEntries(aliases: Json, domain: string): seq<(string, Json)>
  {
    if aliases.JObject? then
      match Get(aliases.members, domain)
      case Some(JObject(entries)) => entries
      case _ => []
    else []
  }

  /** `Array.isArray(payload.variants) ? payload.variants : []`. */
  function VariantsOf(payload: Json): seq<Json>
  {
    if payload.JObject? then
      match Get(payload.members, "variants")
      case Some(JArray(xs)) => xs
      case _ => []
    else []
  }

  /** The writes into `map` for one canonical: its own entry, then one per
      variant. */
  function EntryWrites(domain: string, canonical: string, payload: Json): (ws: seq<(string, Enriched)>)
    ensures |ws| == 1 + |VariantsOf(payload)|
    ensures ws[0] == (Lower(canonical), Enriched(canonical, domain, canonical))
    ensures forall j :: 0 <= j < |VariantsOf(payload)| ==>
      ws[j + 1] == (Lower(JsString(VariantsOf(payload)[j])), Enriched(JsString(VariantsOf(payload)[j]), domain, canonical))
  {
    var vs := VariantsOf(payload);
    [(Lower(canonical), Enriched(canonical, domain, canonical))]
    + seq(|vs|, j requires 0 <= j < |vs| => (Lower(JsString(vs[j])), Enriched(JsString(vs[j]), domain, canonical)))
  }

  function DomainWrites(domain: string, entries: seq<(string, Json)>): seq<(string, Enriched)>
    decreases |entries|
  {
    if entries == [] then []
    else
      var last := entries[|entries| - 1];
      DomainWrites(domain, entries[..|entries| - 1]) + EntryWrites(domain, last.0, last.1)
  }

  /** The writes of the outer loop over the domains `ds`. */
  function AllWrites(aliases: Json, ds: seq<string>): seq<(string, Enriched)>
    decreases |ds|
  {
    if ds == [] then []
    else
      var d := ds[|ds| - 1];
      AllWrites(aliases, ds[..|ds| - 1]) + DomainWrites(d, TableEntries(aliases, d))
  }

  /** What `buildVariantMap` returns. */
  function VariantMap(aliases: Json): map<string, Enriched>
  {
    Assign(map[], AllWrites(aliases, Domains))
  }

  /** The innermost loop, over the variants of one canonical. */
  method AddEntry(m0: map<string, Enriched>, domain: string, canonical: string, payload: Json)
    returns (m: map<string, Enriched>)
    ensures m == Assign(m0, EntryWrites(domain, canonical, payload))
  {
    ghost var entry := EntryWrites(domain, canonical, payload);
    AssignNext(m0, entry, 0);
    m := m0[Lower(canonical) := Enriched(canonical, domain, canonical)];
    var vars := VariantsOf(payload);
    for j := 0 to |vars|
      invariant m == Assign(m0, entry[..j + 1])
    {
      AssignNext(m0, entry, j + 1);
      m := m[Lower(JsString(vars[j])) := Enriched(JsString(vars[j]), domain, canonical)];
    }
    assert entry[..|vars| + 1] == entry;
  }

  lemma DomainWritesSnoc(domain: string, entries: seq<(string, Json)>, i: nat)
    requires i < |entries|
    ensures DomainWrites(domain, entries[..i + 1]) == DomainWrites(domain, entries[..i]) + EntryWrites(domain, entries[i].0, entries[i].1)
  {
    assert entries[..i + 1][..i] == entries[..i];
  }

  /** The loop over the canonicals of one table. */
  method AddDomain(m0: map<string, Enriched>, domain: string, entries: seq<(string, Json)>)
    returns (m: map<string, Enriched>)
    ensures m == Assign(m0, DomainWrites(domain, entries))
  {
    m := m0;
    for i := 0 to |entries|
      invariant m == Assign(m0, DomainWrites(domain, entries[..i]))
    {
      DomainWritesSnoc(domain, entries, i);
      AssignAppend(m0, DomainWrites(domain, entries[..i]), EntryWrites(domain, entries[i].0, entries[i].1));
      m := AddEntry(m, domain, entries[i].0, entries[i].1);
    }
    assert entries[..|entries|] == entries;
  }

  /** `buildVariantMap(aliases)`. */
  method BuildVariantMap(aliases: Json) returns (m: map<string, Enriched>)
    ensures m == VariantMap(aliases)
  {
    m := map[];
    for k := 0 to |Domains|
      invariant m == Assign(map[], AllWrites(aliases, Domains[..k]))
    {
      var d := Domains[k];
      assert Domains[..k + 1] == Domains[..k] + [d];
      AllWritesSnoc(aliases, Domains[..k], d);
      AssignAppend(map[], AllWrites(aliases, Domains[..k]), DomainWrites(d, TableEntries(aliases, d)));
      m := AddDomain(m, d, TableEntries(aliases, d));
    }
    assert Domains[..|Domains|] == Domains;
  }

  /* ------------------------------------------------- map properties */

  lemma AllWritesSnoc(aliases: Json, ds: seq<string>, d: string)
    ensures AllWrites(aliases, ds + [d]) == AllWrites(aliases, ds) + DomainWrites(d, TableEntries(aliases, d))
  {
    assert (ds + [d])[..|ds|] == ds;
  }

  lemma AllWritesTwo(aliases: Json, d1: string, d2: string)
    ensures AllWrites(aliases, [d1, d2]) ==
      DomainWrites(d1, TableEntries(aliases, d1)) + DomainWrites(d2, TableEntries(aliases, d2))
  {
    AllWritesSnoc(aliases, [], d1);
    AllWritesSnoc(aliases, [d1], d2);
    assert [] + [d1] == [d1] && [d1] + [d2] == [d1, d2];
    assert [] + DomainWrites(d1, TableEntries(aliases, d1)) == DomainWrites(d1, TableEntries(aliases, d1));
  }

  lemma AllWritesSplit(aliases: Json)
    ensures AllWrites(aliases, Domains) ==
      DomainWrites("tags", TableEntries(aliases, "tags")) + DomainWrites("locations", TableEntries(aliases, "locations"))
  {
    AllWritesTwo(aliases, "tags", "locations");
  }

  /** The canonical names of a table. */
  function Canonicals(entries: seq<(string, Json)>): set<string>
  {
    set e | e in entries :: e.0
  }

  /** An entry of the map under key `k`, as every write makes one. */
  predicate SoundEntry(aliases: Json, k: string, e: Enriched)
  {
    && Lower(e.tag) == k
    && (e.domain == "tags" || e.domain == "locations")
    && e.canonical in Canonicals(TableEntries(aliases, e.domain))
  }

  predicate WriteFrom(domain: string, names: set<string>, w: (string, Enriched))
  {
    Lower(w.1.tag) == w.0 && w.1.domain == domain && w.1.canonical in names
  }

  lemma EntryWritesFrom(domain: string, canonical: string, payload: Json, names: set<string>)
    requires canonical in names
    ensures forall i :: 0 <= i < |EntryWrites(domain, canonical, payload)| ==>
      WriteFrom(domain, names, EntryWrites(domain, canonical, payload)[i])
  {
    var ews := EntryWrites(domain, canonical, payload);
    forall i | 0 <= i < |ews|
      ensures WriteFrom(domain, names, ews[i])
    {
      if i > 0 {
        assert ews[i].1 == Enriched(JsString(VariantsOf(payload)[i - 1]), domain, canonical);
      }
    }
  }

  lemma WritesFromConcat(domain: string, names: set<string>, a: seq<(string, Enriched)>, b: seq<(string, Enriched)>)
    requires forall i :: 0 <= i < |a| ==> WriteFrom(domain, names, a[i])
    requires forall i :: 0 <= i < |b| ==> WriteFrom(domain, names, b[i])
    ensures forall i :: 0 <= i < |a + b| ==> WriteFrom(domain, names, (a + b)[i])
  {
    forall i | 0 <= i < |a + b|
      ensures WriteFrom(domain, names, (a + b)[i])
    {
      if i >= |a| {
        assert (a + b)[i] == b[i - |a|];
      } else {
        assert (a + b)[i] == a[i];
      }
    }
  }

  lemma CanonicalsInit(entries: seq<(string, Json)>, names: set<string>)
    requires entries != [] && Canonicals(entries) <= names
    ensures Canonicals(entries[..|entries| - 1]) <= names
    ensures entries[|entries| - 1].0 in names
  {
    var init := entries[..|entries| - 1];
    forall c | c in Canonicals(init)
      ensures c in names
    {
      var e :| e in init && e.0 == c;
      assert e in entries;
    }
    assert entries[|entries| - 1] in entries;
  }

  lemma {:induction false} DomainWritesSound(domain: string, entries: seq<(string, Json)>, names: set<string>)
    requires Canonicals(entries) <= names
    ensures forall i :: 0 <= i < |DomainWrites(domain, entries)| ==> WriteFrom(domain, names, DomainWrites(domain, entries)[i])
    decreases |entries|
  {
    if entries != [] {
      var init := entries[..|entries| - 1];
      var last := entries[|entries| - 1];
      CanonicalsInit(entries, names);
      DomainWritesSound(domain, init, names);
      EntryWritesFrom(domain, last.0, last.1, names);
      WritesFromConcat(domain, names, DomainWrites(domain, init), EntryWrites(domain, last.0, last.1));
    }
  }

  lemma AllSatisfy<T>(a: seq<T>, b: seq<T>, p: T -> bool)
    requires forall i :: 0 <= i < |a| ==> p(a[i])
    requires forall i :: 0 <= i < |b| ==> p(b[i])
    ensures forall i :: 0 <= i < |a + b| ==> p((a + b)[i])
  {
    forall i | 0 <= i < |a + b|
      ensures p((a + b)[i])
    {
      if i >= |a| {
        assert (a + b)[i] == b[i - |a|];
      } else {
        assert (a + b)[i] == a[i];
      }
    }
  }

  /** Every key maps to an entry of one of the two tables whose tag is a
      spelling of the key, so a hit always names a real canonical. */
  lemma VariantMapSound(aliases: Json, k: string)
    requires k in VariantMap(aliases)
    ensures SoundEntry(aliases, k, VariantMap(aliases)[k])
  {
    var tw := DomainWrites("tags", TableEntries(aliases, "tags"));
    var lw := DomainWrites("locations", TableEntries(aliases, "locations"));
    AllWritesSplit(aliases);
    var tn := Canonicals(TableEntries(aliases, "tags"));
    var ln := Canonicals(TableEntries(aliases, "locations"));
    DomainWritesSound("tags", TableEntries(aliases, "tags"), tn);
    DomainWritesSound("locations", TableEntries(aliases, "locations"), ln);
    var ws := tw + lw;
    var p := (w: (string, Enriched)) => SoundEntry(aliases, w.0, w.1);
    forall i | 0 <= i < |tw|
      ensures p(tw[i])
    {
      assert WriteFrom("tags", tn, tw[i]);
    }
    forall i | 0 <= i < |lw|
      ensures p(lw[i])
    {
      assert WriteFrom("locations", ln, lw[i]);
    }
    AllSatisfy(tw, lw, p);
    AssignPreserves(map[], ws, (k, e) => SoundEntry(aliases, k, e), k);
  }

  lemma {:induction false} DomainWritesCover(domain: string, entries: seq<(string, Json)>, i: nat)
    requires i < |entries|
    ensures Writes(DomainWrites(domain, entries), Lower(entries[i].0))
    ensures forall v :: v in VariantsOf(entries[i].1) ==> Writes(DomainWrites(domain, entries), Lower(JsString(v)))
    decreases |entries|
  {
    var init := entries[..|entries| - 1];
    var last := entries[|entries| - 1];
    var ews := EntryWrites(domain, last.0, last.1);
    assert DomainWrites(domain, entries) == DomainWrites(domain, init) + ews;
    if i == |entries| - 1 {
      assert ews[0].0 == Lower(last.0);
      WritesAppend(DomainWrites(domain, init), ews, Lower(last.0));
      forall v | v in VariantsOf(last.1)
        ensures Writes(DomainWrites(domain, entries), Lower(JsString(v)))
      {
        var j :| 0 <= j < |VariantsOf(last.1)| && VariantsOf(last.1)[j] == v;
        assert ews[j + 1].0 == Lower(JsString(v));
        WritesAppend(DomainWrites(domain, init), ews, Lower(JsString(v)));
      }
    } else {
      assert init[i] == entries[i];
      DomainWritesCover(domain, init, i);
      WritesAppend(DomainWrites(domain, init), ews, Lower(entries[i].0));
      forall v | v in VariantsOf(entries[i].1)
        ensures Writes(DomainWrites(domain, entries), Lower(JsString(v)))
      {
        WritesAppend(DomainWrites(domain, init), ews, Lower(JsString(v)));
      }
    }
  }

  /** The lowercase form of every canonical of either table, and of each
      of its listed variants, is a key. */
  lemma VariantMapCovers(aliases: Json, domain: string, i: nat, k: string)
    requires domain == "tags" || domain == "locations"
    requires i < |TableEntries(aliases, domain)|
    requires k == Lower(TableEntries(aliases, domain)[i].0)
          || exists v :: v in VariantsOf(TableEntries(aliases, domain)[i].1) && k == Lower(JsString(v))
    ensures k in VariantMap(aliases)
  {
    var tw := DomainWrites("tags", TableEntries(aliases, "tags"));
    var lw := DomainWrites("locations", TableEntries(aliases, "locations"));
    AllWritesSplit(aliases);
    DomainWritesCover(domain, TableEntries(aliases, domain), i);
    WritesAppend(tw, lw, k);
    AssignKeys(map[], tw + lw, k);
  }

  /** A key the locations table writes maps to a locations entry: the
      locations table is read second. */
  lemma LocationsOverwriteTags(aliases: Json, k: string)
    requires Writes(DomainWrites("locations", TableEntries(aliases, "locations")), k)
    ensures k in VariantMap(aliases) && VariantMap(aliases)[k].domain == "locations"
  {
    var tw := DomainWrites("tags", TableEntries(aliases, "tags"));
    var lw := DomainWrites("locations", TableEntries(aliases, "locations"));
    AllWritesSplit(aliases);
    var last := LaterWritesWin(map[], tw, lw, k);
    DomainWritesDomain("locations", TableEntries(aliases, "locations"));
  }

  lemma {:induction false} DomainWritesDomain(domain: string, entries: seq<(string, Json)>)
    ensures forall i :: 0 <= i < |DomainWrites(domain, entries)| ==> DomainWrites(domain, entries)[i].1.domain == domain
    decreases |entries|
  {
    if entries != [] {
      DomainWritesDomain(domain, entries[..|entries| - 1]);
    }
  }

  /** Within the map every key holds its last write, so a variant shared by
      two canonicals of one table belongs to the later one. */
  lemma LastWriteWins(aliases: Json, i: int, k: string)
    requires LastWrite(AllWrites(aliases, Domains), i, k)
    ensures k in VariantMap(aliases) && VariantMap(aliases)[k] == AllWrites(aliases, Domains)[i].1
  {
    AssignLast(map[], AllWrites(aliases, Domains), i, k);
  }

  /* ---------------------------------------------------------- enrichment */

  /** `h.replace(/^[#@]/, '').toLowerCase()`. */
  function LookupKey(h: string): string
  {
    Lower(TagSearch.StripHashAt(h))
  }

  /** The own-key hits of the hashtags, in order. */
  function Hits(vmap: map<string, Enriched>, hashtags: seq<string>): seq<Enriched>
    decreases |hashtags|
  {
    if hashtags == [] then []
    else
      var key := LookupKey(hashtags[|hashtags| - 1]);
      Hits(vmap, hashtags[..|hashtags| - 1]) + (if key in vmap then [vmap[key]] else [])
  }

  lemma {:induction false} HitsConcat(vmap: map<string, Enriched>, a: seq<string>, b: seq<string>)
    ensures Hits(vmap, a + b) == Hits(vmap, a) + Hits(vmap, b)
    decreases |b|
  {
    if b == [] {
      assert a + b == a;
    } else {
      assert (a + b)[..|a + b| - 1] == a + b[..|b| - 1];
      HitsConcat(vmap, a, b[..|b| - 1]);
    }
  }

  /** The result holds one entry per hashtag whose key is in the map, in
      input order, and nothing else. */
  lemma {:induction false} HitsBounded(vmap: map<string, Enriched>, hashtags: seq<string>)
    ensures |Hits(vmap, hashtags)| <= |hashtags|
    ensures forall e :: e in Hits(vmap, hashtags) ==> e in vmap.Values
    decreases |hashtags|
  {
    if hashtags != [] {
      HitsBounded(vmap, hashtags[..|hashtags| - 1]);
    }
  }

  lemma HitsOne(vmap: map<string, Enriched>, h: string)
    ensures Hits(vmap, [h]) == if LookupKey(h) in vmap then [vmap[LookupKey(h)]] else []
  {
    assert [h][..0] == [];
  }

  lemma HitsNext(vmap: map<string, Enriched>, hashtags: seq<string>, i: int)
    requires 0 <= i < |hashtags|
    ensures LookupKey(hashtags[i]) in vmap ==> Hits(vmap, hashtags[..i + 1]) == Hits(vmap, hashtags[..i]) + [vmap[LookupKey(hashtags[i])]]
    ensures LookupKey(hashtags[i]) !in vmap ==> Hits(vmap, hashtags[..i + 1]) == Hits(vmap, hashtags[..i])
  {
    assert hashtags[..i + 1][..i] == hashtags[..i];
    assert Hits(vmap, hashtags[..i]) + [] == Hits(vmap, hashtags[..i]);
  }

  /** `enrichHashtags(hashtags)` against the map `vmap`, with the lookup
      restricted to the map's own keys. */
  method EnrichHashtags(vmap: map<string, Enriched>, hashtags: seq<string>) returns (out: seq<Enriched>)
    ensures out == Hits(vmap, hashtags)
    ensures |out| <= |hashtags|
  {
    out := [];
    for i := 0 to |hashtags|
      invariant out == Hits(vmap, hashtags[..i])
    {
      HitsNext(vmap, hashtags, i);
      var key := LookupKey(hashtags[i]);
      if key in vmap {
        out := out + [vmap[key]];
      }
    }
    assert hashtags[..|hashtags|] == hashtags;
    HitsBounded(vmap, hashtags);
  }

  /* ------------------------------- the lookup as the source writes it */

  /** What `VARIANT_MAP[key]` can yield besides an own entry: the two
      all-lowercase names a plain object inherits, both truthy. */
  datatype Hit = Alias(entry: Enriched) | Inherited(name: string)

  const InheritedNames: seq<string> := ["constructor", "__proto__"]

  function HitsAsWritten(vmap: map<string, Enriched>, hashtags: seq<string>): seq<Hit>
    decreases |hashtags|
  {
    if hashtags == [] then []
    else
      var key := LookupKey(hashtags[|hashtags| - 1]);
      HitsAsWritten(vmap, hashtags[..|hashtags| - 1])
      + (if key in vmap then [Alias(vmap[key])] else if key in InheritedNames then [Inherited(key)] else [])
  }

  lemma HitsAsWrittenOne(vmap: map<string, Enriched>, h: string)
    ensures HitsAsWritten(vmap, [h]) ==
      if LookupKey(h) in vmap then [Alias(vmap[LookupKey(h)])]
      else if LookupKey(h) in InheritedNames then [Inherited(LookupKey(h))] else []
  {
    assert [h][..0] == [];
  }

  lemma ConstructorKey()
    ensures LookupKey("#constructor") == "constructor"
  {
    assert TagSearch.StripHashAt("#constructor") == "constructor";
    LowerOfLowercase("constructor");
  }

  /** With no alias spelled "constructor", the hashtag `#constructor`
      enriches to the inherited `Object` constructor as written, and to
      nothing with the own-key lookup. */
  lemma ConstructorHashtag(vmap: map<string, Enriched>)
    requires "constructor" !in vmap
    ensures HitsAsWritten(vmap, ["#constructor"]) == [Inherited("constructor")]
    ensures Hits(vmap, ["#constructor"]) == []
  {
    ConstructorKey();
    HitsAsWrittenOne(vmap, "#constructor");
    HitsOne(vmap, "#constructor");
  }
}
