/** The backend alias table (api/src/parsing/alias_loader.py): schema
    validation of the parsed aliases.json, the index from every canonical
    name and variant to its (domain, canonical) pair, and the loading
    decision. */
module AliasLoader {
  import opened Text
  import opened JsonData
  import opened Maps

  /* -------------------------------------------------------- validation */

  /** `data.get(domain, {})`. */
  function TableOf(members: seq<(string, Json)>, domain: string): Json
  {
    match Get(members, domain)
    case Some(t) => t
    case None => JObject([])
  }

  /** The checks on one payload, in the order the source makes them. */
  function CheckPayload(domain: string, canonical: string, payload: Json): (r: (bool, string))
    ensures r.0 ==> r.1 == "ok"
  {
    var at := domain + "." + canonical;
    if !payload.JObject? then (false, at + " not dict")
    else if !HasKey(payload.members, "variants") then (false, at + ".variants missing")
    else if !Get(payload.members, "variants").value.JArray? then (false, at + ".variants not list")
    else if HasKey(payload.members, "confidence") && !IsNumber(Get(payload.members, "confidence").value) then
      (false, at + ".confidence not number")
    else (true, "ok")
  }

  /** The loop over one table's entries, stopping at the first failure. */
  function CheckEntries(domain: string, entries: seq<(string, Json)>): (r: (bool, string))
    ensures r.0 ==> r.1 == "ok"
    decreases |entries|
  {
    if entries == [] then (true, "ok")
    else
      var first := CheckPayload(domain, entries[0].0, entries[0].1);
      if !first.0 then first else CheckEntries(domain, entries[1..])
  }

  function CheckDomain(members: seq<(string, Json)>, domain: string): (r: (bool, string))
    ensures r.0 ==> r.1 == "ok"
  {
    var table := TableOf(members, domain);
    if !table.JObject? then (false, domain + " not dict") else CheckEntries(domain, table.members)
  }

  /** `validate_aliases(data)`: the first failure found, or `(True, 'ok')`. */
  function ValidateAliases(data: Json): (r: (bool, string))
    ensures r.0 ==> r.1 == "ok"
    ensures !data.JObject? ==> r == (false, "root not dict")
  {
    if !data.JObject? then (false, "root not dict")
    else
      var tags := CheckDomain(data.members, "tags");
      if !tags.0 then tags else CheckDomain(data.members, "locations")
  }

  /* ------------------------------------- the schema, stated declaratively */

  /** The payload's `variants`, when it is a list. */
  function VariantList(payload: Json): seq<Json>
  {
    if payload.JObject? then
      match Get(payload.members, "variants")
      case Some(JArray(xs)) => xs
      case _ => []
    else []
  }

  predicate PayloadOk(payload: Json)
  {
    && payload.JObject?
    && HasKey(payload.members, "variants")
    && Get(payload.members, "variants").value.JArray?
    && (HasKey(payload.members, "confidence") ==> IsNumber(Get(payload.members, "confidence").value))
  }

  predicate TableOk(table: Json)
  {
    table.JObject? && forall i :: 0 <= i < |table.members| ==> PayloadOk(table.members[i].1)
  }

  /** A missing domain counts as an empty table; the value of `confidence`
      is not range-checked. */
  predicate WellFormed(data: Json)
  {
    data.JObject? && TableOk(TableOf(data.members, "tags")) && TableOk(TableOf(data.members, "locations"))
  }

  lemma CheckPayloadIff(domain: string, canonical: string, payload: Json)
    ensures CheckPayload(domain, canonical, payload).0 <==> PayloadOk(payload)
  {
  }

  /** A table passes exactly when every payload does; a failure reports the
      first failing entry. */
  lemma {:induction false} CheckEntriesIff(domain: string, entries: seq<(string, Json)>)
    ensures CheckEntries(domain, entries).0 <==> forall i :: 0 <= i < |entries| ==> PayloadOk(entries[i].1)
    ensures !CheckEntries(domain, entries).0 ==>
      exists i :: 0 <= i < |entries| && !PayloadOk(entries[i].1)
        && (forall j :: 0 <= j < i ==> PayloadOk(entries[j].1))
        && CheckEntries(domain, entries) == CheckPayload(domain, entries[i].0, entries[i].1)
    decreases |entries|
  {
    if entries != [] {
      CheckPayloadIff(domain, entries[0].0, entries[0].1);
      CheckEntriesIff(domain, entries[1..]);
      var rest := entries[1..];
      assert forall i :: 0 < i < |entries| ==> entries[i] == rest[i - 1];
      if CheckPayload(domain, entries[0].0, entries[0].1).0 && !CheckEntries(domain, rest).0 {
        var i :| 0 <= i < |rest| && !PayloadOk(rest[i].1)
          && (forall j :: 0 <= j < i ==> PayloadOk(rest[j].1))
          && CheckEntries(domain, rest) == CheckPayload(domain, rest[i].0, rest[i].1);
        assert entries[i + 1] == rest[i];
        forall j | 0 <= j < i + 1
          ensures PayloadOk(entries[j].1)
        {
          if j > 0 {
            assert entries[j] == rest[j - 1];
          }
        }
      }
    }
  }

  /** The function accepts exactly the well-formed documents. */
  lemma ValidateIff(data: Json)
    ensures ValidateAliases(data).0 <==> WellFormed(data)
  {
    if data.JObject? {
      var t := TableOf(data.members, "tags");
      var l := TableOf(data.members, "locations");
      if t.JObject? {
        CheckEntriesIff("tags", t.members);
      }
      if l.JObject? {
        CheckEntriesIff("locations", l.members);
      }
    }
  }

  /** {'tags': {'x': {'variants': []}}, 'locations': {}} is valid. */
  lemma MinimalValid()
    ensures ValidateAliases(JObject([("tags", JObject([("x", JObject([("variants", JArray([]))]))])),
                                     ("locations", JObject([]))])) == (true, "ok")
  {
    var payload := JObject([("variants", JArray([]))]);
    assert CheckPayload("tags", "x", payload) == (true, "ok");
    var data := JObject([("tags", JObject([("x", payload)])), ("locations", JObject([]))]);
    assert data.members[..1] == [("tags", JObject([("x", payload)]))];
    assert Get(data.members[..1], "tags") == Some(JObject([("x", payload)]));
    assert Get(data.members, "tags") == Get(data.members[..1], "tags");
    assert TableOf(data.members, "locations") == JObject([]);
  }

  /** An empty document is valid: both tables default to empty. */
  lemma EmptyValid()
    ensures ValidateAliases(JObject([])) == (true, "ok")
  {
  }

  /** {'tags': {'x': {'variants': 'not-a-list'}}, 'locations': {}} is rejected. */
  lemma VariantsNotListRejected()
    ensures ValidateAliases(JObject([("tags", JObject([("x", JObject([("variants", JString("not-a-list"))]))])),
                                     ("locations", JObject([]))])) == (false, "tags.x.variants not list")
  {
    var payload := JObject([("variants", JString("not-a-list"))]);
    assert Get(payload.members, "variants") == Some(JString("not-a-list"));
    assert ("tags" + "." + "x") + ".variants not list" == "tags.x.variants not list";
    assert CheckPayload("tags", "x", payload) == (false, "tags.x.variants not list");
    var data := JObject([("tags", JObject([("x", payload)])), ("locations", JObject([]))]);
    assert data.members[..1] == [("tags", JObject([("x", payload)]))];
    assert Get(data.members[..1], "tags") == Some(JObject([("x", payload)]));
    assert Get(data.members, "tags") == Get(data.members[..1], "tags");
  }

  /* ------------------------------------------------------------- index */

  /** The writes into `variant_to_canonical` for one entry: the canonical
      name first, then every listed variant. */
  function EntryWrites(domain: string, canonical: string, payload: Json): (ws: seq<(Json, (string, string))>)
    ensures |ws| == 1 + |VariantList(payload)|
    ensures ws[0] == (JString(canonical), (domain, canonical))
    ensures forall j :: 0 <= j < |VariantList(payload)| ==> ws[j + 1] == (VariantList(payload)[j], (domain, canonical))
  {
    var vs := VariantList(payload);
    [(JString(canonical), (domain, canonical))] + seq(|vs|, j requires 0 <= j < |vs| => (vs[j], (domain, canonical)))
  }

  /** The writes of `ingest(domain, table)` into `variant_to_canonical`. */
  function VariantWrites(domain: string, entries: seq<(string, Json)>): seq<(Json, (string, string))>
    decreases |entries|
  {
    if entries == [] then []
    else
      var last := entries[|entries| - 1];
      VariantWrites(domain, entries[..|entries| - 1]) + EntryWrites(domain, last.0, last.1)
  }

  /** The writes of the first `i + 1` entries extend those of the first `i`. */
  lemma WritesSnoc(domain: string, table: seq<(string, Json)>, i: nat)
    requires i < |table|
    ensures VariantWrites(domain, table[..i + 1]) == VariantWrites(domain, table[..i]) + EntryWrites(domain, table[i].0, table[i].1)
    ensures PayloadWrites(domain, table[..i + 1]) == PayloadWrites(domain, table[..i]) + [((domain, table[i].0), table[i].1)]
  {
    assert table[..i + 1][..i] == table[..i];
    PayloadWritesSnoc(domain, table, i);
  }

  lemma PayloadWritesSnoc(domain: string, table: seq<(string, Json)>, i: nat)
    requires i < |table|
    ensures PayloadWrites(domain, table[..i + 1]) == PayloadWrites(domain, table[..i]) + [((domain, table[i].0), table[i].1)]
  {
    var a := PayloadWrites(domain, table[..i + 1]);
    var b := PayloadWrites(domain, table[..i]) + [((domain, table[i].0), table[i].1)];
    assert |a| == |b|;
    forall j | 0 <= j < |a|
      ensures a[j] == b[j]
    {
      assert table[..i + 1][j] == table[j];
      if j < i {
        assert table[..i][j] == table[j];
      }
    }
  }

  /** The writes of `ingest(domain, table)` into `canonical_payload`. */
  function PayloadWrites(domain: string, entries: seq<(string, Json)>): (ws: seq<((string, string), Json)>)
    ensures |ws| == |entries|
    ensures forall i :: 0 <= i < |entries| ==> ws[i] == ((domain, entries[i].0), entries[i].1)
  {
    seq(|entries|, i requires 0 <= i < |entries| => ((domain, entries[i].0), entries[i].1))
  }

  function Entries(table: Json): seq<(string, Json)>
  {
    if table.JObject? then table.members else []
  }

  /** All writes of `_build_index`: tags first, then locations. */
  function AllVariantWrites(data: Json): seq<(Json, (string, string))>
    requires data.JObject?
  {
    VariantWrites("tags", Entries(TableOf(data.members, "tags")))
    + VariantWrites("locations", Entries(TableOf(data.members, "locations")))
  }

  function AllPayloadWrites(data: Json): seq<((string, string), Json)>
    requires data.JObject?
  {
    PayloadWrites("tags", Entries(TableOf(data.members, "tags")))
    + PayloadWrites("locations", Entries(TableOf(data.members, "locations")))
  }

  /** Every listed variant can be used as a dict key. */
  predicate VariantsHashable(data: Json)
    requires data.JObject?
  {
    forall d :: d in ["tags", "locations"] ==>
      forall i :: 0 <= i < |Entries(TableOf(data.members, d))| ==>
        forall v :: v in VariantList(Entries(TableOf(data.members, d))[i].1) ==> Hashable(v)
  }

  class AliasIndex {
    var version: Json
    var tags: Json
    var locations: Json
    /** variant -> (domain, canonical) */
    var variantToCanonical: map<Json, (string, string)>
    /** (domain, canonical) -> payload */
    var canonicalPayload: map<(string, string), Json>

    constructor (data: Json)
      requires WellFormed(data) && VariantsHashable(data)
      ensures version == (match Get(data.members, "version") case Some(v) => v case None => JInt(1))
      ensures tags == TableOf(data.members, "tags") && locations == TableOf(data.members, "locations")
      ensures variantToCanonical == Assign(map[], AllVariantWrites(data))
      ensures canonicalPayload == Assign(map[], AllPayloadWrites(data))
    {
      version := match Get(data.members, "version") case Some(v) => v case None => JInt(1);
      tags := TableOf(data.members, "tags");
      locations := TableOf(data.members, "locations");
      variantToCanonical := map[];
      canonicalPayload := map[];
      new;
      Ingest("tags", tags.members);
      Ingest("locations", locations.members);
      AssignAppend(map[], VariantWrites("tags", tags.members), VariantWrites("locations", locations.members));
      AssignAppend(map[], PayloadWrites("tags", tags.members), PayloadWrites("locations", locations.members));
    }

    /** One pass of the loop of `ingest`: the payload under its pair, then
        the canonical name and each variant. */
    method IngestEntry(domain: string, canonical: string, payload: Json)
      modifies this
      ensures variantToCanonical == Assign(old(variantToCanonical), EntryWrites(domain, canonical, payload))
      ensures canonicalPayload == old(canonicalPayload)[(domain, canonical) := payload]
      ensures version == old(version) && tags == old(tags) && locations == old(locations)
    {
      ghost var entry := EntryWrites(domain, canonical, payload);
      var m := variantToCanonical;
      AssignNext(m, entry, 0);
      ghost var v0 := m;
      m := m[JString(canonical) := (domain, canonical)];
      var variants := VariantList(payload);
      for j := 0 to |variants|
        invariant m == Assign(v0, entry[..j + 1])
        invariant unchanged(this)
      {
        AssignNext(v0, entry, j + 1);
        m := m[variants[j] := (domain, canonical)];
      }
      assert entry[..|variants| + 1] == entry;
      canonicalPayload := canonicalPayload[(domain, canonical) := payload];
      variantToCanonical := m;
    }

    /** `ingest(domain, table)`. */
    method Ingest(domain: string, table: seq<(string, Json)>)
      modifies this
      ensures variantToCanonical == Assign(old(variantToCanonical), VariantWrites(domain, table))
      ensures canonicalPayload == Assign(old(canonicalPayload), PayloadWrites(domain, table))
      ensures version == old(version) && tags == old(tags) && locations == old(locations)
    {
      ghost var v0, p0 := variantToCanonical, canonicalPayload;
      for i := 0 to |table|
        invariant variantToCanonical == Assign(v0, VariantWrites(domain, table[..i]))
        invariant canonicalPayload == Assign(p0, PayloadWrites(domain, table[..i]))
        invariant version == old(version) && tags == old(tags) && locations == old(locations)
      {
        WritesSnoc(domain, table, i);
        AssignAppend(p0, PayloadWrites(domain, table[..i]), [((domain, table[i].0), table[i].1)]);
        AssignAppend(v0, VariantWrites(domain, table[..i]), EntryWrites(domain, table[i].0, table[i].1));
        IngestEntry(domain, table[i].0, table[i].1);
      }
      assert table[..|table|] == table;
    }
  }

  /* --------------------------------------------------- index properties */

  /** The value of every write of `ingest(domain, …)` names that domain. */
  lemma {:induction false} VariantWritesDomain(domain: string, entries: seq<(string, Json)>)
    ensures forall i :: 0 <= i < |VariantWrites(domain, entries)| ==> VariantWrites(domain, entries)[i].1.0 == domain
    decreases |entries|
  {
    if entries != [] {
      VariantWritesDomain(domain, entries[..|entries| - 1]);
    }
  }

  /** Every canonical name and every variant it lists is written. */
  lemma {:induction false} VariantWritesCover(domain: string, entries: seq<(string, Json)>, i: nat)
    requires i < |entries|
    ensures Writes(VariantWrites(domain, entries), JString(entries[i].0))
    ensures forall v :: v in VariantList(entries[i].1) ==> Writes(VariantWrites(domain, entries), v)
    decreases |entries|
  {
    var init := entries[..|entries| - 1];
    var last := entries[|entries| - 1];
    var ews := EntryWrites(domain, last.0, last.1);
    var ws := VariantWrites(domain, entries);
    assert ws == VariantWrites(domain, init) + ews;
    if i == |entries| - 1 {
      WritesAppend(VariantWrites(domain, init), ews, JString(last.0));
      assert ews[0].0 == JString(last.0);
      forall v | v in VariantList(last.1)
        ensures Writes(ws, v)
      {
        var j :| 0 <= j < |VariantList(last.1)| && VariantList(last.1)[j] == v;
        assert ews[j + 1].0 == v;
        WritesAppend(VariantWrites(domain, init), ews, v);
      }
    } else {
      assert init[i] == entries[i];
      VariantWritesCover(domain, init, i);
      WritesAppend(VariantWrites(domain, init), ews, JString(entries[i].0));
      forall v | v in VariantList(entries[i].1)
        ensures Writes(ws, v)
      {
        WritesAppend(VariantWrites(domain, init), ews, v);
      }
    }
  }

  /** After construction every canonical name and every listed variant of
      either table is a key of `variant_to_canonical`. */
  lemma IndexCoversListed(data: Json, domain: string, i: nat, k: Json)
    requires data.JObject? && (domain == "tags" || domain == "locations")
    requires i < |Entries(TableOf(data.members, domain))|
    requires k == JString(Entries(TableOf(data.members, domain))[i].0)
          || k in VariantList(Entries(TableOf(data.members, domain))[i].1)
    ensures k in Assign(map[], AllVariantWrites(data))
  {
    var tw := VariantWrites("tags", Entries(TableOf(data.members, "tags")));
    var lw := VariantWrites("locations", Entries(TableOf(data.members, "locations")));
    VariantWritesCover(domain, Entries(TableOf(data.members, domain)), i);
    WritesAppend(tw, lw, k);
    AssignKeys(map[], tw + lw, k);
  }

  /** A key that the locations table writes maps to a locations entry,
      whatever the tags table says: `locations` is ingested last. */
  lemma LocationsWin(data: Json, k: Json)
    requires data.JObject?
    requires Writes(VariantWrites("locations", Entries(TableOf(data.members, "locations"))), k)
    ensures k in Assign(map[], AllVariantWrites(data))
    ensures Assign(map[], AllVariantWrites(data))[k].0 == "locations"
  {
    var tw := VariantWrites("tags", Entries(TableOf(data.members, "tags")));
    var lw := VariantWrites("locations", Entries(TableOf(data.members, "locations")));
    var last := LaterWritesWin(map[], tw, lw, k);
    VariantWritesDomain("locations", Entries(TableOf(data.members, "locations")));
  }

  /** Every key maps to the pair of its last writer, so within one domain a
      variant listed by two canonicals maps to the later one. */
  lemma IndexLastWriterWins(data: Json, i: int, k: Json)
    requires data.JObject? && LastWrite(AllVariantWrites(data), i, k)
    ensures k in Assign(map[], AllVariantWrites(data))
    ensures Assign(map[], AllVariantWrites(data))[k] == AllVariantWrites(data)[i].1
  {
    AssignLast(map[], AllVariantWrites(data), i, k);
  }

  lemma PayloadWritesKeys(domain: string, entries: seq<(string, Json)>, key: (string, string))
    ensures Writes(PayloadWrites(domain, entries), key) <==>
      key.0 == domain && exists i :: 0 <= i < |entries| && entries[i].0 == key.1
  {
    var ws := PayloadWrites(domain, entries);
    if key.0 == domain && exists i :: 0 <= i < |entries| && entries[i].0 == key.1 {
      var i :| 0 <= i < |entries| && entries[i].0 == key.1;
      assert ws[i].0 == key;
    }
  }

  /** `canonical_payload` has one key per (domain, canonical) of the two
      tables. */
  lemma PayloadsExact(data: Json, key: (string, string))
    requires data.JObject?
    ensures key in Assign(map[], AllPayloadWrites(data)) <==>
      (key.0 == "tags" || key.0 == "locations")
      && exists i :: 0 <= i < |Entries(TableOf(data.members, key.0))| && Entries(TableOf(data.members, key.0))[i].0 == key.1
  {
    var tw := PayloadWrites("tags", Entries(TableOf(data.members, "tags")));
    var lw := PayloadWrites("locations", Entries(TableOf(data.members, "locations")));
    AssignKeys(map[], tw + lw, key);
    WritesAppend(tw, lw, key);
    PayloadWritesKeys("tags", Entries(TableOf(data.members, "tags")), key);
    PayloadWritesKeys("locations", Entries(TableOf(data.members, "locations")), key);
  }

  /** The payload stored is the one of the last entry with that pair. */
  lemma PayloadStored(data: Json, i: int, key: (string, string))
    requires data.JObject? && LastWrite(AllPayloadWrites(data), i, key)
    ensures key in Assign(map[], AllPayloadWrites(data))
    ensures Assign(map[], AllPayloadWrites(data))[key] == AllPayloadWrites(data)[i].1
  {
    AssignLast(map[], AllPayloadWrites(data), i, key);
  }

  /* ------------------------------------------------------------ loading */

  datatype LoadOutcome =
    | Loaded(index: AliasIndex)
      /** `ValueError(f'aliases.json invalid: {msg}')` */
    | ValueError(message: string)
      /** a listed variant cannot be a dict key */
    | TypeError

  /** `load_aliases` once the file has been read and parsed. */
  method LoadAliases(data: Json) returns (r: LoadOutcome)
    ensures r.ValueError? <==> !ValidateAliases(data).0
    ensures r.ValueError? ==> r.message == "aliases.json invalid: " + ValidateAliases(data).1
    ensures r.TypeError? <==> ValidateAliases(data).0 && !VariantsHashable(data)
    ensures r.Loaded? ==> (fresh(r.index)
      && r.index.variantToCanonical == Assign(map[], AllVariantWrites(data))
      && r.index.canonicalPayload == Assign(map[], AllPayloadWrites(data)))
  {
    var (ok, msg) := ValidateAliases(data);
    if !ok {
      return ValueError("aliases.json invalid: " + msg);
    }
    ValidateIff(data);
    if !VariantsHashable(data) {
      return TypeError;
    }
    var index := new AliasIndex(data);
    return Loaded(index);
  }
}
