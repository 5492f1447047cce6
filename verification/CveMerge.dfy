/** Combining the NVD and CISA KEV feeds by CVE ID (`sources.py`, `merge_cves`). */
module CveMerge {
  import opened Wrappers
  import opened Seqs
  import opened StableSort

  datatype TrackedCve = TrackedCve(
    cveId: string,
    description: string,
    cvssScore: Option<real>,
    publishedAt: int,
    exploited: bool,
    products: seq<string>,
    source: string)

  const NVD := "NVD"
  const KEV := "CISA KEV"
  const BOTH := "NVD + CISA KEV"

  const PUBLISHED_AT: TrackedCve -> int := (c: TrackedCve) => c.publishedAt
  const CVE_ID: TrackedCve -> string := (c: TrackedCve) => c.cveId

  // ----- what the merge is meant to hold for one ID -----

  function Ids(cves: seq<TrackedCve>): (ids: seq<string>)
    ensures |ids| == |cves| && forall i :: 0 <= i < |cves| ==> ids[i] == cves[i].cveId
  {
    seq(|cves|, i requires 0 <= i < |cves| => cves[i].cveId)
  }

  /** All records of a feed with this ID, in feed order. */
  function AllOf(cves: seq<TrackedCve>, id: string): seq<TrackedCve> {
    if cves == [] then []
    else AllOf(cves[..|cves| - 1], id) + if cves[|cves| - 1].cveId == id then [cves[|cves| - 1]] else []
  }

  predicate Has(cves: seq<TrackedCve>, id: string) {
    AllOf(cves, id) != []
  }

  /** The last record of a feed with this ID. */
  function LastOf(cves: seq<TrackedCve>, id: string): TrackedCve
    requires Has(cves, id)
  {
    AllOf(cves, id)[|AllOf(cves, id)| - 1]
  }

  function AllProducts(cves: seq<TrackedCve>): seq<string> {
    if cves == [] then [] else AllProducts(cves[..|cves| - 1]) + cves[|cves| - 1].products
  }

  /** The first non-empty description, or the empty one. */
  function FirstDescription(own: string, cves: seq<TrackedCve>): string
    decreases |cves|
  {
    if own != "" || cves == [] then own else FirstDescription(cves[0].description, cves[1..])
  }

  /** A base record with KEV entries applied to it, all at once. */
  function Enriched(base: TrackedCve, entries: seq<TrackedCve>): TrackedCve {
    if entries == [] then base
    else base.(exploited := true,
               products := Dedupe(base.products + AllProducts(entries)),
               description := FirstDescription(base.description, entries),
               source := BOTH)
  }

  /** One record from all NVD and KEV records of an ID: the base is the last NVD record if there is any,
      else the first KEV entry, and the other KEV entries are applied to it. */
  function Combined(nvds: seq<TrackedCve>, kevs: seq<TrackedCve>): TrackedCve
    requires nvds != [] || kevs != []
  {
    if nvds != [] then Enriched(nvds[|nvds| - 1], kevs) else Enriched(kevs[0], kevs[1..])
  }

  /** The record the merge is to hold for an ID of either feed. */
  function Record(nvd: seq<TrackedCve>, kev: seq<TrackedCve>, id: string): TrackedCve
    requires Has(nvd, id) || Has(kev, id)
  {
    Combined(AllOf(nvd, id), AllOf(kev, id))
  }

  /** The IDs in the order Python's dict keeps them. */
  function IdOrder(nvd: seq<TrackedCve>, kev: seq<TrackedCve>): seq<string> {
    Dedupe(Ids(nvd) + Ids(kev))
  }

  function Unsorted(nvd: seq<TrackedCve>, kev: seq<TrackedCve>): (r: seq<TrackedCve>)
    ensures |r| == |IdOrder(nvd, kev)|
  {
    var ids := IdOrder(nvd, kev);
    seq(|ids|, i requires 0 <= i < |ids| => IdOrderHas(nvd, kev, i); Record(nvd, kev, ids[i]))
  }

  lemma {:induction false} HasIff(cves: seq<TrackedCve>, id: string)
    ensures Has(cves, id) <==> id in Ids(cves)
    ensures forall c :: c in AllOf(cves, id) ==> c in cves && c.cveId == id
  {
    if cves != [] {
      var front, last := cves[..|cves| - 1], cves[|cves| - 1];
      HasIff(front, id);
      assert cves == front + [last];
      assert Ids(cves) == Ids(front) + [last.cveId];
    }
  }

  lemma IdOrderHas(nvd: seq<TrackedCve>, kev: seq<TrackedCve>, i: nat)
    requires i < |IdOrder(nvd, kev)|
    ensures var id := IdOrder(nvd, kev)[i]; Has(nvd, id) || Has(kev, id)
  {
    var id := IdOrder(nvd, kev)[i];
    DedupeSound(Ids(nvd) + Ids(kev));
    assert id in Dedupe(Ids(nvd) + Ids(kev));
    HasIff(nvd, id);
    HasIff(kev, id);
  }

  // ----- the merge -----

  /** One KEV entry over an existing record, as the loop body updates it. */
  function ApplyKev(existing: TrackedCve, entry: TrackedCve): TrackedCve {
    existing.(exploited := true,
              products := Dedupe(existing.products + entry.products),
              description := if existing.description != "" then existing.description else entry.description,
              source := BOTH)
  }

  /** A Python dict: its keys in insertion order and its map. */
  datatype Dict = Dict(keys: seq<string>, byId: map<string, TrackedCve>) {
    /** `d[id] = c`: a known key keeps its place. */
    function Put(id: string, c: TrackedCve): Dict {
      Dict(if id in byId then keys else keys + [id], byId[id := c])
    }
  }

  /** The dict after the comprehension over the NVD feed. */
  function Indexed(nvd: seq<TrackedCve>): Dict {
    if nvd == [] then Dict([], map[])
    else Indexed(nvd[..|nvd| - 1]).Put(nvd[|nvd| - 1].cveId, nvd[|nvd| - 1])
  }

  /** The dict after one iteration of the loop over the KEV feed. */
  function Absorb(d: Dict, entry: TrackedCve): Dict {
    d.Put(entry.cveId, if entry.cveId in d.byId then ApplyKev(d.byId[entry.cveId], entry) else entry)
  }

  function Absorbed(nvd: seq<TrackedCve>, kev: seq<TrackedCve>): Dict {
    if kev == [] then Indexed(nvd) else Absorb(Absorbed(nvd, kev[..|kev| - 1]), kev[|kev| - 1])
  }

  /** The values in insertion order. */
  function Values(d: Dict): seq<TrackedCve>
    requires forall id :: id in d.keys ==> id in d.byId
  {
    seq(|d.keys|, i requires 0 <= i < |d.keys| => d.byId[d.keys[i]])
  }

  /** `merge_cves`. */
  method MergeCves(nvd: seq<TrackedCve>, kev: seq<TrackedCve>) returns (merged: seq<TrackedCve>)
    ensures merged == SortDesc(Unsorted(nvd, kev), PUBLISHED_AT)
  {
    var d := Dict([], map[]);
    var n := 0;
    while n < |nvd|
      invariant 0 <= n <= |nvd|
      invariant d == Indexed(nvd[..n])
    {
      assert nvd[..n + 1][..n] == nvd[..n];
      d := d.Put(nvd[n].cveId, nvd[n]);
      n := n + 1;
    }
    assert nvd[..n] == nvd;
    var k := 0;
    while k < |kev|
      invariant 0 <= k <= |kev|
      invariant d == Absorbed(nvd, kev[..k])
    {
      assert kev[..k + 1][..k] == kev[..k];
      var entry := kev[k];
      if entry.cveId !in d.byId {
        d := d.Put(entry.cveId, entry);
      } else {
        var existing := d.byId[entry.cveId];
        d := d.Put(entry.cveId, existing.(
          exploited := true,
          products := Dedupe(existing.products + entry.products),
          description := if existing.description != "" then existing.description else entry.description,
          source := BOTH));
      }
      k := k + 1;
    }
    assert kev[..k] == kev;
    ValuesAreRecords(nvd, kev);
    merged := SortDesc(Values(d), PUBLISHED_AT);
  }

  /** The dict holds exactly the records of these feeds, its keys in order of first mention. */
  ghost predicate Holds(d: Dict, nvd: seq<TrackedCve>, kev: seq<TrackedCve>) {
    && d.keys == IdOrder(nvd, kev)
    && (forall id :: id in d.byId <==> Has(nvd, id) || Has(kev, id))
    && (forall id :: id in d.byId ==> d.byId[id] == Record(nvd, kev, id))
  }

  lemma {:induction false} IndexedHolds(nvd: seq<TrackedCve>)
    ensures Holds(Indexed(nvd), nvd, [])
  {
    if nvd != [] {
      IndexedHolds(nvd[..|nvd| - 1]);
      NvdStep(Indexed(nvd[..|nvd| - 1]), nvd[..|nvd| - 1], nvd[|nvd| - 1]);
      assert nvd == nvd[..|nvd| - 1] + [nvd[|nvd| - 1]];
    }
  }

  lemma {:induction false} AbsorbedHolds(nvd: seq<TrackedCve>, kev: seq<TrackedCve>)
    ensures Holds(Absorbed(nvd, kev), nvd, kev)
  {
    hide Holds, Absorb;
    if kev == [] {
      IndexedHolds(nvd);
    } else {
      AbsorbedHolds(nvd, kev[..|kev| - 1]);
      KevStep(Absorbed(nvd, kev[..|kev| - 1]), nvd, kev[..|kev| - 1], kev[|kev| - 1]);
      assert kev == kev[..|kev| - 1] + [kev[|kev| - 1]];
    }
  }

  lemma ValuesAreRecords(nvd: seq<TrackedCve>, kev: seq<TrackedCve>)
    ensures forall id :: id in Absorbed(nvd, kev).keys ==> id in Absorbed(nvd, kev).byId
    ensures Values(Absorbed(nvd, kev)) == Unsorted(nvd, kev)
  {
    var d := Absorbed(nvd, kev);
    AbsorbedHolds(nvd, kev);
    forall i | 0 <= i < |d.keys| ensures d.keys[i] in d.byId && d.byId[d.keys[i]] == Record(nvd, kev, d.keys[i]) {
      IdOrderHas(nvd, kev, i);
    }
  }

  lemma AllOfSnoc(cves: seq<TrackedCve>, c: TrackedCve, id: string)
    ensures AllOf(cves + [c], id) == AllOf(cves, id) + if c.cveId == id then [c] else []
  {
    assert (cves + [c])[..|cves|] == cves;
  }

  /** The ID of a record appended to a feed is new to the order exactly when neither feed had it. */
  lemma IdOrderSnoc(nvd: seq<TrackedCve>, kev: seq<TrackedCve>, c: TrackedCve)
    ensures IdOrder(nvd, kev + [c]) ==
            if Has(nvd, c.cveId) || Has(kev, c.cveId) then IdOrder(nvd, kev) else IdOrder(nvd, kev) + [c.cveId]
    ensures IdOrder(nvd + [c], []) ==
            if Has(nvd, c.cveId) then IdOrder(nvd, []) else IdOrder(nvd, []) + [c.cveId]
  {
    HasIff(nvd, c.cveId);
    HasIff(kev, c.cveId);
    assert Ids(kev + [c]) == Ids(kev) + [c.cveId] && Ids(nvd + [c]) == Ids(nvd) + [c.cveId];
    assert Ids(nvd) + Ids(kev + [c]) == (Ids(nvd) + Ids(kev)) + [c.cveId];
    assert Ids(nvd + [c]) + Ids([]) == (Ids(nvd) + Ids([])) + [c.cveId];
    DedupeSnoc(Ids(nvd) + Ids(kev), c.cveId);
    DedupeSnoc(Ids(nvd) + Ids([]), c.cveId);
  }

  lemma NvdRecordStep(before: seq<TrackedCve>, c: TrackedCve, id: string)
    ensures Has(before + [c], id) <==> Has(before, id) || id == c.cveId
    ensures id == c.cveId ==> Record(before + [c], [], id) == c
    ensures id != c.cveId && Has(before, id) ==> Record(before + [c], [], id) == Record(before, [], id)
  {
    AllOfSnoc(before, c, id);
  }

  lemma KevRecordStep(nvd: seq<TrackedCve>, before: seq<TrackedCve>, c: TrackedCve, id: string)
    ensures Has(before + [c], id) <==> Has(before, id) || id == c.cveId
    ensures id == c.cveId ==>
              Record(nvd, before + [c], id) ==
              if Has(nvd, id) || Has(before, id) then ApplyKev(Record(nvd, before, id), c) else c
    ensures id != c.cveId && (Has(nvd, id) || Has(before, id)) ==>
              Record(nvd, before + [c], id) == Record(nvd, before, id)
  {
    AllOfSnoc(before, c, id);
    if id == c.cveId {
      CombinedStep(AllOf(nvd, id), AllOf(before, id), c);
    } else {
      assert AllOf(before + [c], id) == AllOf(before, id);
    }
  }

  lemma NvdStep(d: Dict, before: seq<TrackedCve>, c: TrackedCve)
    requires Holds(d, before, [])
    ensures Holds(d.Put(c.cveId, c), before + [c], [])
  {
    IdOrderSnoc(before, [], c);
    var after := d.byId[c.cveId := c];
    forall id
      ensures id in after <==> Has(before + [c], id) || Has([], id)
      ensures id in after ==> after[id] == Record(before + [c], [], id)
    {
      NvdRecordStep(before, c, id);
    }
  }

  lemma KevStep(d: Dict, nvd: seq<TrackedCve>, before: seq<TrackedCve>, c: TrackedCve)
    requires Holds(d, nvd, before)
    ensures Holds(Absorb(d, c), nvd, before + [c])
  {
    hide IdOrder, Has, Record;
    IdOrderSnoc(nvd, before, c);
    var after := Absorb(d, c).byId;
    forall id
      ensures id in after <==> Has(nvd, id) || Has(before + [c], id)
      ensures id in after ==> after[id] == Record(nvd, before + [c], id)
    {
      KevRecordStep(nvd, before, c, id);
    }
  }

  /** One more KEV entry for an ID is one more application to its record, or a new record. */
  lemma CombinedStep(nvds: seq<TrackedCve>, kevs: seq<TrackedCve>, c: TrackedCve)
    ensures Combined(nvds, kevs + [c]) ==
            if nvds != [] || kevs != [] then ApplyKev(Combined(nvds, kevs), c) else c
  {
    if nvds != [] {
      EnrichedStep(nvds[|nvds| - 1], kevs, c);
    } else if kevs != [] {
      assert (kevs + [c])[1..] == kevs[1..] + [c];
      EnrichedStep(kevs[0], kevs[1..], c);
    }
  }

  lemma EnrichedStep(base: TrackedCve, entries: seq<TrackedCve>, c: TrackedCve)
    ensures Enriched(base, entries + [c]) == ApplyKev(Enriched(base, entries), c)
  {
    assert (entries + [c])[..|entries|] == entries;
    assert base.products + AllProducts(entries + [c]) == (base.products + AllProducts(entries)) + c.products;
    DedupeEarly(base.products + AllProducts(entries), c.products);
    FirstDescriptionSnoc(base.description, entries, c);
    if entries == [] {
      assert base.products + AllProducts(entries) == base.products;
    }
  }

  lemma {:induction false} FirstDescriptionSnoc(own: string, cves: seq<TrackedCve>, c: TrackedCve)
    ensures FirstDescription(own, cves + [c]) ==
            var d := FirstDescription(own, cves); if d != "" then d else c.description
    decreases |cves|
  {
    if own == "" && cves != [] {
      assert (cves + [c])[1..] == cves[1..] + [c];
      FirstDescriptionSnoc(cves[0].description, cves[1..], c);
    } else if own == "" {
      assert (cves + [c])[1..] == [];
    }
  }

  // ----- what follows for the merged feed -----

  ghost function Merged(nvd: seq<TrackedCve>, kev: seq<TrackedCve>): seq<TrackedCve> {
    SortDesc(Unsorted(nvd, kev), PUBLISHED_AT)
  }

  /** `c` is the record the merge is to hold for its ID. */
  ghost predicate IsRecord(nvd: seq<TrackedCve>, kev: seq<TrackedCve>, c: TrackedCve) {
    (Has(nvd, c.cveId) || Has(kev, c.cveId)) && c == Record(nvd, kev, c.cveId)
  }

  lemma RecordKeepsId(nvd: seq<TrackedCve>, kev: seq<TrackedCve>, id: string)
    requires Has(nvd, id) || Has(kev, id)
    ensures Record(nvd, kev, id).cveId == id
  {
    HasIff(nvd, id);
    HasIff(kev, id);
  }

  lemma UnsortedIsTheUnion(nvd: seq<TrackedCve>, kev: seq<TrackedCve>)
    ensures Ids(Unsorted(nvd, kev)) == IdOrder(nvd, kev)
    ensures DistinctBy(Unsorted(nvd, kev), CVE_ID)
    ensures forall c :: c in Unsorted(nvd, kev) <==> IsRecord(nvd, kev, c)
  {
    hide Record;
    var us, ids := Unsorted(nvd, kev), IdOrder(nvd, kev);
    DedupeSound(Ids(nvd) + Ids(kev));
    forall i | 0 <= i < |us| ensures us[i].cveId == ids[i] && IsRecord(nvd, kev, us[i]) {
      IdOrderHas(nvd, kev, i);
      RecordKeepsId(nvd, kev, ids[i]);
    }
    forall c | IsRecord(nvd, kev, c) ensures c in us {
      HasIff(nvd, c.cveId);
      HasIff(kev, c.cveId);
      assert c.cveId in ids;
      var i :| 0 <= i < |ids| && ids[i] == c.cveId;
      assert us[i] == c;
    }
  }

  /** The merge holds the record of each ID of either feed exactly once and nothing else, newest first,
      records of one date staying in the order in which the feeds first name them. */
  lemma MergeIsTheUnion(nvd: seq<TrackedCve>, kev: seq<TrackedCve>)
    ensures DistinctBy(Merged(nvd, kev), CVE_ID)
    ensures forall c :: c in Merged(nvd, kev) <==> IsRecord(nvd, kev, c)
    ensures Descending(Merged(nvd, kev), PUBLISHED_AT)
    ensures forall i, j :: 0 <= i < j < |Merged(nvd, kev)| ==>
              Merged(nvd, kev)[i].publishedAt >= Merged(nvd, kev)[j].publishedAt
    ensures SameTies(Merged(nvd, kev), Unsorted(nvd, kev), PUBLISHED_AT)
    ensures Ids(Unsorted(nvd, kev)) == Dedupe(Ids(nvd) + Ids(kev))
  {
    var us, m := Unsorted(nvd, kev), Merged(nvd, kev);
    UnsortedIsTheUnion(nvd, kev);
    SortDescOk(us, PUBLISHED_AT);
    SortDescDistinct(us, PUBLISHED_AT, CVE_ID);
    forall c ensures c in m <==> c in us {
      assert c in m <==> c in multiset(m);
      assert c in us <==> c in multiset(us);
    }
  }

  /** The products of several records, one record after the other. */
  lemma {:induction false} AllProductsConcat(xs: seq<TrackedCve>, ys: seq<TrackedCve>)
    ensures AllProducts(xs + ys) == AllProducts(xs) + AllProducts(ys)
  {
    if ys == [] {
      assert xs + ys == xs;
    } else {
      AllProductsConcat(xs, ys[..|ys| - 1]);
      assert (xs + ys)[..|xs + ys| - 1] == xs + ys[..|ys| - 1];
    }
  }

  lemma AllProductsOne(c: TrackedCve)
    ensures AllProducts([c]) == c.products
  {
    assert AllProducts([]) + c.products == c.products;
  }

  /** The description kept is the record's own or else the first of the others that is not empty, if any is. */
  lemma {:induction false} FirstDescriptionIs(own: string, cves: seq<TrackedCve>)
    ensures
      var d := FirstDescription(own, cves);
      && (own != "" ==> d == own)
      && (own == "" && d == "" ==> forall c :: c in cves ==> c.description == "")
      && (own == "" && d != "" ==>
            exists k :: 0 <= k < |cves| && cves[k].description == d
                        && forall j :: 0 <= j < k ==> cves[j].description == "")
    decreases |cves|
  {
    if own == "" && cves != [] {
      FirstDescriptionIs(cves[0].description, cves[1..]);
      assert cves == [cves[0]] + cves[1..];
      if cves[0].description != "" {
        assert cves[0].description == FirstDescription(own, cves);
      } else if FirstDescription(own, cves) != "" {
        var k :| 0 <= k < |cves[1..]| && cves[1..][k].description == FirstDescription(own, cves)
                 && forall j :: 0 <= j < k ==> cves[1..][j].description == "";
        assert cves[k + 1].description == FirstDescription(own, cves);
        assert forall j :: 1 <= j < k + 1 ==> cves[j] == cves[1..][j - 1];
      }
    }
  }

  /** Where only KEV has the ID: its first entry gives score and date, and the entry as it is unless it is repeated;
      then the products are every entry's without repeats. */
  lemma KevFieldsAlone(nvd: seq<TrackedCve>, kev: seq<TrackedCve>, id: string)
    requires id !in Ids(nvd) && id in Ids(kev)
    ensures Has(kev, id)
    ensures
      var entries, merged := AllOf(kev, id), Record(nvd, kev, id);
      && merged.cvssScore == entries[0].cvssScore && merged.publishedAt == entries[0].publishedAt
      && (|entries| == 1 ==> merged == entries[0])
      && (|entries| > 1 ==> merged.products == Dedupe(AllProducts(entries)))
      && merged.description == FirstDescription("", entries)
  {
    HasIff(nvd, id);
    HasIff(kev, id);
    var entries := AllOf(kev, id);
    assert entries == [entries[0]] + entries[1..];
    AllProductsConcat([entries[0]], entries[1..]);
    AllProductsOne(entries[0]);
  }

  /** Where NVD has the ID: its last record gives score, date and, if not empty, description, and as soon as KEV
      has the ID too, the products are NVD's and then every KEV entry's, in order and without repeats. */
  lemma NvdFieldsWin(nvd: seq<TrackedCve>, kev: seq<TrackedCve>, id: string)
    requires id in Ids(nvd)
    ensures Has(nvd, id)
    ensures
      var own, merged := LastOf(nvd, id), Record(nvd, kev, id);
      && merged.cvssScore == own.cvssScore
      && merged.publishedAt == own.publishedAt
      && (own.description != "" ==> merged.description == own.description)
      && (id in Ids(kev) ==> merged.products == Dedupe(own.products + AllProducts(AllOf(kev, id))))
      && (id !in Ids(kev) ==> merged == own)
  {
    HasIff(nvd, id);
    HasIff(kev, id);
  }

  /** The flags and labels the two parsers give every record of their feed. */
  ghost predicate Flagged(nvd: seq<TrackedCve>, kev: seq<TrackedCve>) {
    && (forall c :: c in nvd ==> !c.exploited && c.source == "NVD")
    && (forall c :: c in kev ==> c.exploited && c.source == "CISA KEV")
  }

  /** And the NVD parser finds no products. */
  ghost predicate Parsed(nvd: seq<TrackedCve>, kev: seq<TrackedCve>) {
    && Flagged(nvd, kev)
    && (forall c :: c in nvd ==> c.products == [])
  }

  /** For an ID of both feeds the products are KEV's alone exactly when those begin with NVD's own. */
  lemma KevProductsWinIff(nvd: seq<TrackedCve>, kev: seq<TrackedCve>, id: string)
    requires id in Ids(nvd) && id in Ids(kev)
    ensures Has(nvd, id)
    ensures
      var own, theirs := LastOf(nvd, id).products, AllProducts(AllOf(kev, id));
      Record(nvd, kev, id).products == Dedupe(theirs) <==> Dedupe(own) <= Dedupe(theirs)
  {
    NvdFieldsWin(nvd, kev, id);
    DedupeAbsorbsIff(LastOf(nvd, id).products, AllProducts(AllOf(kev, id)));
  }

  /** On what the parsers deliver, an ID of both feeds is exploited, carries exactly KEV's products and NVD's score,
      and KEV's first non-empty description only if NVD has none: what the merge says of itself. */
  lemma ParsedMerge(nvd: seq<TrackedCve>, kev: seq<TrackedCve>, id: string)
    requires Parsed(nvd, kev) && id in Ids(nvd) && id in Ids(kev)
    ensures Has(nvd, id)
    ensures
      var own, merged := LastOf(nvd, id), Record(nvd, kev, id);
      && merged.exploited
      && merged.products == Dedupe(AllProducts(AllOf(kev, id)))
      && merged.cvssScore == own.cvssScore
      && merged.description == FirstDescription(own.description, AllOf(kev, id))
  {
    hide AllOf, AllProducts, FirstDescription;
    HasIff(nvd, id);
    HasIff(kev, id);
    NvdFieldsWin(nvd, kev, id);
    assert LastOf(nvd, id) in AllOf(nvd, id);
    KevProductsWinIff(nvd, kev, id);
  }

  lemma ExploitedIffInKev(nvd: seq<TrackedCve>, kev: seq<TrackedCve>, id: string)
    requires Flagged(nvd, kev) && (Has(nvd, id) || Has(kev, id))
    ensures Record(nvd, kev, id).exploited <==> id in Ids(kev)
  {
    HasIff(nvd, id);
    HasIff(kev, id);
  }

  /** The combined label says "in both feeds" for this ID. */
  ghost predicate LabelRight(nvd: seq<TrackedCve>, kev: seq<TrackedCve>, id: string)
    requires Has(nvd, id) || Has(kev, id)
  {
    Record(nvd, kev, id).source == "NVD + CISA KEV" <==> id in Ids(nvd) && id in Ids(kev)
  }

  /** An ID that NVD lacks occurs in the KEV feed at most once. */
  ghost predicate KevOnlyIdsUnique(nvd: seq<TrackedCve>, kev: seq<TrackedCve>) {
    forall i, j :: 0 <= i < j < |kev| && kev[i].cveId == kev[j].cveId ==> kev[i].cveId in Ids(nvd)
  }

  ghost predicate Repeats(kev: seq<TrackedCve>, id: string) {
    exists i, j :: 0 <= i < j < |kev| && kev[i].cveId == id && kev[j].cveId == id
  }

  lemma {:induction false} RepeatsIff(kev: seq<TrackedCve>, id: string)
    ensures Repeats(kev, id) <==> |AllOf(kev, id)| >= 2
  {
    if kev != [] {
      var front, n := kev[..|kev| - 1], |kev| - 1;
      RepeatsIff(front, id);
      HasIff(front, id);
      if Repeats(kev, id) {
        var i, j :| 0 <= i < j < |kev| && kev[i].cveId == id && kev[j].cveId == id;
        assert Ids(front)[i] == id;
        assert j < n ==> front[i].cveId == id && front[j].cveId == id;
      }
      if |AllOf(front, id)| >= 2 {
        var i, j :| 0 <= i < j < |front| && front[i].cveId == id && front[j].cveId == id;
        assert kev[i].cveId == id && kev[j].cveId == id;
      } else if kev[n].cveId == id && Has(front, id) {
        var i :| 0 <= i < |front| && Ids(front)[i] == id;
        assert kev[i].cveId == id && kev[n].cveId == id;
      }
    }
  }

  /** The label is right for one ID exactly when NVD has it or KEV does not repeat it. */
  lemma LabelRightIff(nvd: seq<TrackedCve>, kev: seq<TrackedCve>, id: string)
    requires Flagged(nvd, kev) && (Has(nvd, id) || Has(kev, id))
    ensures LabelRight(nvd, kev, id) <==> id in Ids(nvd) || !Repeats(kev, id)
  {
    HasIff(nvd, id);
    HasIff(kev, id);
    RepeatsIff(kev, id);
    assert |KEV| != |BOTH| && |NVD| != |BOTH|;
  }

  /** The label is right on the whole merge exactly when no KEV-only ID is listed twice. */
  lemma LabelsRightIff(nvd: seq<TrackedCve>, kev: seq<TrackedCve>)
    requires Flagged(nvd, kev)
    ensures (forall id :: Has(nvd, id) || Has(kev, id) ==> LabelRight(nvd, kev, id))
            <==> KevOnlyIdsUnique(nvd, kev)
  {
    forall id | Has(nvd, id) || Has(kev, id)
      ensures LabelRight(nvd, kev, id) <==> id in Ids(nvd) || !Repeats(kev, id)
    {
      LabelRightIff(nvd, kev, id);
    }
    if !KevOnlyIdsUnique(nvd, kev) {
      var i, j :| 0 <= i < j < |kev| && kev[i].cveId == kev[j].cveId && kev[i].cveId !in Ids(nvd);
      assert Ids(kev)[i] == kev[i].cveId;
      HasIff(kev, kev[i].cveId);
      assert !LabelRight(nvd, kev, kev[i].cveId);
    }
  }

  /** A KEV feed that lists one CVE twice labels it as an NVD record although NVD is empty. */
  lemma RepeatedKevIsMislabelled(entry: TrackedCve)
    ensures Has([entry, entry], entry.cveId) && Record([], [entry, entry], entry.cveId).source == "NVD + CISA KEV"
  {
    AllOfSnoc([entry], entry, entry.cveId);
    AllOfSnoc([], entry, entry.cveId);
    assert [entry] + [entry] == [entry, entry] && [] + [entry] == [entry];
  }
}
