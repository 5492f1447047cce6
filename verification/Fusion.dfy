/** Correlating monitor matches with tracked CVEs and tagged articles (`correlation.py`). */
module Fusion {
  import opened Wrappers
  import opened StableSort
  import opened Text
  import opened CveMerge

  datatype MonitorMatch = MonitorMatch(domain: string, keyword: string, score: int)
  datatype Article = Article(title: string, summary: string, source: string, vectors: seq<string>)
  datatype Kind = ExploitedCve | CveMatch | ThreatVector
  datatype Signal = Signal(kind: Kind, labelText: string, detail: string)
  datatype Finding = Finding(domain: string, title: string, score: int, signals: seq<Signal>)

  const MAX_THREAT_VECTOR_SIGNALS := 5

  function Weight(kind: Kind): int {
    match kind
    case ExploitedCve => 3
    case CveMatch => 1
    case ThreatVector => 1
  }

  const FINDING_SCORE: Finding -> int := (f: Finding) => f.score

  /** `round(n / 10)`: the nearest integer, ties to the even one. */
  function RoundTenth(n: int): (r: int)
    ensures -5 <= n - 10 * r <= 5
    ensures n - 10 * r == 5 || n - 10 * r == -5 ==> r % 2 == 0
  {
    var q, d := n / 10, n % 10;
    if d < 5 || (d == 5 && q % 2 == 0) then q else q + 1
  }

  /** These two facts fix the rounding. */
  lemma RoundTenthUnique(n: int, r: int)
    requires -5 <= n - 10 * r <= 5 && (n - 10 * r == 5 || n - 10 * r == -5 ==> r % 2 == 0)
    ensures r == RoundTenth(n)
  {
    var s := RoundTenth(n);
    assert -10 <= 10 * (r - s) <= 10;
  }

  predicate KeywordInText(keyword: string, text: string) {
    keyword != "" && text != "" && Contains(Lower(keyword), Lower(text))
  }

  // ----- CVE signals -----

  /** The keyword or the domain of the match occurs in the product name. */
  predicate Hit(m: MonitorMatch, product: string) {
    KeywordInText(m.keyword, product) || KeywordInText(m.domain, product)
  }

  function FirstHit(m: MonitorMatch, products: seq<string>): Option<string> {
    if products == [] then None
    else if Hit(m, products[0]) then Some(products[0])
    else FirstHit(m, products[1..])
  }

  function CveSignal(c: TrackedCve, product: string): Signal {
    if c.exploited then
      Signal(ExploitedCve, "Actively exploited CVE matches product '" + product + "'",
             c.cveId + " (CISA KEV) matches product '" + product + "', correlated via monitor keyword/domain.")
    else
      Signal(CveMatch, "Tracked CVE matches product '" + product + "'",
             c.cveId + " matches product '" + product + "', correlated via monitor keyword/domain.")
  }

  function CveSignalOf(m: MonitorMatch, c: TrackedCve): seq<Signal> {
    match FirstHit(m, c.products)
    case Some(product) => [CveSignal(c, product)]
    case None => []
  }

  function CveSignalsOf(m: MonitorMatch, cves: seq<TrackedCve>): seq<Signal> {
    if cves == [] then []
    else CveSignalsOf(m, cves[..|cves| - 1]) + CveSignalOf(m, cves[|cves| - 1])
  }

  /** The first product that any needle occurs in, with the two loops of the generator expression. */
  method NextMatch(products: seq<string>, needles: seq<string>, ghost m: MonitorMatch) returns (r: Option<string>)
    requires forall n :: n in needles <==> n != "" && (n == m.keyword || n == m.domain)
    ensures r == FirstHit(m, products)
  {
    var p := 0;
    while p < |products|
      invariant 0 <= p <= |products|
      invariant FirstHit(m, products) == FirstHit(m, products[p..])
    {
      var n := 0;
      while n < |needles|
        invariant 0 <= n <= |needles|
        invariant forall k :: 0 <= k < n ==> !KeywordInText(needles[k], products[p])
      {
        if KeywordInText(needles[n], products[p]) {
          assert needles[n] in needles;
          return Some(products[p]);
        }
        n := n + 1;
      }
      assert forall x :: x in needles ==> !KeywordInText(x, products[p]);
      assert !Hit(m, products[p]) by {
        assert m.keyword != "" ==> m.keyword in needles;
        assert m.domain != "" ==> m.domain in needles;
      }
      p := p + 1;
    }
    return None;
  }

  /** `_cve_signals`. The needles are a Python set: `needles` lists it in whatever order it is iterated, and the
      result does not depend on that order. */
  method CveSignals(m: MonitorMatch, needles: seq<string>, cves: seq<TrackedCve>) returns (signals: seq<Signal>)
    requires forall n :: n in needles <==> n != "" && (n == m.keyword || n == m.domain)
    ensures signals == CveSignalsOf(m, cves)
  {
    signals := [];
    var i := 0;
    while i < |cves|
      invariant 0 <= i <= |cves|
      invariant signals == CveSignalsOf(m, cves[..i])
    {
      assert cves[..i + 1][..i] == cves[..i];
      var product := NextMatch(cves[i].products, needles, m);
      if product.Some? {
        signals := signals + [CveSignal(cves[i], product.value)];
      }
      i := i + 1;
    }
    assert cves[..i] == cves;
  }

  // ----- threat-vector signals -----

  predicate Tagged(m: MonitorMatch, a: Article) {
    a.vectors != [] && KeywordInText(m.keyword, a.title + " " + a.summary)
  }

  function CommaJoin(names: seq<string>): string {
    if names == [] then "" else if |names| == 1 then names[0] else names[0] + ", " + CommaJoin(names[1..])
  }

  function ThreatSignal(m: MonitorMatch, a: Article): Signal {
    var names := CommaJoin(a.vectors);
    Signal(ThreatVector, "Trending vector(s): " + names,
           "Article '" + a.title + "' (" + a.source + ") tags vector(s) " + names
           + ", matched via monitor keyword '" + m.keyword + "'.")
  }

  function TaggedOnly(m: MonitorMatch, articles: seq<Article>): seq<Article> {
    if articles == [] then []
    else TaggedOnly(m, articles[..|articles| - 1])
         + if Tagged(m, articles[|articles| - 1]) then [articles[|articles| - 1]] else []
  }

  function Min(a: int, b: int): int { if a <= b then a else b }

  /** The signals of the first five tagged articles. */
  function ThreatSignalsOf(m: MonitorMatch, articles: seq<Article>): seq<Signal> {
    var tagged := TaggedOnly(m, articles);
    seq(Min(MAX_THREAT_VECTOR_SIGNALS, |tagged|), i requires 0 <= i < |tagged| => ThreatSignal(m, tagged[i]))
  }

  /** `_threat_vector_signals`, which stops reading at the fifth signal. */
  method ThreatVectorSignals(m: MonitorMatch, articles: seq<Article>) returns (signals: seq<Signal>)
    ensures signals == ThreatSignalsOf(m, articles)
  {
    signals := [];
    var i := 0;
    while i < |articles|
      invariant 0 <= i <= |articles|
      invariant |TaggedOnly(m, articles[..i])| == |signals| < MAX_THREAT_VECTOR_SIGNALS
      invariant signals == ThreatSignalsOf(m, articles[..i])
    {
      var a := articles[i];
      assert articles[..i + 1][..i] == articles[..i];
      i := i + 1;
      if a.vectors == [] {
        continue;
      }
      if !KeywordInText(m.keyword, a.title + " " + a.summary) {
        continue;
      }
      signals := signals + [ThreatSignal(m, a)];
      if |signals| >= MAX_THREAT_VECTOR_SIGNALS {
        TaggedPrefix(m, articles, i);
        return;
      }
    }
    assert articles[..i] == articles;
  }

  lemma {:induction false} TaggedPrefix(m: MonitorMatch, articles: seq<Article>, i: nat)
    requires i <= |articles|
    ensures TaggedOnly(m, articles[..i]) <= TaggedOnly(m, articles)
    decreases |articles|
  {
    if i < |articles| {
      TaggedPrefix(m, articles[..|articles| - 1], i);
      assert articles[..|articles| - 1][..i] == articles[..i];
    } else {
      assert articles[..i] == articles;
    }
  }

  // ----- findings -----

  function TotalWeight(signals: seq<Signal>): int {
    if signals == [] then 0
    else TotalWeight(signals[..|signals| - 1]) + Weight(signals[|signals| - 1].kind)
  }

  function SignalsOf(m: MonitorMatch, articles: seq<Article>, cves: seq<TrackedCve>): seq<Signal> {
    CveSignalsOf(m, cves) + ThreatSignalsOf(m, articles)
  }

  function FindingOf(m: MonitorMatch, signals: seq<Signal>): Finding {
    Finding(m.domain, m.domain + " (keyword '" + m.keyword + "')", RoundTenth(m.score) + TotalWeight(signals), signals)
  }

  /** One finding for each match that has a signal, in the order of the matches. */
  function Findings(matches: seq<MonitorMatch>, articles: seq<Article>, cves: seq<TrackedCve>): seq<Finding> {
    if matches == [] then []
    else
      var m := matches[|matches| - 1];
      var signals := SignalsOf(m, articles, cves);
      Findings(matches[..|matches| - 1], articles, cves) + if signals == [] then [] else [FindingOf(m, signals)]
  }

  method SumWeights(signals: seq<Signal>) returns (total: int)
    ensures total == TotalWeight(signals)
  {
    total := 0;
    for i := 0 to |signals|
      invariant total == TotalWeight(signals[..i])
    {
      assert signals[..i + 1][..i] == signals[..i];
      total := total + Weight(signals[i].kind);
    }
    assert signals[..|signals|] == signals;
  }

  /** `correlate`; `needleOrder` gives the iteration order of each match's needle set. */
  method Correlate(matches: seq<MonitorMatch>, articles: seq<Article>, cves: seq<TrackedCve>,
                   needleOrder: MonitorMatch -> seq<string>)
    returns (findings: seq<Finding>)
    requires forall m: MonitorMatch, n ::
               n in needleOrder(m) <==> n != "" && (n == m.keyword || n == m.domain)
    ensures findings == SortDesc(Findings(matches, articles, cves), FINDING_SCORE)
  {
    hide SortDesc, CveSignalsOf, ThreatSignalsOf, TotalWeight, RoundTenth;
    findings := [];
    var i := 0;
    while i < |matches|
      invariant 0 <= i <= |matches|
      invariant findings == Findings(matches[..i], articles, cves)
    {
      var m := matches[i];
      assert matches[..i + 1][..i] == matches[..i];
      i := i + 1;
      var fromCves := CveSignals(m, needleOrder(m), cves);
      var fromArticles := ThreatVectorSignals(m, articles);
      var signals := fromCves + fromArticles;
      if signals == [] {
        continue;
      }
      var weights := SumWeights(signals);
      findings := findings + [Finding(m.domain, m.domain + " (keyword '" + m.keyword + "')",
                                      RoundTenth(m.score) + weights, signals)];
    }
    assert matches[..i] == matches;
    findings := SortDesc(findings, FINDING_SCORE);
  }

  // ----- the score in closed form -----

  /** How many of these CVEs name a product the match occurs in, split by exploitation. */
  function MatchingCves(m: MonitorMatch, cves: seq<TrackedCve>, exploited: bool): nat {
    if cves == [] then 0
    else
      var c := cves[|cves| - 1];
      MatchingCves(m, cves[..|cves| - 1], exploited)
      + if c.exploited == exploited && (exists p :: p in c.products && Hit(m, p)) then 1 else 0
  }

  function TaggedArticles(m: MonitorMatch, articles: seq<Article>): nat {
    if articles == [] then 0
    else TaggedArticles(m, articles[..|articles| - 1]) + if Tagged(m, articles[|articles| - 1]) then 1 else 0
  }

  /** A keyword occurs in a text, letter case apart; an empty one nowhere. */
  ghost predicate Occurs(keyword: string, text: string) {
    keyword != "" && exists k :: StandsAt(Lower(keyword), Lower(text), k)
  }

  lemma KeywordIffOccurs(keyword: string, text: string)
    ensures KeywordInText(keyword, text) <==> Occurs(keyword, text)
  {
    ContainsIff(Lower(keyword), Lower(text));
    assert |Lower(keyword)| == |keyword| && |Lower(text)| == |text|;
    hide Contains, Lower;
  }

  /** A product is hit exactly when the keyword or the domain of the match occurs in its name, and an article is
      tagged for a match exactly when it has vectors and the keyword occurs in its title or summary or across them. */
  lemma HitsAndTags(m: MonitorMatch, product: string, a: Article)
    ensures Hit(m, product) <==> Occurs(m.keyword, product) || Occurs(m.domain, product)
    ensures Tagged(m, a) <==> a.vectors != [] && Occurs(m.keyword, a.title + " " + a.summary)
  {
    KeywordIffOccurs(m.keyword, product);
    KeywordIffOccurs(m.domain, product);
    KeywordIffOccurs(m.keyword, a.title + " " + a.summary);
    hide KeywordInText, Occurs;
  }

  /** The product named by a CVE's signal is the first that is hit. */
  lemma {:induction false} FirstHitIsFirst(m: MonitorMatch, products: seq<string>) returns (i: nat)
    requires FirstHit(m, products).Some?
    ensures i < |products| && FirstHit(m, products) == Some(products[i]) && Hit(m, products[i])
    ensures forall j :: 0 <= j < i ==> !Hit(m, products[j])
  {
    hide Hit;
    i := 0;
    if !Hit(m, products[0]) {
      i := FirstHitIsFirst(m, products[1..]);
      i := i + 1;
    }
  }

  lemma FindingHolds(m: MonitorMatch, signals: seq<Signal>)
    ensures
      var f := FindingOf(m, signals);
      f.domain == m.domain && f.title == m.domain + " (keyword '" + m.keyword + "')" && f.signals == signals
  {
  }

  /** Names are joined by a comma and a blank, none before the first and none after the last. */
  lemma {:induction false} CommaJoinConcat(xs: seq<string>, ys: seq<string>)
    requires xs != [] && ys != []
    ensures CommaJoin(xs + ys) == CommaJoin(xs) + ", " + CommaJoin(ys)
    ensures CommaJoin([]) == "" && CommaJoin([ys[0]]) == ys[0]
  {
    if |xs| == 1 {
      assert (xs + ys)[1..] == ys;
    } else {
      CommaJoinConcat(xs[1..], ys);
      assert (xs + ys)[1..] == xs[1..] + ys;
    }
  }

  /** What a signal says of a CVE and of an article. */
  lemma SignalsSay(m: MonitorMatch, c: TrackedCve, product: string, a: Article)
    ensures c.exploited ==>
              CveSignal(c, product) ==
              Signal(ExploitedCve, "Actively exploited CVE matches product '" + product + "'",
                     c.cveId + " (CISA KEV) matches product '" + product
                     + "', correlated via monitor keyword/domain.")
    ensures !c.exploited ==>
              CveSignal(c, product) ==
              Signal(CveMatch, "Tracked CVE matches product '" + product + "'",
                     c.cveId + " matches product '" + product + "', correlated via monitor keyword/domain.")
    ensures
      var names := CommaJoin(a.vectors);
      ThreatSignal(m, a) ==
      Signal(ThreatVector, "Trending vector(s): " + names,
             "Article '" + a.title + "' (" + a.source + ") tags vector(s) " + names
             + ", matched via monitor keyword '" + m.keyword + "'.")
  {
    hide CommaJoin;
  }

  lemma {:induction false} FirstHitIff(m: MonitorMatch, products: seq<string>)
    ensures FirstHit(m, products).Some? <==> exists p :: p in products && Hit(m, p)
  {
    if products != [] {
      FirstHitIff(m, products[1..]);
      if !Hit(m, products[0]) {
        forall p | p in products && Hit(m, p) ensures p in products[1..] {
        }
      }
    }
  }

  lemma TotalWeightSnoc(signals: seq<Signal>, s: Signal)
    ensures TotalWeight(signals + [s]) == TotalWeight(signals) + Weight(s.kind)
  {
    assert (signals + [s])[..|signals|] == signals;
  }

  lemma {:induction false} TotalWeightConcat(xs: seq<Signal>, ys: seq<Signal>)
    ensures TotalWeight(xs + ys) == TotalWeight(xs) + TotalWeight(ys)
  {
    if ys == [] {
      assert xs + ys == xs;
    } else {
      var front, last := ys[..|ys| - 1], ys[|ys| - 1];
      TotalWeightConcat(xs, front);
      assert xs + ys == (xs + front) + [last];
      TotalWeightSnoc(xs + front, last);
    }
  }

  lemma {:induction false} CveWeight(m: MonitorMatch, cves: seq<TrackedCve>)
    ensures TotalWeight(CveSignalsOf(m, cves)) == 3 * MatchingCves(m, cves, true) + MatchingCves(m, cves, false)
  {
    if cves != [] {
      var front, c := cves[..|cves| - 1], cves[|cves| - 1];
      CveWeight(m, front);
      FirstHitIff(m, c.products);
      if FirstHit(m, c.products).Some? {
        TotalWeightSnoc(CveSignalsOf(m, front), CveSignal(c, FirstHit(m, c.products).value));
      } else {
        assert CveSignalsOf(m, front) + [] == CveSignalsOf(m, front);
      }
    }
  }

  lemma {:induction false} TaggedOnlyCount(m: MonitorMatch, articles: seq<Article>)
    ensures |TaggedOnly(m, articles)| == TaggedArticles(m, articles)
  {
    if articles != [] {
      TaggedOnlyCount(m, articles[..|articles| - 1]);
    }
  }

  lemma {:induction false} UnitWeights(signals: seq<Signal>)
    requires forall s :: s in signals ==> s.kind == ThreatVector
    ensures TotalWeight(signals) == |signals|
  {
    if signals != [] {
      UnitWeights(signals[..|signals| - 1]);
    }
  }

  /** A finding's score: the monitor score over ten, rounded half to even, plus 3 for each matching exploited CVE,
      1 for each other matching CVE, and 1 for each tagged article up to five. */
  lemma ScoreClosedForm(m: MonitorMatch, articles: seq<Article>, cves: seq<TrackedCve>)
    ensures FindingOf(m, SignalsOf(m, articles, cves)).score ==
            RoundTenth(m.score) + 3 * MatchingCves(m, cves, true) + MatchingCves(m, cves, false)
            + Min(5, TaggedArticles(m, articles))
  {
    TotalWeightConcat(CveSignalsOf(m, cves), ThreatSignalsOf(m, articles));
    CveWeight(m, cves);
    TaggedOnlyCount(m, articles);
    UnitWeights(ThreatSignalsOf(m, articles));
  }

  lemma {:induction false} FindingsFrom(matches: seq<MonitorMatch>, articles: seq<Article>, cves: seq<TrackedCve>)
    ensures forall f :: f in Findings(matches, articles, cves) <==>
              exists m :: m in matches && SignalsOf(m, articles, cves) != []
                          && f == FindingOf(m, SignalsOf(m, articles, cves))
  {
    if matches != [] {
      var front, last := matches[..|matches| - 1], matches[|matches| - 1];
      FindingsFrom(front, articles, cves);
      assert matches == front + [last];
      var signals := SignalsOf(last, articles, cves);
      forall f | f in Findings(matches, articles, cves)
        ensures exists m :: m in matches && SignalsOf(m, articles, cves) != []
                            && f == FindingOf(m, SignalsOf(m, articles, cves))
      {
        if f in Findings(front, articles, cves) {
          var m :| m in front && SignalsOf(m, articles, cves) != [] && f == FindingOf(m, SignalsOf(m, articles, cves));
          assert m in matches;
        } else {
          assert last in matches && f == FindingOf(last, signals);
        }
      }
    }
  }

  /** A match has a finding exactly when some CVE or some article correlates with it. */
  lemma CorrelatedIff(m: MonitorMatch, articles: seq<Article>, cves: seq<TrackedCve>)
    ensures SignalsOf(m, articles, cves) != [] <==>
            MatchingCves(m, cves, true) + MatchingCves(m, cves, false) + TaggedArticles(m, articles) > 0
  {
    TaggedOnlyCount(m, articles);
    CveSignalCount(m, cves);
  }

  lemma {:induction false} CveSignalCount(m: MonitorMatch, cves: seq<TrackedCve>)
    ensures |CveSignalsOf(m, cves)| == MatchingCves(m, cves, true) + MatchingCves(m, cves, false)
  {
    if cves != [] {
      CveSignalCount(m, cves[..|cves| - 1]);
      FirstHitIff(m, cves[|cves| - 1].products);
    }
  }

  /** The feed is a stable descending permutation of the findings, so cutting it at a limit drops no finding
      that outscores a kept one. */
  lemma FeedKeepsTheBest(matches: seq<MonitorMatch>, articles: seq<Article>, cves: seq<TrackedCve>, limit: nat)
    ensures
      var found := Findings(matches, articles, cves);
      var feed := SortDesc(found, FINDING_SCORE);
      && multiset(feed) == multiset(found)
      && SameTies(feed, found, FINDING_SCORE)
      && (limit <= |feed| ==>
            forall kept, dropped :: kept in feed[..limit] && dropped in feed[limit..] ==> kept.score >= dropped.score)
  {
    var found := Findings(matches, articles, cves);
    var feed := SortDesc(found, FINDING_SCORE);
    SortDescOk(found, FINDING_SCORE);
    if limit <= |feed| {
      forall kept, dropped | kept in feed[..limit] && dropped in feed[limit..] ensures kept.score >= dropped.score {
        CutKeepsLargest(feed, FINDING_SCORE, limit, kept, dropped);
      }
    }
  }
}
