/** Candidate lookalike domains for a brand, cut off at a limit (`discovery.py`). */
module Variants {
  import opened Wrappers

  datatype Profile = Profile(normalizedTarget: string, brandKeyword: string, rootDomain: Option<string>)
  datatype Candidate = Candidate(domain: string, technique: string, tags: seq<string>)
  datatype Variation = Variation(domain: string, technique: string, source: string, tags: seq<string>)

  const COMMON_TLDS: seq<string> := ["com", "net", "org", "co", "io", "biz"]
  const LURE_TERMS: seq<string> := ["login", "secure", "verify", "portal"]
  const HOMOGLYPHS: seq<(char, char)> := [('a', '4'), ('e', '3'), ('i', '1'), ('o', '0'), ('s', '5')]

  // ----- the candidate stream -----

  function LureCandidate(keyword: string, tld: string, lure: string): Candidate {
    Candidate(lure + "-" + keyword + "." + tld, "brand-prefix", ["credential-lure"])
  }

  function Lures(keyword: string, tld: string): seq<Candidate> {
    seq(|LURE_TERMS|, i requires 0 <= i < |LURE_TERMS| => LureCandidate(keyword, tld, LURE_TERMS[i]))
  }

  function Support(keyword: string, tld: string): Candidate {
    Candidate(keyword + "-support." + tld, "support-lure", ["support-theme"])
  }

  function Security(keyword: string, tld: string): Candidate {
    Candidate(keyword + "-secure." + tld, "security-lure", ["credential-lure"])
  }

  function Blend(keyword: string, tld: string): Candidate {
    Candidate(keyword + tld + "." + tld, "tld-blend", ["brand-concatenation"])
  }

  function TldBlock(keyword: string, tld: string): seq<Candidate> {
    Lures(keyword, tld) + [Support(keyword, tld), Security(keyword, tld), Blend(keyword, tld)]
  }

  function TldBlocks(keyword: string, tlds: seq<string>): seq<Candidate> {
    if tlds == [] then []
    else TldBlocks(keyword, tlds[..|tlds| - 1]) + TldBlock(keyword, tlds[|tlds| - 1])
  }

  function Typos(keyword: string): seq<Candidate> {
    if |keyword| <= 3 then []
    else
      var cut := keyword[..|keyword| - 1];
      [ Candidate(cut + "." + COMMON_TLDS[0], "character-omission", ["typing-error"]),
        Candidate(keyword + [keyword[|keyword| - 1]] + "." + COMMON_TLDS[0], "character-duplication", ["typing-error"]),
        Candidate(cut + "0." + COMMON_TLDS[0], "character-swap", ["homoglyph-risk"]) ]
  }

  /** `keyword.replace(from, to, 1)`. */
  function ReplaceFirst(s: string, from: char, to: char): string {
    if s == "" then "" else if s[0] == from then [to] + s[1..] else [s[0]] + ReplaceFirst(s[1..], from, to)
  }

  function Homoglyph(keyword: string, pair: (char, char)): seq<Candidate> {
    if pair.0 in keyword then
      [Candidate(ReplaceFirst(keyword, pair.0, pair.1) + "." + COMMON_TLDS[0], "homoglyph", ["homoglyph-risk"])]
    else []
  }

  function Homoglyphs(keyword: string, pairs: seq<(char, char)>): seq<Candidate> {
    if pairs == [] then []
    else Homoglyphs(keyword, pairs[..|pairs| - 1]) + Homoglyph(keyword, pairs[|pairs| - 1])
  }

  /** Every candidate in the order in which the generator proposes them, were there no limit. */
  function Stream(keyword: string): seq<Candidate> {
    TldBlocks(keyword, COMMON_TLDS) + Typos(keyword) + Homoglyphs(keyword, HOMOGLYPHS)
  }

  /** A single replacement changes the first occurrence and nothing else. */
  lemma {:induction false} ReplaceFirstIs(s: string, from: char, to: char) returns (k: nat)
    requires from in s
    ensures k < |s| && s[k] == from && from !in s[..k]
    ensures ReplaceFirst(s, from, to) == s[..k] + [to] + s[k + 1..]
  {
    k := 0;
    if s[0] != from {
      k := ReplaceFirstIs(s[1..], from, to);
      k := k + 1;
      assert s[..k] == [s[0]] + s[1..][..k - 1];
    }
  }

  // ----- the stream place by place -----

  /** The seven candidates of one TLD, in their order. */
  lemma BlockAt(keyword: string, tld: string)
    ensures
      var b := TldBlock(keyword, tld);
      && |b| == 7
      && b[0] == Candidate("login-" + keyword + "." + tld, "brand-prefix", ["credential-lure"])
      && b[1] == Candidate("secure-" + keyword + "." + tld, "brand-prefix", ["credential-lure"])
      && b[2] == Candidate("verify-" + keyword + "." + tld, "brand-prefix", ["credential-lure"])
      && b[3] == Candidate("portal-" + keyword + "." + tld, "brand-prefix", ["credential-lure"])
      && b[4] == Candidate(keyword + "-support." + tld, "support-lure", ["support-theme"])
      && b[5] == Candidate(keyword + "-secure." + tld, "security-lure", ["credential-lure"])
      && b[6] == Candidate(keyword + tld + "." + tld, "tld-blend", ["brand-concatenation"])
  {
    assert "login" + "-" + keyword == "login-" + keyword && "secure" + "-" + keyword == "secure-" + keyword;
    assert "verify" + "-" + keyword == "verify-" + keyword && "portal" + "-" + keyword == "portal-" + keyword;
  }

  /** The blocks follow each other in the order of their TLDs. */
  lemma {:induction false} BlocksAt(keyword: string, tlds: seq<string>, t: nat)
    requires t < |tlds|
    ensures |TldBlocks(keyword, tlds)| == 7 * |tlds|
    ensures TldBlocks(keyword, tlds)[7 * t..7 * t + 7] == TldBlock(keyword, tlds[t])
    decreases |tlds|
  {
    var n := |tlds| - 1;
    hide TldBlock;
    BlockLength(keyword, tlds[n]);
    if n > 0 {
      BlocksAt(keyword, tlds[..n], if t < n then t else 0);
    }
    if t < n {
      assert tlds[..n][t] == tlds[t];
    }
  }

  lemma BlockLength(keyword: string, tld: string)
    ensures |TldBlock(keyword, tld)| == 7
  {
  }

  /** The stream: seven candidates for each of the six TLDs, then three typos if the keyword is longer than three, then
      a homoglyph for each of the five letters that occurs in it, with its first occurrence replaced. */
  lemma StreamAt(keyword: string)
    ensures
      var tlds := ["com", "net", "org", "co", "io", "biz"];
      var stream := Stream(keyword);
      && |stream| >= 42
      && (forall t :: 0 <= t < 6 ==> stream[7 * t..7 * t + 7] == TldBlock(keyword, tlds[t]))
      && (if |keyword| > 3 then
            && |stream| >= 45
            && stream[42] == Candidate(keyword[..|keyword| - 1] + ".com", "character-omission", ["typing-error"])
            && stream[43] == Candidate(keyword + [keyword[|keyword| - 1]] + ".com", "character-duplication",
                                       ["typing-error"])
            && stream[44] == Candidate(keyword[..|keyword| - 1] + "0.com", "character-swap", ["homoglyph-risk"])
            && stream[45..] == FiveHomoglyphs(keyword)
          else stream[42..] == FiveHomoglyphs(keyword))
  {
    var tlds := ["com", "net", "org", "co", "io", "biz"];
    hide TldBlocks, TldBlock, Homoglyphs, FiveHomoglyphs;
    HomoglyphsAre(keyword);
    forall t | 0 <= t < 6
      ensures |TldBlocks(keyword, tlds)| == 42
      ensures TldBlocks(keyword, tlds)[7 * t..7 * t + 7] == TldBlock(keyword, tlds[t])
    {
      BlocksAt(keyword, tlds, t);
    }
    assert |TldBlocks(keyword, tlds)| == 42 by {
      BlocksAt(keyword, tlds, 0);
    }
    var blocks, rest := TldBlocks(keyword, COMMON_TLDS), Typos(keyword) + Homoglyphs(keyword, HOMOGLYPHS);
    assert Stream(keyword) == blocks + rest;
    forall t | 0 <= t < 6 ensures Stream(keyword)[7 * t..7 * t + 7] == TldBlock(keyword, tlds[t]) {
      assert (blocks + rest)[7 * t..7 * t + 7] == blocks[7 * t..7 * t + 7];
    }
    if |keyword| > 3 {
      var cut := keyword[..|keyword| - 1];
      assert cut + "." + "com" == cut + ".com" && cut + "0." + "com" == cut + "0.com";
      assert keyword + [keyword[|keyword| - 1]] + "." + "com" == keyword + [keyword[|keyword| - 1]] + ".com";
    }
  }

  /** The homoglyph of one letter, if it occurs. */
  function Swapped(keyword: string, from: char, to: char): seq<Candidate> {
    if from in keyword then [Candidate(ReplaceFirst(keyword, from, to) + ".com", "homoglyph", ["homoglyph-risk"])]
    else []
  }

  function FiveHomoglyphs(keyword: string): seq<Candidate> {
    Swapped(keyword, 'a', '4') + Swapped(keyword, 'e', '3') + Swapped(keyword, 'i', '1')
    + Swapped(keyword, 'o', '0') + Swapped(keyword, 's', '5')
  }

  lemma HomoglyphIsSwapped(keyword: string, from: char, to: char)
    ensures Homoglyph(keyword, (from, to)) == Swapped(keyword, from, to)
  {
    var swapped := ReplaceFirst(keyword, from, to);
    assert swapped + "." + "com" == swapped + ".com";
  }

  lemma HomoglyphsSnoc(keyword: string, pairs: seq<(char, char)>, from: char, to: char)
    ensures Homoglyphs(keyword, pairs + [(from, to)]) == Homoglyphs(keyword, pairs) + Swapped(keyword, from, to)
  {
    assert (pairs + [(from, to)])[..|pairs|] == pairs;
    HomoglyphIsSwapped(keyword, from, to);
  }

  lemma HomoglyphsAre(keyword: string)
    ensures Homoglyphs(keyword, HOMOGLYPHS) == FiveHomoglyphs(keyword)
  {
    var p1 := [('a', '4')];
    var p2 := p1 + [('e', '3')];
    var p3 := p2 + [('i', '1')];
    var p4 := p3 + [('o', '0')];
    assert HOMOGLYPHS == p4 + [('s', '5')];
    assert p1 == [] + [('a', '4')];
    HomoglyphsSnoc(keyword, [], 'a', '4');
    HomoglyphsSnoc(keyword, p1, 'e', '3');
    HomoglyphsSnoc(keyword, p2, 'i', '1');
    HomoglyphsSnoc(keyword, p3, 'o', '0');
    HomoglyphsSnoc(keyword, p4, 's', '5');
    assert Homoglyphs(keyword, []) + Swapped(keyword, 'a', '4') == Swapped(keyword, 'a', '4');
    hide Homoglyphs, Swapped;
  }

  // ----- what is kept of it -----

  predicate Eligible(p: Profile, c: Candidate) {
    '.' in c.domain && Some(c.domain) != p.rootDomain
  }

  function ToVariation(p: Profile, c: Candidate): Variation {
    Variation(c.domain, c.technique, p.normalizedTarget, c.tags)
  }

  predicate Listed(vs: seq<Variation>, domain: string) {
    exists v :: v in vs && v.domain == domain
  }

  /** The eligible candidates of a stream, each domain once, the first proposal of a domain winning. */
  function Dedupe(p: Profile, stream: seq<Candidate>): seq<Variation> {
    if stream == [] then []
    else
      var kept := Dedupe(p, stream[..|stream| - 1]);
      var last := stream[|stream| - 1];
      if Eligible(p, last) && !Listed(kept, last.domain) then kept + [ToVariation(p, last)] else kept
  }

  function Take(vs: seq<Variation>, limit: int): seq<Variation> {
    if limit < 0 then [] else if limit <= |vs| then vs[..limit] else vs
  }

  /** The result for a limit: the first `limit` entries of the deduplicated stream. */
  function Result(p: Profile, limit: int): seq<Variation> {
    Take(Dedupe(p, Stream(p.brandKeyword)), limit)
  }

  // ----- the generator -----

  class Generator {
    const profile: Profile
    const limit: int
    var variants: seq<Variation>
    ghost var proposed: seq<Candidate>

    constructor (profile: Profile, limit: int)
      ensures this.profile == profile && this.limit == limit
      ensures variants == [] && proposed == []
    {
      this.profile := profile;
      this.limit := limit;
      variants := [];
      proposed := [];
    }

    /** What has been kept is what the limit leaves of the proposals so far. */
    ghost predicate Valid()
      reads this
    {
      variants == Take(Dedupe(profile, proposed), limit)
    }

    /** The closure `add`: ignores a candidate once the limit is reached. */
    method Add(c: Candidate)
      requires Valid()
      modifies this
      ensures Valid() && proposed == old(proposed) + [c]
    {
      AddKeepsTake(profile, proposed, c, limit);
      proposed := proposed + [c];
      if |variants| >= limit || '.' !in c.domain {
        return;
      }
      if Some(c.domain) == profile.rootDomain {
        return;
      }
      if !Listed(variants, c.domain) {
        variants := variants + [Variation(c.domain, c.technique, profile.normalizedTarget, c.tags)];
      }
    }

    method AddTldBlock(tld: string)
      requires Valid()
      modifies this
      ensures Valid() && proposed == old(proposed) + TldBlock(profile.brandKeyword, tld)
    {
      hide Eligible, Dedupe, Take;
      var keyword := profile.brandKeyword;
      ghost var before := proposed;
      for l := 0 to |LURE_TERMS|
        invariant Valid() && proposed == before + Lures(keyword, tld)[..l]
      {
        Add(LureCandidate(keyword, tld, LURE_TERMS[l]));
        assert Lures(keyword, tld)[..l + 1] == Lures(keyword, tld)[..l] + [Lures(keyword, tld)[l]];
      }
      Add(Support(keyword, tld));
      Add(Security(keyword, tld));
      Add(Blend(keyword, tld));
    }

    method AddTldBlocks()
      requires Valid() && proposed == []
      modifies this
      ensures Valid() && proposed == TldBlocks(profile.brandKeyword, COMMON_TLDS)
    {
      var keyword := profile.brandKeyword;
      for t := 0 to |COMMON_TLDS|
        invariant Valid() && proposed == TldBlocks(keyword, COMMON_TLDS[..t])
      {
        AddTldBlock(COMMON_TLDS[t]);
        assert COMMON_TLDS[..t + 1][..t] == COMMON_TLDS[..t];
      }
      assert COMMON_TLDS[..|COMMON_TLDS|] == COMMON_TLDS;
    }

    method AddTypos()
      requires Valid()
      modifies this
      ensures Valid() && proposed == old(proposed) + Typos(profile.brandKeyword)
    {
      var keyword := profile.brandKeyword;
      if |keyword| > 3 {
        var cut := keyword[..|keyword| - 1];
        Add(Candidate(cut + "." + COMMON_TLDS[0], "character-omission", ["typing-error"]));
        var doubled := keyword + [keyword[|keyword| - 1]];
        Add(Candidate(doubled + "." + COMMON_TLDS[0], "character-duplication", ["typing-error"]));
        Add(Candidate(cut + "0." + COMMON_TLDS[0], "character-swap", ["homoglyph-risk"]));
      }
    }

    /** The last loop skips even the attempt once the limit is reached. */
    method AddHomoglyphs()
      requires Valid()
      modifies this
      ensures Valid() && proposed == old(proposed) + Homoglyphs(profile.brandKeyword, HOMOGLYPHS)
    {
      hide Dedupe, Take, ReplaceFirst;
      var keyword := profile.brandKeyword;
      ghost var before := proposed;
      for h := 0 to |HOMOGLYPHS|
        invariant Valid() && proposed == before + Homoglyphs(keyword, HOMOGLYPHS[..h])
      {
        assert HOMOGLYPHS[..h + 1][..h] == HOMOGLYPHS[..h];
        var pair := HOMOGLYPHS[h];
        if pair.0 in keyword {
          var swapped := ReplaceFirst(keyword, pair.0, pair.1);
          var c := Candidate(swapped + "." + COMMON_TLDS[0], "homoglyph", ["homoglyph-risk"]);
          if |variants| < limit {
            Add(c);
          } else {
            AddKeepsTake(profile, proposed, c, limit);
            proposed := proposed + [c];
          }
        }
      }
      assert HOMOGLYPHS[..|HOMOGLYPHS|] == HOMOGLYPHS;
    }
  }

  /** `generate_domain_variants`. */
  method GenerateDomainVariants(profile: Profile, limit: int) returns (variants: seq<Variation>)
    ensures variants == Result(profile, limit)
  {
    var g := new Generator(profile, limit);
    g.AddTldBlocks();
    g.AddTypos();
    g.AddHomoglyphs();
    variants := g.variants;
    if 0 <= limit <= |variants| {
      variants := variants[..limit];
    }
  }

  /** One more proposal, judged against the kept entries only, keeps the limited list right. */
  lemma AddKeepsTake(p: Profile, proposed: seq<Candidate>, c: Candidate, limit: int)
    ensures
      var vs := Take(Dedupe(p, proposed), limit);
      Take(Dedupe(p, proposed + [c]), limit) ==
      if |vs| < limit && Eligible(p, c) && !Listed(vs, c.domain) then vs + [ToVariation(p, c)] else vs
  {
    assert (proposed + [c])[..|proposed|] == proposed;
  }

  // ----- properties of the result -----

  /** A smaller limit gives exactly the first entries of what a larger limit gives. */
  lemma LimitOnlyCuts(p: Profile, small: nat, large: nat)
    requires small <= large
    ensures Result(p, small) == Take(Result(p, large), small)
  {
    var all := Dedupe(p, Stream(p.brandKeyword));
    if small <= |all| && large <= |all| {
      assert all[..large][..small] == all[..small];
    }
  }

  ghost predicate DistinctDomains(vs: seq<Variation>) {
    forall i, j :: 0 <= i < j < |vs| ==> vs[i].domain != vs[j].domain
  }

  /** `v` is proposal `i`, which is eligible and the first of its domain. */
  ghost predicate ProposedAt(p: Profile, stream: seq<Candidate>, v: Variation, i: nat) {
    && i < |stream| && Eligible(p, stream[i]) && v == ToVariation(p, stream[i])
    && forall j :: 0 <= j < i ==> stream[j].domain != v.domain
  }

  /** `v` comes from the first eligible proposal of its domain. */
  ghost predicate FirstProposal(p: Profile, stream: seq<Candidate>, v: Variation) {
    exists i: nat :: ProposedAt(p, stream, v, i)
  }

  lemma ProposedAtSnoc(p: Profile, front: seq<Candidate>, last: Candidate, v: Variation, i: nat)
    requires forall c :: c in front && Eligible(p, c) ==> Listed(Dedupe(p, front), c.domain)
    requires forall w :: w in Dedupe(p, front) ==> FirstProposal(p, front, w)
    ensures i < |front| ==> (ProposedAt(p, front + [last], v, i) <==> ProposedAt(p, front, v, i))
    ensures ProposedAt(p, front + [last], v, |front|) <==>
            Eligible(p, last) && v == ToVariation(p, last) && !Listed(Dedupe(p, front), last.domain)
  {
    var stream, kept := front + [last], Dedupe(p, front);
    hide Dedupe;
    assert forall j :: 0 <= j < |front| ==> stream[j] == front[j];
    if Listed(kept, last.domain) {
      var w :| w in kept && w.domain == last.domain;
      var j: nat :| ProposedAt(p, front, w, j);
      assert stream[j].domain == last.domain;
    } else if Eligible(p, last) {
      forall j | 0 <= j < |front| ensures stream[j].domain != last.domain {
        assert front[j] in front;
      }
    }
  }

  lemma {:induction false} DedupeSound(p: Profile, stream: seq<Candidate>)
    ensures DistinctDomains(Dedupe(p, stream))
    ensures forall v :: v in Dedupe(p, stream) <==> FirstProposal(p, stream, v)
    ensures forall c :: c in stream && Eligible(p, c) ==> Listed(Dedupe(p, stream), c.domain)
  {
    if stream != [] {
      var front, last := stream[..|stream| - 1], stream[|stream| - 1];
      DedupeSound(p, front);
      assert stream == front + [last];
      var kept := Dedupe(p, front);
      forall v ensures v in Dedupe(p, stream) <==> FirstProposal(p, stream, v) {
        DedupeMember(p, front, last, v);
      }
      forall c | c in stream && Eligible(p, c) ensures Listed(Dedupe(p, stream), c.domain) {
        if c in front {
          var v :| v in kept && v.domain == c.domain;
          assert v in Dedupe(p, stream);
        } else if !Listed(kept, last.domain) {
          assert ToVariation(p, last) in Dedupe(p, stream);
        } else {
          var v :| v in kept && v.domain == last.domain;
          assert v in Dedupe(p, stream);
        }
      }
    }
  }

  lemma DedupeMember(p: Profile, front: seq<Candidate>, last: Candidate, v: Variation)
    requires v in Dedupe(p, front) <==> FirstProposal(p, front, v)
    requires forall w :: w in Dedupe(p, front) ==> FirstProposal(p, front, w)
    requires forall c :: c in front && Eligible(p, c) ==> Listed(Dedupe(p, front), c.domain)
    ensures v in Dedupe(p, front + [last]) <==> FirstProposal(p, front + [last], v)
  {
    hide Eligible, ToVariation, Listed;
    var stream := front + [last];
    assert stream[..|front|] == front && stream[|front|] == last;
    if FirstProposal(p, front, v) {
      var i: nat :| ProposedAt(p, front, v, i);
      ProposedAtSnoc(p, front, last, v, i);
    }
    ProposedAtSnoc(p, front, last, v, |front|);
    if FirstProposal(p, stream, v) {
      var i: nat :| ProposedAt(p, stream, v, i);
      ProposedAtSnoc(p, front, last, v, i);
    }
  }

  /** The result has no domain twice, never the root domain, and no entry but first proposals. */
  lemma ResultSound(p: Profile, limit: int)
    ensures DistinctDomains(Result(p, limit))
    ensures forall v :: v in Result(p, limit) ==> Some(v.domain) != p.rootDomain && '.' in v.domain
    ensures forall v :: v in Result(p, limit) ==> FirstProposal(p, Stream(p.brandKeyword), v)
    ensures forall v :: v in Result(p, limit) ==>
              exists c :: c in Stream(p.brandKeyword)
                          && v == Variation(c.domain, c.technique, p.normalizedTarget, c.tags)
    ensures |Result(p, limit)| <= if limit < 0 then 0 else limit
  {
    DedupeSound(p, Stream(p.brandKeyword));
    var all := Dedupe(p, Stream(p.brandKeyword));
    assert forall v :: v in Result(p, limit) ==> v in all;
  }

  /** With a limit that is not reached, every eligible domain of the stream is listed. */
  lemma UnreachedLimitLosesNothing(p: Profile, limit: nat, c: Candidate)
    requires |Result(p, limit)| < limit
    requires c in Stream(p.brandKeyword) && '.' in c.domain && Some(c.domain) != p.rootDomain
    ensures exists v :: v in Result(p, limit) && v.domain == c.domain
  {
    DedupeSound(p, Stream(p.brandKeyword));
  }
}
