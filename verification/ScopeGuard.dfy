/** The fail-closed gate for targets and actions (`scope_guard.py`). */
module ScopeGuard {
  import opened Wrappers
  import opened Seqs
  import opened Text

  datatype Limits = Limits(
    maxRequestsPerMinute: int,
    manualApprovalRate: int,
    maxTargets: int,
    manualTechniques: seq<string>)

  datatype Policy = Policy(
    allowedDomains: seq<string>,
    deniedDomains: seq<string>,
    forbiddenTechniques: seq<string>,
    limits: Limits)

  datatype Action = Action(
    target: string,
    targetType: string,
    technique: string,
    description: string,
    requestRate: int,
    targetCount: int,
    stateChanging: bool,
    authenticated: bool)

  datatype TargetCode = InvalidTarget | MissingAllowlist | DeniedDomain | OutOfScope | InScope
  datatype TargetResult = TargetResult(code: TargetCode, host: Option<string>, matchedRule: Option<string>) {
    predicate Accepted() { code == InScope }

    function Message(): string {
      var rule := if matchedRule.Some? then matchedRule.value else "";
      match code
      case InvalidTarget => "Could not extract a valid host from the given target."
      case MissingAllowlist => "Program has no explicit allowlist. No target can be treated as in-scope."
      case DeniedDomain => "Target blocked by the program's denylist: '" + rule + "'."
      case OutOfScope => "Target outside the program's allowed scope. No allowlist rule matched."
      case InScope => "Target validated in-scope by rule '" + rule + "'."
    }
  }

  datatype BlockCode = ForbiddenTechnique | RateExceeded | TargetCountExceeded | NotBlocked
  datatype Reason = SensitiveTechnique | HighRate | StateChanging | Authenticated

  datatype Result =
    | OutsideScope(code: TargetCode)
    | HardBlocked(block: BlockCode)
    | NeedsApproval(reasons: seq<Reason>)
    | Allowed
  {
    /** allowed < needs approval < blocked */
    function Severity(): int {
      match this
      case OutsideScope(_) => 2
      case HardBlocked(_) => 2
      case NeedsApproval(_) => 1
      case Allowed => 0
    }
  }

  // ----- normalization of policy lists -----

  /** What a policy document may hold in a list field: nothing, one string, or several. */
  datatype RawList = Absent | One(item: string) | Many(items: seq<string>)

  function Items(raw: RawList): seq<string> {
    match raw
    case Absent => []
    case One(item) => [item]
    case Many(items) => items
  }

  function Clean(item: string): string {
    Lower(Strip(item))
  }

  /** The cleaned items that are not blank. */
  function Cleaned(items: seq<string>): seq<string> {
    if items == [] then []
    else
      var last := Clean(items[|items| - 1]);
      Cleaned(items[..|items| - 1]) + if last == "" then [] else [last]
  }

  function Normalized(items: seq<string>): seq<string> {
    Dedupe(Cleaned(items))
  }

  /** `_normalize_str_list`. */
  method NormalizeStrList(raw: RawList) returns (normalized: seq<string>)
    ensures normalized == Normalized(Items(raw))
    ensures Distinct(normalized)
    ensures forall x :: x in normalized <==> x != "" && IsCleanOf(x, Items(raw))
  {
    var items := Items(raw);
    normalized := [];
    var seen: set<string> := {};
    var i := 0;
    while i < |items|
      invariant 0 <= i <= |items|
      invariant normalized == Normalized(items[..i])
      invariant seen == Members(Cleaned(items[..i]))
    {
      var cleaned := Clean(items[i]);
      NormalizedStep(items, i);
      i := i + 1;
      if cleaned == "" || cleaned in seen {
        continue;
      }
      normalized := normalized + [cleaned];
      seen := seen + {cleaned};
    }
    assert items[..i] == items;
    NormalizedSound(items);
  }

  function Members(xs: seq<string>): set<string> {
    set x | x in xs
  }

  lemma NormalizedStep(items: seq<string>, i: nat)
    requires i < |items|
    ensures
      var done, cleaned := Cleaned(items[..i]), Clean(items[i]);
      var skipped := cleaned == "" || cleaned in Members(done);
      && Normalized(items[..i + 1]) == (if skipped then Normalized(items[..i]) else Normalized(items[..i]) + [cleaned])
      && Members(Cleaned(items[..i + 1])) == (if skipped then Members(done) else Members(done) + {cleaned})
  {
    var done, cleaned := Cleaned(items[..i]), Clean(items[i]);
    assert items[..i + 1][..i] == items[..i];
    if cleaned == "" {
      assert Cleaned(items[..i + 1]) == done;
    } else {
      assert Cleaned(items[..i + 1]) == done + [cleaned];
      DedupeSnoc(done, cleaned);
    }
  }

  /** `x` is one of these items after cleaning. */
  ghost predicate IsCleanOf(x: string, items: seq<string>) {
    exists item :: item in items && Clean(item) == x
  }

  lemma NormalizedSound(items: seq<string>)
    ensures Distinct(Normalized(items))
    ensures forall x :: x in Normalized(items) <==> x != "" && IsCleanOf(x, items)
  {
    DedupeSound(Cleaned(items));
    CleanedMembers(items);
  }

  lemma {:induction false} CleanedMembers(items: seq<string>)
    ensures forall x :: x in Cleaned(items) <==> x != "" && IsCleanOf(x, items)
  {
    if items != [] {
      var front, last := items[..|items| - 1], items[|items| - 1];
      CleanedMembers(front);
      assert items == front + [last];
      forall x ensures x in Cleaned(items) <==> x != "" && IsCleanOf(x, items) {
        if x in Cleaned(front) {
          var item :| item in front && Clean(item) == x;
          assert item in items;
        } else if x == Clean(last) {
          assert last in items;
        }
      }
    }
  }

  lemma CleanTwice(item: string)
    ensures Clean(Clean(item)) == Clean(item)
  {
    StripLower(item);
    LowerTwice(Strip(item));
  }

  lemma {:induction false} CleanedAlready(items: seq<string>)
    requires forall x :: x in items ==> x != "" && Clean(x) == x
    ensures Cleaned(items) == items
  {
    if items != [] {
      var front, last := items[..|items| - 1], items[|items| - 1];
      assert items == front + [last];
      assert last in items && forall x :: x in front ==> x in items;
      CleanedAlready(front);
    }
  }

  /** Storing a policy and reading it back normalizes its lists a second time; that changes nothing. */
  lemma NormalizedTwice(items: seq<string>)
    ensures Normalized(Normalized(items)) == Normalized(items)
  {
    var once := Normalized(items);
    NormalizedSound(items);
    forall x | x in once ensures x != "" && Clean(x) == x {
      var item :| item in items && Clean(item) == x;
      CleanTwice(item);
    }
    CleanedAlready(once);
    DedupeDistinct(once);
  }

  // ----- domain patterns -----

  /** `_domain_matches`. */
  predicate DomainMatches(host: string, pattern: string) {
    var p := Clean(pattern);
    if p == "" then false
    else if StartsWith(p, "*.") then EndsWith(host, "." + p[2..])
    else host == p
  }

  function Labels(domain: string): seq<string> {
    Split(domain, '.')
  }

  /** `ys` is a suffix of `xs` and not all of it. */
  predicate ProperSuffix(ys: seq<string>, xs: seq<string>) {
    |ys| < |xs| && xs[|xs| - |ys|..] == ys
  }

  lemma DotSuffixSplits(head: string, suffix: string)
    ensures ProperSuffix(Labels(suffix), Labels(head + ['.'] + suffix))
  {
    SplitConcat(head, suffix, '.');
    hide Split;
    assert (Labels(head) + Labels(suffix))[|Labels(head)|..] == Labels(suffix);
  }

  lemma LabelSuffixJoins(host: string, suffix: string, head: seq<string>)
    requires head != [] && Labels(host) == head + Labels(suffix)
    ensures EndsWith(host, "." + suffix)
  {
    JoinConcat(head, Labels(suffix), '.');
    JoinSplit(host, '.');
    JoinSplit(suffix, '.');
    hide Split, Join;
    assert host == Join(head, '.') + ("." + suffix);
  }

  lemma DotSuffixIffLabelSuffix(host: string, suffix: string)
    ensures EndsWith(host, "." + suffix) <==> ProperSuffix(Labels(suffix), Labels(host))
  {
    var tail := "." + suffix;
    hide Labels;
    if EndsWith(host, tail) {
      var head := host[..|host| - |tail|];
      assert host == head + ['.'] + suffix;
      DotSuffixSplits(head, suffix);
    }
    if ProperSuffix(Labels(suffix), Labels(host)) {
      LabelSuffixJoins(host, suffix, Labels(host)[..|Labels(host)| - |Labels(suffix)|]);
    }
  }

  /** A wildcard matches exactly the hosts of which the suffix's labels are a proper suffix. */
  lemma WildcardMatchesIffLabelSuffix(host: string, pattern: string, suffix: string)
    requires Clean(pattern) == "*." + suffix
    ensures DomainMatches(host, pattern) <==> ProperSuffix(Labels(suffix), Labels(host))
  {
    assert Clean(pattern)[2..] == suffix;
    DotSuffixIffLabelSuffix(host, suffix);
  }

  /** So it matches neither the suffix itself nor a host that merely ends in the same characters. */
  lemma WildcardNeedsALabelBoundary(head: string, pattern: string, suffix: string)
    requires Clean(pattern) == "*." + suffix
    requires head == "" || head[|head| - 1] != '.'
    ensures !DomainMatches(head + suffix, pattern)
  {
    assert Clean(pattern)[2..] == suffix;
    var host, tail := head + suffix, "." + suffix;
    if head != "" {
      assert host[|host| - |tail|..][0] == head[|head| - 1];
    }
  }

  /** `_match_first` as a function. */
  function FirstMatch(host: string, patterns: seq<string>): Option<string> {
    if patterns == [] then None
    else if DomainMatches(host, patterns[0]) then Some(patterns[0])
    else FirstMatch(host, patterns[1..])
  }

  method MatchFirst(host: string, patterns: seq<string>) returns (r: Option<string>)
    ensures r == FirstMatch(host, patterns)
  {
    var i := 0;
    while i < |patterns|
      invariant 0 <= i <= |patterns|
      invariant FirstMatch(host, patterns) == FirstMatch(host, patterns[i..])
    {
      if DomainMatches(host, patterns[i]) {
        return Some(patterns[i]);
      }
      i := i + 1;
    }
    return None;
  }

  predicate AnyMatch(host: string, patterns: seq<string>) {
    exists p :: p in patterns && DomainMatches(host, p)
  }

  ghost predicate EarliestMatch(host: string, patterns: seq<string>, i: nat) {
    i < |patterns| && DomainMatches(host, patterns[i]) && !AnyMatch(host, patterns[..i])
  }

  lemma {:induction false} FirstMatchIff(host: string, patterns: seq<string>)
    ensures FirstMatch(host, patterns).Some? <==> AnyMatch(host, patterns)
  {
    if patterns != [] {
      FirstMatchIff(host, patterns[1..]);
      if DomainMatches(host, patterns[0]) {
        assert patterns[0] in patterns;
      } else if AnyMatch(host, patterns) {
        var p :| p in patterns && DomainMatches(host, p);
        assert p in patterns[1..];
      }
      assert forall p :: p in patterns[1..] ==> p in patterns;
    }
  }

  /** The rule reported is the earliest matching one. */
  lemma {:induction false} FirstMatchIsEarliest(host: string, patterns: seq<string>) returns (i: nat)
    requires AnyMatch(host, patterns)
    ensures EarliestMatch(host, patterns, i) && FirstMatch(host, patterns) == Some(patterns[i])
  {
    FirstMatchIff(host, patterns);
    if DomainMatches(host, patterns[0]) {
      i := 0;
    } else {
      FirstMatchIff(host, patterns[1..]);
      var j := FirstMatchIsEarliest(host, patterns[1..]);
      i := j + 1;
      forall p | p in patterns[..i] ensures !DomainMatches(host, p) {
        var k :| 0 <= k < i && patterns[k] == p;
        assert k > 0 ==> patterns[1..][..j][k - 1] == p;
      }
    }
  }

  // ----- the three checks -----

  /** `_normalize_target`; `urlHost` stands for the host part that URL parsing finds. */
  function NormalizeTarget(urlHost: string -> string, identifier: string, targetType: string): Option<string> {
    var candidate := Strip(identifier);
    if candidate == "" then None
    else if Lower(targetType) in ["domain", "hostname", "url"] then
      var host := Clean(urlHost(if Contains("://", candidate) then candidate else "https://" + candidate));
      if host == "" then None else Some(host)
    else Some(Lower(candidate))
  }

  /** `validate_target_in_scope`. */
  function ValidateTarget(urlHost: string -> string, policy: Policy, identifier: string,
                          targetType: string): TargetResult {
    match NormalizeTarget(urlHost, identifier, targetType)
    case None => TargetResult(InvalidTarget, None, None)
    case Some(host) =>
      if policy.allowedDomains == [] then TargetResult(MissingAllowlist, Some(host), None)
      else
        var denied := FirstMatch(host, policy.deniedDomains);
        if denied.Some? then TargetResult(DeniedDomain, Some(host), denied)
        else
          var allowed := FirstMatch(host, policy.allowedDomains);
          if allowed.None? then TargetResult(OutOfScope, Some(host), None)
          else TargetResult(InScope, Some(host), allowed)
  }

  /** `_matches_technique`. */
  predicate MatchesTechnique(action: Action, terms: seq<string>) {
    var text := Lower(action.technique + " " + action.description);
    exists term :: term in terms && Contains(term, text)
  }

  /** `block_prohibited_action`. */
  function BlockProhibited(policy: Policy, action: Action): BlockCode {
    if MatchesTechnique(action, policy.forbiddenTechniques) then ForbiddenTechnique
    else if action.requestRate > policy.limits.maxRequestsPerMinute then RateExceeded
    else if action.targetCount > policy.limits.maxTargets then TargetCountExceeded
    else NotBlocked
  }

  /** The condition each reason for a manual approval stands for. */
  predicate Applies(reason: Reason, policy: Policy, action: Action) {
    match reason
    case SensitiveTechnique => MatchesTechnique(action, policy.limits.manualTechniques)
    case HighRate => action.requestRate > policy.limits.manualApprovalRate
    case StateChanging => action.stateChanging
    case Authenticated => action.authenticated
  }

  const ALL_REASONS: seq<Reason> := [SensitiveTechnique, HighRate, StateChanging, Authenticated]

  function ReasonsAmong(reasons: seq<Reason>, policy: Policy, action: Action): seq<Reason> {
    if reasons == [] then []
    else (if Applies(reasons[0], policy, action) then [reasons[0]] else []) + ReasonsAmong(reasons[1..], policy, action)
  }

  /** `requires_manual_approval`: the reasons it lists; approval is required when there are any. */
  method RequiresManualApproval(policy: Policy, action: Action) returns (reasons: seq<Reason>)
    ensures reasons == ReasonsAmong(ALL_REASONS, policy, action)
  {
    hide MatchesTechnique, ReasonsAmong;
    reasons := [];
    if MatchesTechnique(action, policy.limits.manualTechniques) {
      reasons := reasons + [SensitiveTechnique];
    }
    if action.requestRate > policy.limits.manualApprovalRate {
      reasons := reasons + [HighRate];
    }
    if action.stateChanging {
      reasons := reasons + [StateChanging];
    }
    if action.authenticated {
      reasons := reasons + [Authenticated];
    }
    ReasonsInFull(policy, action);
  }

  /** `validate_action`. */
  function ValidateAction(urlHost: string -> string, policy: Policy, action: Action): Result {
    var target := ValidateTarget(urlHost, policy, action.target, action.targetType);
    if !target.Accepted() then OutsideScope(target.code)
    else
      var block := BlockProhibited(policy, action);
      if block != NotBlocked then HardBlocked(block)
      else
        var reasons := ReasonsAmong(ALL_REASONS, policy, action);
        if reasons != [] then NeedsApproval(reasons) else Allowed
  }

  // ----- what decides the verdict -----

  /** A target is in scope exactly when it names a host that some allow rule matches and no deny rule matches; and
      exactly when each reason for refusing it is given. */
  lemma InScopeIff(urlHost: string -> string, policy: Policy, identifier: string, targetType: string)
    ensures
      var host := NormalizeTarget(urlHost, identifier, targetType);
      var code := ValidateTarget(urlHost, policy, identifier, targetType).code;
      var listed := host.Some? && policy.allowedDomains != [];
      && (code == InScope <==>
          host.Some? && AnyMatch(host.value, policy.allowedDomains) && !AnyMatch(host.value, policy.deniedDomains))
      && (code == InvalidTarget <==> host.None?)
      && (code == MissingAllowlist <==> host.Some? && policy.allowedDomains == [])
      && (code == DeniedDomain <==> listed && AnyMatch(host.value, policy.deniedDomains))
      && (code == OutOfScope <==>
          listed && !AnyMatch(host.value, policy.deniedDomains) && !AnyMatch(host.value, policy.allowedDomains))
  {
    var host := NormalizeTarget(urlHost, identifier, targetType);
    if host.Some? {
      FirstMatchIff(host.value, policy.allowedDomains);
      FirstMatchIff(host.value, policy.deniedDomains);
    }
  }

  // ----- the same without the guard's own terms -----

  /** What a domain rule covers: a wildcard the hosts whose labels properly end in its own, any other rule the host
      that it spells, and a blank one nothing. */
  ghost predicate Covers(rule: string, host: string) {
    var p := Clean(rule);
    if p == "" then false
    else if |p| >= 2 && p[0] == '*' && p[1] == '.' then ProperSuffix(Split(p[2..], '.'), Split(host, '.'))
    else host == p
  }

  lemma MatchIffCovers(host: string, rule: string)
    ensures DomainMatches(host, rule) <==> Covers(rule, host)
  {
    var p := Clean(rule);
    hide Clean, Split;
    if |p| >= 2 && p[0] == '*' && p[1] == '.' {
      assert p == "*." + p[2..];
      DotSuffixIffLabelSuffix(host, p[2..]);
    }
  }

  ghost predicate SomeCovers(rules: seq<string>, host: string) {
    exists rule :: rule in rules && Covers(rule, host)
  }

  lemma AnyMatchIffCovers(host: string, rules: seq<string>)
    ensures AnyMatch(host, rules) <==> SomeCovers(rules, host)
  {
    hide Covers, DomainMatches;
    forall rule ensures DomainMatches(host, rule) <==> Covers(rule, host) {
      MatchIffCovers(host, rule);
    }
  }

  /** The host a target names: for domains, host names and URLs the host part that URL parsing finds, an https scheme
      being supposed when there is none; for other targets the identifier itself; in small letters and without white
      space at its ends. Nothing, if nothing remains. */
  ghost predicate Names(urlHost: string -> string, identifier: string, targetType: string, host: string) {
    var bare := Strip(identifier);
    && bare != "" && host != ""
    && if Lower(targetType) == "domain" || Lower(targetType) == "hostname" || Lower(targetType) == "url" then
         if exists k :: StandsAt("://", bare, k) then host == Lower(Strip(urlHost(bare)))
         else host == Lower(Strip(urlHost("https://" + bare)))
       else host == Lower(bare)
  }

  lemma NormalizeIffNames(urlHost: string -> string, identifier: string, targetType: string, host: string)
    ensures NormalizeTarget(urlHost, identifier, targetType) == Some(host) <==>
            Names(urlHost, identifier, targetType, host)
  {
    ContainsIff("://", Strip(identifier));
    hide Strip, Contains, StandsAt;
    assert |Lower(Strip(identifier))| == |Strip(identifier)|;
  }

  /** In scope exactly when the target names a host that an allow rule covers and no deny rule covers. */
  lemma ScopeIff(urlHost: string -> string, policy: Policy, identifier: string, targetType: string)
    ensures
      ValidateTarget(urlHost, policy, identifier, targetType).code == InScope <==>
      exists host :: Names(urlHost, identifier, targetType, host)
                     && SomeCovers(policy.allowedDomains, host) && !SomeCovers(policy.deniedDomains, host)
  {
    InScopeIff(urlHost, policy, identifier, targetType);
    var named := NormalizeTarget(urlHost, identifier, targetType);
    hide NormalizeTarget, Names, AnyMatch, SomeCovers, ValidateTarget;
    forall host ensures named == Some(host) <==> Names(urlHost, identifier, targetType, host) {
      NormalizeIffNames(urlHost, identifier, targetType, host);
    }
    if named.Some? {
      AnyMatchIffCovers(named.value, policy.allowedDomains);
      AnyMatchIffCovers(named.value, policy.deniedDomains);
    }
  }

  /** What is reported: the earliest deny rule or allow rule that covers the host, and the text for the code. */
  lemma ReportsEarliestRule(urlHost: string -> string, policy: Policy, identifier: string, targetType: string)
    returns (i: nat)
    ensures
      var result := ValidateTarget(urlHost, policy, identifier, targetType);
      && result.host == NormalizeTarget(urlHost, identifier, targetType)
      && match result.code
         case InvalidTarget =>
           result.matchedRule == None && result.Message() == "Could not extract a valid host from the given target."
         case MissingAllowlist =>
           && result.matchedRule == None
           && result.Message() == "Program has no explicit allowlist. No target can be treated as in-scope."
         case OutOfScope =>
           && result.matchedRule == None
           && result.Message() == "Target outside the program's allowed scope. No allowlist rule matched."
         case DeniedDomain =>
           && result.host.Some? && EarliestMatch(result.host.value, policy.deniedDomains, i)
           && result.matchedRule == Some(policy.deniedDomains[i])
           && result.Message() == "Target blocked by the program's denylist: '" + policy.deniedDomains[i] + "'."
         case InScope =>
           && result.host.Some? && EarliestMatch(result.host.value, policy.allowedDomains, i)
           && result.matchedRule == Some(policy.allowedDomains[i])
           && result.Message() == "Target validated in-scope by rule '" + policy.allowedDomains[i] + "'."
  {
    i := 0;
    var result := ValidateTarget(urlHost, policy, identifier, targetType);
    InScopeIff(urlHost, policy, identifier, targetType);
    hide NormalizeTarget, AnyMatch, EarliestMatch;
    if result.code == DeniedDomain {
      i := FirstMatchIsEarliest(result.host.value, policy.deniedDomains);
    } else if result.code == InScope {
      i := FirstMatchIsEarliest(result.host.value, policy.allowedDomains);
    }
    EarliestIsARule(if result.host.Some? then result.host.value else "", policy.deniedDomains, i);
    EarliestIsARule(if result.host.Some? then result.host.value else "", policy.allowedDomains, i);
  }

  lemma EarliestIsARule(host: string, rules: seq<string>, i: nat)
    ensures EarliestMatch(host, rules, i) ==> i < |rules|
  {
  }

  ghost predicate NoWildcards(rules: seq<string>) {
    forall rule :: rule in rules ==> !("*." <= Clean(rule))
  }

  /** Without wildcards: exactly when the host is spelled by a rule that allows it and by none that denies it. */
  lemma ExactScopeIff(urlHost: string -> string, policy: Policy, identifier: string, targetType: string)
    requires NoWildcards(policy.allowedDomains) && NoWildcards(policy.deniedDomains)
    ensures
      ValidateTarget(urlHost, policy, identifier, targetType).code == InScope <==>
      exists host :: Names(urlHost, identifier, targetType, host)
                     && (exists rule :: rule in policy.allowedDomains && Lower(Strip(rule)) == host)
                     && (forall rule :: rule in policy.deniedDomains ==> Lower(Strip(rule)) != host)
  {
    ScopeIff(urlHost, policy, identifier, targetType);
    hide ValidateTarget, Strip;
    forall host | Names(urlHost, identifier, targetType, host)
      ensures SomeCovers(policy.allowedDomains, host) <==>
              exists rule :: rule in policy.allowedDomains && Lower(Strip(rule)) == host
      ensures SomeCovers(policy.deniedDomains, host) <==>
              exists rule :: rule in policy.deniedDomains && Lower(Strip(rule)) == host
    {
      SpelledOut(policy.allowedDomains, host);
      SpelledOut(policy.deniedDomains, host);
    }
  }

  lemma SpelledOut(rules: seq<string>, host: string)
    requires NoWildcards(rules) && host != ""
    ensures SomeCovers(rules, host) <==> exists rule :: rule in rules && Lower(Strip(rule)) == host
  {
    hide Strip, Lower, Split;
    forall rule | rule in rules ensures Covers(rule, host) <==> Lower(Strip(rule)) == host {
    }
  }

  /** A blank rule covers nothing. */
  lemma BlankRuleMatchesNothing(rule: string, host: string)
    requires AllSpace(rule)
    ensures !DomainMatches(host, rule)
  {
    StripBlank(rule);
  }

  /** A term stands somewhere in technique and description, letter case apart. */
  ghost predicate Mentions(action: Action, terms: seq<string>) {
    exists term, k :: term in terms && StandsAt(term, Lower(action.technique + " " + action.description), k)
  }

  lemma MatchesIffMentions(action: Action, terms: seq<string>)
    ensures MatchesTechnique(action, terms) <==> Mentions(action, terms)
  {
    var text := Lower(action.technique + " " + action.description);
    hide Lower, Contains, StandsAt;
    forall term ensures Contains(term, text) <==> exists k :: StandsAt(term, text, k) {
      ContainsIff(term, text);
    }
  }

  /** The verdict on an action in scope: the first hard limit it breaks, else the reasons for a review, in order. */
  lemma ActionAnswers(urlHost: string -> string, policy: Policy, action: Action)
    ensures
      var target := ValidateTarget(urlHost, policy, action.target, action.targetType).code;
      var verdict := ValidateAction(urlHost, policy, action);
      var limits := policy.limits;
      if target != InScope then verdict == OutsideScope(target)
      else if Mentions(action, policy.forbiddenTechniques) then verdict == HardBlocked(ForbiddenTechnique)
      else if action.requestRate > limits.maxRequestsPerMinute then verdict == HardBlocked(RateExceeded)
      else if action.targetCount > limits.maxTargets then verdict == HardBlocked(TargetCountExceeded)
      else
        var reasons :=
          (if Mentions(action, limits.manualTechniques) then [SensitiveTechnique] else [])
          + (if action.requestRate > limits.manualApprovalRate then [HighRate] else [])
          + (if action.stateChanging then [StateChanging] else [])
          + (if action.authenticated then [Authenticated] else []);
        verdict == if reasons == [] then Allowed else NeedsApproval(reasons)
  {
    MatchesIffMentions(action, policy.forbiddenTechniques);
    MatchesIffMentions(action, policy.limits.manualTechniques);
    ReasonsInFull(policy, action);
    hide ValidateTarget, MatchesTechnique, Mentions, ReasonsAmong;
  }

  lemma ReasonsInFull(policy: Policy, action: Action)
    ensures
      ReasonsAmong(ALL_REASONS, policy, action) ==
      (if MatchesTechnique(action, policy.limits.manualTechniques) then [SensitiveTechnique] else [])
      + (if action.requestRate > policy.limits.manualApprovalRate then [HighRate] else [])
      + (if action.stateChanging then [StateChanging] else [])
      + (if action.authenticated then [Authenticated] else [])
  {
    hide MatchesTechnique;
    var tail3 := [Authenticated];
    var tail2 := [StateChanging] + tail3;
    var tail1 := [HighRate] + tail2;
    assert ALL_REASONS[1..] == tail1 && tail1[1..] == tail2 && tail2[1..] == tail3 && tail3[1..] == [];
    assert ReasonsAmong(tail3, policy, action) == if action.authenticated then [Authenticated] else [];
    assert ReasonsAmong(tail2, policy, action)
        == (if action.stateChanging then [StateChanging] else []) + ReasonsAmong(tail3, policy, action);
    assert ReasonsAmong(tail1, policy, action)
        == (if Applies(HighRate, policy, action) then [HighRate] else []) + ReasonsAmong(tail2, policy, action);
  }

  lemma {:induction false} ReasonsAmongIff(reasons: seq<Reason>, policy: Policy, action: Action)
    ensures forall r :: r in ReasonsAmong(reasons, policy, action) <==> r in reasons && Applies(r, policy, action)
  {
    if reasons != [] {
      ReasonsAmongIff(reasons[1..], policy, action);
      assert reasons == [reasons[0]] + reasons[1..];
    }
  }

  /** Blocked exactly when out of scope, forbidden, or over a hard limit; otherwise needing approval exactly
      when one of the four reasons applies. */
  lemma SeverityIff(urlHost: string -> string, policy: Policy, action: Action)
    ensures
      var severity := ValidateAction(urlHost, policy, action).Severity();
      var blocked :=
        || !ValidateTarget(urlHost, policy, action.target, action.targetType).Accepted()
        || MatchesTechnique(action, policy.forbiddenTechniques)
        || action.requestRate > policy.limits.maxRequestsPerMinute
        || action.targetCount > policy.limits.maxTargets;
      && (severity == 2 <==> blocked)
      && (severity == 1 <==> !blocked && exists r :: Applies(r, policy, action))
  {
    ReasonsAmongIff(ALL_REASONS, policy, action);
    forall r ensures r in ALL_REASONS {
      match r
      case SensitiveTechnique => assert ALL_REASONS[0] == r;
      case HighRate => assert ALL_REASONS[1] == r;
      case StateChanging => assert ALL_REASONS[2] == r;
      case Authenticated => assert ALL_REASONS[3] == r;
    }
    var reasons := ReasonsAmong(ALL_REASONS, policy, action);
    if reasons != [] {
      assert reasons[0] in reasons;
    }
  }

  ghost predicate Within(xs: seq<string>, ys: seq<string>) {
    forall x :: x in xs ==> x in ys
  }

  /** `tight` allows no domain more, denies, forbids and reviews no term less, and has no higher limit. */
  ghost predicate Tighter(tight: Policy, loose: Policy) {
    && Within(tight.allowedDomains, loose.allowedDomains)
    && Within(loose.deniedDomains, tight.deniedDomains)
    && Within(loose.forbiddenTechniques, tight.forbiddenTechniques)
    && Within(loose.limits.manualTechniques, tight.limits.manualTechniques)
    && tight.limits.maxRequestsPerMinute <= loose.limits.maxRequestsPerMinute
    && tight.limits.manualApprovalRate <= loose.limits.manualApprovalRate
    && tight.limits.maxTargets <= loose.limits.maxTargets
  }

  /** Tightening a policy lowers the verdict of no action. */
  lemma TighteningNeverLowers(urlHost: string -> string, tight: Policy, loose: Policy, action: Action)
    requires Tighter(tight, loose)
    ensures ValidateAction(urlHost, tight, action).Severity() >= ValidateAction(urlHost, loose, action).Severity()
  {
    SeverityIff(urlHost, tight, action);
    SeverityIff(urlHost, loose, action);
    InScopeIff(urlHost, tight, action.target, action.targetType);
    InScopeIff(urlHost, loose, action.target, action.targetType);
    forall r | Applies(r, loose, action) ensures Applies(r, tight, action) {
    }
  }

  ghost predicate SameEntries(xs: seq<string>, ys: seq<string>) {
    Within(xs, ys) && Within(ys, xs)
  }

  /** Whether some rule matches does not depend on the order of the rules. */
  lemma SameEntriesSameMatch(host: string, xs: seq<string>, ys: seq<string>)
    requires SameEntries(xs, ys)
    ensures FirstMatch(host, xs).Some? <==> FirstMatch(host, ys).Some?
    ensures xs == [] <==> ys == []
  {
    FirstMatchIff(host, xs);
    FirstMatchIff(host, ys);
    assert xs != [] ==> xs[0] in xs;
    assert ys != [] ==> ys[0] in ys;
  }

  lemma RuleOrderTarget(urlHost: string -> string, policy: Policy, other: Policy, identifier: string,
                        targetType: string)
    requires SameEntries(policy.allowedDomains, other.allowedDomains)
    requires SameEntries(policy.deniedDomains, other.deniedDomains)
    ensures ValidateTarget(urlHost, policy, identifier, targetType).(matchedRule := None)
            == ValidateTarget(urlHost, other, identifier, targetType).(matchedRule := None)
  {
    var host := NormalizeTarget(urlHost, identifier, targetType);
    if host.Some? {
      SameEntriesSameMatch(host.value, policy.allowedDomains, other.allowedDomains);
      SameEntriesSameMatch(host.value, policy.deniedDomains, other.deniedDomains);
    }
  }

  /** Reordering or repeating domain rules changes nothing but the rule that is reported. */
  lemma RuleOrderIsImmaterial(urlHost: string -> string, policy: Policy, allowed: seq<string>, denied: seq<string>,
                              action: Action)
    requires SameEntries(policy.allowedDomains, allowed) && SameEntries(policy.deniedDomains, denied)
    ensures
      var other := policy.(allowedDomains := allowed, deniedDomains := denied);
      && ValidateAction(urlHost, policy, action) == ValidateAction(urlHost, other, action)
      && ValidateTarget(urlHost, policy, action.target, action.targetType).(matchedRule := None)
         == ValidateTarget(urlHost, other, action.target, action.targetType).(matchedRule := None)
  {
    var other := policy.(allowedDomains := allowed, deniedDomains := denied);
    RuleOrderTarget(urlHost, policy, other, action.target, action.targetType);
    SameReasons(ALL_REASONS, policy, other, action);
  }

  lemma {:induction false} SameReasons(reasons: seq<Reason>, policy: Policy, other: Policy, action: Action)
    requires policy.limits == other.limits
    ensures ReasonsAmong(reasons, policy, action) == ReasonsAmong(reasons, other, action)
  {
    if reasons != [] {
      SameReasons(reasons[1..], policy, other, action);
    }
  }
}
