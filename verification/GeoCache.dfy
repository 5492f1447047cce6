/** The bounded cache of GeoIP answers (`geoip.py`, `GeoIpLookup`). A lookup is two atomic parts, the check before
    its `await` and the commit after it, so every interleaving of lookups is a sequence of such parts. */
module GeoCache {
  import opened Wrappers
  import opened Seqs
  import opened Text

  const CACHE_TTL_SECONDS := 300.0
  const MAX_FIELD_LEN := 80
  const MAX_CACHE_ENTRIES := 2048

  // ----- the provider's answer -----

  datatype Json = Text(value: string) | OtherJson
  datatype Response = Failed | NotAnObject | Object(fields: map<string, Json>)
  datatype Geo = Geo(country: string, countryCode: string, city: string, isp: string)

  function OnlyPrintable(s: string, printable: char -> bool): (r: string)
    ensures forall c :: c in r <==> c in s && printable(c)
    ensures r == s <==> forall c :: c in s ==> printable(c)
  {
    if s == "" then "" else (if printable(s[0]) then [s[0]] else "") + OnlyPrintable(s[1..], printable)
  }

  predicate Presentable(text: string, printable: char -> bool) {
    1 <= |text| <= MAX_FIELD_LEN && forall c :: c in text ==> printable(c)
  }

  /** `_clamp`: whatever the provider sends, a field is never empty and never longer than the limit, and unless it is
      the placeholder it holds printable characters of the text sent and nothing else; printable text that fits comes
      through as it is. */
  function Clamp(value: Option<Json>, printable: char -> bool): (r: string)
    ensures 1 <= |r| <= 80
    ensures r == "Unknown" ||
            (value.Some? && value.value.Text?
             && var kept := OnlyPrintable(value.value.value, printable);
             r == if |kept| <= 80 then kept else kept[..80])
    ensures r != "Unknown" ==>
              value.Some? && value.value.Text? && forall c :: c in r ==> c in value.value.value && printable(c)
    ensures value.Some? && value.value.Text? && Presentable(value.value.value, printable) ==> r == value.value.value
  {
    if value.None? || value.value.OtherJson? then "Unknown"
    else
      var cleaned := OnlyPrintable(value.value.value, printable);
      if cleaned == "" then "Unknown" else if |cleaned| <= MAX_FIELD_LEN then cleaned else cleaned[..MAX_FIELD_LEN]
  }

  function Field(fields: map<string, Json>, name: string): Option<Json> {
    if name in fields then Some(fields[name]) else None
  }

  function Describe(fields: map<string, Json>, printable: char -> bool): Geo {
    var sent := if "country_code" in fields then fields["country_code"] else Json.Text("");
    var code := Clamp(Some(sent), printable);
    Geo(Clamp(Field(fields, "country_name"), printable),
        Lower(if |code| <= 2 then code else code[..2]),
        Clamp(Field(fields, "city"), printable),
        Clamp(Field(fields, "org"), printable))
  }

  lemma {:induction false} OnlyPrintableConcat(a: string, b: string, printable: char -> bool)
    ensures OnlyPrintable(a + b, printable) == OnlyPrintable(a, printable) + OnlyPrintable(b, printable)
  {
    if a == "" {
      assert a + b == b;
    } else {
      assert (a + b)[1..] == a[1..] + b;
      OnlyPrintableConcat(a[1..], b, printable);
    }
  }

  /** The field of this name, if the provider sent a text. */
  ghost predicate Sends(fields: map<string, Json>, name: string, text: string) {
    name in fields && fields[name] == Json.Text(text)
  }

  /** Where the provider's four texts fit as they are, the answer holds each in its own place, of the country code the
      first two letters in lower case. */
  lemma DescribesEach(fields: map<string, Json>, printable: char -> bool,
                      country: string, code: string, city: string, org: string)
    requires Sends(fields, "country_name", country) && Presentable(country, printable)
    requires Sends(fields, "country_code", code) && Presentable(code, printable)
    requires Sends(fields, "city", city) && Presentable(city, printable)
    requires Sends(fields, "org", org) && Presentable(org, printable)
    ensures Describe(fields, printable) ==
            Geo(country, Lower(if |code| == 1 then code else [code[0], code[1]]), city, org)
  {
  }

  /** What the provider leaves out or sends as anything but a text becomes the placeholder. */
  lemma DescribesNothing(fields: map<string, Json>, printable: char -> bool)
    requires forall name :: name in ["country_name", "country_code", "city", "org"] ==>
               name !in fields || fields[name].OtherJson?
    ensures Describe(fields, printable) == Geo("Unknown", "un", "Unknown", "Unknown")
  {
  }

  // ----- the cache -----

  datatype Entry = Entry(stamp: real, value: Geo)

  /** An `OrderedDict`: its keys from least to most recently moved to the end, and its map. */
  datatype Cache = Cache(order: seq<string>, store: map<string, Entry>)

  function Without(xs: seq<string>, x: string): seq<string> {
    if xs == [] then [] else (if xs[0] == x then [] else [xs[0]]) + Without(xs[1..], x)
  }

  function MoveToEnd(xs: seq<string>, x: string): seq<string> {
    Without(xs, x) + [x]
  }

  predicate Fresh(e: Entry, now: real) {
    now - e.stamp < CACHE_TTL_SECONDS
  }

  /** The part of `lookup` before the `await`. */
  function Check(c: Cache, ip: string, now: real): (Option<Geo>, Cache) {
    if ip in c.store && Fresh(c.store[ip], now) then (Some(c.store[ip].value), c.(order := MoveToEnd(c.order, ip)))
    else (None, c)
  }

  /** The part of `lookup` that stores a fetched value. */
  function Commit(c: Cache, ip: string, now: real, value: Geo, capacity: nat): Cache {
    var order := MoveToEnd(c.order, ip);
    var store := c.store[ip := Entry(now, value)];
    if |order| > capacity then Cache(order[1..], store - {order[0]}) else Cache(order, store)
  }

  // ----- runs -----

  datatype Op = Checked(ip: string, now: real) | Fetched(ip: string, now: real, response: Response)

  /** What leaves a mark: a hit, or a commit. */
  datatype Event = Hit(ip: string) | Committed(ip: string, entry: Entry)

  datatype World = World(cache: Cache, events: seq<Event>)

  const EMPTY := World(Cache([], map[]), [])

  function Step(w: World, op: Op, capacity: nat, printable: char -> bool): World {
    match op
    case Checked(ip, now) =>
      var r := Check(w.cache, ip, now);
      World(r.1, if r.0.Some? then w.events + [Hit(ip)] else w.events)
    case Fetched(ip, now, response) =>
      if !response.Object? then w
      else
        var value := Describe(response.fields, printable);
        World(Commit(w.cache, ip, now, value, capacity), w.events + [Committed(ip, Entry(now, value))])
  }

  function Run(ops: seq<Op>, capacity: nat, printable: char -> bool): World {
    if ops == [] then EMPTY
    else Step(Run(ops[..|ops| - 1], capacity, printable), ops[|ops| - 1], capacity, printable)
  }

  // ----- the unbounded counterpart -----

  /** The distinct IPs touched, ordered by their last touch. */
  function Recency(events: seq<Event>): seq<string> {
    if events == [] then [] else MoveToEnd(Recency(events[..|events| - 1]), events[|events| - 1].ip)
  }

  /** What an unbounded cache that is never cleaned would hold for an IP: its most recent commit. */
  function LastCommit(events: seq<Event>, ip: string): Option<Entry> {
    if events == [] then None
    else
      var last := events[|events| - 1];
      if last.Committed? && last.ip == ip then Some(last.entry) else LastCommit(events[..|events| - 1], ip)
  }

  /** The distinct IPs touched after the last touch of this one. */
  function TouchedSince(events: seq<Event>, ip: string): set<string> {
    if events == [] then {}
    else
      var last := events[|events| - 1];
      if last.ip == ip then {} else TouchedSince(events[..|events| - 1], ip) + {last.ip}
  }

  function LastN(xs: seq<string>, n: nat): seq<string> {
    if |xs| <= n then xs else xs[|xs| - n..]
  }

  /** The cache is the most recent part of its unbounded counterpart. */
  ghost predicate Agrees(w: World, capacity: nat) {
    && w.cache.order == LastN(Recency(w.events), capacity)
    && (forall ip :: ip in w.cache.store <==> ip in w.cache.order)
    && (forall ip :: ip in w.cache.store ==> LastCommit(w.events, ip) == Some(w.cache.store[ip]))
  }

  // ----- sequences of distinct keys -----

  lemma {:induction false} WithoutMembers(xs: seq<string>, x: string)
    ensures forall y :: y in Without(xs, x) <==> y in xs && y != x
    ensures x !in xs ==> Without(xs, x) == xs
  {
    if xs != [] {
      WithoutMembers(xs[1..], x);
      assert xs == [xs[0]] + xs[1..];
    }
  }

  lemma {:induction false} WithoutDistinct(xs: seq<string>, x: string)
    requires Distinct(xs)
    ensures Distinct(Without(xs, x))
    ensures |Without(xs, x)| == if x in xs then |xs| - 1 else |xs|
  {
    if xs != [] {
      var rest := Without(xs[1..], x);
      WithoutDistinct(xs[1..], x);
      WithoutMembers(xs[1..], x);
      assert forall y :: y in xs[1..] ==> y != xs[0];
      assert xs == [xs[0]] + xs[1..];
      assert forall k :: 0 <= k < |rest| ==> rest[k] in rest;
    }
  }

  lemma {:induction false} WithoutConcat(xs: seq<string>, ys: seq<string>, x: string)
    ensures Without(xs + ys, x) == Without(xs, x) + Without(ys, x)
  {
    if xs == [] {
      assert xs + ys == ys;
    } else {
      assert (xs + ys)[1..] == xs[1..] + ys;
      WithoutConcat(xs[1..], ys, x);
    }
  }

  lemma MoveToEndDistinct(xs: seq<string>, x: string)
    requires Distinct(xs)
    ensures Distinct(MoveToEnd(xs, x))
    ensures forall y :: y in MoveToEnd(xs, x) <==> y in xs || y == x
    ensures |MoveToEnd(xs, x)| == if x in xs then |xs| else |xs| + 1
  {
    WithoutDistinct(xs, x);
    WithoutMembers(xs, x);
  }

  lemma {:induction false} RecencyDistinct(events: seq<Event>)
    ensures Distinct(Recency(events))
  {
    if events != [] {
      RecencyDistinct(events[..|events| - 1]);
      MoveToEndDistinct(Recency(events[..|events| - 1]), events[|events| - 1].ip);
    }
  }

  lemma LastOfConcat(xs: seq<string>, ys: seq<string>, n: nat)
    requires |ys| >= n
    ensures LastN(xs + ys, n) == ys[|ys| - n..]
  {
  }

  /** Moving a key to the end of the unbounded list and keeping the last `n` is the same as moving it to the end
      of the last `n` and dropping the first if that makes one too many. */
  lemma MoveThenCut(xs: seq<string>, x: string, n: nat)
    requires Distinct(xs)
    ensures
      var kept := MoveToEnd(LastN(xs, n), x);
      LastN(MoveToEnd(xs, x), n) == if |kept| > n then kept[1..] else kept
  {
    MoveToEndDistinct(xs, x);
    if |xs| > n {
      var head, tail := xs[..|xs| - n], xs[|xs| - n..];
      assert xs == head + tail;
      MoveToEndDistinct(tail, x);
      WithoutConcat(head, tail, x);
      assert MoveToEnd(xs, x) == Without(head, x) + MoveToEnd(tail, x);
      LastOfConcat(Without(head, x), MoveToEnd(tail, x), n);
    }
  }

  // ----- the cache agrees with its unbounded counterpart -----

  lemma LastCommitSnoc(events: seq<Event>, e: Event, ip: string)
    ensures LastCommit(events + [e], ip) ==
            if e.Committed? && e.ip == ip then Some(e.entry) else LastCommit(events, ip)
  {
    assert (events + [e])[..|events|] == events;
  }

  lemma TouchAgrees(w: World, e: Event, capacity: nat)
    requires Agrees(w, capacity)
    ensures
      var kept := MoveToEnd(w.cache.order, e.ip);
      LastN(Recency(w.events + [e]), capacity) == if |kept| > capacity then kept[1..] else kept
    ensures Distinct(w.cache.order) && |w.cache.order| <= capacity
  {
    RecencyDistinct(w.events);
    assert (w.events + [e])[..|w.events|] == w.events;
    MoveThenCut(Recency(w.events), e.ip, capacity);
  }

  lemma CheckAgrees(w: World, ip: string, now: real, capacity: nat, printable: char -> bool)
    requires Agrees(w, capacity)
    ensures Agrees(Step(w, Checked(ip, now), capacity, printable), capacity)
  {
    if Check(w.cache, ip, now).0.Some? {
      var e := Hit(ip);
      TouchAgrees(w, e, capacity);
      MoveToEndDistinct(w.cache.order, ip);
      forall k ensures LastCommit(w.events + [e], k) == LastCommit(w.events, k) {
        LastCommitSnoc(w.events, e, k);
      }
    }
  }

  lemma RestMembers(xs: seq<string>)
    requires Distinct(xs) && xs != []
    ensures forall y :: y in xs[1..] <==> y in xs && y != xs[0]
  {
    assert xs == [xs[0]] + xs[1..];
  }

  /** A commit keeps the two halves of the cache over the same keys and touches no other key's entry. */
  lemma CommitKeys(c: Cache, ip: string, now: real, value: Geo, capacity: nat)
    requires Distinct(c.order) && forall k :: k in c.store <==> k in c.order
    ensures
      var after := Commit(c, ip, now, value, capacity);
      var order := MoveToEnd(c.order, ip);
      && after.order == (if |order| > capacity then order[1..] else order)
      && (forall k :: k in after.store <==> k in after.order)
      && (forall k :: k in after.store ==>
            if k == ip then after.store[k] == Entry(now, value) else k in c.store && after.store[k] == c.store[k])
  {
    MoveToEndDistinct(c.order, ip);
    RestMembers(MoveToEnd(c.order, ip));
    hide MoveToEnd, Distinct;
  }

  lemma CommitAgrees(w: World, ip: string, now: real, value: Geo, capacity: nat)
    requires Agrees(w, capacity)
    ensures
      var events := w.events + [Committed(ip, Entry(now, value))];
      Agrees(World(Commit(w.cache, ip, now, value, capacity), events), capacity)
  {
    hide Commit, LastCommit, Recency, MoveToEnd, LastN;
    var e := Committed(ip, Entry(now, value));
    var after := Commit(w.cache, ip, now, value, capacity);
    TouchAgrees(w, e, capacity);
    CommitKeys(w.cache, ip, now, value, capacity);
    forall k | k in after.store ensures LastCommit(w.events + [e], k) == Some(after.store[k]) {
      LastCommitSnoc(w.events, e, k);
    }
  }

  lemma StepAgrees(w: World, op: Op, capacity: nat, printable: char -> bool)
    requires Agrees(w, capacity)
    ensures Agrees(Step(w, op, capacity, printable), capacity)
  {
    match op
    case Checked(ip, now) => CheckAgrees(w, ip, now, capacity, printable);
    case Fetched(ip, now, response) =>
      if response.Object? {
        CommitAgrees(w, ip, now, Describe(response.fields, printable), capacity);
      }
  }

  /** After any run the cache holds the most recently touched IPs, in that order, each with its last commit. */
  lemma {:induction false} RunAgrees(ops: seq<Op>, capacity: nat, printable: char -> bool)
    ensures Agrees(Run(ops, capacity, printable), capacity)
    ensures |Run(ops, capacity, printable).cache.order| <= capacity
  {
    if ops != [] {
      RunAgrees(ops[..|ops| - 1], capacity, printable);
      StepAgrees(Run(ops[..|ops| - 1], capacity, printable), ops[|ops| - 1], capacity, printable);
    }
  }

  // ----- when an IP is still present -----

  function After(xs: seq<string>, x: string): seq<string> {
    if xs == [] then [] else if xs[0] == x then xs[1..] else After(xs[1..], x)
  }

  lemma {:induction false} AfterMove(xs: seq<string>, x: string, y: string)
    requires Distinct(xs) && x in xs && x != y
    ensures After(MoveToEnd(xs, y), x) == MoveToEnd(After(xs, x), y)
  {
    assert xs == [xs[0]] + xs[1..];
    WithoutMembers(xs, y);
    var moved := MoveToEnd(xs, y);
    if xs[0] == x {
      assert moved == [x] + MoveToEnd(xs[1..], y);
    } else {
      AfterMove(xs[1..], x, y);
      if xs[0] == y {
        assert moved == MoveToEnd(xs[1..], y);
      } else {
        assert moved == [xs[0]] + MoveToEnd(xs[1..], y);
      }
    }
  }

  lemma {:induction false} AfterLast(xs: seq<string>, x: string)
    requires x !in xs
    ensures After(xs + [x], x) == []
  {
    if xs != [] {
      assert (xs + [x])[1..] == xs[1..] + [x];
      AfterLast(xs[1..], x);
    }
  }

  lemma {:induction false} AfterIsSuffix(xs: seq<string>, x: string)
    requires Distinct(xs) && x in xs
    ensures |After(xs, x)| < |xs| && After(xs, x) == xs[|xs| - |After(xs, x)|..]
    ensures xs[|xs| - |After(xs, x)| - 1] == x
    ensures Distinct(After(xs, x))
  {
    assert xs == [xs[0]] + xs[1..];
    if xs[0] != x {
      AfterIsSuffix(xs[1..], x);
    }
  }

  lemma {:induction false} DistinctCard(xs: seq<string>, s: set<string>)
    requires Distinct(xs) && forall y :: y in s <==> y in xs
    ensures |s| == |xs|
  {
    if xs == [] {
      assert s == {};
    } else {
      var rest := s - {xs[0]};
      assert forall y :: y in xs[1..] ==> y != xs[0];
      assert xs == [xs[0]] + xs[1..];
      DistinctCard(xs[1..], rest);
    }
  }

  lemma {:induction false} AfterIsTouchedSince(events: seq<Event>, ip: string)
    requires ip in Recency(events)
    ensures forall y :: y in TouchedSince(events, ip) <==> y in After(Recency(events), ip)
  {
    var front, last := events[..|events| - 1], events[|events| - 1];
    var r := Recency(front);
    RecencyDistinct(front);
    WithoutMembers(r, last.ip);
    if last.ip == ip {
      AfterLast(Without(r, ip), ip);
    } else {
      AfterIsTouchedSince(front, ip);
      AfterMove(r, ip, last.ip);
      WithoutMembers(After(r, ip), last.ip);
    }
  }

  lemma {:induction false} RecencyMembers(events: seq<Event>, ip: string)
    ensures ip in Recency(events) <==> exists e :: e in events && e.ip == ip
  {
    if events != [] {
      var front, last := events[..|events| - 1], events[|events| - 1];
      RecencyMembers(front, ip);
      WithoutMembers(Recency(front), last.ip);
      assert events == front + [last];
    }
  }

  /** An IP is in the cache exactly when it was touched and fewer than `capacity` other IPs were touched since. */
  lemma PresentIff(ops: seq<Op>, capacity: nat, printable: char -> bool, ip: string)
    ensures
      var w := Run(ops, capacity, printable);
      ip in w.cache.store <==>
      (exists e :: e in w.events && e.ip == ip) && |TouchedSince(w.events, ip)| < capacity
  {
    var w := Run(ops, capacity, printable);
    var r := Recency(w.events);
    RunAgrees(ops, capacity, printable);
    RecencyMembers(w.events, ip);
    RecencyDistinct(w.events);
    if ip in r {
      AfterIsTouchedSince(w.events, ip);
      AfterIsSuffix(r, ip);
      DistinctCard(After(r, ip), TouchedSince(w.events, ip));
      SuffixMembership(r, ip, |r| - |After(r, ip)| - 1, capacity);
    }
  }

  lemma SuffixMembership(xs: seq<string>, x: string, k: nat, n: nat)
    requires Distinct(xs) && k < |xs| && xs[k] == x
    ensures x in LastN(xs, n) <==> |xs| - 1 - k < n
  {
    var tail := LastN(xs, n);
    if |xs| > n {
      if |xs| - 1 - k < n {
        assert tail[k - (|xs| - n)] == x;
      }
      assert forall j :: 0 <= j < |tail| ==> tail[j] == xs[|xs| - n + j];
    }
  }

  /** What a check answers after any run: the last committed value when that is younger than the TTL and fewer than
      `capacity` other IPs were touched since; nothing otherwise. A smaller cache only forgets, it never lies. */
  lemma HitIsLastCommit(ops: seq<Op>, capacity: nat, printable: char -> bool, ip: string, now: real)
    ensures
      var w := Run(ops, capacity, printable);
      var last := LastCommit(w.events, ip);
      Check(w.cache, ip, now).0 ==
      if last.Some? && now - last.value.stamp < 300.0 && |TouchedSince(w.events, ip)| < capacity
      then Some(last.value.value)
      else None
  {
    var w := Run(ops, capacity, printable);
    RunAgrees(ops, capacity, printable);
    PresentIff(ops, capacity, printable, ip);
    if LastCommit(w.events, ip).Some? {
      CommittedWasTouched(w.events, ip);
    }
  }

  lemma {:induction false} CommittedWasTouched(events: seq<Event>, ip: string)
    requires LastCommit(events, ip).Some?
    ensures exists e :: e in events && e.ip == ip
  {
    var front, last := events[..|events| - 1], events[|events| - 1];
    assert events == front + [last];
    if !(last.Committed? && last.ip == ip) {
      CommittedWasTouched(front, ip);
    }
  }

  // ----- the class -----

  class GeoIpLookup {
    const capacity: nat := MAX_CACHE_ENTRIES
    const printable: char -> bool
    var order: seq<string>
    var store: map<string, Entry>
    ghost var events: seq<Event>

    constructor (printable: char -> bool)
      ensures this.printable == printable && capacity == 2048
      ensures View() == EMPTY && Valid()
    {
      this.printable := printable;
      order, store, events := [], map[], [];
    }

    ghost function View(): World
      reads this
    {
      World(Cache(order, store), events)
    }

    ghost predicate Valid()
      reads this
    {
      Agrees(View(), capacity)
    }

    /** `lookup` up to the `await`; `None` means that the caller goes on to fetch. */
    method CheckCache(ip: string, now: real) returns (hit: Option<Geo>)
      requires Valid()
      modifies this
      ensures Valid()
      ensures View() == Step(old(View()), Checked(ip, now), capacity, printable)
      ensures hit == Check(old(View()).cache, ip, now).0
      ensures hit.Some? ==> LastCommit(old(events), ip).Some? && Fresh(LastCommit(old(events), ip).value, now)
                            && hit.value == LastCommit(old(events), ip).value.value
    {
      CheckAgrees(View(), ip, now, capacity, printable);
      if ip in store && now - store[ip].stamp < CACHE_TTL_SECONDS {
        order := MoveToEnd(order, ip);
        events := events + [Hit(ip)];
        return Some(store[ip].value);
      }
      return None;
    }

    /** `lookup` after the `await`; `None` stands for the empty answer of a failed or malformed fetch. */
    method Finish(ip: string, response: Response, now: real) returns (answer: Option<Geo>)
      requires Valid()
      modifies this
      ensures Valid()
      ensures View() == Step(old(View()), Fetched(ip, now, response), capacity, printable)
      ensures answer.None? <==> !response.Object?
      ensures answer.None? ==> View() == old(View())
      ensures answer.Some? ==> LastCommit(events, ip) == Some(Entry(now, answer.value))
    {
      hide Agrees, Clamp, OnlyPrintable, Presentable, LastCommit, Recency, Lower;
      if response.Failed? {
        return None;
      }
      if response.NotAnObject? {
        return None;
      }
      var sent := if "country_code" in response.fields then response.fields["country_code"] else Json.Text("");
      var code := Clamp(Some(sent), printable);
      var value := Geo(Clamp(Field(response.fields, "country_name"), printable),
                       Lower(if |code| > 2 then code[..2] else code),
                       Clamp(Field(response.fields, "city"), printable),
                       Clamp(Field(response.fields, "org"), printable));
      StepAgrees(View(), Fetched(ip, now, response), capacity, printable);
      LastCommitSnoc(events, Committed(ip, Entry(now, value)), ip);
      store := store[ip := Entry(now, value)];
      order := MoveToEnd(order, ip);
      if |order| > capacity {
        store := store - {order[0]};
        order := order[1..];
      }
      events := events + [Committed(ip, Entry(now, value))];
      return Some(value);
    }
  }
}
