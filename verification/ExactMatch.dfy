// matcher.Match when no semantic rule applies: method, host, path and query of the
// request against those of a captured event. It is equality of a key, which is what
// makes captured requests fall into classes.

module ExactMatch {
  import opened Wrappers
  import opened Allocation
  import opened Fanout
  import opened StubProxy
  import opened Text

  // The parts of a parsed URL that matching looks at. Query values keep their order.
  datatype Url = Url(host: string, escapedPath: string, query: map<string, seq<string>>)

  // A captured event; its URL may fail to parse.
  datatype Event = Event(method_: string, url: Option<Url>)

  datatype Request = Request(method_: string, url: Url, hostHeader: string)

  // What exact matching is configured with.
  datatype Config = Config(cases: Cases, ignoredQuery: seq<string>)

  function StripDefaultPort(cfg: Config, host: string): string {
    TrimSuffix(TrimSuffix(Mapped(cfg.cases.lower, host), ":80"), ":443")
  }

  predicate EqualHost(cfg: Config, a: string, b: string) {
    EqualFold(cfg.cases, StripDefaultPort(cfg, a), StripDefaultPort(cfg, b))
  }

  function EscapedPath(u: Url): string {
    if u.escapedPath == "" then "/" else u.escapedPath
  }

  // What url.Values.Encode distinguishes once the ignored names are gone: a name
  // without values leaves no trace in the encoding.
  function Encoded(cfg: Config, query: map<string, seq<string>>): map<string, seq<string>> {
    map name | name in query && name !in cfg.ignoredQuery && query[name] != [] :: query[name]
  }

  function RequestHost(r: Request): string {
    if r.url.host == "" then r.hostHeader else r.url.host
  }

  predicate Match(captured: Event, r: Request, cfg: Config) {
    && captured.url.Some?
    && EqualFold(cfg.cases, Mapped(cfg.cases.upper, r.method_), Mapped(cfg.cases.upper, captured.method_))
    && EqualHost(cfg, RequestHost(r), captured.url.value.host)
    && EscapedPath(r.url) == EscapedPath(captured.url.value)
    && Encoded(cfg, r.url.query) == Encoded(cfg, captured.url.value.query)
  }

  // ---------------------------------------------------------------- matching is equality of a key

  datatype MatchKey = MatchKey(method_: string, host: string, path: string, query: map<string, seq<string>>)

  function RequestKey(r: Request, cfg: Config): MatchKey {
    var fold := cfg.cases.fold;
    MatchKey(Mapped(fold, Mapped(cfg.cases.upper, r.method_)), Mapped(fold, StripDefaultPort(cfg, RequestHost(r))),
             EscapedPath(r.url), Encoded(cfg, r.url.query))
  }

  // The request that replays a captured event.
  function RecordedRequest(e: Event): Option<Request> {
    match e.url
    case None => None
    case Some(u) => Some(Request(e.method_, u, u.host))
  }

  // An event with a URL matches exactly the requests that have the key of its own request.
  lemma MatchIsKeyEquality(e: Event, r: Request, cfg: Config)
    ensures Match(e, r, cfg) <==>
      RecordedRequest(e).Some? && RequestKey(RecordedRequest(e).value, cfg) == RequestKey(r, cfg)
  {
    if e.url.Some? {
      var own := RecordedRequest(e).value;
      var upper := cfg.cases.upper;
      EqualFoldIsSameFold(cfg.cases, Mapped(upper, r.method_), Mapped(upper, e.method_));
      EqualFoldIsSameFold(cfg.cases, StripDefaultPort(cfg, RequestHost(r)), StripDefaultPort(cfg, e.url.value.host));
      assert RequestHost(own) == e.url.value.host;
    }
  }

  // ---------------------------------------------------------------- what matching looks at

  ghost predicate EndsWith(s: string, suffix: string) {
    exists front :: s == front + suffix
  }

  // What is left of a host in lower case: one ":80" goes, then one ":443".
  ghost predicate BareHost(lowered: string, bare: string) {
    || lowered == bare + ":443:80"
    || lowered == bare + ":443"
    || (lowered == bare + ":80" && !EndsWith(bare, ":443"))
    || (lowered == bare && !EndsWith(bare, ":80") && !EndsWith(bare, ":443"))
  }

  predicate SameUnder(f: char -> char, a: string, b: string) {
    |a| == |b| && forall i :: 0 <= i < |a| ==> f(a[i]) == f(b[i])
  }

  ghost predicate SameHost(cases: Cases, a: string, b: string) {
    exists bareA, bareB ::
      BareHost(Mapped(cases.lower, a), bareA) && BareHost(Mapped(cases.lower, b), bareB) &&
      SameUnder(cases.fold, bareA, bareB)
  }

  // The values of a query parameter, in order; none when it is absent.
  function Values(query: map<string, seq<string>>, name: string): seq<string> {
    if name in query then query[name] else []
  }

  ghost predicate SameQuery(cfg: Config, a: map<string, seq<string>>, b: map<string, seq<string>>) {
    forall name :: name !in cfg.ignoredQuery ==> Values(a, name) == Values(b, name)
  }

  lemma EndsWithExactly(s: string, suffix: string)
    ensures EndsWith(s, suffix) <==> |s| >= |suffix| && s[|s| - |suffix|..] == suffix
  {
    if EndsWith(s, suffix) {
      var front :| s == front + suffix;
      assert (front + suffix)[|front|..] == suffix;
    }
    if |s| >= |suffix| && s[|s| - |suffix|..] == suffix {
      assert s == s[..|s| - |suffix|] + suffix;
    }
  }

  lemma TrimSuffixExactly(s: string, suffix: string, t: string)
    ensures TrimSuffix(s, suffix) == t <==> s == t + suffix || (s == t && !EndsWith(t, suffix))
  {
    EndsWithExactly(s, suffix);
    if EndsWith(s, suffix) {
      assert s == s[..|s| - |suffix|] + suffix;
    }
    assert (t + suffix)[..|t|] == t && (t + suffix)[|t|..] == suffix;
  }

  lemma EndsIn80(bare: string)
    ensures !EndsWith(bare + ":443", ":80")
  {
    var s := bare + ":443";
    EndsWithExactly(s, ":80");
    assert s[|s| - 3..][0] == '4';
  }

  lemma BareHostExactly(cfg: Config, host: string, bare: string)
    ensures StripDefaultPort(cfg, host) == bare <==> BareHost(Mapped(cfg.cases.lower, host), bare)
  {
    var lowered := Mapped(cfg.cases.lower, host);
    var once := TrimSuffix(lowered, ":80");
    TrimSuffixExactly(once, ":443", bare);
    TrimSuffixExactly(lowered, ":80", bare);
    TrimSuffixExactly(lowered, ":80", bare + ":443");
    EndsIn80(bare);
    assert (bare + ":443") + ":80" == bare + ":443:80";
  }

  lemma SameFoldedUpper(cases: Cases, a: string, b: string)
    ensures EqualFold(cases, Mapped(cases.upper, a), Mapped(cases.upper, b)) <==>
      SameUnder(c => cases.fold(cases.upper(c)), a, b)
  {
    var x, y := Mapped(cases.upper, a), Mapped(cases.upper, b);
    assert EqualFold(cases, x, y) <==> SameUnder(cases.fold, x, y);
    if |a| == |b| {
      assert forall i :: 0 <= i < |a| ==> x[i] == cases.upper(a[i]) && y[i] == cases.upper(b[i]);
    }
  }

  lemma SameHostExactly(cfg: Config, a: string, b: string)
    ensures EqualHost(cfg, a, b) <==> SameHost(cfg.cases, a, b)
  {
    var bareA, bareB := StripDefaultPort(cfg, a), StripDefaultPort(cfg, b);
    BareHostExactly(cfg, a, bareA);
    BareHostExactly(cfg, b, bareB);
    if SameHost(cfg.cases, a, b) {
      var x, y :| BareHost(Mapped(cfg.cases.lower, a), x) && BareHost(Mapped(cfg.cases.lower, b), y) &&
        SameUnder(cfg.cases.fold, x, y);
      BareHostExactly(cfg, a, x);
      BareHostExactly(cfg, b, y);
    }
  }

  lemma SameQueryExactly(cfg: Config, a: map<string, seq<string>>, b: map<string, seq<string>>)
    ensures Encoded(cfg, a) == Encoded(cfg, b) <==> SameQuery(cfg, a, b)
  {
    var x, y := Encoded(cfg, a), Encoded(cfg, b);
    forall name
      ensures name in x <==> name !in cfg.ignoredQuery && Values(a, name) != []
      ensures name in y <==> name !in cfg.ignoredQuery && Values(b, name) != []
      ensures name in x ==> x[name] == Values(a, name)
      ensures name in y ==> y[name] == Values(b, name)
    {}
    if x == y {
      forall name | name !in cfg.ignoredQuery
        ensures Values(a, name) == Values(b, name)
      {
        assert name in x <==> name in y;
      }
    }
    if SameQuery(cfg, a, b) {
      assert x.Keys == y.Keys;
    }
  }

  // What exact matching looks at, and nothing else: the method up to case, the host up to
  // case and a default port, with the Host header standing in for a URL without one, the
  // path with "/" for none, and the values of every query parameter that is not ignored.
  lemma MatchLooksAt(e: Event, r: Request, cfg: Config)
    ensures Match(e, r, cfg) <==>
      && e.url.Some?
      && SameUnder(c => cfg.cases.fold(cfg.cases.upper(c)), r.method_, e.method_)
      && SameHost(cfg.cases, if r.url.host == "" then r.hostHeader else r.url.host, e.url.value.host)
      && (r.url.escapedPath == e.url.value.escapedPath ||
          (r.url.escapedPath in {"", "/"} && e.url.value.escapedPath in {"", "/"}))
      && SameQuery(cfg, r.url.query, e.url.value.query)
  {
    if e.url.Some? {
      SameFoldedUpper(cfg.cases, r.method_, e.method_);
      SameHostExactly(cfg, RequestHost(r), e.url.value.host);
      SameQueryExactly(cfg, r.url.query, e.url.value.query);
    }
  }

  // An ignored query parameter can be added to a request or changed there freely.
  lemma IgnoredParameterIsFree(e: Event, r: Request, cfg: Config, name: string, values: seq<string>)
    requires name in cfg.ignoredQuery
    ensures Match(e, r.(url := r.url.(query := r.url.query[name := values])), cfg) <==> Match(e, r, cfg)
  {
    var changed := r.(url := r.url.(query := r.url.query[name := values]));
    MatchLooksAt(e, r, cfg);
    MatchLooksAt(e, changed, cfg);
    forall other | other !in cfg.ignoredQuery
      ensures Values(changed.url.query, other) == Values(r.url.query, other)
    {}
  }

  // Matching is blind to which of two requests with one key is sent; two requests
  // that some event accepts both are accepted by the same events.
  lemma SharedEventMeansSameEvents(e: Event, f: Event, q: Request, r: Request, cfg: Config)
    requires Match(e, q, cfg) && Match(e, r, cfg)
    ensures Match(f, q, cfg) <==> Match(f, r, cfg)
  {
    MatchIsKeyEquality(e, q, cfg);
    MatchIsKeyEquality(e, r, cfg);
    MatchIsKeyEquality(f, q, cfg);
    MatchIsKeyEquality(f, r, cfg);
  }

  function ExactMatcher(cfg: Config): (Event, Request) -> bool {
    (e: Event, r: Request) => Match(e, r, cfg)
  }

  function ExactBook(events: seq<Event>, cfg: Config, multiplier: nat): Book<Request> {
    BookOf(events, ExactMatcher(cfg), multiplier)
  }

  function Recorded(events: seq<Event>): seq<Option<Request>> {
    seq(|events|, i requires 0 <= i < |events| => RecordedRequest(events[i]))
  }

  lemma {:induction false} SameCandidates(b: Book<Request>, q: Request, r: Request, upto: nat)
    requires upto <= b.size && forall i :: 0 <= i < upto ==> b.accepts(i, q) == b.accepts(i, r)
    ensures Candidates(b, q, upto) == Candidates(b, r, upto)
  {
    if upto > 0 {
      SameCandidates(b, q, r, upto - 1);
    }
  }

  lemma ExactlyClassified(events: seq<Event>, cfg: Config, multiplier: nat, q: Request, r: Request, i: nat)
    requires var b := ExactBook(events, cfg, multiplier); i in Class(b, q) && i in Class(b, r)
    ensures var b := ExactBook(events, cfg, multiplier); Class(b, q) == Class(b, r)
  {
    var b := ExactBook(events, cfg, multiplier);
    forall j | 0 <= j < b.size
      ensures b.accepts(j, q) == b.accepts(j, r)
    {
      SharedEventMeansSameEvents(events[i], events[j], q, r, cfg);
    }
    SameCandidates(b, q, r, b.size);
  }

  lemma ExactMatchingIsSelfMatching(events: seq<Event>, cfg: Config, multiplier: nat)
    ensures SelfMatching(ExactBook(events, cfg, multiplier), Recorded(events))
  {
    var b := ExactBook(events, cfg, multiplier);
    forall i | 0 <= i < b.size && Recorded(events)[i].Some?
      ensures b.accepts(i, Recorded(events)[i].value)
    {
      MatchIsKeyEquality(events[i], Recorded(events)[i].value, cfg);
    }
    forall q, r, i | i in Class(b, q) && i in Class(b, r)
      ensures Class(b, q) == Class(b, r)
    {
      ExactlyClassified(events, cfg, multiplier, q, r, i);
    }
  }

  // First come, first served without rules: whatever the requests, in any interleaving,
  // the j-th request with a key (counting from 0) is answered by event j / multiplier of
  // those with that key, or refused when there is none.
  lemma ExactMatchingIsFirstComeFirstServed(events: seq<Event>, cfg: Config, b: Book<Request>,
                                            reqs: seq<Request>, t: nat)
    requires b.multiplier > 0 && b == ExactBook(events, cfg, b.multiplier) && t < |reqs|
    ensures Outcomes(b, Fresh(b.size), reqs)[t] == InTurn(b, reqs, t)
  {
    forall q, r, i | i in Class(b, q) && i in Class(b, r)
      ensures Class(b, q) == Class(b, r)
    {
      ExactlyClassified(events, cfg, b.multiplier, q, r, i);
    }
    ClassFIFO(b, reqs, t);
  }

  // A fanout replay of captured requests against their own log, without semantic rules:
  // no interleaving ever makes the stub refuse, and when the copies are all in, each
  // event whose URL parses has been used exactly fanout times.
  lemma ExactFanoutNeverDiverges(events: seq<Event>, cfg: Config, fanout: nat,
                                 steps: seq<Step<Request>>, s: State<Request>)
    requires fanout > 0
    requires After(ExactBook(events, cfg, fanout), |events| * fanout, steps) == Some(s)
    ensures multiset(Arrivals(steps)) <= multiset(Copies(Recorded(events), fanout)) ==>
      s.rejected == 0 && forall t :: 0 <= t < |s.answers| ==> s.answers[t].Some?
    ensures Finished(s, steps, Copies(Recorded(events), fanout)) ==>
      forall i :: 0 <= i < |events| ==> s.uses[i] == if events[i].url.Some? then fanout else 0
  {
    var b := ExactBook(events, cfg, fanout);
    ExactMatchingIsSelfMatching(events, cfg, fanout);
    FanoutNeverDiverges(b, Recorded(events), steps, s);
    FanoutUsesEverything(b, Recorded(events), steps, s);
  }
}
