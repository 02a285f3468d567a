/** One logical WebDAV request: redirects and a Digest challenge are followed by hand. */
module WebDav {
  import opened Options
  import opened Seqs

  datatype Url = Url(scheme: string, host: string, port: Option<nat>, pathAndQuery: string,
                     username: string, password: Option<string>, fragment: Option<string>)

  datatype Method = Get | Head | Other(name: string)

  const MAX_REDIRECTS := 4

  // ----- which redirects may be followed

  datatype Origin = Tuple(scheme: string, host: string, port: nat) | Opaque

  function KnownPort(u: Url): Option<nat> {
    if u.port.Some? then u.port
    else if u.scheme == "http" || u.scheme == "ws" then Some(80)
    else if u.scheme == "https" || u.scheme == "wss" then Some(443)
    else if u.scheme == "ftp" then Some(21)
    else None
  }

  function OriginOf(u: Url): Origin {
    if u.scheme in {"http", "https", "ws", "wss", "ftp"} && KnownPort(u).Some?
    then Tuple(u.scheme, u.host, KnownPort(u).value)
    else Opaque
  }

  /** An opaque origin equals no origin, not even itself. */
  predicate SameOrigin(a: Url, b: Url) {
    OriginOf(a).Tuple? && OriginOf(a) == OriginOf(b)
  }

  predicate Upgrades(base: Url, next: Url) {
    && base.scheme == "http" && next.scheme == "https" && base.host == next.host
    && KnownPort(base) == Some(80) && KnownPort(next) == Some(443)
  }

  predicate KeepsCredentials(base: Url, next: Url) {
    SameOrigin(base, next) || Upgrades(base, next)
  }

  const DEFAULT_PORTS := {("http", 80), ("ws", 80), ("https", 443), ("wss", 443), ("ftp", 21)}

  /** The port that a URL names, or the one its scheme stands for. */
  predicate HasPort(u: Url, port: nat) {
    u.port == Some(port) || (u.port.None? && (u.scheme, port) in DEFAULT_PORTS)
  }

  /** Credentials may follow to the same host, on the same port under the same scheme, or from port 80 under
      http to port 443 under https. Schemes without a known origin keep none. */
  lemma KeepsIff(a: Url, b: Url)
    ensures KeepsCredentials(a, b) <==>
              && a.host == b.host
              && ((a.scheme == b.scheme && a.scheme in {"http", "https", "ws", "wss", "ftp"} && exists p :: HasPort(a, p) && HasPort(b, p))
                  || (a.scheme == "http" && b.scheme == "https" && HasPort(a, 80) && HasPort(b, 443)))
  {
    PortIff(a);
    PortIff(b);
  }

  lemma PortIff(u: Url)
    ensures forall p: nat :: HasPort(u, p) <==> KnownPort(u) == Some(p)
  {
  }

  lemma KeepsCredentialsTransitive(a: Url, b: Url, c: Url)
    requires KeepsCredentials(a, b) && KeepsCredentials(b, c)
    ensures KeepsCredentials(a, c)
  {
  }

  predicate ReadOnly(m: Method) {
    m.Get? || m.Head?
  }

  /** A `Location` header resolved against the current URL. */
  datatype Location = Resolved(url: Url) | Unresolvable

  /** From which scheme to which a redirect may go. */
  const WEB_SCHEMES := {("http", "http"), ("http", "https"), ("https", "https")}

  datatype Target = Invalid | Stay | Follow(url: Url)

  function RedirectTarget(status: nat, location: Option<Location>, base: Url, m: Method): Target {
    if status !in {301, 302, 303, 307, 308} then Stay
    else if status == 303 && !ReadOnly(m) then Invalid
    else if location.None? then Stay
    else if location.value.Unresolvable? then Invalid
    else
      var next := location.value.url;
      var schemes := (base.scheme, next.scheme);
      if !(ReadOnly(m) || KeepsCredentials(base, next))
         || next.username != "" || next.password.Some? || next.fragment.Some?
         || schemes !in WEB_SCHEMES
      then Stay
      else Follow(next)
  }

  // ----- the exchange

  /** A Digest challenge; `usable` says whether an authorization can be built from it. */
  datatype Challenge = Challenge(text: string, usable: bool)

  datatype Response = Response(status: nat, location: Option<Location>, challenge: Option<Challenge>) | SendFailed

  datatype Account = Account(username: string, password: string)

  datatype Auth = NoAuth | Basic | Digest(challenge: Challenge, m: Method, uri: string, count: nat)

  datatype Sent = Sent(m: Method, url: Url, auth: Auth, hasBody: bool)

  datatype Result = Answer(response: Response) | Failed

  datatype Loop = Loop(current: Url, redirects: nat, challenge: Option<Challenge>, nonceCount: nat)

  /** The fixed part of one call. The server is any function of how many requests it has seen. */
  datatype Call = Call(account: Account, m: Method, origin: Url, hasBody: bool, server: nat -> Response)

  function Authorization(c: Call, l: Loop): Auth {
    if !KeepsCredentials(c.origin, l.current) then NoAuth
    else if l.challenge.Some? then Digest(l.challenge.value, c.m, l.current.pathAndQuery, l.nonceCount + 1)
    else if c.account.username != "" then Basic
    else NoAuth
  }

  predicate Retries(c: Call, l: Loop, r: Response)
    requires r.Response?
  {
    && KeepsCredentials(c.origin, l.current) && r.status == 401 && l.challenge.None?
    && c.account.username != "" && c.account.password != "" && r.challenge.Some?
  }

  function Measure(l: Loop): nat {
    (if l.redirects <= MAX_REDIRECTS then MAX_REDIRECTS - l.redirects else 0) + if l.challenge.None? then 1 else 0
  }

  /** One turn of the loop: it ends the call, or sends one request and goes on. */
  datatype Turn = End(result: Result, sent: seq<Sent>) | Again(request: Sent, next: Loop)

  function TakeTurn(c: Call, l: Loop, r: Response): (t: Turn)
    requires l.redirects <= MAX_REDIRECTS
    ensures t.Again? ==> t.next.redirects <= MAX_REDIRECTS && Measure(t.next) < Measure(l)
  {
    var auth := Authorization(c, l);
    if auth.Digest? && !auth.challenge.usable then End(Failed, [])
    else
      var request := Sent(c.m, l.current, auth, c.hasBody);
      var l := if auth.Digest? then l.(nonceCount := auth.count) else l;
      if r.SendFailed? then End(Failed, [request])
      else if Retries(c, l, r) then Again(request, l.(challenge := r.challenge))
      else match RedirectTarget(r.status, r.location, l.current, c.m)
        case Invalid => End(Failed, [request])
        case Stay => End(Answer(r), [request])
        case Follow(next) =>
          if l.redirects == MAX_REDIRECTS then End(Failed, [request])
          else Again(request, l.(current := next, redirects := l.redirects + 1))
  }

  /** Everything sent from this point on, and the result; `n` requests have been sent before. */
  function Perform(c: Call, l: Loop, n: nat): (Result, seq<Sent>)
    requires l.redirects <= MAX_REDIRECTS
    decreases Measure(l)
  {
    match TakeTurn(c, l, c.server(n))
    case End(result, sent) => (result, sent)
    case Again(request, next) =>
      var (result, more) := Perform(c, next, n + 1);
      (result, [request] + more)
  }

  function Start(c: Call): Loop {
    Loop(c.origin, 0, None, 0)
  }

  ghost function Prefixed(sent: seq<Sent>, p: (Result, seq<Sent>)): (Result, seq<Sent>) {
    (p.0, sent + p.1)
  }

  lemma PrefixedStep(sent: seq<Sent>, x: Sent, p: (Result, seq<Sent>))
    ensures Prefixed([], p) == p
    ensures Prefixed(sent + [x], p) == Prefixed(sent, (p.0, [x] + p.1))
  {
    assert [] + p.1 == p.1;
    assert sent + [x] + p.1 == sent + ([x] + p.1);
  }

  /** What the next request carries: a Digest once there is a challenge, before that the name and password. */
  method Authorize(c: Call, l: Loop) returns (auth: Auth)
    ensures auth == Authorization(c, l)
  {
    auth := NoAuth;
    if KeepsCredentials(c.origin, l.current) {
      if l.challenge.Some? {
        auth := Digest(l.challenge.value, c.m, l.current.pathAndQuery, l.nonceCount + 1);
      } else if c.account.username != "" {
        auth := Basic;
      }
    }
  }

  /** The body of the source's loop: sign, send, and decide what the response leads to. */
  method TakeOneTurn(c: Call, l: Loop, response: Response) returns (t: Turn)
    requires l.redirects <= MAX_REDIRECTS
    ensures t == TakeTurn(c, l, response)
  {
    var nonceCount := l.nonceCount;
    var auth := Authorize(c, l);
    if auth.Digest? {
      nonceCount := nonceCount + 1;
      if !auth.challenge.usable {
        return End(Failed, []);
      }
    }
    var request := Sent(c.m, l.current, auth, c.hasBody);
    if response.SendFailed? {
      return End(Failed, [request]);
    }
    if KeepsCredentials(c.origin, l.current) && response.status == 401 && l.challenge.None? && c.account.username != ""
       && c.account.password != "" && response.challenge.Some?
    {
      return Again(request, Loop(l.current, l.redirects, response.challenge, nonceCount));
    }
    match RedirectTarget(response.status, response.location, l.current, c.m) {
      case Invalid => return End(Failed, [request]);
      case Stay => return End(Answer(response), [request]);
      case Follow(next) =>
        if l.redirects == MAX_REDIRECTS {
          return End(Failed, [request]);
        }
        return Again(request, Loop(next, l.redirects + 1, l.challenge, nonceCount));
    }
  }

  /** The source's loop over `current`, `redirects`, `challenge` and `nonce_count`. */
  method SendWithHeaders(c: Call) returns (result: Result, sent: seq<Sent>)
    ensures (result, sent) == Perform(c, Start(c), 0)
  {
    sent := [];
    var l := Start(c);
    ghost var whole := Perform(c, Start(c), 0);
    PrefixedStep([], Sent(c.m, c.origin, NoAuth, false), whole);
    while true
      invariant l.redirects <= MAX_REDIRECTS && whole == Prefixed(sent, Perform(c, l, |sent|))
      decreases Measure(l)
    {
      var turn := TakeOneTurn(c, l, c.server(|sent|));
      match turn {
        case End(r, last) =>
          return r, sent + last;
        case Again(request, next) =>
          PrefixedStep(sent, request, Perform(c, next, |sent| + 1));
          sent, l := sent + [request], next;
      }
    }
  }

  // ----- what every call guarantees

  lemma {:induction false} SendsBounded(c: Call, l: Loop, n: nat)
    requires l.redirects <= MAX_REDIRECTS
    ensures |Perform(c, l, n).1| <= Measure(l) + 1
    decreases Measure(l)
  {
    match TakeTurn(c, l, c.server(n))
    case End(_, _) =>
    case Again(_, next) => SendsBounded(c, next, n + 1);
  }

  /** Where requests may go: a mutation only to the origin or a URL its credentials may follow to,
      never from https back to http, and never to a URL with a user, a password or a fragment. */
  predicate Reachable(c: Call, u: Url) {
    u == c.origin ||
    (&& (ReadOnly(c.m) || KeepsCredentials(c.origin, u))
     && (c.origin.scheme, u.scheme) in WEB_SCHEMES
     && u.username == "" && u.password.None? && u.fragment.None?)
  }

  /** What may be sent: credentials stay home, the body is the caller's, and a Digest signs the URI it goes to. */
  predicate Proper(c: Call, s: Sent) {
    && s.m == c.m && s.hasBody == c.hasBody && Reachable(c, s.url)
    && (!s.auth.NoAuth? ==> KeepsCredentials(c.origin, s.url))
    && (s.auth.Digest? ==> s.auth.m == c.m && s.auth.uri == s.url.pathAndQuery)
  }

  lemma FollowReachable(c: Call, u: Url, next: Url)
    requires Reachable(c, u) && (ReadOnly(c.m) || KeepsCredentials(u, next)) && (u.scheme, next.scheme) in WEB_SCHEMES
    requires next.username == "" && next.password.None? && next.fragment.None?
    ensures Reachable(c, next)
  {
    if !ReadOnly(c.m) && u != c.origin {
      KeepsCredentialsTransitive(c.origin, u, next);
    }
  }

  lemma TurnProper(c: Call, l: Loop, r: Response)
    requires l.redirects <= MAX_REDIRECTS && Reachable(c, l.current)
    ensures match TakeTurn(c, l, r)
            case End(_, sent) => |sent| <= 1 && (sent != [] ==> Proper(c, sent[0]))
            case Again(request, next) => Proper(c, request) && Reachable(c, next.current)
  {
    if r.Response? {
      match RedirectTarget(r.status, r.location, l.current, c.m)
      case Follow(next) => FollowReachable(c, l.current, next);
      case _ =>
    }
  }

  lemma {:induction false} SendsProper(c: Call, l: Loop, n: nat, i: nat)
    requires l.redirects <= MAX_REDIRECTS && Reachable(c, l.current) && i < |Perform(c, l, n).1|
    ensures Proper(c, Perform(c, l, n).1[i])
    decreases Measure(l)
  {
    TurnProper(c, l, c.server(n));
    match TakeTurn(c, l, c.server(n))
    case End(_, _) =>
    case Again(_, next) =>
      if i > 0 {
        SendsProper(c, next, n + 1, i - 1);
      }
  }

  /** The counts of the Digest-signed requests, in order. */
  function Counts(sent: seq<Sent>): seq<nat> {
    if sent == [] then []
    else (if sent[0].auth.Digest? then [sent[0].auth.count] else []) + Counts(sent[1..])
  }

  function CountsFrom(k: nat, n: nat): seq<nat>
    decreases n
  {
    if n == 0 then [] else [k] + CountsFrom(k + 1, n - 1)
  }

  lemma TurnCounts(c: Call, l: Loop, r: Response)
    requires l.redirects <= MAX_REDIRECTS
    ensures match TakeTurn(c, l, r)
            case End(_, sent) => |sent| <= 1 && (sent != [] && sent[0].auth.Digest? ==> sent[0].auth.count == l.nonceCount + 1)
            case Again(request, next) =>
              if request.auth.Digest? then request.auth.count == l.nonceCount + 1 == next.nonceCount
              else next.nonceCount == l.nonceCount
  {
  }

  lemma {:induction false} CountsInOrder(c: Call, l: Loop, n: nat)
    requires l.redirects <= MAX_REDIRECTS
    ensures var counts := Counts(Perform(c, l, n).1); counts == CountsFrom(l.nonceCount + 1, |counts|)
    decreases Measure(l)
  {
    TurnCounts(c, l, c.server(n));
    match TakeTurn(c, l, c.server(n))
    case End(_, sent) =>
      if sent != [] {
        assert sent[1..] == [];
      }
    case Again(request, next) =>
      CountsInOrder(c, next, n + 1);
      ConsParts(request, Perform(c, next, n + 1).1);
      WithEmpty(Counts(Perform(c, next, n + 1).1));
  }

  lemma {:induction false} AnswerIsLast(c: Call, l: Loop, n: nat)
    requires l.redirects <= MAX_REDIRECTS && Perform(c, l, n).0.Answer?
    ensures var (result, sent) := Perform(c, l, n);
            && sent != [] && result.response == c.server(n + |sent| - 1) && result.response.Response?
            && RedirectTarget(result.response.status, result.response.location, sent[|sent| - 1].url, c.m).Stay?
    decreases Measure(l)
  {
    match TakeTurn(c, l, c.server(n))
    case End(_, _) =>
    case Again(_, next) => AnswerIsLast(c, next, n + 1);
  }

  ghost predicate AllProper(c: Call, sent: seq<Sent>) {
    forall i | 0 <= i < |sent| :: Proper(c, sent[i])
  }

  lemma AllSendsProper(c: Call)
    ensures AllProper(c, Perform(c, Start(c), 0).1)
  {
    forall i | 0 <= i < |Perform(c, Start(c), 0).1| ensures Proper(c, Perform(c, Start(c), 0).1[i]) {
      SendsProper(c, Start(c), 0, i);
    }
  }

  lemma FirstSend(c: Call)
    ensures var sent := Perform(c, Start(c), 0).1; sent != [] ==> sent[0].url == c.origin
  {
    match TakeTurn(c, Start(c), c.server(0))
    case End(_, _) =>
    case Again(_, _) =>
  }

  /** For every server and every account: at most six requests are sent, each one proper; Digest counts
      run 1, 2, 3, ... without reuse; and the answer is the last response, one that is not followed. */
  lemma CallGuarantees(c: Call)
    ensures var (result, sent) := Perform(c, Start(c), 0);
            && |sent| <= 6 && (sent != [] ==> sent[0].url == c.origin)
            && AllProper(c, sent)
            && Counts(sent) == CountsFrom(1, |Counts(sent)|)
            && (result.Answer? ==> sent != [] && result.response == c.server(|sent| - 1))
  {
    var l := Start(c);
    SendsBounded(c, l, 0);
    CountsInOrder(c, l, 0);
    AllSendsProper(c);
    FirstSend(c);
    if Perform(c, l, 0).0.Answer? {
      AnswerIsLast(c, l, 0);
    }
  }

  // ----- every response is dealt with

  /** When exactly a response is followed. */
  lemma FollowsIff(status: nat, location: Option<Location>, base: Url, m: Method, next: Url)
    ensures RedirectTarget(status, location, base, m) == Follow(next) <==>
              && (status in {301, 302, 307, 308} || (status == 303 && m in {Get, Head}))
              && location == Some(Resolved(next)) && (m in {Get, Head} || KeepsCredentials(base, next))
              && next.username == "" && next.password.None? && next.fragment.None?
              && (base.scheme == "http" || base.scheme == "https") && (next.scheme == "https" || next.scheme == base.scheme)
  {
  }

  /** A redirect that cannot be followed is an error only for a 303 to a mutation, or a location that is no URL. */
  lemma InvalidIff(status: nat, location: Option<Location>, base: Url, m: Method)
    ensures RedirectTarget(status, location, base, m).Invalid? <==>
              && status in {301, 302, 303, 307, 308}
              && ((status == 303 && m !in {Get, Head}) || location == Some(Unresolvable))
  {
  }

  /** The response asks for a Digest that can be given: it is a 401 with a challenge, to a request that
      credentials may go with, and there are a user and a password. */
  predicate Asks(c: Call, s: Sent, r: Response) {
    && r.Response? && r.status == 401 && r.challenge.Some? && KeepsCredentials(c.origin, s.url)
    && c.account.username != "" && c.account.password != ""
  }

  /** The first of the first `i` requests whose response asks for a Digest. */
  function FirstAsk(c: Call, sent: seq<Sent>, i: nat): (j: Option<nat>)
    requires i <= |sent|
    ensures j.Some? ==> j.value < i && Asks(c, sent[j.value], c.server(j.value))
    ensures forall k | 0 <= k < i && (j.None? || k < j.value) :: !Asks(c, sent[k], c.server(k))
  {
    if i == 0 then None
    else if FirstAsk(c, sent, i - 1).Some? then FirstAsk(c, sent, i - 1)
    else if Asks(c, sent[i - 1], c.server(i - 1)) then Some(i - 1)
    else None
  }

  /** Request `i` carries what is due: nothing away from home, a Digest of the first challenge once there
      has been one, before that the user's name and password if there is a user. */
  predicate Signed(c: Call, sent: seq<Sent>, i: nat)
    requires i < |sent|
  {
    match sent[i].auth
    case NoAuth => !KeepsCredentials(c.origin, sent[i].url) || (FirstAsk(c, sent, i).None? && c.account.username == "")
    case Basic => KeepsCredentials(c.origin, sent[i].url) && FirstAsk(c, sent, i).None? && c.account.username != ""
    case Digest(challenge, _, _, _) =>
      && KeepsCredentials(c.origin, sent[i].url) && FirstAsk(c, sent, i).Some?
      && Some(challenge) == c.server(FirstAsk(c, sent, i).value).challenge
  }

  /** The first challenge is answered at the same URL with its first Digest, or nothing more is sent. */
  predicate ChallengeAnswered(c: Call, result: Result, sent: seq<Sent>, i: nat, challenge: Challenge)
    requires i < |sent|
  {
    if challenge.usable then
      && i + 1 < |sent| && sent[i + 1].url == sent[i].url
      && sent[i + 1].auth == Digest(challenge, c.m, sent[i].url.pathAndQuery, 1)
    else i + 1 == |sent| && result == Failed
  }

  /** What response `i` leads to. All requests before `i` led to another one, and all but the one that was
      asked for a Digest were redirected. */
  predicate Answered(c: Call, result: Result, sent: seq<Sent>, i: nat)
    requires i < |sent|
  {
    var (r, ask) := (c.server(i), FirstAsk(c, sent, i));
    if r.SendFailed? then i + 1 == |sent| && result == Failed
    else if ask.None? && Asks(c, sent[i], r) then ChallengeAnswered(c, result, sent, i, r.challenge.value)
    else match RedirectTarget(r.status, r.location, sent[i].url, c.m)
      case Invalid => i + 1 == |sent| && result == Failed
      case Stay => i + 1 == |sent| && result == Answer(r)
      case Follow(next) =>
        if i == MAX_REDIRECTS + (if ask.Some? then 1 else 0) then i + 1 == |sent| && result == Failed
        else i + 1 < |sent| && sent[i + 1].url == next
  }

  lemma {:induction false} AskIsLocal(c: Call, sent: seq<Sent>, more: seq<Sent>, i: nat)
    requires i <= |sent|
    ensures FirstAsk(c, sent + more, i) == FirstAsk(c, sent, i)
  {
    if i > 0 {
      AskIsLocal(c, sent, more, i - 1);
      assert (sent + more)[i - 1] == sent[i - 1];
    }
  }

  /** What the loop remembers of the requests before. A challenge that cannot be answered is only held
      where it has to be. */
  predicate Remembers(c: Call, sent: seq<Sent>, l: Loop) {
    var ask := FirstAsk(c, sent, |sent|);
    && l.challenge == (if ask.Some? then c.server(ask.value).challenge else None)
    && l.redirects == |sent| - (if ask.Some? then 1 else 0) <= MAX_REDIRECTS
    && (l.challenge.None? ==> l.nonceCount == 0)
    && (l.challenge.Some? && !l.challenge.value.usable ==> KeepsCredentials(c.origin, l.current))
  }

  /** The next request, unless the challenge cannot be answered. */
  lemma NextRequest(c: Call, l: Loop, n: nat)
    requires l.redirects <= MAX_REDIRECTS
    ensures var ((result, sent), auth) := (Perform(c, l, n), Authorization(c, l));
            if auth.Digest? && !auth.challenge.usable then sent == [] && result == Failed
            else sent != [] && sent[0] == Sent(c.m, l.current, auth, c.hasBody)
  {
  }

  lemma TurnSigns(c: Call, l: Loop, sent: seq<Sent>, more: seq<Sent>)
    requires Remembers(c, sent, l)
    ensures Signed(c, sent + [Sent(c.m, l.current, Authorization(c, l), c.hasBody)] + more, |sent|)
  {
    var request := Sent(c.m, l.current, Authorization(c, l), c.hasBody);
    Assoc(sent, [request], more);
    AskIsLocal(c, sent, [request] + more, |sent|);
  }

  lemma TurnRemembers(c: Call, l: Loop, sent: seq<Sent>)
    requires Remembers(c, sent, l) && TakeTurn(c, l, c.server(|sent|)).Again?
    ensures var t := TakeTurn(c, l, c.server(|sent|));
            t.request == Sent(c.m, l.current, Authorization(c, l), c.hasBody) && Remembers(c, sent + [t.request], t.next)
  {
    AskIsLocal(c, sent, [TakeTurn(c, l, c.server(|sent|)).request], |sent|);
  }

  lemma EndAnswers(c: Call, l: Loop, sent: seq<Sent>)
    requires Remembers(c, sent, l) && TakeTurn(c, l, c.server(|sent|)).End?
    ensures var t := TakeTurn(c, l, c.server(|sent|));
            t.sent == [] || (t.sent == [Sent(c.m, l.current, Authorization(c, l), c.hasBody)] && Answered(c, t.result, sent + t.sent, |sent|))
  {
    AskIsLocal(c, sent, TakeTurn(c, l, c.server(|sent|)).sent, |sent|);
  }

  lemma AgainAnswers(c: Call, l: Loop, sent: seq<Sent>)
    requires Remembers(c, sent, l) && TakeTurn(c, l, c.server(|sent|)).Again?
    ensures var t := TakeTurn(c, l, c.server(|sent|));
            var (result, more) := Perform(c, t.next, |sent| + 1);
            Answered(c, result, sent + [t.request] + more, |sent|)
  {
    var t := TakeTurn(c, l, c.server(|sent|));
    var more := Perform(c, t.next, |sent| + 1).1;
    NextRequest(c, t.next, |sent| + 1);
    Assoc(sent, [t.request], more);
    AskIsLocal(c, sent, [t.request] + more, |sent|);
  }

  ghost predicate DealtWith(c: Call, result: Result, sent: seq<Sent>, from: nat) {
    forall i | from <= i < |sent| :: Signed(c, sent, i) && Answered(c, result, sent, i)
  }

  /** After these requests, the rest of the call deals with everything. */
  ghost predicate DealsWell(c: Call, l: Loop, sent: seq<Sent>)
    requires l.redirects <= MAX_REDIRECTS
  {
    var (result, more) := Perform(c, l, |sent|);
    DealtWith(c, result, sent + more, |sent|)
  }

  lemma OneMore(c: Call, result: Result, sent: seq<Sent>, i: nat)
    requires i < |sent| && Signed(c, sent, i) && Answered(c, result, sent, i) && DealtWith(c, result, sent, i + 1)
    ensures DealtWith(c, result, sent, i)
  {
  }

  lemma EndDeals(c: Call, l: Loop, sent: seq<Sent>)
    requires Remembers(c, sent, l) && TakeTurn(c, l, c.server(|sent|)).End?
    ensures DealsWell(c, l, sent)
  {
    var t := TakeTurn(c, l, c.server(|sent|));
    EndAnswers(c, l, sent);
    TurnSigns(c, l, sent, []);
    WithEmpty(sent + t.sent);
    if t.sent != [] {
      OneMore(c, t.result, sent + t.sent, |sent|);
    }
  }

  lemma AgainDeals(c: Call, l: Loop, sent: seq<Sent>, request: Sent, next: Loop)
    requires Remembers(c, sent, l) && TakeTurn(c, l, c.server(|sent|)) == Again(request, next)
    requires next.redirects <= MAX_REDIRECTS && DealsWell(c, next, sent + [request])
    ensures DealsWell(c, l, sent)
  {
    var (result, more) := Perform(c, next, |sent| + 1);
    TurnRemembers(c, l, sent);
    AgainAnswers(c, l, sent);
    TurnSigns(c, l, sent, more);
    OneMore(c, result, sent + [request] + more, |sent|);
    Assoc(sent, [request], more);
  }

  lemma {:induction false} DealsFrom(c: Call, l: Loop, sent: seq<Sent>)
    requires Remembers(c, sent, l)
    ensures DealsWell(c, l, sent)
    decreases Measure(l)
  {
    match TakeTurn(c, l, c.server(|sent|))
    case End(_, _) => EndDeals(c, l, sent);
    case Again(request, next) =>
      TurnRemembers(c, l, sent);
      DealsFrom(c, next, sent + [request]);
      AgainDeals(c, l, sent, request, next);
  }

  /** For every server and every account: every request carries what is due, every redirect that may be
      followed is, up to four times, the first challenge is answered, and what is answered last is the result. */
  lemma CallDealsWithAll(c: Call)
    ensures var (result, sent) := Perform(c, Start(c), 0); sent != [] && DealtWith(c, result, sent, 0)
  {
    NextRequest(c, Start(c), 0);
    DealsFrom(c, Start(c), []);
    WithEmpty(Perform(c, Start(c), 0).1);
  }

  // ----- where the body goes

  /** The request takes a body to a URL that the origin's credentials may not follow to. */
  predicate BodyLeaves(c: Call, s: Sent) {
    s.hasBody && s.url != c.origin && !KeepsCredentials(c.origin, s.url)
  }

  ghost predicate SomeBodyLeaves(c: Call) {
    exists i :: 0 <= i < |Perform(c, Start(c), 0).1| && BodyLeaves(c, Perform(c, Start(c), 0).1[i])
  }

  /** Some server can draw the body away from the origin if and only if it is the body of a `GET` or
      `HEAD` to a web URL. */
  lemma BodyLeavesIff(account: Account, m: Method, origin: Url, hasBody: bool)
    ensures (exists server: nat -> Response :: SomeBodyLeaves(Call(account, m, origin, hasBody, server)))
       <==> hasBody && ReadOnly(m) && origin.scheme in {"http", "https"}
  {
    if server: nat -> Response :| SomeBodyLeaves(Call(account, m, origin, hasBody, server)) {
      OnlyReadBodiesLeave(Call(account, m, origin, hasBody, server));
    }
    if hasBody && ReadOnly(m) && origin.scheme in {"http", "https"} {
      var away := Url("https", origin.host + "-", None, "/", "", None, None);
      var c := Call(account, m, origin, hasBody, RedirectTo(away));
      RedirectedRead(c, away);
    }
  }

  lemma OnlyReadBodiesLeave(c: Call)
    requires SomeBodyLeaves(c)
    ensures c.hasBody && ReadOnly(c.m) && c.origin.scheme in {"http", "https"}
  {
    var i :| 0 <= i < |Perform(c, Start(c), 0).1| && BodyLeaves(c, Perform(c, Start(c), 0).1[i]);
    SendsProper(c, Start(c), 0, i);
  }

  function RedirectTo(away: Url): nat -> Response {
    n => if n == 0 then Response(302, Some(Resolved(away)), None) else Response(200, None, None)
  }

  lemma RedirectedRead(c: Call, away: Url)
    requires c.hasBody && ReadOnly(c.m) && c.origin.scheme in {"http", "https"} && c.server == RedirectTo(away)
    requires away.scheme == "https" && away.host != c.origin.host
    requires away.username == "" && away.password.None? && away.fragment.None?
    ensures SomeBodyLeaves(c)
  {
    var l := Loop(away, 1, None, 0);
    assert Perform(c, l, 1).1 == [Sent(c.m, away, NoAuth, true)];
    assert RedirectTarget(302, Some(Resolved(away)), c.origin, c.m) == Follow(away);
    var sent := Perform(c, Start(c), 0).1;
    assert |sent| == 2 && sent[1] == Sent(c.m, away, NoAuth, true);
    assert BodyLeaves(c, sent[1]);
  }
}
