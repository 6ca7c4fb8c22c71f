/** Following redirects by hand: which requests a download makes and what each carries. */
module Fetching {
  import opened Basics
  import opened Pins
  import Netrc

  datatype Url = Url(scheme: string, host: Option<string>, username: string, password: Option<string>, rest: string)

  datatype Provider = Provider(
    credentialFor: string -> Result<Option<Credential>, Error>,
    identityFor: string -> Option<string>)

  /** One request on the wire. */
  datatype Request = Request(url: Url, host: string, credential: Option<Credential>, credentialHost: string)

  datatype Reply =
    | Lost
    | Reply(status: nat, location: Option<string>, etag: Option<string>, delivered: bool)

  /** The world outside: URL parsing and joining, the credential provider if there is one, and
      what is answered to the last request of a history. */
  datatype Net = Net(
    parse: string -> Option<Url>,
    join: (Url, string) -> Option<Url>,
    provider: Option<Provider>,
    reply: seq<Request> -> Reply)

  datatype Download = Download(etag: Option<string>, identity: Option<string>)

  const MAX_HOPS: nat := 10

  predicate Acceptable(u: Url) {
    u.username == "" && u.password == None && (u.scheme == "http" || u.scheme == "https")
  }

  function ParseSource(net: Net, raw: string): Result<Url, Error> {
    var u := net.parse(raw);
    if u == None || !Acceptable(u.value) then Err(ConfigError) else Ok(u.value)
  }

  /** Where a redirect leads must be acceptable itself, and https must stay https. */
  function ValidateHop(from: Url, to: Url): Result<Url, Error> {
    if !Acceptable(to) then Err(ConfigError)
    else if from.scheme == "https" && to.scheme != "https" then Err(MirrorError)
    else Ok(to)
  }

  function HostOf(u: Url): Result<string, Error> {
    if u.host == None then Err(ConfigError) else Ok(u.host.value)
  }

  function Consult(p: Option<Provider>, host: string): Result<Option<Credential>, Error> {
    if p == None then Ok(None) else p.value.credentialFor(host)
  }

  // ----- a run, request by request -----

  datatype Next = Go(request: Request) | Stop(result: Result<Option<Download>, Error>)

  /** The request of a hop, or why it cannot be made. */
  function Hop(net: Net, source: Source, originHost: string, hop: nat, url: Url): Next {
    var host := HostOf(url);
    if host.Err? then Stop(Err(host.error))
    else
      var own := Consult(net.provider, host.value);
      var origin := Consult(net.provider, originHost);
      if own.Err? then Stop(Err(own.error))
      else if own.value.Some? then Go(Request(url, host.value, own.value, host.value))
      else if hop > 0 && source.trustRedirects && origin.Ok? then
        Go(Request(url, host.value, origin.value, originHost))
      else Go(Request(url, host.value, None, host.value))
  }

  /** The identity of the last credential a run sent. */
  function IdentityOf(net: Net, log: seq<Request>): Option<string> {
    if log == [] then None
    else
      var last := log[|log| - 1];
      if last.credential.Some? && net.provider.Some? then net.provider.value.identityFor(last.credentialHost)
      else IdentityOf(net, log[..|log| - 1])
  }

  function First(net: Net, source: Source): Next {
    var url := ParseSource(net, source.url);
    if url.Err? then Stop(Err(url.error))
    else
      var host := HostOf(url.value);
      if host.Err? then Stop(Err(host.error))
      else
        var origin := Consult(net.provider, host.value);
        if origin.Err? then Stop(Err(origin.error)) else Hop(net, source, host.value, 0, url.value)
  }

  function Follow(net: Net, source: Source, log: seq<Request>, location: Option<string>): Next
    requires log != []
  {
    var last := log[|log| - 1];
    var target := if location == None then None else net.join(last.url, location.value);
    if target == None then Stop(Err(MirrorError))
    else
      var url := ValidateHop(last.url, target.value);
      if url.Err? then Stop(Err(url.error))
      else if |log| >= MAX_HOPS then Stop(Err(MirrorError))
      else Hop(net, source, log[0].host, |log|, url.value)
  }

  /** What happens after a history of requests. */
  function After(net: Net, source: Source, log: seq<Request>): Next {
    if log == [] then First(net, source)
    else
      var last := log[|log| - 1];
      match net.reply(log)
      case Lost => Stop(Err(HttpError))
      case Reply(status, location, etag, delivered) =>
        if 300 <= status < 400 then Follow(net, source, log, location)
        else if status == 401 || status == 403 then
          Stop(Err(if last.credential.Some? then CredentialRejected else NoCredential))
        else if status == 404 then Stop(Ok(None))
        else if 400 <= status < 600 then Stop(Err(HttpError))
        else if !delivered then Stop(Err(IoError))
        else Stop(Ok(Some(Download(etag, IdentityOf(net, log)))))
  }

  /** Every request was the one the requests before it called for. */
  ghost predicate Sent(net: Net, source: Source, log: seq<Request>) {
    forall i | 0 <= i < |log| :: After(net, source, log[..i]) == Go(log[i])
  }

  /** `log` is everything sent, in order, and `r` what the caller was told. */
  ghost predicate IsRun(net: Net, source: Source, log: seq<Request>, r: Result<Option<Download>, Error>) {
    Sent(net, source, log) && After(net, source, log) == Stop(r)
  }

  lemma SentOneMore(net: Net, source: Source, log: seq<Request>, request: Request)
    requires Sent(net, source, log) && After(net, source, log) == Go(request)
    ensures Sent(net, source, log + [request])
  {
    var longer := log + [request];
    forall i | 0 <= i < |longer| ensures After(net, source, longer[..i]) == Go(longer[i]) {
      assert longer[..i] == if i < |log| then log[..i] else log;
    }
  }

  method Perform(net: Net, source: Source) returns (r: Result<Option<Download>, Error>, log: seq<Request>)
    ensures IsRun(net, source, log, r)
  {
    log := [];
    var parsed := ParseSource(net, source.url);
    if parsed.Err? { return Err(parsed.error), log; }
    var url := parsed.value;
    if HostOf(url).Err? { return Err(HostOf(url).error), log; }
    var originHost := HostOf(url).value;
    var origin := Consult(net.provider, originHost);
    if origin.Err? { return Err(origin.error), log; }
    var identity: Option<string> := None;
    for hop := 0 to MAX_HOPS
      invariant |log| == hop && (hop > 0 ==> log[0].host == originHost)
      invariant Sent(net, source, log)
      invariant After(net, source, log) ==
                if hop < MAX_HOPS then Hop(net, source, originHost, hop, url) else Stop(Err(MirrorError))
      invariant hop == 0 ==> HostOf(url) == Ok(originHost)
      invariant identity == IdentityOf(net, log)
    {
      var made := NextRequest(net, source, originHost, origin.value, hop, url);
      if made.Err? { return Err(made.error), log; }
      var request := made.value;
      if request.credential.Some? && net.provider.Some? {
        identity := net.provider.value.identityFor(request.credentialHost);
      }
      SentOneMore(net, source, log, request);
      IdentityOfMore(net, log, request);
      assert (log + [request])[0] == if hop > 0 then log[0] else request;
      log := log + [request];
      var next;
      next, r := TakeReply(net, source, log, identity);
      if next == None { return r, log; }
      url := next.value;
    }
    r := Err(MirrorError);
  }

  /** Choose what a hop sends, or why it cannot be made. */
  method NextRequest(net: Net, source: Source, originHost: string, origin: Option<Credential>, hop: nat, url: Url)
    returns (r: Result<Request, Error>)
    requires Consult(net.provider, originHost) == Ok(origin)
    ensures Hop(net, source, originHost, hop, url) == if r.Ok? then Go(r.value) else Stop(Err(r.error))
    ensures r.Ok? ==> HostOf(url) == Ok(r.value.host)
  {
    if HostOf(url).Err? { return Err(HostOf(url).error); }
    var host := HostOf(url).value;
    var own := Consult(net.provider, host);
    if own.Err? { return Err(own.error); }
    var credential, credentialHost := own.value, host;
    if own.value == None && hop > 0 && source.trustRedirects {
      credential, credentialHost := origin, originHost;
    }
    r := Ok(Request(url, host, credential, credentialHost));
  }

  lemma IdentityOfMore(net: Net, log: seq<Request>, request: Request)
    ensures IdentityOf(net, log + [request]) ==
            if request.credential.Some? && net.provider.Some?
            then net.provider.value.identityFor(request.credentialHost)
            else IdentityOf(net, log)
  {
    assert (log + [request])[..|log|] == log;
  }

  /** Judge the reply to the last request: `None` is the end, otherwise where to go next. */
  method TakeReply(net: Net, source: Source, log: seq<Request>, identity: Option<string>)
    returns (next: Option<Url>, r: Result<Option<Download>, Error>)
    requires log != [] && identity == IdentityOf(net, log)
    ensures next == None ==> After(net, source, log) == Stop(r)
    ensures next.Some? && |log| < MAX_HOPS ==>
              After(net, source, log) == Hop(net, source, log[0].host, |log|, next.value)
    ensures next.Some? && |log| >= MAX_HOPS ==> After(net, source, log) == Stop(Err(MirrorError))
  {
    var last := log[|log| - 1];
    match net.reply(log) {
      case Lost => return None, Err(HttpError);
      case Reply(status, location, etag, delivered) =>
        if 300 <= status < 400 {
          if location == None { return None, Err(MirrorError); }
          var target := net.join(last.url, location.value);
          if target == None { return None, Err(MirrorError); }
          var checked := ValidateHop(last.url, target.value);
          if checked.Err? { return None, Err(checked.error); }
          return Some(checked.value), Err(MirrorError);
        }
        if status == 401 || status == 403 {
          return None, Err(if last.credential.Some? then CredentialRejected else NoCredential);
        }
        if status == 404 { return None, Ok(None); }
        if 400 <= status < 600 { return None, Err(HttpError); }
        if !delivered { return None, Err(IoError); }
        return None, Ok(Some(Download(etag, identity)));
    }
  }

  // ----- how a run goes on, and how it ends -----

  predicate Redirects(reply: Reply) { reply.Reply? && 300 <= reply.status < 400 }

  predicate Delivered(reply: Reply) { reply.Reply? && !(300 <= reply.status < 600) && reply.delivered }

  /** Where a redirect leads, if it leads anywhere. */
  function Target(net: Net, last: Request, reply: Reply): Option<Url> {
    if Redirects(reply) && reply.location.Some? then net.join(last.url, reply.location.value) else None
  }

  /** A URL that may be asked on the way from `from`: acceptable, no downgrade, and a host about
      which the provider can be consulted. */
  predicate Askable(net: Net, from: Url, to: Url) {
    && Acceptable(to) && (from.scheme == "https" ==> to.scheme == "https")
    && to.host.Some? && Consult(net.provider, to.host.value).Ok?
  }

  /** Every request but the first asks for what the reply before it named. */
  lemma RedirectsAreFollowed(net: Net, source: Source, log: seq<Request>, r: Result<Option<Download>, Error>)
    requires IsRun(net, source, log, r)
    ensures forall i | 0 < i < |log| :: Target(net, log[i - 1], net.reply(log[..i])) == Some(log[i].url)
  {
    forall i | 0 < i < |log| ensures Target(net, log[i - 1], net.reply(log[..i])) == Some(log[i].url) {
      assert After(net, source, log[..i]) == Go(log[i]);
      assert log[..i][i - 1] == log[i - 1];
    }
  }

  lemma FirstCredentialIsKnown(net: Net, source: Source, log: seq<Request>)
    requires log != [] && After(net, source, log[..0]) == Go(log[0])
    ensures Consult(net.provider, log[0].host).Ok?
  {
    assert log[..0] == [];
  }

  /** A run stops at a redirect exactly when it leads nowhere that may be asked, or ten requests
      were made; it stops before the first request exactly when the source may not be asked. */
  lemma RunsStopForAReason(net: Net, source: Source, log: seq<Request>, r: Result<Option<Download>, Error>)
    requires IsRun(net, source, log, r)
    ensures if log == []
            then r.Err? && (net.parse(source.url) == None
                            || !Askable(net, net.parse(source.url).value, net.parse(source.url).value))
            else var last, reply := log[|log| - 1], net.reply(log);
                 Redirects(reply) ==>
                   && r.Err?
                   && (|log| >= MAX_HOPS || Target(net, last, reply) == None
                       || !Askable(net, last.url, Target(net, last, reply).value))
  {
    if log != [] { FirstCredentialIsKnown(net, source, log); }
  }

  /** How a run that asked anybody ends: by the last reply alone. A body is returned exactly when
      it was delivered in full under a status that is no redirect and no error, nothing exactly
      for 404; 401 and 403 tell whether a credential had been sent. */
  lemma RunsEndAsAnswered(net: Net, source: Source, log: seq<Request>, r: Result<Option<Download>, Error>)
    requires IsRun(net, source, log, r) && log != []
    ensures var last, reply := log[|log| - 1], net.reply(log);
            && (r.Ok? && r.value.Some? <==> Delivered(reply))
            && (r == Ok(None) <==> reply.Reply? && reply.status == 404)
            && (reply.Reply? && reply.status in {401, 403} ==>
                  r == Err(if last.credential.Some? then CredentialRejected else NoCredential))
            && (reply == Lost || (400 <= reply.status < 600 && reply.status !in {401, 403, 404}) ==>
                  r == Err(HttpError))
            && (reply.Reply? && !(300 <= reply.status < 600) && !reply.delivered ==> r == Err(IoError))
            && (Delivered(reply) ==> r.value.value.etag == reply.etag)
  {
  }

  lemma DownloadCarriesIdentity(net: Net, source: Source, log: seq<Request>, r: Result<Option<Download>, Error>)
    requires IsRun(net, source, log, r) && r.Ok? && r.value.Some?
    ensures r.value.value.identity == IdentityOf(net, log)
  {
  }

  /** A download is recorded under the identity of the last credential that was sent for it,
      wherever the redirects went after that; under none if none was sent. */
  lemma IdentityIsOfTheLastCredential(net: Net, source: Source, log: seq<Request>,
                                      r: Result<Option<Download>, Error>, i: nat)
    requires IsRun(net, source, log, r) && r.Ok? && r.value.Some? && i <= |log|
    requires forall j | i <= j < |log| :: log[j].credential == None
    ensures i == 0 ==> r.value.value.identity == None
    ensures i > 0 && log[i - 1].credential.Some? && net.provider.Some? ==>
              r.value.value.identity == net.provider.value.identityFor(log[i - 1].credentialHost)
  {
    DownloadCarriesIdentity(net, source, log, r);
    IdentityOfQuietTail(net, log, i);
    if i > 0 {
      IdentityOfMore(net, log[..i - 1], log[i - 1]);
      assert log[..i - 1] + [log[i - 1]] == log[..i];
    } else {
      assert log[..0] == [];
    }
  }

  lemma {:induction false} IdentityOfQuietTail(net: Net, log: seq<Request>, i: nat)
    requires i <= |log| && forall j | i <= j < |log| :: log[j].credential == None
    ensures IdentityOf(net, log) == IdentityOf(net, log[..i])
  {
    if i == |log| {
      assert log[..i] == log;
    } else {
      IdentityOfQuietTail(net, log[..|log| - 1], i);
      assert log[..|log| - 1][..i] == log[..i];
    }
  }

  // ----- what holds of every run -----

  lemma HopIsFollowed(net: Net, source: Source, log: seq<Request>, i: nat)
    requires 0 < i < |log| && After(net, source, log[..i]) == Go(log[i])
    ensures i < MAX_HOPS && Acceptable(log[i].url)
    ensures log[i - 1].url.scheme == "https" ==> log[i].url.scheme == "https"
    ensures Hop(net, source, log[0].host, i, log[i].url) == Go(log[i])
  {
    assert log[..i][i - 1] == log[i - 1] && log[..i][0] == log[0];
  }

  lemma FirstIsTheSource(net: Net, source: Source, log: seq<Request>)
    requires log != [] && After(net, source, log[..0]) == Go(log[0])
    ensures net.parse(source.url) == Some(log[0].url) && Acceptable(log[0].url)
    ensures Hop(net, source, log[0].host, 0, log[0].url) == Go(log[0])
    ensures Consult(net.provider, log[0].host).Ok?
  {
    assert log[..0] == [];
  }

  /** At most ten requests are made, each to an http(s) URL without userinfo. */
  lemma RequestsAreBounded(net: Net, source: Source, log: seq<Request>, r: Result<Option<Download>, Error>)
    requires IsRun(net, source, log, r)
    ensures |log| <= MAX_HOPS
    ensures forall i | 0 <= i < |log| :: Acceptable(log[i].url) && log[i].url.host == Some(log[i].host)
  {
    if log != [] { FirstIsTheSource(net, source, log); }
    forall i | 0 < i < |log| ensures i < MAX_HOPS && Acceptable(log[i].url) && log[i].url.host == Some(log[i].host) {
      HopIsFollowed(net, source, log, i);
    }
    if |log| > 1 { HopIsFollowed(net, source, log, |log| - 1); }
  }

  /** No request goes from https to plaintext. */
  predicate KeepsHttps(log: seq<Request>) {
    forall i | 0 < i < |log| :: log[i - 1].url.scheme == "https" ==> log[i].url.scheme == "https"
  }

  lemma EveryHopKeepsHttps(net: Net, source: Source, log: seq<Request>)
    requires Sent(net, source, log)
    ensures KeepsHttps(log)
  {
    forall i | 0 < i < |log| ensures log[i - 1].url.scheme == "https" ==> log[i].url.scheme == "https" {
      HopIsFollowed(net, source, log, i);
    }
  }

  lemma {:induction false} HttpsLasts(log: seq<Request>, i: nat, j: nat)
    requires KeepsHttps(log) && i <= j < |log| && log[i].url.scheme == "https"
    ensures log[j].url.scheme == "https"
    decreases j
  {
    if i < j { HttpsLasts(log, i, j - 1); }
  }

  /** Once a run is on https it never returns to plaintext. */
  lemma NeverBackToPlaintext(net: Net, source: Source, log: seq<Request>,
                             r: Result<Option<Download>, Error>, i: nat, j: nat)
    requires IsRun(net, source, log, r) && i <= j < |log| && log[i].url.scheme == "https"
    ensures log[j].url.scheme == "https"
  {
    EveryHopKeepsHttps(net, source, log);
    HttpsLasts(log, i, j);
  }

  /** What the hop to a host may carry: the credential held for that very host; only when the
      host has none, on a redirect the source trusts, the origin's; otherwise nothing. */
  ghost predicate CarriesItsOwn(net: Net, source: Source, log: seq<Request>, i: nat)
    requires i < |log|
  {
    var own := Consult(net.provider, log[i].host);
    && own.Ok?
    && (own.value.Some? ==> log[i].credential == own.value && log[i].credentialHost == log[i].host)
    && (own.value == None && (i == 0 || !source.trustRedirects) ==> log[i].credential == None)
    && (own.value == None && i > 0 && source.trustRedirects ==>
          log[i].credentialHost == log[0].host && Consult(net.provider, log[0].host) == Ok(log[i].credential))
  }

  lemma CredentialsFollowTheirHosts(net: Net, source: Source, log: seq<Request>, r: Result<Option<Download>, Error>)
    requires IsRun(net, source, log, r)
    ensures forall i | 0 <= i < |log| :: CarriesItsOwn(net, source, log, i)
  {
    forall i | 0 <= i < |log| ensures CarriesItsOwn(net, source, log, i) {
      assert After(net, source, log[..0]) == Go(log[0]);
      FirstIsTheSource(net, source, log);
      if i > 0 { HopIsFollowed(net, source, log, i); }
    }
  }

  /** An https source never has any credential sent over plaintext, trusted or not. */
  lemma NoCredentialInPlaintext(net: Net, source: Source, log: seq<Request>, r: Result<Option<Download>, Error>)
    requires IsRun(net, source, log, r)
    requires net.parse(source.url).Some? && net.parse(source.url).value.scheme == "https"
    ensures forall i | 0 <= i < |log| :: log[i].url.scheme == "https"
  {
    forall i | 0 <= i < |log| ensures log[i].url.scheme == "https" {
      assert After(net, source, log[..0]) == Go(log[0]);
      FirstIsTheSource(net, source, log);
      NeverBackToPlaintext(net, source, log, r, 0, i);
    }
  }

  /** The mirror client has no provider: it sends and records nothing, redirects included. */
  lemma {:induction false} WithoutProviderNothingIsSent(net: Net, source: Source, log: seq<Request>,
                                                       r: Result<Option<Download>, Error>)
    requires IsRun(net, source, log, r) && net.provider == None
    ensures forall i | 0 <= i < |log| :: log[i].credential == None
    ensures r.Ok? && r.value.Some? ==> r.value.value.identity == None
  {
    CredentialsFollowTheirHosts(net, source, log, r);
    forall i | 0 <= i < |log| ensures log[i].credential == None { assert CarriesItsOwn(net, source, log, i); }
    NoIdentity(net, log);
  }

  lemma {:induction false} NoIdentity(net: Net, log: seq<Request>)
    requires net.provider == None
    ensures IdentityOf(net, log) == None
  {
    if log != [] { NoIdentity(net, log[..|log| - 1]); }
  }

  /** Where two logs agree so far, they agree on the next request. */
  ghost predicate Agree(log: seq<Request>, log': seq<Request>) {
    forall n | 0 <= n < |log| && n < |log'| && log[..n] == log'[..n] :: log[n] == log'[n]
  }

  lemma SentLogsAgree(net: Net, source: Source, log: seq<Request>, log': seq<Request>)
    requires Sent(net, source, log) && Sent(net, source, log')
    ensures Agree(log, log')
  {
    forall n | 0 <= n < |log| && n < |log'| && log[..n] == log'[..n] ensures log[n] == log'[n] {
      assert After(net, source, log[..n]) == Go(log[n]) && After(net, source, log'[..n]) == Go(log'[n]);
    }
  }

  lemma {:induction false} SamePrefix(log: seq<Request>, log': seq<Request>, n: nat)
    requires Agree(log, log') && n <= |log| && n <= |log'|
    ensures log[..n] == log'[..n]
    decreases n
  {
    if n > 0 {
      SamePrefix(log, log', n - 1);
      assert log[..n] == log[..n - 1] + [log[n - 1]] && log'[..n] == log'[..n - 1] + [log'[n - 1]];
    }
  }

  /** The rules leave no freedom: one world and one source have one run. */
  lemma RunsAreDetermined(net: Net, source: Source,
                          log: seq<Request>, r: Result<Option<Download>, Error>,
                          log': seq<Request>, r': Result<Option<Download>, Error>)
    requires IsRun(net, source, log, r) && IsRun(net, source, log', r')
    ensures log == log' && r == r'
  {
    SentLogsAgree(net, source, log, log');
    SamePrefix(log, log', Min(|log|, |log'|));
    assert log[..|log|] == log && log'[..|log'|] == log';
  }

  /** With credentials from a netrc file and redirects not trusted, every hop carries exactly
      what the first section of its own host says. */
  lemma NetrcHopsCarryTheirOwnSection(net: Net, source: Source, log: seq<Request>,
                                      r: Result<Option<Download>, Error>, file: Netrc.File, i: nat)
    requires IsRun(net, source, log, r) && i < |log| && !source.trustRedirects
    requires net.provider.Some? && [] !in Netrc.FileTokens(file)
    requires forall h :: net.provider.value.credentialFor(h) == Netrc.Lookup(Netrc.Print(Netrc.FileTokens(file)), h)
    ensures Netrc.Answer(file.sections, log[i].host) == Ok(log[i].credential)
  {
    CredentialsFollowTheirHosts(net, source, log, r);
    assert CarriesItsOwn(net, source, log, i);
    Netrc.PrintedFileAnswers(file, log[i].host);
  }
}
