/**
 * MyDNSReader: the session with the MyDNS web site. Every request goes out
 * through Send, which appends it to the log; what the site answers is a
 * fixed function of the conversation so far, and None stands for a request
 * that was rejected (a network error or an error status).
 */
module Reader {
  import opened Wrappers
  import opened Strings
  import opened Forms
  import opened DomainPage
  import opened DomainForm
  import opened Retry

  /** A GET with its MENU query parameter, or a urlencoded POST. */
  datatype Request = Get(menu: string) | Post(form: Form)

  const MenuLogin: nat := 100
  const MenuDirectIp: nat := 400
  const ChildMenu := "200"
  const DomainMenu := "300"

  /** The link that only a logged-in page shows. */
  const SessionMarker := "./?MENU=090"
  /** The hidden input of a confirmation page that offers to commit. */
  const ChangeMarker := "<INPUT type=\"hidden\" name=\"JOB\" value=\"CHANGE\">"
  const DomainAccepted := "We accepted your Domain"
  const IpAccepted := "We accepted your IP address registration"
  const Ipv4Key := "IPINFO[ipv4addr]"

  /** The login POST: MENU=100 with the master id and password. */
  function LoginForm(id: string, pass: string): Form
  {
    map["MENU" := Num(MenuLogin), "masterid" := Str(id), "masterpwd" := Str(pass)]
  }

  /** The second phase: only MENU and JOB, no record data. */
  function ChangeForm(menu: nat): Form
  {
    map["MENU" := Num(menu), "JOB" := Str("CHANGE")]
  }

  /** The CHECK form of setDirectIp: only the IPv4 address varies. */
  function DirectIpForm(ip: string): Form
  {
    map["MENU" := Num(MenuDirectIp), "JOB" := Str("CHECK"), Ipv4Key := Str(ip),
        "IPINFO[ipv4mode]" := Num(1), "IPINFO[ipv6addr]" := Str("0:0:0:0:0:0:0:0"),
        "IPINFO[ipv6mode]" := Num(0)]
  }

  /** The same request n times over. */
  function Repeat(req: Request, n: nat): (rs: seq<Request>)
    ensures |rs| == n && forall j :: 0 <= j < n ==> rs[j] == req
  {
    seq(n, _ => req)
  }

  /** `value && value.indexOf(marker) >= 0`: a non-empty body holding marker. */
  predicate Carries(reply: Option<string>, marker: string)
  {
    reply.Some? && reply.value != "" && Contains(reply.value, marker)
  }

  /**
   * For a non-empty marker the truthiness test is implied by the search: the
   * reply carries the marker exactly when it is a body in which the marker occurs.
   */
  lemma CarriesIff(reply: Option<string>, marker: string)
    requires marker != ""
    ensures Carries(reply, marker) <==> reply.Some? && exists i: nat :: OccursAt(reply.value, marker, i)
  {
    if reply.Some? {
      ContainsIff(reply.value, marker);
      ContainsNonEmpty(reply.value, marker);
    }
  }

  /** Two direct-IP CHECK forms have the same keys and differ at most in the IPv4 address. */
  lemma DirectIpFormFixed(a: string, b: string)
    ensures DirectIpForm(a).Keys == DirectIpForm(b).Keys
    ensures forall k :: k in DirectIpForm(a) && k != Ipv4Key ==> DirectIpForm(a)[k] == DirectIpForm(b)[k]
    ensures DirectIpForm(a)[Ipv4Key] == Str(a)
    ensures DirectIpForm(a) == DirectIpForm(b) <==> a == b
  {
    if DirectIpForm(a) == DirectIpForm(b) {
      assert DirectIpForm(a)[Ipv4Key] == DirectIpForm(b)[Ipv4Key];
    }
  }

  /** The outcome of getChildInfo: a record, null (nothing fetched) or a thrown error (a broken row). */
  datatype ChildOutcome = ChildFetched(info: ChildInfo) | ChildUnavailable | ChildThrew

  /** MyDNSInfo. */
  datatype Info = Info(childInfo: ChildInfo, domainInfo: DomainInfo)

  /** getInfo's combination: a record only when both halves produced one. */
  function CombineInfo(child: ChildOutcome, domain: Option<DomainInfo>): (r: Option<Info>)
    ensures r.Some? <==> child.ChildFetched? && domain.Some?
    ensures r.Some? ==> r.value.childInfo == child.info && r.value.domainInfo == domain.value
  {
    if child.ChildFetched? && domain.Some? then Some(Info(child.info, domain.value)) else None
  }

  class MyDnsReader {
    /** The site's reply to the last request of a conversation. */
    const server: seq<Request> -> Option<string>
    /** The HTML parser: the elements the document built from a body shows. */
    const parse: string -> Page
    /** Every request sent so far, in order. */
    var log: seq<Request>

    constructor(server: seq<Request> -> Option<string>, parse: string -> Page)
      ensures this.server == server && this.parse == parse && log == []
    {
      this.server := server;
      this.parse := parse;
      log := [];
    }

    /** What the attempts of a retry loop started after history h would each yield. */
    function Attempts(h: seq<Request>, req: Request): (w: seq<Option<string>>)
      ensures |w| == MaxAttempts
      ensures forall j :: 0 <= j < MaxAttempts ==> w[j] == server(h + Repeat(req, j + 1))
    {
      seq(MaxAttempts, j requires 0 <= j => server(h + Repeat(req, j + 1)))
    }

    /** The log after a retry loop for req started after history h. */
    function Sent(h: seq<Request>, req: Request): seq<Request>
    {
      h + Repeat(req, AttemptCount(Attempts(h, req)))
    }

    /** The body a retry loop for req started after history h ends with. */
    function Fetched(h: seq<Request>, req: Request): Option<string>
    {
      FetchResult(Attempts(h, req))
    }

    /** What getChildInfo makes of the fetched body. */
    ghost function ChildFrom(body: Option<string>): ChildOutcome
    {
      if body.None? then ChildUnavailable
      else
        var c := ChildSpec(parse(body.value).fields);
        if c.Some? then ChildFetched(c.value) else ChildThrew
    }

    /** What getDomainInfo makes of the fetched body. */
    ghost function DomainFrom(body: Option<string>): Option<DomainInfo>
    {
      if body.None? then None else DomainSpec(parse(body.value))
    }

    /**
     * The two-phase commit after history h: the CHECK form goes out; the
     * CHANGE form follows only when the CHECK reply offers it; the result is
     * true only when the CHANGE reply carries the acceptance text.
     */
    ghost predicate TwoPhase(h: seq<Request>, check: Form, menu: nat, accepted: string, after: seq<Request>, ok: bool)
    {
      var checked := h + [Post(check)];
      if Carries(server(checked), ChangeMarker)
      then after == checked + [Post(ChangeForm(menu))] && ok == Carries(server(after), accepted)
      else after == checked && !ok
    }

    method Send(req: Request) returns (reply: Option<string>)
      modifies this
      ensures log == old(log) + [req]
      ensures reply == server(log)
    {
      log := log + [req];
      reply := server(log);
    }

    /** The retry loop: up to five sends of req, stopping at the first body. */
    method Fetch(req: Request) returns (value: Option<string>)
      modifies this
      ensures log == Sent(old(log), req)
      ensures value == Fetched(old(log), req)
    {
      ghost var w := Attempts(log, req);
      ghost var h := log;
      value := None;
      var i := 0;
      while i < MaxAttempts && value.None?
        invariant 0 <= i <= MaxAttempts
        invariant w == Attempts(h, req)
        invariant log == h + Repeat(req, i)
        invariant value.None? ==> forall j :: 0 <= j < i ==> w[j].None?
        invariant value.Some? ==> 1 <= i && value == w[i - 1] && forall j :: 0 <= j < i - 1 ==> w[j].None?
        decreases MaxAttempts - i
      {
        value := Send(req);
        assert Repeat(req, i) + [req] == Repeat(req, i + 1);
        i := i + 1;
      }
      if value.Some? {
        StopsAtFirstBody(w, i - 1);
      } else {
        AllFailuresExhaust(w);
      }
    }

    /** getSession: one login POST; logged in iff the reply shows the logged-in link. */
    method GetSession(id: string, pass: string) returns (ok: bool)
      modifies this
      ensures log == old(log) + [Post(LoginForm(id, pass))]
      ensures ok == Carries(server(log), SessionMarker)
    {
      var reply := Send(Post(LoginForm(id, pass)));
      ok := Carries(reply, SessionMarker);
    }

    method GetChildInfo() returns (r: ChildOutcome)
      modifies this
      ensures log == Sent(old(log), Get(ChildMenu))
      ensures r == ChildFrom(Fetched(old(log), Get(ChildMenu)))
    {
      var body := Fetch(Get(ChildMenu));
      if body.None? {
        return ChildUnavailable;
      }
      var c := ParseChildInfo(parse(body.value).fields);
      r := if c.Some? then ChildFetched(c.value) else ChildThrew;
    }

    method GetDomainInfo() returns (r: Option<DomainInfo>)
      modifies this
      ensures log == Sent(old(log), Get(DomainMenu))
      ensures r == DomainFrom(Fetched(old(log), Get(DomainMenu)))
    {
      var body := Fetch(Get(DomainMenu));
      if body.None? {
        return None;
      }
      r := GetParams(parse(body.value));
    }

    /** getInfo: both pages are fetched, the child page first; null unless both yield a record. */
    method GetInfo() returns (r: Option<Info>)
      modifies this
      ensures var h := Sent(old(log), Get(ChildMenu));
        && log == Sent(h, Get(DomainMenu))
        && r == CombineInfo(ChildFrom(Fetched(old(log), Get(ChildMenu))), DomainFrom(Fetched(h, Get(DomainMenu))))
    {
      var child := GetChildInfo();
      var domain := GetDomainInfo();
      r := CombineInfo(child, domain);
    }

    method Commit(check: Form, menu: nat, accepted: string) returns (ok: bool)
      modifies this
      ensures TwoPhase(old(log), check, menu, accepted, log, ok)
    {
      var first := Send(Post(check));
      ok := false;
      if Carries(first, ChangeMarker) {
        var second := Send(Post(ChangeForm(menu)));
        ok := Carries(second, accepted);
      }
    }

    /** setSetting: the CHECK form built from the record, then MENU=300 CHANGE. */
    method SetSetting(info: DomainInfo) returns (ok: bool)
      modifies this
      ensures TwoPhase(old(log), CheckForm(info), MenuDomain, DomainAccepted, log, ok)
    {
      var form := BuildCheckForm(info);
      ok := Commit(form, MenuDomain, DomainAccepted);
    }

    /** setDirectIp: the fixed MENU=400 CHECK form with the given IPv4 address, then CHANGE. */
    method SetDirectIp(ip: string) returns (ok: bool)
      modifies this
      ensures TwoPhase(old(log), DirectIpForm(ip), MenuDirectIp, IpAccepted, log, ok)
    {
      ok := Commit(DirectIpForm(ip), MenuDirectIp, IpAccepted);
    }

    /**
     * What a two-phase commit can send: one or two requests, the second being
     * the bare CHANGE form, and true only after an offer and an acceptance.
     */
    lemma TwoPhaseShape(h: seq<Request>, check: Form, menu: nat, accepted: string, after: seq<Request>, ok: bool)
      requires TwoPhase(h, check, menu, accepted, after, ok)
      ensures |after| == |h| + 1 || |after| == |h| + 2
      ensures after[..|h| + 1] == h + [Post(check)]
      ensures |after| == |h| + 2 <==> Carries(server(h + [Post(check)]), ChangeMarker)
      ensures |after| == |h| + 2 ==> after[|h| + 1] == Post(ChangeForm(menu))
      ensures ok ==> Carries(server(h + [Post(check)]), ChangeMarker) && Carries(server(after), accepted)
      ensures server(h + [Post(check)]).None? ==> !ok && after == h + [Post(check)]
      ensures |after| == |h| + 2 && server(after).None? ==> !ok
    {
    }
  }
}
