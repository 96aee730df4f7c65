/**
 * `authenticate` in aws_saml_login/saml.py: one HTTP session that reaches
 * the IdP, logs in through OpenAM or Shibboleth, reads the SAML assertion,
 * posts it to AWS and returns the assertion with its roles, each role
 * carrying the account name shown on AWS's role-selection page.
 *
 * The network is replaced by a script: the session hands out the given
 * replies one per request, in order, and records every request it is asked
 * to make. Pages and JSON documents arrive already parsed.
 */
module Login {
  import opened Outcomes
  import opened Text
  import Base64
  import Mfa
  import SamlPage
  import SamlRoles
  import OpenAm
  import Shibboleth

  /** The keys of an OpenAM JSON reply that the login reads; `stage` only by its presence. */
  datatype AmJson = AmJson(
    cookieName: Option<string>,
    callbacks: Option<seq<OpenAm.Callback>>,
    stage: bool,
    tokenId: Option<string>,
    successUrl: Option<string>)

  /** What the login reads from an HTML page once it is parsed. */
  datatype Page = Page(
    inputs: seq<SamlPage.Input>,
    forms: seq<SamlPage.Form>,
    buttons: seq<Shibboleth.Button>,
    accountTexts: seq<string>)

  /** A reply: the URL finally reached, the status code, the page and the JSON document. */
  datatype Response = Response(url: string, status: int, page: Page, json: AmJson)

  datatype Body = NoBody | JsonBody(form: AmJson) | FormBody(data: map<string, string>)

  datatype Request = Get(url: string) | Post(url: string, body: Body)

  /** The state of a session: the replies still to come, the requests made, the cookies set. */
  datatype Conv = Conv(pending: seq<Response>, sent: seq<Request>, cookies: map<string, string>)

  /** A value or a failure, with the session state at that point. */
  datatype Step<+T> = Step(result: Result<T>, conv: Conv)

  /** One entry of the returned roles: provider ARN, role ARN and account name. */
  datatype RoleEntry = RoleEntry(provider: string, role: string, accountName: Option<string>)

  /** What `authenticate` returns: the SAML assertion and its roles. */
  datatype Authenticated = Authenticated(samlXml: seq<Base64.byte>, roles: seq<RoleEntry>)

  function Fail<T>(e: Failure, c: Conv): Step<T>
  {
    Step(Err(e), c)
  }

  /** One request: it is recorded, and answered by the next scripted reply if there is one. */
  function Exchange(c: Conv, req: Request): (s: Step<Response>)
    ensures s.conv.sent == c.sent + [req] && s.conv.cookies == c.cookies
    ensures s.result.Ok? <==> c.pending != []
    ensures c.pending != [] ==> s.result.value == c.pending[0] && s.conv.pending == c.pending[1..]
    ensures c.pending == [] ==> s.result == Err(ConnectionError) && s.conv.pending == []
  {
    var logged := c.(sent := c.sent + [req]);
    if c.pending == [] then Fail(ConnectionError, logged)
    else Step(Ok(c.pending[0]), logged.(pending := c.pending[1..]))
  }

  // ---------------------------------------------------------------------
  // The session

  /** `requests.Session`, with scripted replies in place of the network. */
  class Session {
    var pending: seq<Response>
    var sent: seq<Request>
    var cookies: map<string, string>

    function State(): Conv
      reads this
    {
      Conv(pending, sent, cookies)
    }

    constructor (replies: seq<Response>)
      ensures State() == Conv(replies, [], map[])
    {
      pending := replies;
      sent := [];
      cookies := map[];
    }

    /** `session.get(url)` or `session.post(url, ...)`: the next reply, or a connection error. */
    method Send(req: Request) returns (r: Result<Response>)
      modifies this
      ensures Step(r, State()) == Exchange(old(State()), req)
    {
      sent := sent + [req];
      if pending == [] {
        return Err(ConnectionError);
      }
      r := Ok(pending[0]);
      pending := pending[1..];
    }

    /** `session.cookies.set(name, value)`. */
    method SetCookie(name: string, value: string)
      modifies this
      ensures State() == old(State()).(cookies := old(cookies)[name := value])
    {
      cookies := cookies[name := value];
    }
  }

  // ---------------------------------------------------------------------
  // Specification of the conversation

  /** GET the server-info URL and read the cookie name from its JSON. */
  function ServerInfo(c: Conv, reached: string): (s: Step<string>)
    requires OpenAm.IsOpenAm(reached)
    ensures s.conv.sent == c.sent + [Get(OpenAm.ServerInfoUrl(reached))] && s.conv.cookies == c.cookies
  {
    var info := Exchange(c, Get(OpenAm.ServerInfoUrl(reached)));
    if info.result.Err? then Fail(info.result.error, info.conv)
    else Step(Key(info.result.value.json.cookieName, "cookieName"), info.conv)
  }

  /** Fill a form's callbacks by the rules and POST the form back as JSON. */
  function SubmitCallbacks(c: Conv, amUrl: string, form: AmJson, rules: map<string, string>): (s: Step<Response>)
    ensures c.sent <= s.conv.sent && s.conv.cookies == c.cookies
  {
    match form.callbacks
    case None => Fail(KeyMissing("callbacks"), c)
    case Some(callbacks) =>
      match OpenAm.FillAll(callbacks, rules)
      case Err(e) => Fail(e, c)
      case Ok(filled) => Exchange(c, Post(amUrl, JsonBody(form.(callbacks := Some(filled)))))
  }

  /** POST for the login form, submit the credentials, and submit the OTP when the answer has a stage. */
  function OpenAmAnswer(c: Conv, amUrl: string, user: string, password: string, otp: string): (s: Step<Response>)
    ensures c.sent < s.conv.sent && s.conv.cookies == c.cookies
  {
    var login := Exchange(c, Post(amUrl, NoBody));
    if login.result.Err? then login
    else
      var answer := SubmitCallbacks(login.conv, amUrl, login.result.value.json, OpenAm.CredentialRules(user, password));
      if answer.result.Err? || !answer.result.value.json.stage then answer
      else SubmitCallbacks(answer.conv, amUrl, answer.result.value.json, OpenAm.OtpRules(otp))
  }

  /** The OpenAM branch, up to the reply of the success URL. */
  function OpenAmPhase(c: Conv, reached: string, user: string, password: string, otp: string): (s: Step<Response>)
    requires OpenAm.IsOpenAm(reached)
    ensures c.sent + [Get(OpenAm.ServerInfoUrl(reached))] <= s.conv.sent
  {
    var info := ServerInfo(c, reached);
    if info.result.Err? then Fail(info.result.error, info.conv)
    else
      var answer := OpenAmAnswer(info.conv, OpenAm.AuthenticateUrl(reached), user, password, otp);
      if answer.result.Err? then answer
      else if answer.result.value.status != 200 then Fail(AuthenticationFailed, answer.conv)
      else
        match answer.result.value.json.tokenId
        case None => Fail(KeyMissing("tokenId"), answer.conv)
        case Some(token) =>
          var withCookie := answer.conv.(cookies := answer.conv.cookies[info.result.value := token]);
          match answer.result.value.json.successUrl
          case None => Fail(KeyMissing("successUrl"), withCookie)
          case Some(next) => Exchange(withCookie, Get(next))
  }

  /** The Shibboleth branch: POST the credentials and submit buttons back to the reached URL. */
  function ShibbolethPhase(c: Conv, reached: Response, user: string, password: string): (s: Step<Response>)
    ensures c.sent <= s.conv.sent && s.conv.cookies == c.cookies
  {
    match Shibboleth.FormData(user, password, reached.page.buttons)
    case Err(e) => Fail(e, c)
    case Ok(data) => Exchange(c, Post(reached.url, FormBody(data)))
  }

  /** The roles comprehension: each pair with the account name of its role, or the first failure. */
  function AttachNames(pairs: seq<SamlRoles.Pair>, names: map<string, string>): (r: Result<seq<RoleEntry>>)
    ensures r.Err? ==> r.error == IndexOutOfRange
    ensures r.Ok? ==> |r.value| == |pairs|
  {
    if pairs == [] then Ok([])
    else
      var prior :- AttachNames(pairs[..|pairs| - 1], names);
      var (provider, role) := pairs[|pairs| - 1];
      var name :- SamlPage.GetAccountName(role, names);
      Ok(prior + [RoleEntry(provider, role, name)])
  }

  /** The account names of AWS's page, then the roles of the assertion, joined. */
  function Roster(xml: seq<Base64.byte>, accountTexts: seq<string>, parse: seq<Base64.byte> -> Option<SamlRoles.Element>): (r: Result<Authenticated>)
    ensures r.Ok? ==> r.value.samlXml == xml
    ensures r.Err? ==> r.error == XmlParseError || SamlRoles.RolesFailure(r.error) || r.error == IndexOutOfRange
  {
    var names := SamlPage.AccountNames(accountTexts);
    match parse(xml)
    case None => Err(XmlParseError)
    case Some(root) =>
      var pairs :- SamlRoles.Roles(root);
      var roles :- AttachNames(pairs, names);
      Ok(Authenticated(xml, roles))
  }

  /** The form posted to AWS: the assertion, base64-encoded with line breaks. */
  function SamlForm(xml: seq<Base64.byte>): map<string, string>
  {
    map[SamlPage.SamlResponseName := Base64.EncodeLines(xml)]
  }

  /** From the IdP's final page: read the assertion, post it to the page's form, and build the roles. */
  function SamlPhase(c: Conv, answer: Response, parse: seq<Base64.byte> -> Option<SamlRoles.Element>): (s: Step<Authenticated>)
    ensures c.sent <= s.conv.sent && s.conv.cookies == c.cookies
    ensures s.result.Ok? ==> s.result.value.samlXml != []
    ensures s.result.Ok? ==> SamlPage.GetSamlResponse(answer.page.inputs) == Ok(Some(s.result.value.samlXml))
  {
    match SamlPage.GetSamlResponse(answer.page.inputs)
    case Err(e) => Fail(e, c)
    case Ok(saml) =>
      if saml.None? || saml.value == [] then Fail(AuthenticationFailed, c)
      else
        match SamlPage.GetFormAction(answer.page.forms)
        case Err(e) => Fail(e, c)
        case Ok(action) =>
          if action.None? then Fail(InvalidUrl, c)
          else
            var aws := Exchange(c, Post(action.value, FormBody(SamlForm(saml.value))));
            if aws.result.Err? then Fail(aws.result.error, aws.conv)
            else Step(Roster(saml.value, aws.result.value.page.accountTexts, parse), aws.conv)
  }

  /** Which identity provider the reached page belongs to decides the login branch. */
  function LoginPhase(c: Conv, reached: Response, user: string, password: string, otp: string): (s: Step<Response>)
    ensures c.sent <= s.conv.sent
    ensures !OpenAm.IsOpenAm(reached.url) ==> s.conv.cookies == c.cookies
  {
    if OpenAm.IsOpenAm(reached.url) then OpenAmPhase(c, reached.url, user, password, otp)
    else ShibbolethPhase(c, reached, user, password)
  }

  /** The whole of `authenticate`, from a fresh session. */
  function AuthenticateSpec(replies: seq<Response>, url: string, user: string, password: string, otp: string,
                            parse: seq<Base64.byte> -> Option<SamlRoles.Element>): (s: Step<Authenticated>)
    ensures s.conv.sent != [] && s.conv.sent[0] == Get(url)
    ensures s.result.Ok? ==> s.result.value.samlXml != []
  {
    var first := Exchange(Conv(replies, [], map[]), Get(url));
    if first.result.Err? then Fail(first.result.error, first.conv)
    else
      var second := LoginPhase(first.conv, first.result.value, user, password, otp);
      if second.result.Err? then Fail(second.result.error, second.conv)
      else
        var answer := Mfa.NewMfaNone(second.result.value, second.conv).Process();
        SamlPhase(second.conv, answer, parse)
  }

  // ---------------------------------------------------------------------
  // The conversation, step by step on the session

  method ServerInfoFlow(session: Session, reached: string) returns (r: Result<string>)
    requires OpenAm.IsOpenAm(reached)
    modifies session
    ensures Step(r, session.State()) == ServerInfo(old(session.State()), reached)
  {
    var info :- session.Send(Get(OpenAm.ServerInfoUrl(reached)));
    r := Key(info.json.cookieName, "cookieName");
  }

  /** The callback loop on the form's list, then the POST of the filled form. */
  method SubmitCallbacksFlow(session: Session, amUrl: string, form: AmJson, rules: map<string, string>) returns (r: Result<Response>)
    modifies session
    ensures Step(r, session.State()) == SubmitCallbacks(old(session.State()), amUrl, form, rules)
  {
    var callbacks :- Key(form.callbacks, "callbacks");
    var items := new OpenAm.Callback[|callbacks|](i requires 0 <= i < |callbacks| => callbacks[i]);
    assert items[..] == callbacks;
    var filled := OpenAm.FillCallbacks(items, rules);
    if filled.Err? {
      return Err(filled.error);
    }
    r := session.Send(Post(amUrl, JsonBody(form.(callbacks := Some(items[..])))));
  }

  method OpenAmFlow(session: Session, reached: string, user: string, password: string, otp: string) returns (r: Result<Response>)
    requires OpenAm.IsOpenAm(reached)
    modifies session
    ensures Step(r, session.State()) == OpenAmPhase(old(session.State()), reached, user, password, otp)
  {
    var cookieName :- ServerInfoFlow(session, reached);
    var amUrl := OpenAm.AuthenticateUrl(reached);
    var login :- session.Send(Post(amUrl, NoBody));
    var answer :- SubmitCallbacksFlow(session, amUrl, login.json, OpenAm.CredentialRules(user, password));
    if answer.json.stage {
      answer :- SubmitCallbacksFlow(session, amUrl, answer.json, OpenAm.OtpRules(otp));
    }
    if answer.status != 200 {
      return Err(AuthenticationFailed);
    }
    var token :- Key(answer.json.tokenId, "tokenId");
    session.SetCookie(cookieName, token);
    var next :- Key(answer.json.successUrl, "successUrl");
    r := session.Send(Get(next));
  }

  method ShibbolethFlow(session: Session, reached: Response, user: string, password: string) returns (r: Result<Response>)
    modifies session
    ensures Step(r, session.State()) == ShibbolethPhase(old(session.State()), reached, user, password)
  {
    var data :- Shibboleth.BuildFormData(user, password, reached.page.buttons);
    r := session.Send(Post(reached.url, FormBody(data)));
  }

  method SamlFlow(session: Session, answer: Response, parse: seq<Base64.byte> -> Option<SamlRoles.Element>) returns (r: Result<Authenticated>)
    modifies session
    ensures Step(r, session.State()) == SamlPhase(old(session.State()), answer, parse)
  {
    var saml :- SamlPage.GetSamlResponse(answer.page.inputs);
    if saml.None? || saml.value == [] {
      return Err(AuthenticationFailed);
    }
    var xml := saml.value;
    var action :- SamlPage.GetFormAction(answer.page.forms);
    if action.None? {
      return Err(InvalidUrl);
    }
    var aws :- session.Send(Post(action.value, FormBody(SamlForm(xml))));
    var names := SamlPage.GetAccountNames(aws.page.accountTexts);
    var root := parse(xml);
    if root.None? {
      return Err(XmlParseError);
    }
    var pairs :- SamlRoles.GetRoles(root.value);
    var roles :- AttachNames(pairs, names);
    r := Ok(Authenticated(xml, roles));
  }

  /** `authenticate(url, user, password)` with the pass-through MFA strategy. */
  method Authenticate(replies: seq<Response>, url: string, user: string, password: string, otp: string,
                      parse: seq<Base64.byte> -> Option<SamlRoles.Element>) returns (r: Result<Authenticated>, session: Session)
    ensures fresh(session)
    ensures Step(r, session.State()) == AuthenticateSpec(replies, url, user, password, otp, parse)
  {
    session := new Session(replies);
    var first := session.Send(Get(url));
    if first.Err? {
      return Err(first.error), session;
    }
    var second: Result<Response>;
    if OpenAm.IsOpenAm(first.value.url) {
      second := OpenAmFlow(session, first.value.url, user, password, otp);
    } else {
      second := ShibbolethFlow(session, first.value, user, password);
    }
    if second.Err? {
      return Err(second.error), session;
    }
    var answer := Mfa.NewMfaNone(second.value, session).Process();
    r := SamlFlow(session, answer, parse);
  }

  // ---------------------------------------------------------------------
  // Properties of the conversation

  /** The roles comprehension succeeds exactly when every role ARN has five fields, and keeps order and length. */
  lemma {:induction false} AttachNamesMeaning(pairs: seq<SamlRoles.Pair>, names: map<string, string>)
    ensures AttachNames(pairs, names).Ok? <==>
      forall i :: 0 <= i < |pairs| ==> SamlPage.GetAccountName(pairs[i].1, names).Ok?
    ensures AttachNames(pairs, names).Err? ==> AttachNames(pairs, names).error == IndexOutOfRange
    ensures AttachNames(pairs, names).Ok? ==>
      |AttachNames(pairs, names).value| == |pairs| &&
      forall i :: 0 <= i < |pairs| ==>
        AttachNames(pairs, names).value[i] ==
        RoleEntry(pairs[i].0, pairs[i].1, SamlPage.GetAccountName(pairs[i].1, names).value)
  {
    if pairs != [] {
      var n := |pairs| - 1;
      AttachNamesMeaning(pairs[..n], names);
      assert forall i :: 0 <= i < n ==> pairs[..n][i] == pairs[i];
    }
  }

  /** The first request is always the GET of the login URL. */
  lemma FirstRequest(replies: seq<Response>, url: string, user: string, password: string, otp: string,
                     parse: seq<Base64.byte> -> Option<SamlRoles.Element>)
    ensures var s := AuthenticateSpec(replies, url, user, password, otp, parse);
      |s.conv.sent| >= 1 && s.conv.sent[0] == Get(url)
    ensures replies == [] ==>
      AuthenticateSpec(replies, url, user, password, otp, parse) == Step(Err(ConnectionError), Conv([], [Get(url)], map[]))
  {
  }

  /** The session after the first request has been answered. */
  function Reached(replies: seq<Response>, url: string): Conv
    requires replies != []
  {
    Conv(replies[1..], [Get(url)], map[])
  }

  /** `authenticate` up to the login branch, when there is a first reply. */
  lemma AuthenticateUnfolds(replies: seq<Response>, url: string, user: string, password: string, otp: string,
                            parse: seq<Base64.byte> -> Option<SamlRoles.Element>)
    requires replies != []
    ensures var second := LoginPhase(Reached(replies, url), replies[0], user, password, otp);
      AuthenticateSpec(replies, url, user, password, otp, parse) ==
        if second.result.Err? then Fail(second.result.error, second.conv)
        else SamlPhase(second.conv, second.result.value, parse)
  {
    var first := Exchange(Conv(replies, [], map[]), Get(url));
    assert first == Step(Ok(replies[0]), Reached(replies, url));
    var second := LoginPhase(first.conv, replies[0], user, password, otp);
    if second.result.Ok? {
      Mfa.DetectedPassThrough(second.result.value, second.conv);
    }
  }

  /** With the marker in the reached URL, the second request fetches the server information. */
  lemma BranchOpenAm(replies: seq<Response>, url: string, user: string, password: string, otp: string,
                     parse: seq<Base64.byte> -> Option<SamlRoles.Element>)
    requires replies != [] && OpenAm.IsOpenAm(replies[0].url)
    ensures var s := AuthenticateSpec(replies, url, user, password, otp, parse);
      |s.conv.sent| >= 2 && s.conv.sent[1] == Get(OpenAm.ServerInfoUrl(replies[0].url))
  {
    AuthenticateUnfolds(replies, url, user, password, otp, parse);
    var second := LoginPhase(Reached(replies, url), replies[0], user, password, otp);
    assert [Get(url), Get(OpenAm.ServerInfoUrl(replies[0].url))] <= second.conv.sent;
  }

  /**
   * Without the marker, the second request posts the Shibboleth form data
   * to the reached URL, or the button loop fails before it; either way no
   * cookie is set.
   */
  lemma BranchShibboleth(replies: seq<Response>, url: string, user: string, password: string, otp: string,
                         parse: seq<Base64.byte> -> Option<SamlRoles.Element>)
    requires replies != [] && !OpenAm.IsOpenAm(replies[0].url)
    ensures var s := AuthenticateSpec(replies, url, user, password, otp, parse);
      var data := Shibboleth.FormData(user, password, replies[0].page.buttons);
      s.conv.cookies == map[] &&
      (data.Ok? ==> |s.conv.sent| >= 2 && s.conv.sent[1] == Post(replies[0].url, FormBody(data.value))) &&
      (data.Err? ==> s == Step(Err(data.error), Reached(replies, url)))
  {
    AuthenticateUnfolds(replies, url, user, password, otp, parse);
    var data := Shibboleth.FormData(user, password, replies[0].page.buttons);
    var second := LoginPhase(Reached(replies, url), replies[0], user, password, otp);
    if data.Ok? {
      assert second == Exchange(Reached(replies, url), Post(replies[0].url, FormBody(data.value)));
      assert [Get(url), Post(replies[0].url, FormBody(data.value))] <= second.conv.sent;
    }
  }

  // The OpenAM branch

  /** A form whose callbacks were filled by the rules. */
  function Filled(form: AmJson, rules: map<string, string>): AmJson
    requires form.callbacks.Some? && OpenAm.FillAll(form.callbacks.value, rules).Ok?
  {
    form.(callbacks := Some(OpenAm.FillAll(form.callbacks.value, rules).value))
  }

  /** When the callbacks can be filled, submitting them is one POST of the filled form. */
  lemma SubmitCallbacksSent(c: Conv, amUrl: string, form: AmJson, rules: map<string, string>)
    requires form.callbacks.Some? && OpenAm.FillAll(form.callbacks.value, rules).Ok?
    ensures SubmitCallbacks(c, amUrl, form, rules) == Exchange(c, Post(amUrl, JsonBody(Filled(form, rules))))
  {
  }

  /**
   * The replies from the login form on: a form whose callbacks can be
   * filled with the credentials, then an answer that, when it asks for a
   * stage, is a form whose callbacks can be filled with the OTP.
   */
  predicate AnswerReachable(ps: seq<Response>, user: string, password: string, otp: string)
  {
    |ps| >= 2 &&
    ps[0].json.callbacks.Some? &&
    OpenAm.FillAll(ps[0].json.callbacks.value, OpenAm.CredentialRules(user, password)).Ok? &&
    (ps[1].json.stage ==>
      |ps| >= 3 && ps[1].json.callbacks.Some? &&
      OpenAm.FillAll(ps[1].json.callbacks.value, OpenAm.OtpRules(otp)).Ok?)
  }

  /** Among those replies, the position of the answer whose status is checked. */
  function AnswerAt(ps: seq<Response>): (j: nat)
    requires |ps| >= 2
    ensures j == 1 || j == 2
    ensures j == 2 <==> ps[1].json.stage
  {
    if ps[1].json.stage then 2 else 1
  }

  /** The POSTs of the login form, the credentials and, when asked for, the OTP. */
  function AnswerRequests(ps: seq<Response>, amUrl: string, user: string, password: string, otp: string): seq<Request>
    requires AnswerReachable(ps, user, password, otp)
  {
    [Post(amUrl, NoBody), Post(amUrl, JsonBody(Filled(ps[0].json, OpenAm.CredentialRules(user, password))))] +
    if ps[1].json.stage then [Post(amUrl, JsonBody(Filled(ps[1].json, OpenAm.OtpRules(otp))))] else []
  }

  /** Replies that let the callbacks be filled lead to the checked answer, after exactly those POSTs. */
  lemma AnswerReached(d: Conv, amUrl: string, user: string, password: string, otp: string)
    requires AnswerReachable(d.pending, user, password, otp)
    ensures var j := AnswerAt(d.pending);
      OpenAmAnswer(d, amUrl, user, password, otp) ==
        Step(Ok(d.pending[j]), Conv(d.pending[j + 1..], d.sent + AnswerRequests(d.pending, amUrl, user, password, otp), d.cookies))
  {
    var credentials := OpenAm.CredentialRules(user, password);
    var login := Exchange(d, Post(amUrl, NoBody));
    SubmitCallbacksSent(login.conv, amUrl, d.pending[0].json, credentials);
    var answer := SubmitCallbacks(login.conv, amUrl, d.pending[0].json, credentials);
    assert answer.result == Ok(d.pending[1]) && answer.conv.pending == d.pending[2..];
    if d.pending[1].json.stage {
      SubmitCallbacksSent(answer.conv, amUrl, d.pending[1].json, OpenAm.OtpRules(otp));
      assert d.pending[2..][1..] == d.pending[3..];
    }
  }

  /** An answer is only reached through such replies. */
  lemma AnswerOk(d: Conv, amUrl: string, user: string, password: string, otp: string)
    requires OpenAmAnswer(d, amUrl, user, password, otp).result.Ok?
    ensures AnswerReachable(d.pending, user, password, otp)
  {
    var login := Exchange(d, Post(amUrl, NoBody));
    var answer := SubmitCallbacks(login.conv, amUrl, login.result.value.json, OpenAm.CredentialRules(user, password));
    assert answer.result.Ok?;
    if answer.result.value.json.stage {
      assert SubmitCallbacks(answer.conv, amUrl, answer.result.value.json, OpenAm.OtpRules(otp)).result.Ok?;
    }
  }

  /** The OpenAM replies get the login as far as the status check. */
  predicate ReachesStatusCheck(c: Conv, user: string, password: string, otp: string)
  {
    c.pending != [] && c.pending[0].json.cookieName.Some? && AnswerReachable(c.pending[1..], user, password, otp)
  }

  /** The position of the reply whose status is checked: the OTP answer when a stage was asked for. */
  function AnswerIndex(c: Conv): (k: nat)
    requires |c.pending| >= 3
    ensures k == 2 || k == 3
    ensures k == 3 <==> c.pending[2].json.stage
  {
    if c.pending[2].json.stage then 3 else 2
  }

  /** The server information names the cookie and costs one reply. */
  lemma ServerInfoRead(c: Conv, reached: string)
    requires OpenAm.IsOpenAm(reached) && c.pending != [] && c.pending[0].json.cookieName.Some?
    ensures ServerInfo(c, reached) ==
      Step(Ok(c.pending[0].json.cookieName.value), Conv(c.pending[1..], c.sent + [Get(OpenAm.ServerInfoUrl(reached))], c.cookies))
  {
  }

  /** Up to the status check, as seen from the start of the branch. */
  lemma StatusCheckReached(c: Conv, reached: string, user: string, password: string, otp: string)
    requires OpenAm.IsOpenAm(reached) && ReachesStatusCheck(c, user, password, otp)
    ensures var info := ServerInfo(c, reached);
      var answer := OpenAmAnswer(info.conv, OpenAm.AuthenticateUrl(reached), user, password, otp);
      var k := AnswerIndex(c);
      info.result == Ok(c.pending[0].json.cookieName.value) &&
      answer.result == Ok(c.pending[k]) &&
      answer.conv == Conv(c.pending[k + 1..],
        c.sent + [Get(OpenAm.ServerInfoUrl(reached))] + AnswerRequests(c.pending[1..], OpenAm.AuthenticateUrl(reached), user, password, otp),
        c.cookies)
  {
    ServerInfoRead(c, reached);
    var info := ServerInfo(c, reached);
    AnswerReached(info.conv, OpenAm.AuthenticateUrl(reached), user, password, otp);
    var j := AnswerAt(c.pending[1..]);
    assert c.pending[1..][j] == c.pending[AnswerIndex(c)];
    assert c.pending[1..][j + 1..] == c.pending[AnswerIndex(c) + 1..];
  }

  /** Once the replies reach the status check, AuthenticationFailed is raised exactly when the status is not 200. */
  lemma OpenAmStatusDecides(c: Conv, reached: string, user: string, password: string, otp: string)
    requires OpenAm.IsOpenAm(reached) && ReachesStatusCheck(c, user, password, otp)
    ensures OpenAmPhase(c, reached, user, password, otp).result == Err(AuthenticationFailed) <==>
      c.pending[AnswerIndex(c)].status != 200
  {
    StatusCheckReached(c, reached, user, password, otp);
  }

  /** The requests the OpenAM branch makes when it succeeds. */
  function OpenAmRequests(c: Conv, reached: string, user: string, password: string, otp: string): seq<Request>
    requires OpenAm.IsOpenAm(reached) && ReachesStatusCheck(c, user, password, otp)
    requires c.pending[AnswerIndex(c)].json.successUrl.Some?
  {
    [Get(OpenAm.ServerInfoUrl(reached))] + AnswerRequests(c.pending[1..], OpenAm.AuthenticateUrl(reached), user, password, otp) +
    [Get(c.pending[AnswerIndex(c)].json.successUrl.value)]
  }

  /** A successful branch passed the server information. */
  lemma ServerInfoOk(c: Conv, reached: string, user: string, password: string, otp: string)
    requires OpenAm.IsOpenAm(reached) && OpenAmPhase(c, reached, user, password, otp).result.Ok?
    ensures c.pending != [] && c.pending[0].json.cookieName.Some?
  {
    assert ServerInfo(c, reached).result.Ok?;
  }

  /**
   * A successful OpenAM login got a 200 answer, set the cookie named by
   * the server information to the answer's token, made exactly the
   * expected requests and returns the reply of the success URL.
   */
  lemma OpenAmSucceeds(c: Conv, reached: string, user: string, password: string, otp: string)
    requires OpenAm.IsOpenAm(reached) && OpenAmPhase(c, reached, user, password, otp).result.Ok?
    ensures ReachesStatusCheck(c, user, password, otp)
    ensures var k := AnswerIndex(c);
      var s := OpenAmPhase(c, reached, user, password, otp);
      |c.pending| >= k + 2 && c.pending[k].status == 200 &&
      c.pending[k].json.tokenId.Some? && c.pending[k].json.successUrl.Some? &&
      s.result.value == c.pending[k + 1] &&
      s.conv.pending == c.pending[k + 2..] &&
      s.conv.cookies == c.cookies[c.pending[0].json.cookieName.value := c.pending[k].json.tokenId.value] &&
      s.conv.sent == c.sent + OpenAmRequests(c, reached, user, password, otp)
  {
    ServerInfoOk(c, reached, user, password, otp);
    ServerInfoRead(c, reached);
    var info := ServerInfo(c, reached);
    assert OpenAmAnswer(info.conv, OpenAm.AuthenticateUrl(reached), user, password, otp).result.Ok?;
    AnswerOk(info.conv, OpenAm.AuthenticateUrl(reached), user, password, otp);
    StatusCheckReached(c, reached, user, password, otp);
    var k := AnswerIndex(c);
    assert c.pending[k + 1..][1..] == c.pending[k + 2..];
  }

  /** The same exit seen from `authenticate`: an OpenAM answer other than 200 fails the login. */
  lemma AuthenticateRejected(replies: seq<Response>, url: string, user: string, password: string, otp: string,
                             parse: seq<Base64.byte> -> Option<SamlRoles.Element>)
    requires replies != [] && OpenAm.IsOpenAm(replies[0].url)
    requires ReachesStatusCheck(Reached(replies, url), user, password, otp)
    requires replies[1..][AnswerIndex(Reached(replies, url))].status != 200
    ensures AuthenticateSpec(replies, url, user, password, otp, parse).result == Err(AuthenticationFailed)
  {
    AuthenticateUnfolds(replies, url, user, password, otp, parse);
    OpenAmStatusDecides(Reached(replies, url), replies[0].url, user, password, otp);
  }

  // The SAML step

  /** A final IdP page without a SAMLResponse input fails the login before anything is posted to AWS. */
  lemma NoSamlFails(c: Conv, answer: Response, parse: seq<Base64.byte> -> Option<SamlRoles.Element>)
    requires forall i :: 0 <= i < |answer.page.inputs| ==> !SamlPage.IsSamlInput(answer.page.inputs[i])
    ensures SamlPhase(c, answer, parse) == Fail(AuthenticationFailed, c)
  {
  }

  /** The same exit seen from `authenticate`, whichever branch produced the page. */
  lemma AuthenticateNoSaml(replies: seq<Response>, url: string, user: string, password: string, otp: string,
                           parse: seq<Base64.byte> -> Option<SamlRoles.Element>)
    requires replies != []
    requires var second := LoginPhase(Reached(replies, url), replies[0], user, password, otp);
      second.result.Ok? &&
      forall i :: 0 <= i < |second.result.value.page.inputs| ==> !SamlPage.IsSamlInput(second.result.value.page.inputs[i])
    ensures AuthenticateSpec(replies, url, user, password, otp, parse) ==
      Fail(AuthenticationFailed, LoginPhase(Reached(replies, url), replies[0], user, password, otp).conv)
  {
    AuthenticateUnfolds(replies, url, user, password, otp, parse);
    var second := LoginPhase(Reached(replies, url), replies[0], user, password, otp);
    NoSamlFails(second.conv, second.result.value, parse);
  }

  /** A successful join parsed the assertion, found its role pairs and named each one. */
  lemma RosterOk(xml: seq<Base64.byte>, accountTexts: seq<string>, parse: seq<Base64.byte> -> Option<SamlRoles.Element>)
    requires Roster(xml, accountTexts, parse).Ok?
    ensures parse(xml).Some? && SamlRoles.Roles(parse(xml).value).Ok?
    ensures var pairs := SamlRoles.Roles(parse(xml).value).value;
      var names := SamlPage.AccountNames(accountTexts);
      AttachNames(pairs, names).Ok? &&
      Roster(xml, accountTexts, parse).value == Authenticated(xml, AttachNames(pairs, names).value)
  {
  }

  /** The SAML step on a page with a non-empty assertion and a form action: one POST, then the join. */
  lemma SamlPosted(c: Conv, answer: Response, parse: seq<Base64.byte> -> Option<SamlRoles.Element>)
    requires SamlPhase(c, answer, parse).result.Ok?
    ensures var saml := SamlPage.GetSamlResponse(answer.page.inputs);
      saml.Ok? && saml.value.Some? && saml.value.value != [] &&
      answer.page.forms != [] && answer.page.forms[0].action.Some? && c.pending != [] &&
      SamlPhase(c, answer, parse) ==
        Step(Roster(saml.value.value, c.pending[0].page.accountTexts, parse),
             Conv(c.pending[1..], c.sent + [Post(answer.page.forms[0].action.value, FormBody(SamlForm(saml.value.value)))], c.cookies))
  {
    var saml := SamlPage.GetSamlResponse(answer.page.inputs);
    assert saml.Ok? && saml.value.Some? && saml.value.value != [];
    var action := SamlPage.GetFormAction(answer.page.forms);
    assert action.Ok? && action.value.Some?;
  }

  /**
   * A successful SAML step read a non-empty assertion, posted its
   * encoding to the page's form action, and returns one entry per role
   * pair of the assertion, in order, named from AWS's reply.
   */
  lemma SamlSucceeds(c: Conv, answer: Response, parse: seq<Base64.byte> -> Option<SamlRoles.Element>)
    requires SamlPhase(c, answer, parse).result.Ok?
    ensures var done := SamlPhase(c, answer, parse);
      var xml := done.result.value.samlXml;
      SamlPage.GetSamlResponse(answer.page.inputs) == Ok(Some(xml)) && xml != [] &&
      answer.page.forms != [] && answer.page.forms[0].action.Some? &&
      c.pending != [] &&
      done.conv == Conv(c.pending[1..], c.sent + [Post(answer.page.forms[0].action.value, FormBody(SamlForm(xml)))], c.cookies) &&
      parse(xml).Some? && SamlRoles.Roles(parse(xml).value).Ok?
    ensures var done := SamlPhase(c, answer, parse);
      var xml := done.result.value.samlXml;
      var pairs := SamlRoles.Roles(parse(xml).value).value;
      var names := SamlPage.AccountNames(c.pending[0].page.accountTexts);
      |done.result.value.roles| == |pairs| &&
      forall i :: 0 <= i < |pairs| ==>
        SamlPage.GetAccountName(pairs[i].1, names).Ok? &&
        done.result.value.roles[i] == RoleEntry(pairs[i].0, pairs[i].1, SamlPage.GetAccountName(pairs[i].1, names).value)
  {
    SamlPosted(c, answer, parse);
    var xml := SamlPage.GetSamlResponse(answer.page.inputs).value.value;
    RosterOk(xml, c.pending[0].page.accountTexts, parse);
    AttachNamesMeaning(SamlRoles.Roles(parse(xml).value).value, SamlPage.AccountNames(c.pending[0].page.accountTexts));
  }

  /** The value posted to AWS is read back as the same assertion by the SAML response reader. */
  lemma PostedSamlReadsBack(xml: seq<Base64.byte>)
    ensures SamlPage.SamlResponseName in SamlForm(xml)
    ensures SamlPage.GetSamlResponse([SamlPage.Input(Some(SamlPage.SamlResponseName), Some(SamlForm(xml)[SamlPage.SamlResponseName]))]) ==
      Ok(Some(xml))
  {
    var inputs := [SamlPage.Input(Some(SamlPage.SamlResponseName), Some(SamlForm(xml)[SamlPage.SamlResponseName]))];
    SamlPage.SamlResponseOfPosted(inputs, 0, xml);
  }

  /** What a successful `authenticate` returns: the roles of its assertion, in order, each with its account name. */
  lemma AuthenticateSucceeds(replies: seq<Response>, url: string, user: string, password: string, otp: string,
                             parse: seq<Base64.byte> -> Option<SamlRoles.Element>)
    ensures var s := AuthenticateSpec(replies, url, user, password, otp, parse);
      s.result.Ok? ==>
      var done := s.result.value;
      parse(done.samlXml).Some? && SamlRoles.Roles(parse(done.samlXml).value).Ok? &&
      |done.roles| == |SamlRoles.Roles(parse(done.samlXml).value).value| &&
      forall i :: 0 <= i < |done.roles| ==>
        done.roles[i].provider == SamlRoles.Roles(parse(done.samlXml).value).value[i].0 &&
        done.roles[i].role == SamlRoles.Roles(parse(done.samlXml).value).value[i].1
    ensures var s := AuthenticateSpec(replies, url, user, password, otp, parse);
      s.result.Ok? ==>
      replies != [] &&
      var second := LoginPhase(Reached(replies, url), replies[0], user, password, otp);
      var done := s.result.value;
      second.result.Ok? && second.conv.pending != [] &&
      SamlPage.GetSamlResponse(second.result.value.page.inputs) == Ok(Some(done.samlXml)) &&
      forall i :: 0 <= i < |done.roles| ==>
        SamlPage.GetAccountName(done.roles[i].role, SamlPage.AccountNames(second.conv.pending[0].page.accountTexts)) ==
          Ok(done.roles[i].accountName)
  {
    if AuthenticateSpec(replies, url, user, password, otp, parse).result.Ok? {
      AuthenticateUnfolds(replies, url, user, password, otp, parse);
      var second := LoginPhase(Reached(replies, url), replies[0], user, password, otp);
      SamlSucceeds(second.conv, second.result.value, parse);
    }
  }
}
