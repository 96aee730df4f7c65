/**
 * The OpenAM branch of `authenticate` in aws_saml_login/saml.py: how the
 * reached URL selects OpenAM, the two URLs derived from it, and the
 * filling of the login form's callbacks with the credentials or the OTP.
 */
module OpenAm {
  import opened Outcomes
  import opened Text

  /** The marker whose presence in the reached URL identifies an OpenAM login page. */
  const Marker: string := "XUI/#login/&"
  const ServerInfoPath: string := "json/serverinfo/*"
  const AuthenticatePath: string := "json/authenticate?"

  /** `OPENAM_SEARCH_STRING in response.url`. */
  predicate IsOpenAm(url: string)
  {
    Contains(url, Marker)
  }

  /** The URL up to the first marker, followed by the server-info path. */
  function ServerInfoUrl(url: string): (r: string)
    requires IsOpenAm(url)
    ensures exists i: nat ::
      (OccursAt(url, Marker, i) && (forall j :: 0 <= j < i ==> !OccursAt(url, Marker, j)) &&
       r == url[..i] + ServerInfoPath)
  {
    url[..Find(url, Marker).value] + ServerInfoPath
  }

  /** The URL with its first marker, and only that one, replaced by the authenticate path. */
  function AuthenticateUrl(url: string): (r: string)
    requires IsOpenAm(url)
    ensures exists i: nat ::
      (OccursAt(url, Marker, i) && (forall j :: 0 <= j < i ==> !OccursAt(url, Marker, j)) &&
       r == url[..i] + AuthenticatePath + url[i + |Marker|..])
  {
    ReplaceFirst(url, Marker, AuthenticatePath)
  }

  /** The OpenAM branch is taken exactly when the marker occurs somewhere in the URL. */
  lemma OpenAmIffMarker(url: string)
    ensures IsOpenAm(url) <==> exists i :: 0 <= i <= |url| && OccursAt(url, Marker, i)
  {
  }

  /** No position just before a marker can start another marker: only its first character is an X. */
  lemma MarkerStartsOnce(base: string, tail: string, j: nat)
    requires !IsOpenAm(base) && j < |base|
    ensures !OccursAt(base + Marker + tail, Marker, j)
  {
    var s := base + Marker + tail;
    if j + |Marker| <= |base| {
      assert s[j..j + |Marker|] == base[j..j + |Marker|];
      assert !OccursAt(base, Marker, j);
    } else if j + |Marker| <= |s| {
      assert s[|base|] == 'X';
      assert forall m :: 1 <= m < |Marker| ==> Marker[m] != 'X';
      assert s[j..j + |Marker|][|base| - j] == s[|base|];
    }
  }

  /**
   * For a URL made of a marker-free prefix, the marker and any rest, the
   * server-info URL is the prefix plus its path, and the authenticate URL
   * keeps the rest, including any later marker.
   */
  lemma OpenAmUrls(base: string, tail: string)
    requires !IsOpenAm(base)
    ensures IsOpenAm(base + Marker + tail)
    ensures ServerInfoUrl(base + Marker + tail) == base + ServerInfoPath
    ensures AuthenticateUrl(base + Marker + tail) == base + AuthenticatePath + tail
  {
    var s := base + Marker + tail;
    assert s[|base|..|base| + |Marker|] == Marker;
    assert OccursAt(s, Marker, |base|);
    forall j | 0 <= j < |base|
      ensures !OccursAt(s, Marker, j)
    {
      MarkerStartsOnce(base, tail, j);
    }
    var k := Find(s, Marker).value;
    assert k == |base|;
    assert s[..k] == base;
    assert s[k + |Marker|..] == tail;
  }

  // ---------------------------------------------------------------------
  // Callbacks

  /** One entry of a callback's `input` or `output` list. */
  datatype Field = Field(name: string, value: string)

  /** One item of the login form's `callbacks` list. */
  datatype Callback = Callback(kind: string, input: seq<Field>, output: seq<Field>)

  /** The credentials round: user names go to NameCallback, the password to PasswordCallback. */
  function CredentialRules(user: string, password: string): (rules: map<string, string>)
    ensures rules.Keys == {"NameCallback", "PasswordCallback"}
    ensures rules["NameCallback"] == user && rules["PasswordCallback"] == password
  {
    map["NameCallback" := user, "PasswordCallback" := password]
  }

  /** The OTP round: only PasswordCallback is filled, with the code. */
  function OtpRules(otp: string): (rules: map<string, string>)
    ensures rules.Keys == {"PasswordCallback"} && rules["PasswordCallback"] == otp
  {
    map["PasswordCallback" := otp]
  }

  /**
   * `item['input'][0]['value'] = ...` for a callback whose type has a rule;
   * other callbacks are left alone. A ruled callback with an empty input
   * list raises IndexError.
   */
  function FillOne(cb: Callback, rules: map<string, string>): (r: Result<Callback>)
    ensures r.Err? <==> cb.kind in rules && cb.input == []
    ensures r.Err? ==> r.error == IndexOutOfRange
    ensures cb.kind !in rules ==> r == Ok(cb)
    ensures r.Ok? && cb.kind in rules ==>
      r.value.kind == cb.kind && r.value.output == cb.output &&
      |r.value.input| == |cb.input| && r.value.input[1..] == cb.input[1..] &&
      r.value.input[0] == Field(cb.input[0].name, rules[cb.kind])
  {
    if cb.kind !in rules then Ok(cb)
    else if cb.input == [] then Err(IndexOutOfRange)
    else Ok(cb.(input := [cb.input[0].(value := rules[cb.kind])] + cb.input[1..]))
  }

  /** The list after the loop: each callback filled, or the first failure. */
  function FillAll(cbs: seq<Callback>, rules: map<string, string>): (r: Result<seq<Callback>>)
    ensures r.Err? ==> r.error == IndexOutOfRange
    ensures r.Ok? ==> |r.value| == |cbs|
  {
    if cbs == [] then Ok([])
    else
      var prior :- FillAll(cbs[..|cbs| - 1], rules);
      var last :- FillOne(cbs[|cbs| - 1], rules);
      Ok(prior + [last])
  }

  lemma FillAllSnoc(cbs: seq<Callback>, cb: Callback, rules: map<string, string>)
    ensures FillAll(cbs + [cb], rules) ==
      if FillAll(cbs, rules).Err? then FillAll(cbs, rules)
      else if FillOne(cb, rules).Err? then Err(FillOne(cb, rules).error)
      else Ok(FillAll(cbs, rules).value + [FillOne(cb, rules).value])
  {
    assert (cbs + [cb])[..|cbs|] == cbs;
  }

  /**
   * The loop over `login_form['callbacks']` (and `otp_form['callbacks']`),
   * filling the dictionaries in place; on success the list holds exactly
   * the filled callbacks.
   */
  method FillCallbacks(callbacks: array<Callback>, rules: map<string, string>) returns (r: Result<()>)
    modifies callbacks
    ensures r.Ok? <==> FillAll(old(callbacks[..]), rules).Ok?
    ensures r.Ok? ==> callbacks[..] == FillAll(old(callbacks[..]), rules).value
    ensures r.Err? ==> r.error == FillAll(old(callbacks[..]), rules).error
  {
    ghost var original := callbacks[..];
    for i := 0 to callbacks.Length
      invariant forall j :: i <= j < callbacks.Length ==> callbacks[j] == original[j]
      invariant FillAll(original[..i], rules) == Ok(callbacks[..i])
    {
      assert original[..i + 1] == original[..i] + [original[i]];
      FillAllSnoc(original[..i], original[i], rules);
      var filled := FillOne(callbacks[i], rules);
      if filled.Err? {
        FillFailurePersists(original, i + 1, rules);
        return Err(filled.error);
      }
      callbacks[i] := filled.value;
      assert callbacks[..i + 1] == callbacks[..i] + [filled.value];
    }
    assert original[..callbacks.Length] == original;
    assert callbacks[..callbacks.Length] == callbacks[..];
    return Ok(());
  }

  /** A failure among the first `k` callbacks is the failure of the whole loop. */
  lemma {:induction false} FillFailurePersists(cbs: seq<Callback>, k: nat, rules: map<string, string>)
    requires k <= |cbs| && FillAll(cbs[..k], rules).Err?
    ensures FillAll(cbs, rules) == FillAll(cbs[..k], rules)
    decreases |cbs|
  {
    if k < |cbs| {
      var n := |cbs| - 1;
      assert cbs[..n][..k] == cbs[..k];
      FillFailurePersists(cbs[..n], k, rules);
    } else {
      assert cbs[..k] == cbs;
    }
  }

  /**
   * The loop succeeds exactly when every ruled callback has an input, and
   * then keeps the number and order of the callbacks, filling each one.
   */
  lemma {:induction false} FillAllMeaning(cbs: seq<Callback>, rules: map<string, string>)
    ensures FillAll(cbs, rules).Ok? <==> forall i :: 0 <= i < |cbs| ==> FillOne(cbs[i], rules).Ok?
    ensures FillAll(cbs, rules).Ok? ==> (|FillAll(cbs, rules).value| == |cbs| &&
      forall i :: 0 <= i < |cbs| ==> FillAll(cbs, rules).value[i] == FillOne(cbs[i], rules).value)
  {
    if cbs != [] {
      var n := |cbs| - 1;
      FillAllMeaning(cbs[..n], rules);
      assert forall i :: 0 <= i < n ==> cbs[..n][i] == cbs[i];
    }
  }

  /**
   * The credentials round puts the user into every NameCallback and the
   * password into every PasswordCallback, and leaves all other callbacks
   * as they were.
   */
  lemma CredentialsRound(cbs: seq<Callback>, user: string, password: string, i: nat)
    requires FillAll(cbs, CredentialRules(user, password)).Ok? && i < |cbs|
    ensures var out := FillAll(cbs, CredentialRules(user, password)).value;
      |out| == |cbs| && out[i].kind == cbs[i].kind &&
      (cbs[i].kind == "NameCallback" ==> out[i].input != [] && out[i].input[0].value == user) &&
      (cbs[i].kind == "PasswordCallback" ==> out[i].input != [] && out[i].input[0].value == password) &&
      (cbs[i].kind != "NameCallback" && cbs[i].kind != "PasswordCallback" ==> out[i] == cbs[i])
  {
    FillAllMeaning(cbs, CredentialRules(user, password));
  }

  /** The OTP round puts the code into every PasswordCallback and changes nothing else. */
  lemma OtpRound(cbs: seq<Callback>, otp: string, i: nat)
    requires FillAll(cbs, OtpRules(otp)).Ok? && i < |cbs|
    ensures var out := FillAll(cbs, OtpRules(otp)).value;
      |out| == |cbs| &&
      (cbs[i].kind == "PasswordCallback" ==> out[i].input != [] && out[i].input[0].value == otp && out[i].kind == cbs[i].kind) &&
      (cbs[i].kind != "PasswordCallback" ==> out[i] == cbs[i])
  {
    FillAllMeaning(cbs, OtpRules(otp));
  }
}
