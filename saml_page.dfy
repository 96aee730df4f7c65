/**
 * The page helpers of aws_saml_login/saml.py: the SAML response hidden in
 * the IdP's page, the action of its form, and the account names on the
 * AWS role-selection page. The HTML parser's output is given as element
 * records; what is modelled is the repository's own logic over them.
 */
module SamlPage {
  import opened Outcomes
  import opened Text
  import Base64
  import Maps

  /** An `<input>` element: its `name` and `value` attributes, either of which may be absent. */
  datatype Input = Input(name: Option<string>, value: Option<string>)

  /** A `<form>` element: its `action` attribute. */
  datatype Form = Form(action: Option<string>)

  const SamlResponseName: string := "SAMLResponse"

  predicate IsAscii(s: string)
  {
    forall i :: 0 <= i < |s| ==> s[i] as int < 128
  }

  predicate IsSamlInput(e: Input)
  {
    e.name == Some(SamlResponseName)
  }

  /** `k` is the position of the first input named SAMLResponse. */
  predicate FirstSaml(inputs: seq<Input>, k: nat)
  {
    k < |inputs| && IsSamlInput(inputs[k]) && forall j :: 0 <= j < k ==> !IsSamlInput(inputs[j])
  }

  // ---------------------------------------------------------------------
  // get_saml_response

  /** What the loop body makes of the value it finds: ASCII-encode it, then base64-decode it. */
  function DecodeValue(value: Option<string>): (r: Result<Option<seq<Base64.byte>>>)
    ensures r != Ok(None)
    ensures value.None? ==> r == Err(NoneAttribute)
    ensures value.Some? && !IsAscii(value.value) ==> r == Err(NotAscii)
    ensures value.Some? && IsAscii(value.value) ==>
      r == match Base64.Decode(value.value) case None => Err(Base64Error) case Some(b) => Ok(Some(b))
  {
    match value
    case None => Err(NoneAttribute)
    case Some(v) =>
      if !IsAscii(v) then Err(NotAscii)
      else
        match Base64.Decode(v)
        case None => Err(Base64Error)
        case Some(b) => Ok(Some(b))
  }

  /**
   * `get_saml_response`: the decoded value of the first input named
   * SAMLResponse, or `None` when the page has none.
   */
  function GetSamlResponse(inputs: seq<Input>): (r: Result<Option<seq<Base64.byte>>>)
    ensures r == Ok(None) <==> forall i :: 0 <= i < |inputs| ==> !IsSamlInput(inputs[i])
  {
    if inputs == [] then Ok(None)
    else if IsSamlInput(inputs[0]) then DecodeValue(inputs[0].value)
    else GetSamlResponse(inputs[1..])
  }

  /** When there is such an input, the result is what the first one's value decodes to. */
  lemma {:induction false} SamlResponseOfFirst(inputs: seq<Input>, k: nat)
    requires FirstSaml(inputs, k)
    ensures GetSamlResponse(inputs) == DecodeValue(inputs[k].value)
  {
    if k > 0 {
      assert !IsSamlInput(inputs[0]);
      assert inputs[1..][k - 1] == inputs[k];
      assert forall j :: 0 <= j < k - 1 ==> inputs[1..][j] == inputs[j + 1];
      SamlResponseOfFirst(inputs[1..], k - 1);
    }
  }

  lemma AsciiEncoding(s: string)
    requires forall i :: 0 <= i < |s| ==> Base64.InAlphabet(s[i]) || s[i] == '=' || s[i] == '\n'
    ensures IsAscii(s)
  {
  }

  /**
   * A page whose first SAMLResponse input carries the encoding that
   * `authenticate` posts (line 226) yields the bytes that were encoded.
   */
  lemma SamlResponseOfPosted(inputs: seq<Input>, k: nat, xml: seq<Base64.byte>)
    requires FirstSaml(inputs, k) && inputs[k].value == Some(Base64.EncodeLines(xml))
    ensures GetSamlResponse(inputs) == Ok(Some(xml))
  {
    SamlResponseOfFirst(inputs, k);
    AsciiEncoding(Base64.EncodeLines(xml));
    Base64.RoundTripLines(xml);
  }

  /** The same for the newline-free encoding that `assume_role` sends (line 242). */
  lemma SamlResponseOfAssertion(inputs: seq<Input>, k: nat, xml: seq<Base64.byte>)
    requires FirstSaml(inputs, k) && inputs[k].value == Some(Base64.StsAssertion(xml))
    ensures GetSamlResponse(inputs) == Ok(Some(xml))
  {
    SamlResponseOfFirst(inputs, k);
    Base64.StsAssertionUnwrapped(xml);
    AsciiEncoding(Base64.Encode(xml));
    Base64.RoundTrip(xml);
  }

  /** The two examples of the function's documentation. */
  lemma SamlResponseExamples()
    ensures GetSamlResponse([Input(Some("a"), None)]) == Ok(None)
    ensures GetSamlResponse([Input(Some("SAMLResponse"), Some("eG1s"))]) == Ok(Some([120, 109, 108]))
  {
    Base64.DecodeXml();
  }

  // ---------------------------------------------------------------------
  // get_form_action

  /** `get_form_action`: the action of the page's first form; a page without a form raises. */
  function GetFormAction(forms: seq<Form>): (r: Result<Option<string>>)
    ensures r.Err? <==> forms == []
    ensures r.Err? ==> r.error == NoneAttribute
    ensures r.Ok? ==> r.value == forms[0].action
  {
    if forms == [] then Err(NoneAttribute) else Ok(forms[0].action)
  }

  lemma FormActionExample()
    ensures GetFormAction([Form(Some("test"))]) == Ok(Some("test"))
  {
  }

  // ---------------------------------------------------------------------
  // get_account_name

  /**
   * `get_account_name`: the name recorded for the account number, the
   * fifth `:`-separated field of the role ARN; `None` when there is no such
   * entry, including when the map is empty; an ARN with fewer than five
   * fields raises IndexError.
   */
  function GetAccountName(roleArn: string, accountNames: map<string, string>): (r: Result<Option<string>>)
    ensures r.Ok? <==> Count(roleArn, ':') >= 4
    ensures r.Err? ==> r.error == IndexOutOfRange
    ensures r.Ok? ==> var number := Split(roleArn, ':')[4];
      r.value == if number in accountNames then Some(accountNames[number]) else None
  {
    var fields := Split(roleArn, ':');
    if |fields| <= 4 then Err(IndexOutOfRange)
    else if accountNames == map[] then Ok(None)
    else if fields[4] in accountNames then Ok(Some(accountNames[fields[4]]))
    else Ok(None)
  }

  /** In an IAM ARN the field looked up is the account number. */
  lemma ArnAccountName(account: string, resource: string, accountNames: map<string, string>)
    requires ':' !in account
    ensures GetAccountName("arn:aws:iam::" + account + ":" + resource, accountNames)
      == Ok(if account in accountNames then Some(accountNames[account]) else None)
  {
    var tail := account + [':'] + resource;
    assert "arn:aws:iam::" + account + ":" + resource
      == "arn" + [':'] + ("aws" + [':'] + ("iam" + [':'] + ([] + [':'] + tail)));
    SplitAfterField(account, ':', resource);
    SplitAfterField([], ':', tail);
    SplitAfterField("iam", ':', [] + [':'] + tail);
    SplitAfterField("aws", ':', "iam" + [':'] + ([] + [':'] + tail));
    SplitAfterField("arn", ':', "aws" + [':'] + ("iam" + [':'] + ([] + [':'] + tail)));
  }

  /** The first example of the function's documentation: a known account. */
  lemma AccountNameExample()
    ensures GetAccountName("arn:aws:iam::123:role/Admin", map["123" := "blub"]) == Ok(Some("blub"))
  {
    assert "arn:aws:iam::123:role/Admin" == "arn:aws:iam::" + "123" + ":" + "role/Admin";
    ArnAccountName("123", "role/Admin", map["123" := "blub"]);
  }

  /** The second example: an account the map does not know. */
  lemma UnknownAccountExample()
    ensures GetAccountName("arn:aws:iam::456:role/Admin", map["123" := "blub"]) == Ok(None)
  {
    assert "arn:aws:iam::456:role/Admin" == "arn:aws:iam::" + "456" + ":" + "role/Admin";
    ArnAccountName("456", "role/Admin", map["123" := "blub"]);
  }

  /** An ARN with only three fields has no account field, and the lookup raises. */
  lemma ShortArnFails(accountNames: map<string, string>)
    ensures GetAccountName("arn:aws:iam", accountNames) == Err(IndexOutOfRange)
  {
    assert "arn:aws:iam" == "arn" + [':'] + ("aws" + [':'] + "iam");
    SplitNoSeparator("iam", ':');
    SplitAfterField("aws", ':', "iam");
    SplitAfterField("arn", ':', "aws" + [':'] + "iam");
  }

  // ---------------------------------------------------------------------
  // get_account_names

  /**
   * One account div: the text after the first `:`, stripped and without
   * trailing `)`, split at its last `(` into name and number, both
   * stripped. `None` is the skipped element: a text with no `(` there
   * fails to unpack, and the loop's bare `except` passes over it.
   */
  function ParseAccount(text: string): (r: Option<(string, string)>)
    ensures r.None? <==> '(' !in AfterFirst(text, ':')
    ensures r.Some? ==> Trimmed(r.value.0) && Trimmed(r.value.1) && '(' !in r.value.0
  {
    var nameNumber := RStripChar(Strip(AfterFirst(text, ':')), ')');
    SpaceByCode('(');
    StripKeeps(AfterFirst(text, ':'), '(');
    RStripCharKeeps(Strip(AfterFirst(text, ':')), ')', '(');
    match RSplitLast(nameNumber, '(')
    case None => None
    case Some((name, number)) =>
      StripKeeps(number, '(');
      Some((Strip(number), Strip(name)))
  }

  /**
   * A div reading `<label>: <name> (<number>)`, with any whitespace around
   * the name and after the closing parenthesis, gives that number and name.
   */
  lemma {:induction false} AccountParsed(heading: string, pre: string, name: string, mid: string, number: string, post: string)
    requires ':' !in heading && AllSpace(pre) && AllSpace(mid) && AllSpace(post)
    requires name != [] && Trimmed(name) && Trimmed(number) && '(' !in number && ')' !in number
    ensures ParseAccount(heading + ":" + pre + name + mid + "(" + number + ")" + post) == Some((number, name))
  {
    var body := name + mid + "(" + number;
    var m := body + ")";
    var text := heading + ":" + pre + name + mid + "(" + number + ")" + post;
    assert text == heading + [':'] + (pre + m + post);
    AfterFirstOf(heading, ':', pre + m + post);
    SpaceByCode(')');
    assert m[0] == name[0];
    StripPadded(pre, m, post);
    RStripCharDrops(body, ')');
    assert body == (name + mid) + ['('] + number;
    RSplitLastOf(name + mid, '(', number);
    StripTrimmed(number);
    StripTrailing(name, mid);
  }

  /** The parse of every div, in page order. */
  function ParsedAccounts(texts: seq<string>): (r: seq<Option<(string, string)>>)
    ensures |r| == |texts|
    ensures forall i :: 0 <= i < |texts| ==> r[i] == ParseAccount(texts[i])
  {
    Maps.Assignments(ParseAccount, texts)
  }

  lemma ParsedSnoc(texts: seq<string>, text: string)
    ensures ParsedAccounts(texts + [text]) == ParsedAccounts(texts) + [ParseAccount(text)]
  {
    Maps.AssignmentsSnoc(ParseAccount, texts, text);
  }

  /** A parsed entry: a number without `(`, and a name and number both stripped. */
  predicate WellParsed(number: string, name: string)
  {
    Trimmed(number) && Trimmed(name) && '(' !in number
  }

  /**
   * The dictionary the loop builds: `accounts[number] = name` per parsed
   * div, in order. Every number in it is stripped and has no `(`, and every
   * name is stripped.
   */
  function AccountNames(texts: seq<string>): (accounts: map<string, string>)
    ensures forall number | number in accounts :: WellParsed(number, accounts[number])
  {
    var parsed := ParsedAccounts(texts);
    Maps.UpdatesKeep(map[], parsed, (number, name) => WellParsed(number, name));
    Maps.Updates(map[], parsed)
  }

  /** The dictionary after one more div. */
  lemma AccountNamesStep(texts: seq<string>, i: nat)
    requires i < |texts|
    ensures AccountNames(texts[..i + 1]) == match ParseAccount(texts[i])
      case None => AccountNames(texts[..i])
      case Some((number, name)) => AccountNames(texts[..i])[number := name]
  {
    assert texts[..i + 1] == texts[..i] + [texts[i]];
    ParsedSnoc(texts[..i], texts[i]);
    Maps.UpdatesSnoc(map[], ParsedAccounts(texts[..i]), ParseAccount(texts[i]));
  }

  /** `get_account_names` over the texts of the `saml-account-name` divs. */
  method GetAccountNames(texts: seq<string>) returns (accounts: map<string, string>)
    ensures accounts == AccountNames(texts)
  {
    accounts := map[];
    for i := 0 to |texts|
      invariant accounts == AccountNames(texts[..i])
    {
      AccountNamesStep(texts, i);
      var parsed := ParseAccount(texts[i]);
      match parsed {
        case None =>
        case Some((number, name)) =>
          accounts := accounts[number := name];
      }
    }
    assert texts[..|texts|] == texts;
  }

  /** The numbers in the dictionary are exactly those of the divs that parse. */
  lemma AccountNamesKeys(texts: seq<string>, number: string)
    ensures number in AccountNames(texts) <==>
      exists i :: 0 <= i < |texts| && ParseAccount(texts[i]).Some? && ParseAccount(texts[i]).value.0 == number
  {
    Maps.UpdatesKeys(map[], ParsedAccounts(texts));
  }

  /** Div `i` parses, and no later div gives the same number. */
  predicate LastWithNumber(texts: seq<string>, i: nat)
    requires i < |texts|
  {
    ParseAccount(texts[i]).Some? &&
    forall j :: i < j < |texts| && ParseAccount(texts[j]).Some? ==>
      ParseAccount(texts[j]).value.0 != ParseAccount(texts[i]).value.0
  }

  /** A number's name is the one from the last div that gives this number. */
  lemma AccountNamesLastWins(texts: seq<string>, i: nat)
    requires i < |texts|
    ensures LastWithNumber(texts, i) ==>
      var (number, name) := ParseAccount(texts[i]).value;
      number in AccountNames(texts) && AccountNames(texts)[number] == name
  {
    if LastWithNumber(texts, i) {
      Maps.LastWriteWins(map[], ParsedAccounts(texts), i);
    }
  }

  /** A div whose text has no `(` after the first `:` is skipped. */
  lemma AccountNamesSkips(texts: seq<string>, text: string)
    requires '(' !in AfterFirst(text, ':')
    ensures AccountNames(texts + [text]) == AccountNames(texts)
  {
    ParsedSnoc(texts, text);
    Maps.UpdatesSnoc(map[], ParsedAccounts(texts), None);
  }

  /** The examples of the function's documentation: an empty page, and a div that parses. */
  lemma AccountNamesExamples()
    ensures AccountNames([]) == map[]
    ensures AccountNames(["Account: blub  (123) "]) == map["123" := "blub"]
  {
    SpaceByCode(' ');
    assert "Account: blub  (123) " == "Account" + ":" + " " + "blub" + "  " + "(" + "123" + ")" + " ";
    AccountParsed("Account", " ", "blub", "  ", "123", " ");
    var none: seq<string> := [];
    ParsedSnoc(none, "Account: blub  (123) ");
    assert none + ["Account: blub  (123) "] == ["Account: blub  (123) "];
    Maps.UpdatesSnoc(map[], ParsedAccounts(none), Some(("123", "blub")));
  }

  /** A page whose only div has no `(` after its first `:` gives an empty dictionary. */
  lemma SkippedAlone(heading: string, rest: string)
    requires ':' !in heading && '(' !in rest
    ensures AccountNames([heading + [':'] + rest]) == map[]
  {
    var text := heading + [':'] + rest;
    AfterFirstOf(heading, ':', rest);
    var none: seq<string> := [];
    assert none + [text] == [text];
    AccountNamesSkips(none, text);
  }

  /** The third example: a div without `(` is skipped. */
  lemma AccountNamesSkipExample(text: string)
    requires text == "Account: blub  123) "
    ensures AccountNames([text]) == map[]
  {
    var heading, rest := "Account", " blub  123) ";
    assert text == heading + [':'] + rest;
    assert forall i :: 0 <= i < |rest| ==> rest[i] != '(';
    SkippedAlone(heading, rest);
  }
}
