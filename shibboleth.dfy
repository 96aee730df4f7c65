/**
 * The Shibboleth branch of `authenticate` in aws_saml_login/saml.py: the
 * form posted back to the IdP holds the credentials, then one entry per
 * submit button found on the login page.
 */
module Shibboleth {
  import opened Outcomes
  import Maps

  /**
   * A `<button>` (or `<BUTTON>`) tag of the login page: its `name` and
   * `type` attributes when present, and its contents, each child taken as
   * its text.
   */
  datatype Button = Button(name: Option<string>, kind: Option<string>, contents: seq<string>)

  const UserKey: string := "j_username"
  const PasswordKey: string := "j_password"

  /** The dictionary before the button loop. */
  function Credentials(user: string, password: string): (data: map<string, string>)
    ensures data.Keys == {UserKey, PasswordKey}
    ensures data[UserKey] == user && data[PasswordKey] == password
  {
    map[UserKey := user, PasswordKey := password]
  }

  predicate IsSubmit(b: Button)
  {
    b.kind == Some("submit")
  }

  /** `submittag.get('name', '')`. */
  function NameOf(b: Button): (n: string)
    ensures b.name.Some? ==> n == b.name.value
    ensures b.name.None? ==> n == ""
  {
    if b.name.Some? then b.name.value else ""
  }

  /** Every button has a first child, so `submittag.contents[0]` never raises. */
  predicate AllHaveContents(buttons: seq<Button>)
  {
    forall i :: 0 <= i < |buttons| ==> buttons[i].contents != []
  }

  /** What one button contributes: `data[name] = contents[0]` for a submit button, nothing otherwise. */
  function Entry(b: Button): (e: Option<(string, string)>)
    requires b.contents != []
    ensures e.Some? <==> IsSubmit(b)
    ensures e.Some? ==> e.value == (NameOf(b), b.contents[0])
  {
    if IsSubmit(b) then Some((NameOf(b), b.contents[0])) else None
  }

  function Entries(buttons: seq<Button>): (es: seq<Option<(string, string)>>)
    requires AllHaveContents(buttons)
    ensures |es| == |buttons| && forall i :: 0 <= i < |buttons| ==> es[i] == Entry(buttons[i])
  {
    seq(|buttons|, i requires 0 <= i < |buttons| => Entry(buttons[i]))
  }

  /**
   * The data posted to the IdP: the credentials updated by the submit
   * buttons in page order, or IndexError as soon as a button has no contents.
   */
  function FormData(user: string, password: string, buttons: seq<Button>): (r: Result<map<string, string>>)
    ensures r.Ok? <==> AllHaveContents(buttons)
    ensures r.Err? ==> r.error == IndexOutOfRange
    ensures r.Ok? ==> UserKey in r.value && PasswordKey in r.value
  {
    if AllHaveContents(buttons) then Ok(Maps.Updates(Credentials(user, password), Entries(buttons)))
    else Err(IndexOutOfRange)
  }

  lemma EntriesSnoc(buttons: seq<Button>, b: Button)
    requires AllHaveContents(buttons + [b])
    ensures AllHaveContents(buttons) && b.contents != [] && Entries(buttons + [b]) == Entries(buttons) + [Entry(b)]
  {
    assert (buttons + [b])[|buttons|] == b;
    assert forall i :: 0 <= i < |buttons| ==> (buttons + [b])[i] == buttons[i];
  }

  /** The button loop, updating `data` one button at a time. */
  method BuildFormData(user: string, password: string, buttons: seq<Button>) returns (r: Result<map<string, string>>)
    ensures r == FormData(user, password, buttons)
  {
    var data := Credentials(user, password);
    for i := 0 to |buttons|
      invariant AllHaveContents(buttons[..i])
      invariant data == Maps.Updates(Credentials(user, password), Entries(buttons[..i]))
    {
      var b := buttons[i];
      if b.contents == [] {
        return Err(IndexOutOfRange);
      }
      var value := b.contents[0];
      assert buttons[..i + 1] == buttons[..i] + [b];
      EntriesSnoc(buttons[..i], b);
      Maps.UpdatesSnoc(Credentials(user, password), Entries(buttons[..i]), Entry(b));
      if IsSubmit(b) {
        data := data[NameOf(b) := value];
      }
    }
    assert buttons[..|buttons|] == buttons;
    return Ok(data);
  }

  /** The loop fails exactly when some button, submit or not, has no contents. */
  lemma FormDataFails(user: string, password: string, buttons: seq<Button>)
    ensures FormData(user, password, buttons).Err? <==> exists i :: 0 <= i < |buttons| && buttons[i].contents == []
    ensures FormData(user, password, buttons).Err? ==> FormData(user, password, buttons).error == IndexOutOfRange
  {
  }

  /** The posted keys are the two credential keys and the names of the submit buttons. */
  lemma FormDataKeys(user: string, password: string, buttons: seq<Button>)
    requires AllHaveContents(buttons)
    ensures FormData(user, password, buttons).Ok?
    ensures FormData(user, password, buttons).value.Keys ==
      {UserKey, PasswordKey} + set i | 0 <= i < |buttons| && IsSubmit(buttons[i]) :: NameOf(buttons[i])
  {
    var es := Entries(buttons);
    Maps.UpdatesKeys(Credentials(user, password), es);
    assert Maps.KeysOf(es) == set i | 0 <= i < |buttons| && IsSubmit(buttons[i]) :: NameOf(buttons[i]);
  }

  /** A submit button's first content is posted under its name unless a later submit button reuses the name. */
  lemma LastSubmitWins(user: string, password: string, buttons: seq<Button>, i: nat)
    requires AllHaveContents(buttons) && i < |buttons| && IsSubmit(buttons[i])
    requires forall j :: i < j < |buttons| && IsSubmit(buttons[j]) ==> NameOf(buttons[j]) != NameOf(buttons[i])
    ensures FormData(user, password, buttons).Ok?
    ensures NameOf(buttons[i]) in FormData(user, password, buttons).value
    ensures FormData(user, password, buttons).value[NameOf(buttons[i])] == buttons[i].contents[0]
  {
    Maps.LastWriteWins(Credentials(user, password), Entries(buttons), i);
  }

  /** A credential key keeps its value unless a submit button is named after it. */
  lemma CredentialKept(user: string, password: string, buttons: seq<Button>, key: string)
    requires AllHaveContents(buttons) && key in {UserKey, PasswordKey}
    requires forall j :: 0 <= j < |buttons| && IsSubmit(buttons[j]) ==> NameOf(buttons[j]) != key
    ensures FormData(user, password, buttons).Ok?
    ensures key in FormData(user, password, buttons).value
    ensures FormData(user, password, buttons).value[key] == Credentials(user, password)[key]
  {
    Maps.Untouched(Credentials(user, password), Entries(buttons), key);
  }

  /** A button that is not a submit button changes nothing, wherever it comes last. */
  lemma NonSubmitIgnored(user: string, password: string, buttons: seq<Button>, b: Button)
    requires !IsSubmit(b) && b.contents != []
    ensures FormData(user, password, buttons + [b]) == FormData(user, password, buttons)
  {
    if AllHaveContents(buttons) {
      EntriesSnoc(buttons, b);
      Maps.UpdatesSnoc(Credentials(user, password), Entries(buttons), Entry(b));
    } else {
      var i :| 0 <= i < |buttons| && buttons[i].contents == [];
      assert (buttons + [b])[i] == buttons[i];
    }
  }

  /** With no buttons, only the credentials are posted. */
  lemma NoButtons(user: string, password: string)
    ensures FormData(user, password, []) == Ok(map[UserKey := user, PasswordKey := password])
  {
    var none: seq<Button> := [];
    assert Entries(none) == [];
  }
}
