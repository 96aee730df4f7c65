/**
 * The in-memory part of `write_aws_credentials` in aws_saml_login/saml.py:
 * the credentials file as a map from profile (section) name to that
 * section's keys and values. Reading and writing the file is not modelled.
 */
module Credentials {
  import opened Outcomes

  type Config = map<string, map<string, string>>

  const KeyIdKey: string := "aws_access_key_id"
  const SecretKey: string := "aws_secret_access_key"
  const SessionTokenKey: string := "aws_session_token"
  const SecurityTokenKey: string := "aws_security_token"

  /** A token is written only when it is given and non-empty, as `if session_token:` decides. */
  predicate HasToken(token: Option<string>)
  {
    token.Some? && token.value != ""
  }

  /** The fresh section: key id and secret, then both token spellings when there is a token. */
  function Section(keyId: string, secret: string, token: Option<string>): (s: map<string, string>)
    ensures KeyIdKey in s && s[KeyIdKey] == keyId
    ensures SecretKey in s && s[SecretKey] == secret
    ensures HasToken(token) ==>
      (s.Keys == {KeyIdKey, SecretKey, SessionTokenKey, SecurityTokenKey} &&
       s[SessionTokenKey] == token.value && s[SecurityTokenKey] == token.value)
    ensures !HasToken(token) ==> s.Keys == {KeyIdKey, SecretKey}
  {
    var base := map[KeyIdKey := keyId, SecretKey := secret];
    if HasToken(token) then base[SessionTokenKey := token.value][SecurityTokenKey := token.value]
    else base
  }

  /** `config[profile] = {}` followed by the key assignments. */
  function WriteCredentials(config: Config, profile: string, keyId: string, secret: string, token: Option<string>): (c: Config)
    ensures c.Keys == config.Keys + {profile}
    ensures c[profile] == Section(keyId, secret, token)
  {
    config[profile := Section(keyId, secret, token)]
  }

  /** Every other profile is kept exactly as it was. */
  lemma OtherProfilesKept(config: Config, profile: string, keyId: string, secret: string, token: Option<string>, other: string)
    requires other in config && other != profile
    ensures other in WriteCredentials(config, profile, keyId, secret, token)
    ensures WriteCredentials(config, profile, keyId, secret, token)[other] == config[other]
  {
  }

  /**
   * The profile is replaced wholesale: a token left over from an earlier
   * write disappears when the new write has none.
   */
  lemma ProfileReplaced(config: Config, profile: string, keyId: string, secret: string, token: Option<string>)
    requires !HasToken(token)
    ensures SessionTokenKey !in WriteCredentials(config, profile, keyId, secret, token)[profile]
    ensures SecurityTokenKey !in WriteCredentials(config, profile, keyId, secret, token)[profile]
  {
  }

  /** Two writes to different profiles keep both, as the test of this function expects. */
  lemma TwoProfiles(config: Config)
    ensures var c := WriteCredentials(WriteCredentials(config, "pytest-dummy", "dummy-key-id", "very-secret", Some("session-token")),
                                      "pytest2-dummy", "asdfasdf", "0123456789", None);
      c["pytest-dummy"][KeyIdKey] == "dummy-key-id" &&
      c["pytest-dummy"][SecretKey] == "very-secret" &&
      c["pytest-dummy"][SessionTokenKey] == "session-token" &&
      c["pytest2-dummy"][KeyIdKey] == "asdfasdf" &&
      c["pytest2-dummy"][SecretKey] == "0123456789" &&
      SessionTokenKey !in c["pytest2-dummy"]
  {
    var first := WriteCredentials(config, "pytest-dummy", "dummy-key-id", "very-secret", Some("session-token"));
    OtherProfilesKept(first, "pytest2-dummy", "asdfasdf", "0123456789", None, "pytest-dummy");
  }
}
