# aws-saml-login in Dafny

A model of the login logic of `aws-saml-login`. This is the command-line
helper that signs a user in to AWS through a SAML identity provider (IdP).
It proceeds in four stages:

1. It follows the login URL. It then either talks to an OpenAM IdP over its
   JSON API, or posts the credentials to a Shibboleth IdP's HTML form.
2. It runs the pass-through MFA strategy on the IdP's final page.
3. It reads the base64-encoded SAML assertion out of that page and posts it
   to AWS.
4. It returns the assertion's (provider ARN, role ARN) pairs, each with the
   account name that AWS's role-selection page shows for it.

The model works on already-parsed inputs:

- HTML pages become records: inputs, forms, buttons and the texts of the
  account-name divs.
- The SAML document becomes an ElementTree-like element tree.
- The network becomes a scripted session. It answers each request with the
  next of a given sequence of replies and records every request.

Python exceptions become `Err` values of a `Result`, one `Failure` per cause.

Modules, one per file:

| module | file | what it holds |
|---|---|---|
| `Outcomes` | `outcomes.dfy` | `Option`, `Result`, the failures, dictionary lookup |
| `Text` | `text.dfy` | the Python `str` operations the code uses |
| `Maps` | `maps.dfy` | a dictionary updated in a loop, as a fold |
| `Base64` | `base64.dfy` | the `codecs` base64 codec: RFC 4648 section 4 alphabet; lines of 76 characters as in section 6.8 of RFC 2045; lenient decoding |
| `Mfa` | `mfa.dfy` | `MfaNone`, `Duo`, `DuoScript` |
| `SamlPage` | `saml_page.dfy` | `get_saml_response`, `get_form_action`, `get_account_name`, `get_account_names` |
| `SamlRoles` | `saml_roles.dfy` | `get_roles` over an element tree |
| `OpenAm` | `openam.dfy` | the marker, the two derived URLs, the callback loops (in place, on an array) |
| `Shibboleth` | `shibboleth.dfy` | the form data built from the submit buttons |
| `Credentials` | `credentials.dfy` | the in-memory section update of `write_aws_credentials` |
| `Login` | `login.dfy` | `authenticate`: a `Session` class and methods over it, each proved equal to a specification function, with lemmas about that function |

The loops of the source are methods with loop invariants. Each is proved
equal to a function, and the properties are proved about that function:

- `GetAccountNames`
- `GetRoles` and `AppendPairs`
- `FillCallbacks`, which updates an array in place
- `BuildFormData`
- the `Login` methods that drive the `Session`

## Model

| member | source | states |
|---|---|---|
| Outcomes.Key | aws_saml_login/saml.py:173 | a dictionary lookup succeeds exactly when the key is present, with its value; otherwise it raises KeyError for that key |
| Text.Split | aws_saml_login/saml.py:85 | `split(sep)` gives one more part than there are separators, and no part contains the separator |
| Text.JoinSplit | aws_saml_login/saml.py:109 | joining the parts of a split with the separator gives back the original string |
| Text.SplitAfterField | aws_saml_login/saml.py:85 | a separator-free head becomes the first field of the split |
| Text.AfterFirst | aws_saml_login/saml.py:132 | `split(':', 1)[-1]` is the whole text when there is no `:`, else the text after the first `:` |
| Text.RSplitLast | aws_saml_login/saml.py:133 | `rsplit('(', 1)` unpacks into two parts exactly when there is a `(`; the second part has no `(` and the parts rejoin to the text |
| Text.Strip | aws_saml_login/saml.py:132-135 | `strip()` leaves a string with no leading or trailing whitespace |
| Text.StripPadded | aws_saml_login/saml.py:132 | whitespace around a trimmed string is exactly what `strip()` removes |
| Text.RStripChar | aws_saml_login/saml.py:132 | `rstrip(')')` drops a suffix made only of `)` and leaves a text that does not end in `)` |
| Text.Find | aws_saml_login/saml.py:168 | `index(marker)` is the first position where the marker occurs |
| Text.ReplaceFirst | aws_saml_login/saml.py:169 | `replace(marker, rep, 1)` replaces the first occurrence only, and changes nothing when there is none |
| Text.RemoveChar | aws_saml_login/saml.py:242 | `replace('\n', '')` leaves no newline and removes exactly the newlines |
| Maps.Updates | aws_saml_login/saml.py:136 | the loop never removes a key the dictionary had before it |
| Maps.UpdatesKeep | aws_saml_login/saml.py:136 | a property of every initial entry and of every assignment holds of every entry after the loop |
| Maps.Assignments | aws_saml_login/saml.py:130-139 | the loop's element-by-element actions: one per element, in order |
| Maps.UpdatesKeys | aws_saml_login/saml.py:136 | after the loop the keys are the initial keys plus every key assigned |
| Maps.LastWriteWins | aws_saml_login/saml.py:215 | a key's value is the one from the last assignment to it |
| Maps.Untouched | aws_saml_login/saml.py:208 | a key the loop never assigns keeps its initial value |
| Base64.Encode | aws_saml_login/saml.py:242 | encodes to 4 characters per started 3-byte group, all from the alphabet or `=` |
| Base64.EncodeLines | aws_saml_login/saml.py:226 | the line-wrapped encoding is empty exactly for empty input and holds only alphabet characters, `=` and newlines |
| Base64.RoundTrip | aws_saml_login/saml.py:242 | decoding inverts the unwrapped encoding |
| Base64.RoundTripLines | aws_saml_login/saml.py:226 | decoding inverts the 57-bytes-per-line encoding posted to AWS |
| Base64.StsAssertionUnwrapped | aws_saml_login/saml.py:242 | removing the newlines from the wrapped encoding gives the plain encoding |
| Base64.StsAssertionRoundTrip | aws_saml_login/saml.py:242 | the newline-free assertion sent to STS decodes back to the assertion |
| Base64.StsAssertion | aws_saml_login/saml.py:242 | the assertion sent to STS holds no newline |
| Base64.Significant | aws_saml_login/saml.py:65 | the characters the lenient decoder looks at: alphabet characters and `=`, never more than the input |
| Base64.DecodeIgnoresOthers | aws_saml_login/saml.py:65 | characters outside the alphabet and `=` (spaces, newlines) do not change the decoding |
| Base64.UnpaddedDecode | aws_saml_login/saml.py:65 | input without `=` fails to decode exactly when its alphabet characters do not fill whole groups of four |
| Base64.PaddingEndsInput | aws_saml_login/saml.py:65 | after the padding that closes an encoding, the rest of the input is ignored |
| Base64.DecodeExamples | aws_saml_login/saml.py:65 | `e` and `eA=` are rejected as incorrectly padded, `eA==` decodes to `x` |
| Base64.DecodeXml | aws_saml_login/saml.py:58-59 | `'eG1s'` decodes to the bytes of `xml` |
| Mfa.MfaNone.Process | aws_saml_login/mfa.py:7-8 | `process()` returns exactly the stored response |
| Mfa.NewMfaNone | aws_saml_login/mfa.py:4-5 | the constructed strategy processes to the response it was given |
| Mfa.DetectNone | aws_saml_login/mfa.py:10-12 | `MfaNone.detect` builds the same strategy as the constructor |
| Mfa.DuoDetect | aws_saml_login/mfa.py:14-18 | `Duo.detect` always yields the pass-through strategy |
| Mfa.DuoScriptDetect | aws_saml_login/mfa.py:21-22 | `DuoScript.detect` is `Duo.detect` |
| Mfa.DetectedPassThrough | aws_saml_login/mfa.py:2-18 | whichever `detect` is used, `process()` returns the response unchanged |
| Mfa.SessionIgnored | aws_saml_login/mfa.py:4-5 | the session plays no part in the strategy |
| SamlPage.DecodeValue | aws_saml_login/saml.py:64-65 | a missing value raises; a non-ASCII value fails to encode; otherwise the result is the base64 decoding or its padding error |
| SamlPage.GetSamlResponse | aws_saml_login/saml.py:52-66 | the result is None exactly when no input is named SAMLResponse |
| SamlPage.SamlResponseOfFirst | aws_saml_login/saml.py:63-66 | otherwise it is the decoding of the first such input's value only |
| SamlPage.SamlResponseOfPosted | aws_saml_login/saml.py:226 | a page carrying the encoding that `authenticate` posts gives back the encoded assertion |
| SamlPage.SamlResponseOfAssertion | aws_saml_login/saml.py:242 | the same for the newline-free encoding of `assume_role` |
| SamlPage.SamlResponseExamples | aws_saml_login/saml.py:56-59 | the two documented examples |
| SamlPage.GetFormAction | aws_saml_login/saml.py:69-75 | the action of the first form; a page without a form raises |
| SamlPage.FormActionExample | aws_saml_login/saml.py:71-72 | the documented example |
| SamlPage.GetAccountName | aws_saml_login/saml.py:78-87 | succeeds iff the ARN has at least five `:`-fields; then it is the map's entry for the fifth field, or None when the entry is absent (including an empty map) |
| SamlPage.ArnAccountName | aws_saml_login/saml.py:85 | in an IAM ARN the fifth field is the account number |
| SamlPage.AccountNameExample | aws_saml_login/saml.py:80-81 | the first documented example |
| SamlPage.UnknownAccountExample | aws_saml_login/saml.py:82-83 | the second documented example |
| SamlPage.ShortArnFails | aws_saml_login/saml.py:85 | an ARN with three fields raises IndexError |
| SamlPage.ParseAccount | aws_saml_login/saml.py:132-135 | a div is skipped iff no `(` follows its first `:`; the parsed name and number are trimmed, and the number has no `(` |
| SamlPage.AccountParsed | aws_saml_login/saml.py:132-135 | `label: name (number)`, with any padding, parses to that number and name |
| SamlPage.GetAccountNames | aws_saml_login/saml.py:114-140 | the loop builds the number-to-name dictionary of the divs, in page order |
| SamlPage.ParsedAccounts | aws_saml_login/saml.py:130-139 | one parse per div, in page order |
| SamlPage.ParsedSnoc | aws_saml_login/saml.py:130-139 | one more div adds its parse at the end |
| SamlPage.AccountNames | aws_saml_login/saml.py:129-140 | every number in the dictionary is stripped and holds no `(`, and every name is stripped |
| SamlPage.AccountNamesKeys | aws_saml_login/saml.py:136 | the numbers in the dictionary are exactly those of the divs that parse |
| SamlPage.AccountNamesLastWins | aws_saml_login/saml.py:136 | a number's name is the one from the last div giving that number |
| SamlPage.AccountNamesSkips | aws_saml_login/saml.py:137-139 | a div without `(` after its first `:` changes nothing |
| SamlPage.AccountNamesExamples | aws_saml_login/saml.py:118-122 | an empty page gives `{}`, and `Account: blub  (123) ` gives `{'123': 'blub'}` |
| SamlPage.SkippedAlone | aws_saml_login/saml.py:131-139 | a page whose only div has no `(` after its first `:` gives `{}` |
| SamlPage.AccountNamesSkipExample | aws_saml_login/saml.py:124-125 | the third documented example |
| SamlRoles.FindChild | aws_saml_login/saml.py:103 | `find` returns a child with the tag, and returns None iff no child has it |
| SamlRoles.NamedAttributes | aws_saml_login/saml.py:106 | every element found is an Attribute with a Name |
| SamlRoles.SplitPair | aws_saml_login/saml.py:109 | a missing text raises; the unpack succeeds iff the text has exactly one comma, and the two parts rejoin to it |
| SamlRoles.GetRoles | aws_saml_login/saml.py:90-111 | the outer loop returns the pairs of the named Attribute elements, in order, or the first failure |
| SamlRoles.AppendPairs | aws_saml_login/saml.py:108-110 | the inner loop appends each AttributeValue's pair after the pairs so far, stopping at the first failure |
| SamlRoles.PairsAppend | aws_saml_login/saml.py:108 | the pairs of two runs of values are those of the first run, then those of the second |
| SamlRoles.AttributesAppend | aws_saml_login/saml.py:106 | the same for two runs of attributes |
| SamlRoles.PairsOf | aws_saml_login/saml.py:108-110 | the inner loop raises only AttributeError or ValueError |
| SamlRoles.PairsOfEach | aws_saml_login/saml.py:108-110 | the inner loop succeeds exactly when every value splits, and then yields each value's pair in order |
| SamlRoles.PairsOfAttribute | aws_saml_login/saml.py:107-110 | one attribute raises only AttributeError or ValueError |
| SamlRoles.PairsOfAttributes | aws_saml_login/saml.py:106-110 | the outer loop raises only AttributeError or ValueError |
| SamlRoles.Roles | aws_saml_login/saml.py:101-111 | `get_roles` raises only AttributeError (no Assertion, no text) or ValueError (a value that is not one pair) |
| SamlRoles.PairsOfValues | aws_saml_login/saml.py:108-110 | one pair per AttributeValue, in order; the call fails iff some value does not split |
| SamlRoles.OtherAttributeIgnored | aws_saml_login/saml.py:107 | an attribute not named as the Role attribute contributes nothing |
| SamlRoles.RoleAttributeAppends | aws_saml_login/saml.py:107-110 | the Role attribute adds the pairs of its AttributeValue children after those before it |
| SamlRoles.NoAssertionFails | aws_saml_login/saml.py:103-106 | a document without an Assertion raises |
| SamlRoles.PairOfText | aws_saml_login/saml.py:109 | a text with one comma splits into the text before and after it |
| SamlRoles.RolesExample | aws_saml_login/saml.py:94-99 | the documented example gives its one pair |
| OpenAm.ServerInfoUrl | aws_saml_login/saml.py:168 | the reached URL up to the first marker, followed by `json/serverinfo/*` |
| OpenAm.AuthenticateUrl | aws_saml_login/saml.py:169 | the reached URL with only its first marker replaced by `json/authenticate?` |
| OpenAm.OpenAmIffMarker | aws_saml_login/saml.py:167 | the OpenAM branch is taken iff the marker occurs in the reached URL |
| OpenAm.OpenAmUrls | aws_saml_login/saml.py:166-169 | for a marker-free prefix, the marker and a tail, the URLs are the prefix plus its path, and the prefix plus path plus the tail, which may hold further markers |
| OpenAm.CredentialRules | aws_saml_login/saml.py:181-184 | the credentials round fills NameCallback with the user and PasswordCallback with the password |
| OpenAm.OtpRules | aws_saml_login/saml.py:194-195 | the OTP round fills only PasswordCallback, with the code |
| OpenAm.FillOne | aws_saml_login/saml.py:180-184 | a ruled callback gets its first input's value set and nothing else changed; other callbacks are left alone; a ruled callback without inputs raises IndexError |
| OpenAm.FillCallbacks | aws_saml_login/saml.py:180-184 | the in-place loop succeeds iff every callback fills; then the array holds the filled list; otherwise it reports the first failure |
| OpenAm.FillFailurePersists | aws_saml_login/saml.py:180-184 | a failure among the first callbacks is the failure of the whole loop |
| OpenAm.FillAll | aws_saml_login/saml.py:180-184 | the callback loop fails only with IndexError, and otherwise keeps the number of callbacks |
| OpenAm.FillAllMeaning | aws_saml_login/saml.py:180-184 | the loop succeeds iff each callback fills, and then keeps count and order, filling each one |
| OpenAm.CredentialsRound | aws_saml_login/saml.py:180-184 | user into every NameCallback, password into every PasswordCallback, other callbacks unchanged, type and count kept |
| OpenAm.OtpRound | aws_saml_login/saml.py:193-195 | the code into every PasswordCallback, all other callbacks unchanged |
| Shibboleth.Credentials | aws_saml_login/saml.py:208 | the form starts with exactly `j_username` and `j_password` |
| Shibboleth.NameOf | aws_saml_login/saml.py:212 | a button's name, or `''` when it has none |
| Shibboleth.Entry | aws_saml_login/saml.py:212-215 | a button contributes iff it is a submit button, and then contributes its name and first content |
| Shibboleth.BuildFormData | aws_saml_login/saml.py:207-215 | the button loop computes the credentials updated by the submit buttons in page order, or IndexError |
| Shibboleth.FormData | aws_saml_login/saml.py:207-215 | the form is built exactly when every button has contents, fails otherwise with IndexError, and always holds both credential keys |
| Shibboleth.FormDataFails | aws_saml_login/saml.py:213 | the loop raises IndexError iff some button, submit or not, has no contents |
| Shibboleth.FormDataKeys | aws_saml_login/saml.py:208-215 | the posted keys are the two credential keys and the submit buttons' names |
| Shibboleth.LastSubmitWins | aws_saml_login/saml.py:214-215 | a submit button's first content is posted under its name unless a later submit button reuses the name |
| Shibboleth.CredentialKept | aws_saml_login/saml.py:208 | a credential stays unless a submit button is named after its key |
| Shibboleth.NonSubmitIgnored | aws_saml_login/saml.py:214 | a button that is not a submit button changes nothing |
| Shibboleth.NoButtons | aws_saml_login/saml.py:208 | without buttons only the credentials are posted |
| Credentials.Section | aws_saml_login/saml.py:40-46 | a new section holds key id and secret, plus both token keys exactly when a non-empty token is given |
| Credentials.WriteCredentials | aws_saml_login/saml.py:40 | the profile is added or replaced by that section |
| Credentials.OtherProfilesKept | aws_saml_login/saml.py:40 | every other profile is kept as it was |
| Credentials.ProfileReplaced | aws_saml_login/saml.py:40-46 | a rewrite without a token drops earlier token keys |
| Credentials.TwoProfiles | tests/test_console.py:40-55 | two writes to different profiles keep both, as the test expects |
| Login.Exchange | aws_saml_login/saml.py:164 | a request is recorded and answered by the next reply, or raises a connection error when none is left |
| Login.Session.constructor | aws_saml_login/saml.py:162 | a fresh session has the replies, no requests and no cookies |
| Login.Session.Send | aws_saml_login/saml.py:164 | sending changes the session exactly as the exchange does |
| Login.Session.SetCookie | aws_saml_login/saml.py:203 | sets one cookie and changes nothing else |
| Login.ServerInfo | aws_saml_login/saml.py:171-173 | one GET of the server-info URL, no cookie changed |
| Login.SubmitCallbacks | aws_saml_login/saml.py:180-186 | filling and posting a form only adds requests and sets no cookie |
| Login.OpenAmAnswer | aws_saml_login/saml.py:175-197 | the login-form and credential POSTs, plus the OTP POST, make at least one request and set no cookie |
| Login.OpenAmPhase | aws_saml_login/saml.py:167-205 | the OpenAM branch starts with the server-info GET |
| Login.ShibbolethPhase | aws_saml_login/saml.py:207-217 | the Shibboleth branch only adds requests and sets no cookie |
| Login.SamlPhase | aws_saml_login/saml.py:221-236 | the SAML step only adds requests and sets no cookie; a successful one returns the non-empty assertion read from the page's SAMLResponse input |
| Login.LoginPhase | aws_saml_login/saml.py:167-217 | the branch only adds requests, and the Shibboleth branch sets no cookie |
| Login.ServerInfoFlow | aws_saml_login/saml.py:171-173 | the method does to the session what ServerInfo specifies |
| Login.SubmitCallbacksFlow | aws_saml_login/saml.py:180-186 | the in-place callback loop then the POST do what SubmitCallbacks specifies |
| Login.OpenAmFlow | aws_saml_login/saml.py:167-205 | the OpenAM branch on the session does what OpenAmPhase specifies |
| Login.ShibbolethFlow | aws_saml_login/saml.py:207-217 | the Shibboleth branch on the session does what ShibbolethPhase specifies |
| Login.SamlFlow | aws_saml_login/saml.py:221-236 | the SAML step on the session does what SamlPhase specifies |
| Login.AuthenticateSpec | aws_saml_login/saml.py:156-238 | the first request is the GET of the login URL, and a successful result holds a non-empty assertion |
| Login.Authenticate | aws_saml_login/saml.py:156-238 | `authenticate` on a fresh session ends with the result and session state of AuthenticateSpec |
| Login.AttachNames | aws_saml_login/saml.py:236 | the roles comprehension fails only with IndexError and otherwise gives one entry per pair |
| Login.Roster | aws_saml_login/saml.py:232-236 | a successful join keeps the assertion; a failed one failed to parse it, raised in `get_roles`, or raised IndexError naming a role |
| Login.AttachNamesMeaning | aws_saml_login/saml.py:236 | the roles comprehension keeps length and order and adds each role's account name; it fails iff some role ARN has fewer than five fields |
| Login.FirstRequest | aws_saml_login/saml.py:164 | the first request is the GET of the login URL; with no reply the login fails with a connection error |
| Login.AuthenticateUnfolds | aws_saml_login/saml.py:164-221 | after the first reply, the login branch runs, then the MFA pass-through hands its page to the SAML step |
| Login.BranchOpenAm | aws_saml_login/saml.py:167-172 | with the marker in the reached URL, the second request is the server-info GET |
| Login.BranchShibboleth | aws_saml_login/saml.py:206-217 | without it, the second request posts the Shibboleth form data to the reached URL, or the button loop fails; no cookie is set |
| Login.SubmitCallbacksSent | aws_saml_login/saml.py:180-186 | a form whose callbacks fill is posted filled, in one request |
| Login.AnswerAt | aws_saml_login/saml.py:189 | the checked answer is the OTP answer (the second) exactly when the credentials answer has a stage, and the credentials answer (the first) otherwise |
| Login.AnswerReached | aws_saml_login/saml.py:176-197 | replies that let the callbacks fill reach the checked answer after exactly the login-form, credential and (when asked) OTP POSTs |
| Login.AnswerOk | aws_saml_login/saml.py:176-197 | an answer is reached only through replies whose callbacks fill |
| Login.AnswerIndex | aws_saml_login/saml.py:189-199 | the checked reply is the fourth after the first exactly when the credentials answer has a stage, and the third otherwise |
| Login.ServerInfoRead | aws_saml_login/saml.py:172-173 | the server information names the cookie and uses one reply |
| Login.StatusCheckReached | aws_saml_login/saml.py:171-199 | the replies bring the branch to the status check with the cookie name, the checked answer and the expected requests |
| Login.OpenAmStatusDecides | aws_saml_login/saml.py:199-200 | once the status check is reached, AuthenticationFailed is raised iff the status is not 200 |
| Login.ServerInfoOk | aws_saml_login/saml.py:172-173 | a successful branch had a server-info reply naming the cookie |
| Login.OpenAmSucceeds | aws_saml_login/saml.py:171-205 | a successful branch got a 200 answer, set the named cookie to its token, made exactly the expected requests and returns the success URL's reply |
| Login.AuthenticateRejected | aws_saml_login/saml.py:199-200 | from `authenticate`: an OpenAM answer other than 200 fails the login with AuthenticationFailed |
| Login.NoSamlFails | aws_saml_login/saml.py:221-223 | a final page without a SAMLResponse input fails with AuthenticationFailed before anything is posted |
| Login.AuthenticateNoSaml | aws_saml_login/saml.py:219-223 | from `authenticate`: the same exit, whichever branch produced the page |
| Login.RosterOk | aws_saml_login/saml.py:232-236 | a successful join parsed the assertion, found its pairs and named each one |
| Login.SamlPosted | aws_saml_login/saml.py:221-227 | a successful SAML step read a non-empty assertion and made one POST of its encoding to the form action |
| Login.SamlSucceeds | aws_saml_login/saml.py:221-238 | a successful SAML step returns one entry per role pair of the assertion, in order, each with its account name from AWS's reply |
| Login.PostedSamlReadsBack | aws_saml_login/saml.py:226-227 | the value posted to AWS reads back as the same assertion |
| Login.AuthenticateSucceeds | aws_saml_login/saml.py:219-238 | a successful `authenticate` returns the assertion read from the IdP's final page and the roles of that assertion in order, with the provider and role of each pair and the account name looked up in the dictionary read from AWS's reply |

## Left out

- Text encodings: the SAML value is ASCII-checked and base64-decoded to bytes. The UTF-8 decode at aws_saml_login/saml.py:65 and the encode at lines 226 and 242 are not modelled. The assertion stays a byte sequence throughout.
- Base64.Decode: models the lenient decoder of `binascii.a2b_base64`: it skips characters outside the alphabet, stops at the closing padding and fails on an unfinished group (Base64.DecodeIgnoresOthers, Base64.PaddingEndsInput and Base64.UnpaddedDecode state these). Its strict mode and its error messages are not modelled.
- HTTP: real requests, redirects, TLS and timeouts are replaced by scripted replies. A reply's content does not depend on the cookies sent, so the cookie set at line 203 is only recorded.
- JSON and HTML parsing: replies arrive as records. The model reads only the keys the code reads, and `stage` only by its presence.
  - Callbacks whose `type` or `input` key is missing (a KeyError in the source) are not representable.
  - A callback list that is not a list is not representable either.
- BeautifulSoup, ElementTree and the `BUTTON|button` tag pattern are not modelled. Pages are records, and `ElementTree.fromstring` is the `parse` parameter of `Login.Authenticate`, where `None` stands for a parse error. `.//Attribute[@Name]` is modelled as a walk through the descendants in document order.
- The order in which dictionary keys are posted is not modelled, because the form data is a map.
- The OTP prompt `input(...)` at line 192 becomes the `otp` parameter. The model takes it up front even when no stage is asked for.
- `session.post(None, ...)` raises in `requests` when the form has no action. The model reports this as an `InvalidUrl` failure.
- The debug dump of AWS's reply into the file `aws_response` (lines 229-231) is not modelled.
- `write_aws_credentials` is not modelled beyond its in-memory section update: it creates the directory, reads and writes the file, and relies on configparser's DEFAULT section, none of which is modelled.
- `get_boto3_session` and the STS call in `assume_role` are boto3 calls and are not modelled. Only the newline-free assertion string of line 242 (`Base64.StsAssertion`) is modelled.
- `authenticate`'s `mfa_type` is fixed to `MfaNone`. `Duo` and `DuoScript` define no constructor taking a response, so `mfa_type=Duo` would raise TypeError. Their `detect` is modelled.
- Duo challenge handling (`isFound`, `getDuoAttributes`) does not exist in aws_saml_login/mfa.py, so it is not modelled.
- The `AuthenticationFailed` and `AssumeRoleFailed` exception classes are failure values. `AssumeRoleFailed`'s message is not modelled.
- Login.ServerInfo, Login.SubmitCallbacks, Login.OpenAmAnswer, Login.OpenAmPhase, Login.ShibbolethPhase, Login.SamlPhase, Login.LoginPhase: their own `ensures` state only how the session grows (and, for Login.SamlPhase, which assertion a success returns). What they compute is stated by the lemmas after them: Login.OpenAmSucceeds, Login.OpenAmStatusDecides, Login.BranchShibboleth and Login.SamlSucceeds.
