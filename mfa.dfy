/**
 * The MFA strategies of aws_saml_login/mfa.py. Only the pass-through
 * strategy exists: it keeps the response it was built with and hands it back
 * unchanged. Responses and sessions are type parameters, since the strategy
 * never looks inside them.
 */
module Mfa {

  /** `MfaNone`: its one field is the response given to its constructor. */
  datatype MfaNone<R> = MfaNone(response: R) {

    /** `process()`: hands back the stored response. */
    function Process(): (r: R)
      ensures r == response
    {
      response
    }
  }

  /** `MfaNone(response, session)`: the session is not kept. */
  function NewMfaNone<R, S>(response: R, session: S): (m: MfaNone<R>)
    ensures m.Process() == response
  {
    MfaNone(response)
  }

  /** `MfaNone.detect(response, session)`: always the pass-through strategy. */
  function DetectNone<R, S>(response: R, session: S): (m: MfaNone<R>)
    ensures m == NewMfaNone(response, session)
  {
    NewMfaNone(response, session)
  }

  /** `Duo.detect(response, session)`: builds the pass-through strategy as well. */
  function DuoDetect<R, S>(response: R, session: S): (m: MfaNone<R>)
    ensures m == DetectNone(response, session)
  {
    MfaNone(response)
  }

  /** `DuoScript` subclasses `Duo` and adds nothing, so its `detect` is Duo's. */
  function DuoScriptDetect<R, S>(response: R, session: S): (m: MfaNone<R>)
    ensures m == DuoDetect(response, session)
  {
    DuoDetect(response, session)
  }

  /** Whatever the strategy was detected from, processing yields the response unchanged. */
  lemma DetectedPassThrough<R, S>(response: R, session: S)
    ensures DetectNone(response, session).Process() == response
    ensures DuoDetect(response, session).Process() == response
    ensures DuoScriptDetect(response, session).Process() == response
  {
  }

  /** The session plays no part: two sessions give the same strategy. */
  lemma SessionIgnored<R, S>(response: R, s1: S, s2: S)
    ensures NewMfaNone(response, s1) == NewMfaNone(response, s2)
    ensures DuoDetect(response, s1) == DuoDetect(response, s2)
  {
  }
}
