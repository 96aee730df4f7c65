/** Option and Result values, and the exceptions the login code can raise. */
module Outcomes {

  datatype Option<+T> = None | Some(value: T)

  /** The Python exceptions that escape from the modelled code, one per cause. */
  datatype Failure =
    | AuthenticationFailed      // the library's own exception (saml.py:143)
    | ConnectionError           // the HTTP exchange produced no reply
    | KeyMissing(key: string)   // KeyError on a JSON document
    | IndexOutOfRange           // IndexError on a list
    | NoneAttribute             // AttributeError: an expected element or attribute was None
    | NotAscii                  // UnicodeEncodeError from str.encode('ascii')
    | Base64Error               // binascii.Error: incorrect padding
    | UnpackMismatch            // ValueError: wrong number of values to unpack
    | InvalidUrl                // requests refuses to post to a missing URL
    | XmlParseError             // ElementTree.ParseError

  datatype Result<+T> = Ok(value: T) | Err(error: Failure) {
    predicate IsFailure() { Err? }

    function PropagateFailure<U>(): Result<U>
      requires Err?
    {
      Err(error)
    }

    function Extract(): T
      requires Ok?
    {
      value
    }
  }

  /** A dictionary lookup `d[key]`: a missing key raises KeyError. */
  function Key<T>(v: Option<T>, key: string): (r: Result<T>)
    ensures r.Ok? <==> v.Some?
    ensures v.Some? ==> r.value == v.value
    ensures v.None? ==> r.error == KeyMissing(key)
  {
    match v
    case Some(x) => Ok(x)
    case None => Err(KeyMissing(key))
  }
}
