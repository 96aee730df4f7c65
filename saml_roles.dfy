/**
 * `get_roles` of aws_saml_login/saml.py: the (provider ARN, role ARN)
 * pairs carried by the Role attribute of a SAML assertion. The XML parser's
 * output is given as an element tree; `find` and `findall` are the
 * ElementTree queries the function runs on it.
 */
module SamlRoles {
  import opened Outcomes
  import opened Text

  /** An XML element in ElementTree's terms: a Clark-notation tag, attributes, text and children. */
  datatype Element = Element(tag: string, attrs: map<string, string>, text: Option<string>, children: seq<Element>)

  const AssertionTag: string := "{urn:oasis:names:tc:SAML:2.0:assertion}Assertion"
  const AttributeTag: string := "{urn:oasis:names:tc:SAML:2.0:assertion}Attribute"
  const AttributeValueTag: string := "{urn:oasis:names:tc:SAML:2.0:assertion}AttributeValue"
  const RoleAttributeName: string := "https://aws.amazon.com/SAML/Attributes/Role"

  // ---------------------------------------------------------------------
  // The ElementTree queries

  /** `e.find(tag)`: the first child with that tag. */
  function FindChild(e: Element, tag: string): (r: Option<Element>)
    ensures r.Some? ==> r.value.tag == tag
    ensures r.None? <==> forall i :: 0 <= i < |e.children| ==> e.children[i].tag != tag
  {
    FirstWithTag(e.children, tag)
  }

  function FirstWithTag(es: seq<Element>, tag: string): (r: Option<Element>)
    ensures r.Some? ==> r.value.tag == tag
    ensures r.None? <==> forall i :: 0 <= i < |es| ==> es[i].tag != tag
  {
    if es == [] then None
    else if es[0].tag == tag then Some(es[0])
    else FirstWithTag(es[1..], tag)
  }

  /** `e.findall(tag)`: the children with that tag, in order. */
  function ChildrenWithTag(e: Element, tag: string): seq<Element>
  {
    WithTag(e.children, tag)
  }

  function WithTag(es: seq<Element>, tag: string): seq<Element>
  {
    if es == [] then []
    else (if es[0].tag == tag then [es[0]] else []) + WithTag(es[1..], tag)
  }

  /** Every element below `e` in document order (`e.iter()` without `e` itself). */
  function Descendants(e: Element): seq<Element>
    decreases e, 1
  {
    DescendantsOf(e.children)
  }

  function DescendantsOf(es: seq<Element>): seq<Element>
    decreases es, 0
  {
    if es == [] then []
    else [es[0]] + Descendants(es[0]) + DescendantsOf(es[1..])
  }

  predicate IsNamedAttribute(e: Element)
  {
    e.tag == AttributeTag && "Name" in e.attrs
  }

  predicate AllNamed(attributes: seq<Element>)
  {
    forall i :: 0 <= i < |attributes| ==> IsNamedAttribute(attributes[i])
  }

  function NamedOnly(es: seq<Element>): (r: seq<Element>)
    ensures AllNamed(r)
  {
    if es == [] then []
    else (if IsNamedAttribute(es[0]) then [es[0]] else []) + NamedOnly(es[1..])
  }

  /** `e.findall('.//<Attribute>[@Name]')`: the Attribute elements below `e` that have a Name. */
  function NamedAttributes(e: Element): (r: seq<Element>)
    ensures AllNamed(r)
  {
    NamedOnly(Descendants(e))
  }

  // ---------------------------------------------------------------------
  // What get_roles computes

  type Pair = (string, string)

  /**
   * `provider_arn, role_arn = val.text.split(',')`: a missing text raises
   * AttributeError, and a text that does not split into exactly two
   * parts raises ValueError.
   */
  function SplitPair(value: Element): (r: Result<Pair>)
    ensures value.text.None? ==> r == Err(NoneAttribute)
    ensures value.text.Some? ==> (r.Ok? <==> Count(value.text.value, ',') == 1)
    ensures r.Err? && value.text.Some? ==> r.error == UnpackMismatch
    ensures r.Ok? ==> r.value.0 + [','] + r.value.1 == value.text.value && ',' !in r.value.0 && ',' !in r.value.1
  {
    match value.text
    case None => Err(NoneAttribute)
    case Some(text) =>
      var parts := Split(text, ',');
      if |parts| != 2 then Err(UnpackMismatch)
      else
        JoinSplit(text, ',');
        assert Join(parts, ',') == parts[0] + [','] + parts[1];
        Ok((parts[0], parts[1]))
  }

  /** Two stretches of appending: the first failure wins, otherwise the pairs follow one another. */
  /** The only exceptions `get_roles` raises: a missing element or text, and a value that is not one `,`-separated pair. */
  predicate RolesFailure(e: Failure)
  {
    e == NoneAttribute || e == UnpackMismatch
  }

  function Then(first: Result<seq<Pair>>, second: Result<seq<Pair>>): Result<seq<Pair>>
  {
    if first.Err? then first else if second.Err? then second else Ok(first.value + second.value)
  }

  function Single(r: Result<Pair>): Result<seq<Pair>>
  {
    match r
    case Ok(p) => Ok([p])
    case Err(e) => Err(e)
  }

  lemma ThenAssociates(a: Result<seq<Pair>>, b: Result<seq<Pair>>, c: Result<seq<Pair>>)
    ensures Then(Then(a, b), c) == Then(a, Then(b, c))
  {
    if a.Ok? && b.Ok? && c.Ok? {
      assert (a.value + b.value) + c.value == a.value + (b.value + c.value);
    }
  }

  lemma ThenNothing(a: Result<seq<Pair>>)
    ensures Then(a, Ok([])) == a
  {
    if a.Ok? {
      assert a.value + [] == a.value;
    }
  }

  /** The pairs of some AttributeValue elements, in order, or the first failure among them. */
  function PairsOf(values: seq<Element>): (r: Result<seq<Pair>>)
    ensures r.Err? ==> RolesFailure(r.error)
  {
    if values == [] then Ok([])
    else Then(PairsOf(values[..|values| - 1]), Single(SplitPair(values[|values| - 1])))
  }

  /** The pairs one Attribute element contributes: none unless it is the Role attribute. */
  function PairsOfAttribute(attribute: Element): (r: Result<seq<Pair>>)
    requires IsNamedAttribute(attribute)
    ensures r.Err? ==> RolesFailure(r.error)
  {
    if attribute.attrs["Name"] == RoleAttributeName then PairsOf(ChildrenWithTag(attribute, AttributeValueTag))
    else Ok([])
  }

  /** The pairs of a run of Attribute elements, in order, or the first failure. */
  function PairsOfAttributes(attributes: seq<Element>): (r: Result<seq<Pair>>)
    requires AllNamed(attributes)
    ensures r.Err? ==> RolesFailure(r.error)
  {
    if attributes == [] then Ok([])
    else Then(PairsOfAttributes(attributes[..|attributes| - 1]), PairsOfAttribute(attributes[|attributes| - 1]))
  }

  /** What `get_roles` returns for a parsed document; an element without an Assertion child raises. */
  function Roles(root: Element): (r: Result<seq<Pair>>)
    ensures r.Err? ==> RolesFailure(r.error)
  {
    match FindChild(root, AssertionTag)
    case None => Err(NoneAttribute)
    case Some(assertion) => PairsOfAttributes(NamedAttributes(assertion))
  }

  lemma PairsSnoc(values: seq<Element>, value: Element)
    ensures PairsOf(values + [value]) == Then(PairsOf(values), Single(SplitPair(value)))
  {
    assert (values + [value])[..|values|] == values;
  }

  lemma AttributesSnoc(attributes: seq<Element>, attribute: Element)
    requires AllNamed(attributes) && IsNamedAttribute(attribute)
    ensures AllNamed(attributes + [attribute])
    ensures PairsOfAttributes(attributes + [attribute]) == Then(PairsOfAttributes(attributes), PairsOfAttribute(attribute))
  {
    assert (attributes + [attribute])[..|attributes|] == attributes;
  }

  // ---------------------------------------------------------------------
  // get_roles

  /** `get_roles` on the parsed document: the outer loop, over the named Attribute elements. */
  method GetRoles(root: Element) returns (r: Result<seq<Pair>>)
    ensures r == Roles(root)
  {
    var assertion := FindChild(root, AssertionTag);
    if assertion.None? {
      return Err(NoneAttribute);
    }
    var attributes := NamedAttributes(assertion.value);
    var roles: seq<Pair> := [];
    for i := 0 to |attributes|
      invariant PairsOfAttributes(attributes[..i]) == Ok(roles)
    {
      var attribute := attributes[i];
      AttributesSnoc(attributes[..i], attribute);
      assert attributes[..i + 1] == attributes[..i] + [attribute];
      if attribute.attrs["Name"] == RoleAttributeName {
        var extended := AppendPairs(roles, ChildrenWithTag(attribute, AttributeValueTag));
        if extended.Err? {
          assert PairsOfAttributes(attributes[..i + 1]) == extended;
          AttributesFailFirst(attributes, i + 1);
          return extended;
        }
        roles := extended.value;
      } else {
        ThenNothing(Ok(roles));
      }
    }
    assert attributes[..|attributes|] == attributes;
    return Ok(roles);
  }

  /** The inner loop: appends the pair of each AttributeValue to `roles`, stopping at the first failure. */
  method AppendPairs(roles: seq<Pair>, values: seq<Element>) returns (r: Result<seq<Pair>>)
    ensures r == Then(Ok(roles), PairsOf(values))
  {
    var extended := roles;
    assert values[..0] == [];
    ThenNothing(Ok(roles));
    for j := 0 to |values|
      invariant Then(Ok(roles), PairsOf(values[..j])) == Ok(extended)
    {
      PairsSnoc(values[..j], values[j]);
      assert values[..j + 1] == values[..j] + [values[j]];
      var pair := SplitPair(values[j]);
      if pair.Err? {
        PairsAppend(values[..j + 1], values[j + 1..]);
        assert values[..j + 1] + values[j + 1..] == values;
        return Err(pair.error);
      }
      ThenAssociates(Ok(roles), PairsOf(values[..j]), Single(pair));
      extended := extended + [pair.value];
    }
    assert values[..|values|] == values;
    return Ok(extended);
  }

  // ---------------------------------------------------------------------
  // Properties

  /** The pairs of two runs of values are those of the first run, then those of the second. */
  lemma {:induction false} PairsAppend(xs: seq<Element>, ys: seq<Element>)
    ensures PairsOf(xs + ys) == Then(PairsOf(xs), PairsOf(ys))
    decreases |ys|
  {
    if ys == [] {
      assert xs + ys == xs;
      ThenNothing(PairsOf(xs));
    } else {
      var n := |ys| - 1;
      PairsAppend(xs, ys[..n]);
      assert xs + ys == (xs + ys[..n]) + [ys[n]];
      PairsSnoc(xs + ys[..n], ys[n]);
      assert ys == ys[..n] + [ys[n]];
      PairsSnoc(ys[..n], ys[n]);
      ThenAssociates(PairsOf(xs), PairsOf(ys[..n]), Single(SplitPair(ys[n])));
    }
  }

  /** The run of values succeeds exactly when every value splits, and then gives each value's pair in order. */
  lemma {:induction false} PairsOfEach(values: seq<Element>)
    ensures PairsOf(values).Ok? <==> forall i :: 0 <= i < |values| ==> SplitPair(values[i]).Ok?
    ensures PairsOf(values).Ok? ==>
      |PairsOf(values).value| == |values| &&
      forall i :: 0 <= i < |values| ==> SplitPair(values[i]) == Ok(PairsOf(values).value[i])
  {
    if values != [] {
      var n := |values| - 1;
      PairsOfEach(values[..n]);
      assert forall i :: 0 <= i < n ==> values[..n][i] == values[i];
    }
  }

  /** The pairs of two runs of attributes are those of the first run, then those of the second. */
  lemma {:induction false} AttributesAppend(xs: seq<Element>, ys: seq<Element>)
    requires AllNamed(xs) && AllNamed(ys)
    ensures AllNamed(xs + ys)
    ensures PairsOfAttributes(xs + ys) == Then(PairsOfAttributes(xs), PairsOfAttributes(ys))
    decreases |ys|
  {
    if ys == [] {
      assert xs + ys == xs;
      ThenNothing(PairsOfAttributes(xs));
    } else {
      var n := |ys| - 1;
      assert AllNamed(ys[..n]) by {
        assert forall i :: 0 <= i < n ==> ys[..n][i] == ys[i];
      }
      AttributesAppend(xs, ys[..n]);
      assert xs + ys == (xs + ys[..n]) + [ys[n]];
      AttributesSnoc(xs + ys[..n], ys[n]);
      assert ys == ys[..n] + [ys[n]];
      AttributesSnoc(ys[..n], ys[n]);
      ThenAssociates(PairsOfAttributes(xs), PairsOfAttributes(ys[..n]), PairsOfAttribute(ys[n]));
    }
  }

  /** A failure among the first `k` attributes is the failure of the whole run. */
  lemma AttributesFailFirst(attributes: seq<Element>, k: nat)
    requires AllNamed(attributes) && k <= |attributes|
    ensures AllNamed(attributes[..k])
    ensures PairsOfAttributes(attributes[..k]).Err? ==> PairsOfAttributes(attributes) == PairsOfAttributes(attributes[..k])
  {
    NamedSlices(attributes, k);
    if PairsOfAttributes(attributes[..k]).Err? {
      AttributesAppend(attributes[..k], attributes[k..]);
      ThenFailed(PairsOfAttributes(attributes[..k]), PairsOfAttributes(attributes[k..]));
    }
  }

  lemma NamedSlices(attributes: seq<Element>, k: nat)
    requires AllNamed(attributes) && k <= |attributes|
    ensures AllNamed(attributes[..k]) && AllNamed(attributes[k..])
    ensures attributes[..k] + attributes[k..] == attributes
  {
    assert forall i :: 0 <= i < k ==> attributes[..k][i] == attributes[i];
    assert forall i :: 0 <= i < |attributes| - k ==> attributes[k..][i] == attributes[k + i];
  }

  lemma ThenFailed(a: Result<seq<Pair>>, b: Result<seq<Pair>>)
    requires a.Err?
    ensures Then(a, b) == a
  {
  }

  /**
   * One pair per AttributeValue, in order, each the value's text split at
   * its one comma; any value that does not split so makes the whole call fail.
   */
  lemma {:induction false} PairsOfValues(values: seq<Element>)
    ensures PairsOf(values).Ok? <==> forall i :: 0 <= i < |values| ==> SplitPair(values[i]).Ok?
    ensures PairsOf(values).Ok? ==> (|PairsOf(values).value| == |values| &&
      forall i :: 0 <= i < |values| ==> PairsOf(values).value[i] == SplitPair(values[i]).value)
  {
    if values != [] {
      var n := |values| - 1;
      PairsOfValues(values[..n]);
      assert forall i :: 0 <= i < n ==> values[..n][i] == values[i];
    }
  }

  /** An attribute not named as the Role attribute contributes nothing. */
  lemma OtherAttributeIgnored(attributes: seq<Element>, other: Element)
    requires AllNamed(attributes)
    requires IsNamedAttribute(other) && other.attrs["Name"] != RoleAttributeName
    ensures AllNamed(attributes + [other])
    ensures PairsOfAttributes(attributes + [other]) == PairsOfAttributes(attributes)
  {
    AttributesSnoc(attributes, other);
    ThenNothing(PairsOfAttributes(attributes));
  }

  /** The Role attribute contributes the pairs of its AttributeValue children, after those before it. */
  lemma RoleAttributeAppends(attributes: seq<Element>, role: Element)
    requires AllNamed(attributes)
    requires IsNamedAttribute(role) && role.attrs["Name"] == RoleAttributeName
    ensures AllNamed(attributes + [role])
    ensures PairsOfAttributes(attributes + [role]) ==
      Then(PairsOfAttributes(attributes), PairsOf(ChildrenWithTag(role, AttributeValueTag)))
  {
    AttributesSnoc(attributes, role);
  }

  /** A document whose root has no Assertion child makes `get_roles` raise. */
  lemma NoAssertionFails(root: Element)
    requires forall i :: 0 <= i < |root.children| ==> root.children[i].tag != AssertionTag
    ensures Roles(root) == Err(NoneAttribute)
  {
  }

  // ---------------------------------------------------------------------
  // The example of the function's documentation

  const ExampleProvider: string := "arn:aws:iam::911:saml-provider/Shibboleth"
  const ExampleRole: string := "arn:aws:iam::911:role/Shibboleth-User"
  const ExampleValue: Element := Element(AttributeValueTag, map[], Some(ExampleProvider + "," + ExampleRole), [])
  const ExampleAttribute: Element :=
    Element(AttributeTag, map["FriendlyName" := "Role", "Name" := RoleAttributeName], None, [ExampleValue])
  const ExampleAssertion: Element := Element(AssertionTag, map[], None, [ExampleAttribute])
  const ExampleDocument: Element := Element("{urn:oasis:names:tc:SAML:2.0:assertion}xml", map[], None, [ExampleAssertion])

  /** A text with exactly one comma splits into the text before it and the text after it. */
  lemma PairOfText(value: Element, provider: string, role: string)
    requires ',' !in provider && ',' !in role && value.text == Some(provider + "," + role)
    ensures SplitPair(value) == Ok((provider, role))
  {
    assert provider + "," + role == provider + [','] + role;
    SplitAfterField(provider, ',', role);
    SplitNoSeparator(role, ',');
  }

  lemma ExampleValuePair()
    ensures PairsOf([ExampleValue]) == Ok([(ExampleProvider, ExampleRole)])
  {
    PairOfText(ExampleValue, ExampleProvider, ExampleRole);
    var none: seq<Element> := [];
    PairsSnoc(none, ExampleValue);
    assert none + [ExampleValue] == [ExampleValue];
    var pairs: seq<Pair> := [];
    assert pairs + [(ExampleProvider, ExampleRole)] == [(ExampleProvider, ExampleRole)];
  }

  lemma ExampleAttributes()
    ensures NamedAttributes(ExampleAssertion) == [ExampleAttribute]
    ensures ChildrenWithTag(ExampleAttribute, AttributeValueTag) == [ExampleValue]
  {
    assert Descendants(ExampleValue) == [];
    assert Descendants(ExampleAttribute) == [ExampleValue] by {
      assert [ExampleValue][1..] == [];
    }
    assert Descendants(ExampleAssertion) == [ExampleAttribute, ExampleValue] by {
      assert [ExampleAttribute][1..] == [];
    }
    assert NamedOnly([ExampleValue]) == [];
    assert [ExampleValue][1..] == [];
    assert ExampleAttribute.children == [ExampleValue];
    assert WithTag([ExampleValue], AttributeValueTag) == [ExampleValue] + WithTag([], AttributeValueTag);
    assert [ExampleAttribute, ExampleValue][1..] == [ExampleValue];
  }

  /** The example of the function's documentation, as the parser delivers it. */
  lemma RolesExample()
    ensures Roles(ExampleDocument) == Ok([(ExampleProvider, ExampleRole)])
  {
    ExampleValuePair();
    ExampleAttributes();
    var none: seq<Element> := [];
    AttributesSnoc(none, ExampleAttribute);
    assert none + [ExampleAttribute] == [ExampleAttribute];
    assert ExampleAttribute.attrs["Name"] == RoleAttributeName;
    assert PairsOfAttribute(ExampleAttribute) == Ok([(ExampleProvider, ExampleRole)]);
    var pairs: seq<Pair> := [];
    assert pairs + [(ExampleProvider, ExampleRole)] == [(ExampleProvider, ExampleRole)];
    assert FindChild(ExampleDocument, AssertionTag) == Some(ExampleAssertion);
  }
}
