/**
  The protocol types the request/response object is built from: version,
  header, delimiter tags, attribute values, attributes and their groups, and
  the payload. Only what request assembly needs is given here; the wire
  encodings stay abstract (see `Codec`).
 */
module Ipp {
  import opened Base

  /** Protocol version, as its major and minor bytes. */
  datatype IppVersion = IppVersion(major: u8, minor: u8)

  /** An operation, known by its discriminant (`operation as u16`). */
  datatype Operation = Operation(code: u16)

  /** A response status, known by its discriminant (`status as u16`). */
  datatype StatusCode = StatusCode(code: u16)

  /**
    The message header. `code` is the operation code of a request and the status
    code of a response.
   */
  datatype IppHeader = IppHeader(version: IppVersion, code: u16, requestId: u32)

  /** Group delimiters; `EndOfAttributes` ends the attribute section. */
  datatype DelimiterTag =
    | OperationAttributes
    | JobAttributes
    | EndOfAttributes
    | PrinterAttributes
    | UnsupportedAttributes
    | SubscriptionAttributes
    | EventNotificationAttributes
    | ResourceAttributes
    | DocumentAttributes
    | SystemAttributes

  /**
    Attribute values. The three kinds request assembly creates are spelled out;
    every other kind is carried as its value tag and raw value bytes.
   */
  datatype IppValue =
    | Charset(charset: string)
    | NaturalLanguage(language: string)
    | Uri(uri: string)
    | Other(valueTag: u8, data: seq<u8>)

  datatype IppAttribute = IppAttribute(name: string, value: IppValue)

  /** The attribute names request assembly uses. */
  const AttributesCharset: string := "attributes-charset"
  const AttributesNaturalLanguage: string := "attributes-natural-language"
  const PrinterUri: string := "printer-uri"

  /** The attributes under one delimiter, in arrival order. */
  datatype IppAttributeGroup = IppAttributeGroup(tag: DelimiterTag, attributes: seq<IppAttribute>)

  /** Each attribute of a group paired with the group's tag. */
  function Tagged(g: IppAttributeGroup): seq<(DelimiterTag, IppAttribute)>
  {
    seq(|g.attributes|, i requires 0 <= i < |g.attributes| => (g.tag, g.attributes[i]))
  }

  /** Every attribute of `groups` with its tag, in arrival order. */
  function Entries(groups: seq<IppAttributeGroup>): seq<(DelimiterTag, IppAttribute)>
  {
    if groups == [] then []
    else Entries(groups[..|groups| - 1]) + Tagged(groups[|groups| - 1])
  }

  /**
    The whole attribute section: a sequence of groups, in which the same tag may
    come back after a different one (one printer-attributes group per printer).
   */
  datatype IppAttributes = IppAttributes(groups: seq<IppAttributeGroup>) {

    /** No empty group, and no two neighbouring groups with the same tag. */
    predicate WellFormed()
    {
      && (forall i :: 0 <= i < |groups| ==> groups[i].attributes != [])
      && (forall i :: 0 < i < |groups| ==> groups[i - 1].tag != groups[i].tag)
    }

    /** `name` is the name of some attribute in some group. */
    predicate HasAttribute(name: string)
    {
      exists i, j :: 0 <= i < |groups| && 0 <= j < |groups[i].attributes| && groups[i].attributes[j].name == name
    }

    /**
      `add(tag, attribute)`: the attribute joins the trailing group when that
      group has this tag, and opens a new group otherwise.
     */
    function Add(tag: DelimiterTag, attribute: IppAttribute): (r: IppAttributes)
      ensures Entries(r.groups) == Entries(groups) + [(tag, attribute)]
      ensures r.groups != [] && r.groups[|r.groups| - 1].tag == tag
      ensures |r.groups| == if groups != [] && groups[|groups| - 1].tag == tag then |groups| else |groups| + 1
      ensures forall i :: 0 <= i < |groups| && (i < |groups| - 1 || |r.groups| > |groups|) ==> r.groups[i] == groups[i]
      ensures r.groups[|r.groups| - 1].attributes ==
        (if |r.groups| == |groups| then groups[|groups| - 1].attributes else []) + [attribute]
      ensures WellFormed() ==> r.WellFormed()
    {
      if groups != [] && groups[|groups| - 1].tag == tag then
        var last := groups[|groups| - 1];
        var grown := IppAttributeGroup(tag, last.attributes + [attribute]);
        var r := IppAttributes(groups[..|groups| - 1] + [grown]);
        assert r.groups[..|r.groups| - 1] == groups[..|groups| - 1];
        assert Tagged(grown) == Tagged(last) + [(tag, attribute)];
        r
      else
        var r := IppAttributes(groups + [IppAttributeGroup(tag, [attribute])]);
        assert r.groups[..|r.groups| - 1] == groups;
        r
    }
  }

  /**
    Name lookup inside one group, `group.attributes()[name]`: the first attribute
    with that name, or `None` when there is none.
   */
  function FindInGroup(g: IppAttributeGroup, name: string): (r: Option<IppAttribute>)
    ensures r.Some? ==> r.value.name == name
    ensures r.Some? ==>
      exists j :: 0 <= j < |g.attributes| && g.attributes[j] == r.value &&
        forall k :: 0 <= k < j ==> g.attributes[k].name != name
    ensures r.None? <==> forall a :: a in g.attributes ==> a.name != name
    decreases |g.attributes|
  {
    if g.attributes == [] then None
    else if g.attributes[0].name == name then Some(g.attributes[0])
    else
      var r := FindInGroup(IppAttributeGroup(g.tag, g.attributes[1..]), name);
      assert r.Some? ==>
        exists j :: 0 <= j < |g.attributes| && g.attributes[j] == r.value &&
          forall k :: 0 <= k < j ==> g.attributes[k].name != name
      by {
        if r.Some? {
          var j :| 0 <= j < |g.attributes[1..]| && g.attributes[1..][j] == r.value &&
            forall k :: 0 <= k < j ==> g.attributes[1..][k].name != name;
          assert g.attributes[j + 1] == r.value;
          assert forall k :: 0 <= k < j + 1 ==> g.attributes[k].name != name by {
            forall k | 0 <= k < j + 1 ensures g.attributes[k].name != name {
              if k > 0 { assert g.attributes[k] == g.attributes[1..][k - 1]; }
            }
          }
        }
      }
      r
  }

  /** `IppAttributes::new()`. */
  const EmptyAttributes: IppAttributes := IppAttributes([])

  /** Document data. The source streams it; the model keeps the bytes the stream yields. */
  datatype IppPayload = IppPayload(data: seq<u8>)

  /**
    The two encoders the request object relies on, `IppHeader::to_bytes` and
    `IppAttributes::to_bytes`. Their wire formats are not part of this model, so
    every property below holds for any pair of encoders.
   */
  datatype Codec = Codec(headerBytes: IppHeader -> seq<u8>, attributeBytes: IppAttributes -> seq<u8>)
}
