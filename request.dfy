/**
  Request and response assembly: the object that owns a header, the attribute
  section and an optional payload, builds the mandatory attributes, and turns
  itself into bytes.
 */
module Request {
  import opened Base
  import opened Text
  import opened Ipp

  /** The rewrite `new` applies to a target URI: every "http" becomes "ipp". */
  function RewriteUri(uri: string): string
  {
    Replace(uri, "http", "ipp")
  }

  /** The mandatory `attributes-charset` attribute, "utf-8". */
  const CharsetAttribute: IppAttribute := IppAttribute(AttributesCharset, Charset("utf-8"))

  /** The mandatory `attributes-natural-language` attribute, "en". */
  const NaturalLanguageAttribute: IppAttribute := IppAttribute(AttributesNaturalLanguage, NaturalLanguage("en"))

  /** The `printer-uri` attribute `new` adds for a target URI. */
  function PrinterUriAttribute(uri: string): IppAttribute
  {
    IppAttribute(PrinterUri, Uri(RewriteUri(uri)))
  }

  /**
    The attribute section every request and response starts from: charset, then
    natural language, in one operation-attributes group, and nothing else.
   */
  function BootstrapAttributes(): (a: IppAttributes)
    ensures a.WellFormed()
    ensures a.groups == [IppAttributeGroup(OperationAttributes, [CharsetAttribute, NaturalLanguageAttribute])]
    ensures Entries(a.groups) == [(OperationAttributes, CharsetAttribute), (OperationAttributes, NaturalLanguageAttribute)]
    ensures !a.HasAttribute(PrinterUri)
  {
    var first := EmptyAttributes.Add(OperationAttributes, CharsetAttribute);
    assert first.groups == [IppAttributeGroup(OperationAttributes, [CharsetAttribute])];
    var a := first.Add(OperationAttributes, NaturalLanguageAttribute);
    assert |a.groups| == 1;
    assert a.groups[0].tag == OperationAttributes;
    assert a.groups[0].attributes == [CharsetAttribute, NaturalLanguageAttribute];
    assert a.groups == [a.groups[0]];
    a
  }

  /** The attribute section `new` builds for an optional target URI. */
  function RequestAttributes(uri: Option<string>): (a: IppAttributes)
    ensures a.WellFormed()
    ensures |a.groups| == 1 && a.groups[0].tag == OperationAttributes
    ensures |a.groups[0].attributes| == if uri.Some? then 3 else 2
    ensures a.groups[0].attributes[0] == CharsetAttribute
    ensures a.groups[0].attributes[1] == NaturalLanguageAttribute
    ensures uri.Some? ==> a.groups[0].attributes[2] == IppAttribute(PrinterUri, Uri(RewriteUri(uri.value)))
    ensures a.HasAttribute(PrinterUri) <==> uri.Some?
    ensures FindInGroup(a.groups[0], PrinterUri) == if uri.Some? then Some(PrinterUriAttribute(uri.value)) else None
    ensures uri.Some? ==> !Contains(a.groups[0].attributes[2].value.uri, "http")
  {
    match uri
    case None => BootstrapAttributes()
    case Some(u) =>
      RewriteUriRemovesHttp(u);
      BootstrapAttributes().Add(OperationAttributes, PrinterUriAttribute(u))
  }

  /** The bytes of the payload, none when there is no payload. */
  function PayloadData(payload: Option<IppPayload>): seq<u8>
  {
    match payload
    case Some(p) => p.data
    case None => []
  }

  /**
    What `to_bytes` produces: the header's bytes followed by the attribute
    section's bytes. Both regions can be cut back out of the result.
   */
  function MessageBytes(codec: Codec, header: IppHeader, attributes: IppAttributes): (r: seq<u8>)
    ensures |r| == |codec.headerBytes(header)| + |codec.attributeBytes(attributes)|
    ensures r[..|codec.headerBytes(header)|] == codec.headerBytes(header)
    ensures r[|codec.headerBytes(header)|..] == codec.attributeBytes(attributes)
  {
    codec.headerBytes(header) + codec.attributeBytes(attributes)
  }

  /**
    What the reader from `into_reader` yields: the message bytes, complete, and
    after them the payload's bytes, if there is a payload.
   */
  function StreamBytes(codec: Codec, header: IppHeader, attributes: IppAttributes, payload: Option<IppPayload>): (r: seq<u8>)
    ensures MessageBytes(codec, header, attributes) <= r
    ensures r[|MessageBytes(codec, header, attributes)|..] == PayloadData(payload)
    ensures |r| == |MessageBytes(codec, header, attributes)| + |PayloadData(payload)|
    ensures payload.None? ==> r == MessageBytes(codec, header, attributes)
  {
    match payload
    case Some(p) => MessageBytes(codec, header, attributes) + p.data
    case None => MessageBytes(codec, header, attributes)
  }

  /** `IppRequestResponse`: one header, one attribute section, at most one payload. */
  class IppRequestResponse {
    var header: IppHeader
    var attributes: IppAttributes
    var payload: Option<IppPayload>

    /**
      `new(version, operation, uri)`: a request with request id 1, the two
      mandatory attributes and, for a target URI, its `printer-uri`.
     */
    constructor New(version: IppVersion, operation: Operation, uri: Option<string>)
      ensures header == IppHeader(version, operation.code, 1)
      ensures attributes == RequestAttributes(uri)
      ensures payload == None
    {
      header := IppHeader(version, operation.code, 1);
      attributes := EmptyAttributes;
      payload := None;
      new;
      SetAttributes(attributes.Add(OperationAttributes, CharsetAttribute));
      SetAttributes(attributes.Add(OperationAttributes, NaturalLanguageAttribute));
      if uri.Some? {
        SetAttributes(attributes.Add(OperationAttributes, PrinterUriAttribute(uri.value)));
      }
    }

    /** `new_response(version, status, id)`: the caller's id and the two mandatory attributes. */
    constructor NewResponse(version: IppVersion, status: StatusCode, id: u32)
      ensures header == IppHeader(version, status.code, id)
      ensures attributes == BootstrapAttributes()
      ensures payload == None
    {
      header := IppHeader(version, status.code, id);
      attributes := EmptyAttributes;
      payload := None;
      new;
      SetAttributes(attributes.Add(OperationAttributes, CharsetAttribute));
      SetAttributes(attributes.Add(OperationAttributes, NaturalLanguageAttribute));
    }

    /** A write through `header_mut`: the header becomes `h`, nothing else changes. */
    method SetHeader(h: IppHeader)
      modifies this
      ensures header == h
      ensures attributes == old(attributes) && payload == old(payload)
    {
      header := h;
    }

    /** A write through `attributes_mut`: the attributes become `a`, nothing else changes. */
    method SetAttributes(a: IppAttributes)
      modifies this
      ensures attributes == a
      ensures header == old(header) && payload == old(payload)
    {
      attributes := a;
    }

    /** A write through `payload_mut`: the payload becomes `p`, nothing else changes. */
    method SetPayload(p: Option<IppPayload>)
      modifies this
      ensures payload == p
      ensures header == old(header) && attributes == old(attributes)
    {
      payload := p;
    }

    /** `to_bytes`: fills a buffer with the header's bytes, then the attributes' bytes. */
    method ToBytes(codec: Codec) returns (bytes: seq<u8>)
      ensures bytes == MessageBytes(codec, header, attributes)
    {
      var buffer: seq<u8> := [];
      buffer := buffer + codec.headerBytes(header);
      buffer := buffer + codec.attributeBytes(attributes);
      bytes := buffer;
    }

    /** `into_reader`: the message bytes, chained with the payload's bytes when there is a payload. */
    method IntoReader(codec: Codec) returns (stream: seq<u8>)
      ensures stream == StreamBytes(codec, header, attributes, payload)
    {
      var head := ToBytes(codec);
      match payload
      case Some(p) =>
        stream := head + p.data;
      case None =>
        stream := head;
    }
  }

  /** The printer URI a request carries never contains "http". */
  lemma RewriteUriRemovesHttp(uri: string)
    ensures !Contains(RewriteUri(uri), "http")
  {
    ReplaceRemoves(uri, "http", "ipp");
  }

  /** A URI without "http" is carried unchanged. */
  lemma RewriteUriWithoutHttp(uri: string)
    requires !Contains(uri, "http")
    ensures RewriteUri(uri) == uri
  {
    ReplaceWithoutMatch(uri, "http", "ipp");
  }

  /** The rewrite is undone by rewriting "ipp" back to "http", for URIs that held no "ipp". */
  lemma RewriteUriInverse(uri: string)
    requires !Contains(uri, "ipp")
    ensures Replace(RewriteUri(uri), "ipp", "http") == uri
  {
    ReplaceInverse(uri, "http", "ipp");
  }

  /** So two different URIs without "ipp" never give the same `printer-uri`. */
  lemma RewriteUriInjective(u: string, v: string)
    requires !Contains(u, "ipp") && !Contains(v, "ipp")
    requires RewriteUri(u) == RewriteUri(v)
    ensures u == v
  {
    RewriteUriInverse(u);
    RewriteUriInverse(v);
  }

  /** Each "http" rewritten shortens the URI by one character. */
  lemma RewriteUriLength(uri: string)
    ensures |RewriteUri(uri)| == |uri| - Matches(uri, "http")
    ensures |RewriteUri(uri)| < |uri| <==> Contains(uri, "http")
  {
    ReplaceLength(uri, "http", "ipp");
    MatchesCountsOccurrence(uri, "http");
  }

  /** Rewriting is idempotent: a second `new` from the carried URI carries the same URI. */
  lemma RewriteUriIdempotent(uri: string)
    ensures RewriteUri(RewriteUri(uri)) == RewriteUri(uri)
  {
    ReplaceIdempotent(uri, "http", "ipp");
  }

  /** A leading "http" scheme becomes "ipp"; the rest is carried as it is when it holds no "http". */
  lemma RewriteUriScheme(rest: string)
    requires !Contains(rest, "http")
    ensures RewriteUri("http" + rest) == "ipp" + rest
  {
    ReplaceAfterPattern(rest, "http", "ipp");
    ReplaceWithoutMatch(rest, "http", "ipp");
  }

  /** Likewise a leading "https" scheme becomes "ipps". */
  lemma RewriteUriSecureScheme(rest: string)
    requires !Contains(rest, "http")
    ensures RewriteUri("https" + rest) == "ipps" + rest
  {
    assert "https" + rest == "http" + ("s" + rest);
    ReplaceAfterPattern("s" + rest, "http", "ipp");
    ReplaceAfterPlain("s", rest, "http", "ipp");
    ReplaceWithoutMatch(rest, "http", "ipp");
    assert "ipp" + ("s" + rest) == "ipps" + rest;
  }

  /**
    The rewrite is not confined to the scheme: an "http" after a part free of
    'h' (a host name such as "myhttphost", say) is rewritten too.
   */
  lemma RewriteUriEveryOccurrence(a: string, b: string)
    requires 'h' !in a
    ensures RewriteUri(a + "http" + b) == a + "ipp" + RewriteUri(b)
  {
    assert a + "http" + b == a + ("http" + b);
    ReplaceAfterPlain(a, "http" + b, "http", "ipp");
    ReplaceAfterPattern(b, "http", "ipp");
    assert a + ("ipp" + RewriteUri(b)) == a + "ipp" + RewriteUri(b);
  }

  /** Worked case: "https://h/" is carried as "ipps://h/". */
  lemma RewriteUriSecureExample()
    ensures RewriteUri("https://h/") == "ipps://h/"
  {
    assert "https://h/" == "http" + ("s://" + "h/");
    ReplaceAfterPattern("s://h/", "http", "ipp");
    ReplaceAfterPlain("s://", "h/", "http", "ipp");
    ReplaceShort("h/", "http", "ipp");
  }

  /** The header and attribute bytes come first in the reader whatever the payload is. */
  lemma StreamStartsWithMessage(codec: Codec, header: IppHeader, attributes: IppAttributes, p: Option<IppPayload>, q: Option<IppPayload>)
    ensures var n := |MessageBytes(codec, header, attributes)|;
      StreamBytes(codec, header, attributes, p)[..n] == StreamBytes(codec, header, attributes, q)[..n]
  {
  }
}
