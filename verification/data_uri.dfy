/** The `data:` URL of section 3 of RFC 2397 in its base64 form,
    `data:<mediatype>;base64,<data>`, and a parser that reads one back. */
module DataUri {
  import opened Wrappers
  import opened Strings
  import Base64

  const Scheme: string := "data:"
  const Base64Marker: string := ";base64"

  /** `f"data:{mime_type};base64,{img_base64}"`: the header, then four base64 characters for
      every started group of three bytes. */
  function Build(mime: string, data: seq<Base64.byte>): (uri: string)
    ensures StartsWith(uri, Scheme + mime + Base64Marker + ",")
    ensures |uri| == |Scheme + mime + Base64Marker| + 1 + 4 * ((|data| + 2) / 3)
  {
    var header := Scheme + mime + Base64Marker + ",";
    Base64.EncodeLength(data);
    assert (header + Base64.Encode(data))[..|header|] == header;
    header + Base64.Encode(data)
  }

  datatype Payload = Payload(mime: string, data: seq<Base64.byte>)

  /** Reads a base64 data URL: the media type runs up to the first comma and must end with
      ";base64"; everything after that comma is the base64 data. */
  function Parse(uri: string): Option<Payload> {
    if !StartsWith(uri, Scheme) then None
    else
      var rest := uri[|Scheme|..];
      match FindChar(rest, ',')
      case None => None
      case Some(k) =>
        var header := rest[..k];
        if !EndsWith(header, Base64Marker) then None
        else match Base64.Decode(rest[k + 1..])
          case None => None
          case Some(data) => Some(Payload(header[..|header| - |Base64Marker|], data))
  }

  /** Parsing a built URL recovers the media type and the bytes, as long as the media type
      holds no comma (no registered image type does). */
  lemma ParseBuild(mime: string, data: seq<Base64.byte>)
    requires ',' !in mime
    ensures Parse(Build(mime, data)) == Some(Payload(mime, data))
  {
    var encoded := Base64.Encode(data);
    var header := mime + Base64Marker;
    var rest := header + [','] + encoded;
    assert Build(mime, data) == Scheme + rest;
    assert (Scheme + rest)[|Scheme|..] == rest;
    SplitAtComma(header, encoded);
    Base64.DecodeEncode(data);
    assert header[..|header| - |Base64Marker|] == mime;
  }

  /** The first comma after a comma-free header is the one that follows it. */
  lemma SplitAtComma(header: string, encoded: string)
    requires ',' !in header
    ensures var rest := header + [','] + encoded;
            && FindChar(rest, ',') == Some(|header|)
            && rest[..|header|] == header && rest[|header| + 1..] == encoded
  {
    FindCharAfter(header, ',', encoded);
    assert (header + [','] + encoded)[..|header|] == header;
    assert (header + [','] + encoded)[|header| + 1..] == encoded;
  }
}
