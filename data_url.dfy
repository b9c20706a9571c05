/** The inline form of an uploaded file: a `data:` URL with a base-64 payload
    (section 3 of RFC 2397), and the parser that recovers the MIME type and the
    bytes from it without any other metadata. */
module DataUrl {
  import opened Types
  import opened Strings
  import Base64

  const Scheme := "data:"
  const Marker := ";base64,"

  /** "data:<mime>;base64,<base-64 of bytes>". */
  function DataUrl(mimeType: string, bytes: seq<byte>): (url: string)
    ensures StartsWith(url, Scheme)
  {
    Scheme + mimeType + Marker + Base64.Encode(bytes)
  }

  /** The position of the last `c` in `s`, if any. */
  function LastIndexOf(s: string, c: char): (r: Option<nat>)
    ensures r.Some? ==> r.value < |s| && s[r.value] == c
    ensures r.Some? ==> forall j :: r.value < j < |s| ==> s[j] != c
    ensures r.None? ==> forall j :: 0 <= j < |s| ==> s[j] != c
    decreases |s|
  {
    if s == [] then None
    else if s[|s| - 1] == c then Some(|s| - 1)
    else LastIndexOf(s[..|s| - 1], c)
  }

  /** The MIME type and bytes of a data URL. The payload is cut at the last `;`,
      which the base-64 alphabet never contains, so a MIME type holding `;` is
      read back whole. */
  function Parse(url: string): (r: Option<(string, seq<byte>)>)
  {
    if !StartsWith(url, Scheme) then None
    else
      match LastIndexOf(url, ';')
      case None => None
      case Some(i) =>
        if i < |Scheme| || !StartsWith(url[i..], Marker) then None
        else
          match Base64.Decode(url[i + |Marker|..])
          case None => None
          case Some(bytes) => Some((url[|Scheme|..i], bytes))
  }

  /** Parsing undoes building, for every MIME type and every byte sequence. */
  lemma ParseDataUrl(mimeType: string, bytes: seq<byte>)
    ensures Parse(DataUrl(mimeType, bytes)) == Some((mimeType, bytes))
  {
    var url := DataUrl(mimeType, bytes);
    var payload := Base64.Encode(bytes);
    var i := |Scheme| + |mimeType|;
    assert url == Scheme + mimeType + Marker + payload;
    assert url[i] == ';';
    forall j | i < j < |url|
      ensures url[j] != ';'
    {
      if j < i + |Marker| {
        assert url[j] == Marker[j - i];
      } else {
        assert url[j] == payload[j - i - |Marker|];
        assert Base64.IsEncodingChar(payload[j - i - |Marker|]);
      }
    }
    var last := LastIndexOf(url, ';');
    assert last == Some(i);
    assert url[i..][..|Marker|] == Marker;
    assert url[i + |Marker|..] == payload;
    assert url[|Scheme|..i] == mimeType;
    Base64.DecodeEncode(bytes);
  }
}
