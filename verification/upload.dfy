/** The upload step of the controller (`sendVideoToServer`): the POST request
    it builds for a finished clip, and the way the server's reply is folded
    into the published result text. Reading the file and the HTTP exchange
    itself are outside the model: the file's bytes arrive as an optional
    value and the reply as an already classified Reply. */
module Upload {
  import opened Wrappers
  import opened Utf8
  import Paths
  import Multipart

  /** The fixed endpoint the clip is posted to. */
  const ServerUrl: string := "http://10.232.41.56:5007/upload-video"
  /** The form field that carries the clip. */
  const FieldName: string := "video"
  /** The media type declared for the clip. */
  const MimeType: string := "video/quicktime"
  const HeaderPrefix: string := "multipart/form-data; boundary="

  datatype Request = Request(httpMethod: string, url: string, contentType: string, body: seq<uint8>)

  /** The value of the request's Content-Type header: a receiver reads the
      boundary back out of it, whatever the boundary is. */
  function ContentTypeHeader(boundary: string): (r: string)
    ensures BoundaryOf(r) == Some(boundary)
  {
    assert (HeaderPrefix + boundary)[..|HeaderPrefix|] == HeaderPrefix;
    HeaderPrefix + boundary
  }

  /** The boundary a receiver reads out of a Content-Type header value. */
  function BoundaryOf(header: string): (r: Option<string>)
    ensures r.Some? <==> |HeaderPrefix| <= |header| && header[..|HeaderPrefix|] == HeaderPrefix
    ensures r.Some? ==> header == HeaderPrefix + r.value
  {
    if |HeaderPrefix| <= |header| && header[..|HeaderPrefix|] == HeaderPrefix then
      Some(header[|HeaderPrefix|..])
    else
      None
  }

  /** The single file part: field "video", the clip's file name, the
      QuickTime media type and the clip's bytes. */
  function VideoPart(videoUrl: Paths.Path, data: seq<uint8>): Multipart.FilePart {
    Multipart.FilePart(FieldName, Paths.LastPathComponent(videoUrl), MimeType, data)
  }

  /** The request body: the encoded part when the file could be read,
      otherwise nothing at all. */
  function UploadBody(boundary: string, videoUrl: Paths.Path, contents: Option<seq<uint8>>): (r: seq<uint8>)
    ensures r == [] <==> contents.None?
    ensures contents.Some? ==> |r| > |contents.value|
  {
    match contents
    case None => []
    case Some(data) => Multipart.EncodePart(boundary, VideoPart(videoUrl, data))
  }

  /** The fixed field name and media type need no escaping. */
  lemma FixedValuesDelimitable()
    ensures '"' !in FieldName && '\r' !in MimeType
  {
  }

  /** What a receiver reads from the body of a readable clip whose file name
      can be quoted and whose bytes do not contain the boundary's delimiter:
      the field name, the file name, the media type and exactly the clip's
      bytes. */
  lemma UploadBodyReadBack(boundary: string, videoUrl: Paths.Path, contents: Option<seq<uint8>>)
    ensures contents.Some? && '"' !in Paths.LastPathComponent(videoUrl)
            && Multipart.DelimiterFree(boundary, contents.value) ==>
      Multipart.DecodePart(boundary, UploadBody(boundary, videoUrl, contents))
        == Some(Multipart.RawPart(Encode(FieldName), Encode(Paths.LastPathComponent(videoUrl)),
                                  Encode(MimeType), contents.value))
  {
    if contents.Some? && '"' !in Paths.LastPathComponent(videoUrl)
       && Multipart.DelimiterFree(boundary, contents.value) {
      var part := VideoPart(videoUrl, contents.value);
      FixedValuesDelimitable();
      assert Multipart.Delimitable(part);
      Multipart.PartRoundTrip(boundary, part);
      assert UploadBody(boundary, videoUrl, contents) == Multipart.EncodePart(boundary, part);
    }
  }

  /** The request `sendVideoToServer` hands to the network for one clip. */
  function VideoRequest(videoUrl: Paths.Path, boundary: string, contents: Option<seq<uint8>>): (r: Request)
    ensures r.httpMethod == "POST" && r.url == ServerUrl
    ensures BoundaryOf(r.contentType) == Some(boundary)
    ensures contents.None? ==> r.body == []
    ensures contents.Some? && '"' !in Paths.LastPathComponent(videoUrl)
            && Multipart.DelimiterFree(boundary, contents.value) ==>
      Multipart.DecodePart(boundary, r.body)
        == Some(Multipart.RawPart(Encode(FieldName), Encode(Paths.LastPathComponent(videoUrl)),
                                  Encode(MimeType), contents.value))
  {
    UploadBodyReadBack(boundary, videoUrl, contents);
    Request("POST", ServerUrl, ContentTypeHeader(boundary), UploadBody(boundary, videoUrl, contents))
  }

  /** A JSON value as far as the reducer looks at it. */
  datatype JsonValue = JString(text: string) | JOther

  /** The outcome of one upload, as the completion handler sees it. */
  datatype Reply =
    | TransportError                               // the URL session reported an error
    | NoData                                       // no error, but no body either
    | Malformed                                    // the body is not JSON
    | NotAnObject                                  // JSON, but not a dictionary
    | JsonObject(fields: map<string, JsonValue>)   // a dictionary

  /** The text the server sent back, if the reply carries a string "result". */
  function ResultText(reply: Reply): Option<string> {
    if reply.JsonObject? && "result" in reply.fields && reply.fields["result"].JString? then
      Some(reply.fields["result"].text)
    else
      None
  }

  /** The published text after a reply: the handler's sequence of early
      returns, each of which leaves the previous text in place. */
  function ApplyReply(previous: string, reply: Reply): (r: string)
    ensures ResultText(reply).Some? ==> r == ResultText(reply).value
    ensures ResultText(reply).None? ==> r == previous
  {
    match reply
    case TransportError => previous
    case NoData => previous
    case Malformed => previous
    case NotAnObject => previous
    case JsonObject(fields) =>
      if "result" in fields then
        match fields["result"]
        case JString(text) => text
        case JOther => previous
      else
        previous
  }

  /** A reply overwrites the previous text, independently of what it was,
      exactly when it carries a string "result". */
  lemma ReplyIgnoresPreviousIff(p1: string, p2: string, reply: Reply)
    requires p1 != p2
    ensures ApplyReply(p1, reply) == ApplyReply(p2, reply) <==> ResultText(reply).Some?
  {
  }

  /** Delivering the same reply twice publishes the same text as delivering it once. */
  lemma ApplyReplyIdempotent(previous: string, reply: Reply)
    ensures ApplyReply(ApplyReply(previous, reply), reply) == ApplyReply(previous, reply)
  {
  }
}
