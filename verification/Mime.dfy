/** Reading a message (internal/smtp/session.go): the bounded read of the raw bytes and the loop
    over its MIME parts. Decoding itself is abstract: parts come with what decoding them gives. */
module Mime {
  import opened Outcome
  import opened Text
  import opened Schema

  // ----- The bounded read -----

  // A connection's data, split into reads in some way; it ends in EOF or in a failure.
  class Reader {
    var chunks: seq<seq<byte>>
    const fails: bool

    constructor (chunks: seq<seq<byte>>, fails: bool)
      ensures this.chunks == chunks && this.fails == fails
    {
      this.chunks := chunks;
      this.fails := fails;
    }

    // Up to `size` bytes. The end (EOF or a failure) comes when nothing is left, or already
    // together with the last bytes.
    method Read(size: nat) returns (data: seq<byte>, done: bool)
      requires 0 < size
      modifies this
      ensures Bytes(old(chunks)) == data + Bytes(chunks) && |data| <= size
      ensures old(chunks) == [] ==> done
      ensures done ==> chunks == []
      ensures !done ==> Work(chunks) < Work(old(chunks))
    {
      if chunks == [] {
        return [], true;
      }
      var chunk := chunks[0];
      done := false;
      if |chunk| <= size {
        data, chunks := chunk, chunks[1..];
        var together: bool := *;
        done := together && chunks == [];
      } else {
        data := chunk[..size];
        chunks := [chunk[size..]] + chunks[1..];
        assert chunk == data + chunk[size..];
      }
    }
  }

  function Bytes(chunks: seq<seq<byte>>): seq<byte> {
    if chunks == [] then [] else chunks[0] + Bytes(chunks[1..])
  }

  function Work(chunks: seq<seq<byte>>): nat {
    |chunks| + |Bytes(chunks)|
  }

  datatype Raw = Read(bytes: seq<byte>) | TooLarge | ReadFailed

  /** However a stream is split into reads and whatever buffer sizes are used, the outcome
      depends on its bytes alone: all of them if they fit, too-large otherwise. A stream that ends
      in a failure is never accepted. In every case the stream is drained. */
  method ReadRawMessage(r: Reader, maxBytes: nat) returns (raw: Raw)
    modifies r
    ensures !r.fails ==> raw == if |Bytes(old(r.chunks))| <= maxBytes then Read(Bytes(old(r.chunks))) else TooLarge
    ensures r.fails && |Bytes(old(r.chunks))| <= maxBytes ==> raw == ReadFailed
    ensures r.fails && |Bytes(old(r.chunks))| == maxBytes + 1 ==> raw == ReadFailed || raw == TooLarge
    ensures r.fails && |Bytes(old(r.chunks))| > maxBytes + 1 ==> raw == TooLarge
    ensures r.chunks == []
  {
    ghost var all := Bytes(r.chunks);
    var bytes := [];
    var limit := maxBytes + 1;
    var done := false;
    // io.ReadAll over the limited reader
    while 0 < limit && !done
      invariant 0 <= limit && |bytes| + limit == maxBytes + 1
      invariant all == bytes + Bytes(r.chunks)
      invariant done ==> r.chunks == []
      decreases !done, Work(r.chunks)
    {
      var space: nat :| 0 < space;
      var data;
      data, done := r.Read(if space < limit then space else limit);
      bytes := bytes + data;
      limit := limit - |data|;
    }
    if done && r.fails {
      return ReadFailed;
    }
    if |bytes| > maxBytes {
      // io.Copy(io.Discard, r)
      done := false;
      while !done
        invariant done ==> r.chunks == []
        decreases !done, Work(r.chunks)
      {
        var _, end := r.Read(512);
        done := end;
      }
      return TooLarge;
    }
    raw := Read(bytes);
  }

  // ----- The part loop -----

  // A part's body: the bytes it yields, and whether reading fails after them.
  datatype Body = Body(content: seq<byte>, fails: bool)

  // A header field that does not parse is None. Broken is a part that cannot be opened.
  datatype Part =
    | Inline(contentType: Option<string>, text: Body)
    | Attached(filename: Option<string>, fileType: Option<string>, file: Body)
    | Skipped(rest: Body)
    | Broken

  datatype Failure = Unparsable | AttachmentTooLarge

  datatype Parsed = Parsed(bodyText: string, bodyHtml: string, attachments: seq<Attachment>)

  datatype ParseResult = Success(parsed: Parsed) | Refused(failure: Failure)

  function AsString(bytes: seq<byte>): string {
    seq(|bytes|, i requires 0 <= i < |bytes| => bytes[i] as char)
  }

  // io.ReadAll(io.LimitReader(body, n)): the limit may end the read before the failure.
  function ReadLimited(body: Body, n: nat): Option<seq<byte>> {
    if n <= |body.content| then Some(body.content[..n]) else if body.fails then None else Some(body.content)
  }

  // What is wrong with a part, if anything.
  function Fault(part: Part, maxAttachment: nat): Option<Failure> {
    match part
    case Broken => Some(Unparsable)
    case Skipped(rest) => if rest.fails then Some(Unparsable) else None
    case Inline(contentType, text) => if contentType.None? || text.fails then Some(Unparsable) else None
    case Attached(filename, fileType, file) =>
      if filename.None? || fileType.None? then Some(Unparsable)
      else if maxAttachment < |file.content| then Some(AttachmentTooLarge)
      else if file.fails then Some(Unparsable)
      else None
  }

  // A non-empty inline part of the given type (compared in lower case).
  predicate Carries(part: Part, mediaType: string) {
    part.Inline? && part.contentType.Some? && Lower(part.contentType.value) == mediaType && part.text.content != []
  }

  function AsAttachment(part: Part): Attachment
    requires part.Attached?
  {
    Attachment(0, 0, if part.filename.None? || part.filename.value == "" then "attachment" else part.filename.value,
               if part.fileType.None? || part.fileType.value == "" then "application/octet-stream"
               else part.fileType.value,
               |part.file.content|, part.file.content)
  }

  // The attachment parts in order.
  function AttachmentsIn(parts: seq<Part>): seq<Attachment> {
    if parts == [] then [] else
    var last := parts[|parts| - 1];
    AttachmentsIn(parts[..|parts| - 1])
      + if last.Attached? then [AsAttachment(last)] else []
  }

  function TextIn(parts: seq<Part>, mediaType: string): string {
    if parts == [] then "" else
    var before, last := TextIn(parts[..|parts| - 1], mediaType), parts[|parts| - 1];
    if before == "" && Carries(last, mediaType) then AsString(last.text.content) else before
  }

  function FaultIn(parts: seq<Part>, maxAttachment: nat): Option<Failure> {
    if parts == [] then None else
    var before := FaultIn(parts[..|parts| - 1], maxAttachment);
    if before.Some? then before else Fault(parts[|parts| - 1], maxAttachment)
  }

  function Parse(parts: seq<Part>, maxAttachment: nat): ParseResult {
    match FaultIn(parts, maxAttachment)
    case Some(failure) => Refused(failure)
    case None => Success(Parsed(TextIn(parts, "text/plain"), TextIn(parts, "text/html"), AttachmentsIn(parts)))
  }

  method ReadAttachment(part: Part, maxAttachment: nat) returns (result: Option<Attachment>, failure: Failure)
    requires part.Attached?
    ensures Fault(part, maxAttachment).Some? ==> result.None? && failure == Fault(part, maxAttachment).value
    ensures Fault(part, maxAttachment).None? ==>
              && result == Some(AsAttachment(part)) && MadeFrom(result.value, part)
              && result.value.sizeBytes == |result.value.content| <= maxAttachment
  {
    failure := Unparsable;
    if part.filename.None? || part.fileType.None? {
      return None, Unparsable;
    }
    var filename := if part.filename.value == "" then "attachment" else part.filename.value;
    var fileType := if part.fileType.value == "" then "application/octet-stream" else part.fileType.value;
    var content := ReadLimited(part.file, maxAttachment + 1);
    if content.None? {
      return None, Unparsable;
    }
    if |content.value| > maxAttachment {
      return None, AttachmentTooLarge;
    }
    result := Some(Attachment(0, 0, filename, fileType, |content.value|, content.value));
  }

  method ParseParts(parts: seq<Part>, maxAttachment: nat) returns (result: ParseResult)
    ensures result == Parse(parts, maxAttachment)
  {
    var bodyText, bodyHtml := "", "";
    var attachments := [];
    for i := 0 to |parts|
      invariant FaultIn(parts[..i], maxAttachment).None?
      invariant bodyText == TextIn(parts[..i], "text/plain")
      invariant bodyHtml == TextIn(parts[..i], "text/html")
      invariant attachments == AttachmentsIn(parts[..i])
    {
      var part := parts[i];
      assert parts[..i + 1][..i] == parts[..i] && parts[..i + 1][i] == part;
      if Fault(part, maxAttachment).Some? {
        FirstFaultDecides(parts, maxAttachment, i);
      }
      match part
      case Broken => return Refused(Unparsable);
      case Inline(contentType, text) =>
        if contentType.None? || text.fails {
          return Refused(Unparsable);
        }
        var mediaType := Lower(contentType.value);
        if mediaType == "text/plain" {
          if bodyText == "" && |text.content| > 0 { bodyText := AsString(text.content); }
        } else if mediaType == "text/html" {
          if bodyHtml == "" && |text.content| > 0 { bodyHtml := AsString(text.content); }
        }
      case Attached(_, _, _) =>
        var attachment, failure := ReadAttachment(part, maxAttachment);
        if attachment.None? {
          return Refused(failure);
        }
        attachments := attachments + [attachment.value];
      case Skipped(rest) =>
        if rest.fails {
          return Refused(Unparsable);
        }
    }
    assert parts[..|parts|] == parts;
    result := Success(Parsed(bodyText, bodyHtml, attachments));
  }

  // A fault decides, however many parts follow it.
  lemma {:induction false} FirstFaultDecides(parts: seq<Part>, maxAttachment: nat, i: nat)
    requires i < |parts| && FaultIn(parts[..i], maxAttachment).None? && Fault(parts[i], maxAttachment).Some?
    ensures FaultIn(parts, maxAttachment) == Fault(parts[i], maxAttachment)
  {
    var n := |parts| - 1;
    if i < n {
      assert parts[..n][..i] == parts[..i];
      FirstFaultDecides(parts[..n], maxAttachment, i);
    }
  }

  lemma {:induction false} FaultInIsFirst(parts: seq<Part>, maxAttachment: nat)
    ensures FaultIn(parts, maxAttachment).None?
       <==> forall i :: 0 <= i < |parts| ==> Fault(parts[i], maxAttachment).None?
    ensures FaultIn(parts, maxAttachment).Some? ==>
              exists i :: 0 <= i < |parts| && Fault(parts[i], maxAttachment) == FaultIn(parts, maxAttachment)
                          && forall j :: 0 <= j < i ==> Fault(parts[j], maxAttachment).None?
  {
    if parts != [] {
      var init := parts[..|parts| - 1];
      FaultInIsFirst(init, maxAttachment);
      assert forall i :: 0 <= i < |init| ==> init[i] == parts[i];
      if FaultIn(init, maxAttachment).Some? {
        var i :| 0 <= i < |init| && Fault(init[i], maxAttachment) == FaultIn(init, maxAttachment)
                 && forall j :: 0 <= j < i ==> Fault(init[j], maxAttachment).None?;
        assert Fault(parts[i], maxAttachment) == FaultIn(parts, maxAttachment);
      }
    }
  }

  lemma {:induction false} TextInIsFirst(parts: seq<Part>, mediaType: string)
    ensures TextIn(parts, mediaType) == "" <==> forall i :: 0 <= i < |parts| ==> !Carries(parts[i], mediaType)
    ensures TextIn(parts, mediaType) != "" ==>
              exists i :: 0 <= i < |parts| && Carries(parts[i], mediaType)
                          && TextIn(parts, mediaType) == AsString(parts[i].text.content)
                          && forall j :: 0 <= j < i ==> !Carries(parts[j], mediaType)
  {
    if parts != [] {
      var init := parts[..|parts| - 1];
      TextInIsFirst(init, mediaType);
      assert forall i :: 0 <= i < |init| ==> init[i] == parts[i];
      if TextIn(init, mediaType) != "" {
        var i :| 0 <= i < |init| && Carries(init[i], mediaType)
                 && TextIn(init, mediaType) == AsString(init[i].text.content)
                 && forall j :: 0 <= j < i ==> !Carries(init[j], mediaType);
        assert Carries(parts[i], mediaType);
      } else if Carries(parts[|parts| - 1], mediaType) {
        assert |AsString(parts[|parts| - 1].text.content)| != 0;
      }
    }
  }

  lemma {:induction false} AttachmentsAreWhole(parts: seq<Part>, maxAttachment: nat)
    requires FaultIn(parts, maxAttachment).None?
    ensures forall a <- AttachmentsIn(parts) :: a.sizeBytes == |a.content| <= maxAttachment
  {
    if parts != [] {
      AttachmentsAreWhole(parts[..|parts| - 1], maxAttachment);
    }
  }

  // ----- What the loop's result means -----

  predicate SameBytes(text: string, bytes: seq<byte>) {
    |text| == |bytes| && forall i :: 0 <= i < |text| ==> text[i] as int == bytes[i] as int
  }

  /** A non-empty inline part of the type, in whatever case it is written. */
  predicate IsText(part: Part, mediaType: string) {
    part.Inline? && part.contentType.Some? && SameButCase(part.contentType.value, mediaType) && part.text.content != []
  }

  /** An attachment that is over the limit, whether or not all of it could be read. */
  predicate TooBig(part: Part, maxAttachment: nat) {
    part.Attached? && part.filename.Some? && part.fileType.Some? && maxAttachment < |part.file.content|
  }

  /** A part that cannot be opened, has a header that does not parse, or breaks off within what is read of it. */
  predicate Unreadable(part: Part, maxAttachment: nat) {
    || part.Broken?
    || (part.Skipped? && part.rest.fails)
    || (part.Inline? && (part.contentType.None? || part.text.fails))
    || (part.Attached? && (part.filename.None? || part.fileType.None?
                           || (|part.file.content| <= maxAttachment && part.file.fails)))
  }

  predicate Sound(part: Part, maxAttachment: nat) {
    !TooBig(part, maxAttachment) && !Unreadable(part, maxAttachment)
  }

  /** The attachment has the part's name and type, or the default for an empty one, and its whole content. */
  predicate MadeFrom(a: Attachment, part: Part) {
    && part.Attached? && part.filename.Some? && part.fileType.Some?
    && a.filename == (if part.filename.value == "" then "attachment" else part.filename.value)
    && a.contentType == (if part.fileType.value == "" then "application/octet-stream" else part.fileType.value)
    && a.content == part.file.content && a.sizeBytes == |part.file.content|
  }

  lemma FaultIff(part: Part, maxAttachment: nat)
    ensures Fault(part, maxAttachment) == Some(AttachmentTooLarge) <==> TooBig(part, maxAttachment)
    ensures Fault(part, maxAttachment) == Some(Unparsable) <==> Unreadable(part, maxAttachment)
    ensures Fault(part, maxAttachment) == None <==> Sound(part, maxAttachment)
  {}

  lemma CarriesIff(part: Part, mediaType: string)
    requires Lower(mediaType) == mediaType
    ensures Carries(part, mediaType) <==> IsText(part, mediaType)
  {
    if part.Inline? && part.contentType.Some? {
      FoldIff(part.contentType.value, mediaType);
    }
  }

  /** `text` is the content of the first text part of the type, or empty if there is none. */
  ghost predicate FirstText(parts: seq<Part>, mediaType: string, text: string) {
    || (text == "" && forall i :: 0 <= i < |parts| ==> !IsText(parts[i], mediaType))
    || (exists i :: 0 <= i < |parts| && IsText(parts[i], mediaType) && SameBytes(text, parts[i].text.content)
                    && forall j :: 0 <= j < i ==> !IsText(parts[j], mediaType))
  }

  lemma {:induction false} TextIsFirst(parts: seq<Part>, mediaType: string)
    requires Lower(mediaType) == mediaType
    ensures FirstText(parts, mediaType, TextIn(parts, mediaType))
  {
    TextInIsFirst(parts, mediaType);
    forall i | 0 <= i < |parts| ensures Carries(parts[i], mediaType) <==> IsText(parts[i], mediaType) {
      CarriesIff(parts[i], mediaType);
    }
  }

  /** The part at i is the first that is not sound. */
  ghost predicate FirstBad(parts: seq<Part>, maxAttachment: nat, i: int) {
    0 <= i < |parts| && !Sound(parts[i], maxAttachment) && forall j :: 0 <= j < i ==> Sound(parts[j], maxAttachment)
  }

  lemma {:induction false} FaultFreeIff(parts: seq<Part>, maxAttachment: nat)
    ensures FaultIn(parts, maxAttachment) == None <==> forall i :: 0 <= i < |parts| ==> Sound(parts[i], maxAttachment)
  {
    FaultInIsFirst(parts, maxAttachment);
    forall i | 0 <= i < |parts| ensures Fault(parts[i], maxAttachment) == None <==> Sound(parts[i], maxAttachment) {
      FaultIff(parts[i], maxAttachment);
    }
  }

  lemma {:induction false} FirstBadDecides(parts: seq<Part>, maxAttachment: nat, i: int)
    requires FirstBad(parts, maxAttachment, i)
    ensures FaultIn(parts, maxAttachment)
         == Some(if TooBig(parts[i], maxAttachment) then AttachmentTooLarge else Unparsable)
  {
    FaultFreeIff(parts[..i], maxAttachment);
    FaultIff(parts[i], maxAttachment);
    FirstFaultDecides(parts, maxAttachment, i);
  }

  lemma MediaTypesAreLower()
    ensures Lower("text/plain") == "text/plain" && Lower("text/html") == "text/html"
  {}

  /** The loop succeeds exactly when every part is sound, and otherwise reports what is wrong with the first
      that is not. On success each body is the content of the first text part of its type, or empty if there
      is none, and every attachment is whole and within the limit. */
  lemma {:induction false} ParseMeans(parts: seq<Part>, maxAttachment: nat)
    ensures Parse(parts, maxAttachment).Success? <==> forall i :: 0 <= i < |parts| ==> Sound(parts[i], maxAttachment)
    ensures forall i :: FirstBad(parts, maxAttachment, i) ==>
              Parse(parts, maxAttachment)
              == Refused(if TooBig(parts[i], maxAttachment) then AttachmentTooLarge else Unparsable)
    ensures Parse(parts, maxAttachment).Success? ==>
              && FirstText(parts, "text/plain", Parse(parts, maxAttachment).parsed.bodyText)
              && FirstText(parts, "text/html", Parse(parts, maxAttachment).parsed.bodyHtml)
              && Parse(parts, maxAttachment).parsed.attachments == AttachmentsIn(parts)
              && forall a <- AttachmentsIn(parts) :: a.sizeBytes == |a.content| <= maxAttachment
  {
    FaultFreeIff(parts, maxAttachment);
    forall i | FirstBad(parts, maxAttachment, i)
      ensures Parse(parts, maxAttachment)
           == Refused(if TooBig(parts[i], maxAttachment) then AttachmentTooLarge else Unparsable)
    {
      FirstBadDecides(parts, maxAttachment, i);
    }
    MediaTypesAreLower();
    TextIsFirst(parts, "text/plain");
    TextIsFirst(parts, "text/html");
    if FaultIn(parts, maxAttachment).None? {
      AttachmentsAreWhole(parts, maxAttachment);
    }
  }

  function AttachedAt(parts: seq<Part>): set<nat> {
    set i: nat | i < |parts| && parts[i].Attached?
  }

  lemma {:induction false} OneAttachmentEach(parts: seq<Part>)
    ensures |AttachmentsIn(parts)| == |AttachedAt(parts)|
  {
    if parts == [] {
      assert AttachedAt(parts) == {};
    } else {
      var n := |parts| - 1;
      OneAttachmentEach(parts[..n]);
      assert AttachedAt(parts) == AttachedAt(parts[..n]) + if parts[n].Attached? then {n} else {};
    }
  }

  /** Every attachment part yields one attachment, made from it, at the position given by the number of
      attachment parts before it, and there are no others. */
  lemma {:induction false} AttachmentsInOrder(parts: seq<Part>, maxAttachment: nat, i: nat)
    requires i < |parts| && parts[i].Attached? && forall k :: 0 <= k < |parts| ==> Sound(parts[k], maxAttachment)
    ensures |AttachmentsIn(parts)| == |AttachedAt(parts)|
    ensures |AttachedAt(parts[..i])| < |AttachmentsIn(parts)|
    ensures MadeFrom(AttachmentsIn(parts)[|AttachedAt(parts[..i])|], parts[i])
  {
    var n := |parts| - 1;
    OneAttachmentEach(parts);
    OneAttachmentEach(parts[..n]);
    if i < n {
      assert parts[..n][..i] == parts[..i];
      AttachmentsInOrder(parts[..n], maxAttachment, i);
    }
  }
}
