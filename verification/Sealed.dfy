/**
 The plaintext that is sealed when a message has attachments: a multipart/mixed of the
 text and the files, and what the reader makes of it (section 5.1.1 of RFC 2046).
 */
module Sealed {
  import opened Wrappers
  import opened Text
  import opened Search
  import opened Mime
  import opened MimePrinted
  import Base64
  import PgpWrap

  // ---- the builder ----------------------------------------------------------------------------------

  function TypeOf(a: Attachment): string {
    if a.contentType == "" then "application/octet-stream" else a.contentType
  }

  /** Quotes are stripped from a file name, not escaped. */
  function NameOf(a: Attachment): string {
    ReplaceAll(a.filename, "\"", "")
  }

  function TypeLine(a: Attachment): string {
    "Content-Type: " + TypeOf(a)
  }

  function DispositionLine(a: Attachment): string {
    "Content-Disposition: attachment" + ("; filename=" + "\"" + NameOf(a) + "\"")
  }

  const BASE64_LINE := "Content-Transfer-Encoding" + ": base64"
  const TEXT_LINE := "Content-Type: " + "text/plain; charset=utf-8"
  const EIGHT_BIT_LINE := "Content-Transfer-Encoding" + ": 8bit"

  function MixedLine(boundary: string): string {
    "Content-Type: multipart/mixed" + ("; boundary=\"" + boundary + "\"")
  }

  function Encoded(a: Attachment): string
    requires Base64.IsBytes(a.bytes)
  {
    Base64.Wrap(Base64.Encode(a.bytes))
  }

  function TextPart(text: string): string {
    TEXT_LINE + "\r\n" + EIGHT_BIT_LINE + "\r\n" + "\r\n" + text
  }

  function FilePart(a: Attachment): string
    requires Base64.IsBytes(a.bytes)
  {
    TypeLine(a) + "\r\n" + DispositionLine(a) + "\r\n" + BASE64_LINE + "\r\n" + "\r\n" + Encoded(a)
  }

  ghost predicate AllBytes(attachments: seq<Attachment>) {
    forall i :: 0 <= i < |attachments| ==> Base64.IsBytes(attachments[i].bytes)
  }

  ghost function FileParts(attachments: seq<Attachment>): seq<string>
    requires AllBytes(attachments)
  {
    if attachments == [] then [] else [FilePart(attachments[0])] + FileParts(attachments[1..])
  }

  ghost function Document(text: string, attachments: seq<Attachment>, boundary: string): string
    requires AllBytes(attachments)
  {
    MixedLine(boundary) + "\r\n" + "\r\n"
    + PrintedParts(Delimiter(boundary), [TextPart(text)] + FileParts(attachments), "")
  }

  /** What is still to be written once a line has ended. */
  ghost function Rest(attachments: seq<Attachment>, boundary: string): string
    requires AllBytes(attachments)
  {
    Delimiter(boundary) + PartsTail(Delimiter(boundary), FileParts(attachments), "")
  }

  method BuildEncryptedMultipart(text: string, attachments: seq<Attachment>, boundary: string) returns (b: string)
    requires AllBytes(attachments)
    ensures b == Document(text, attachments, boundary)
  {
    hide *;
    b := MixedLine(boundary) + "\r\n" + "\r\n";
    b := b + ("--" + boundary + "\r\n");
    b := b + (TEXT_LINE + "\r\n" + EIGHT_BIT_LINE + "\r\n" + "\r\n");
    b := b + (text + "\r\n");
    StartsWithText(text, attachments, boundary);
    assert attachments[0..] == attachments;
    for i := 0 to |attachments|
      invariant AllBytes(attachments[i..])
      invariant b + Rest(attachments[i..], boundary) == Document(text, attachments, boundary)
    {
      var a := attachments[i];
      WritesFile(attachments, i, boundary, b);
      var name := Replace(a.filename, "\"", "");
      b := b + ("--" + boundary + "\r\n");
      b := b + ("Content-Type: " + TypeOf(a) + "\r\n");
      b := b + ("Content-Disposition: attachment" + ("; filename=" + "\"" + name + "\"") + "\r\n");
      b := b + (BASE64_LINE + "\r\n" + "\r\n");
      b := b + (Base64.Wrap(Base64.Encode(a.bytes)) + "\r\n");
    }
    assert attachments[|attachments|..] == [];
    NothingLeft(boundary);
    b := b + ("--" + boundary + "--");
  }

  lemma NothingLeft(boundary: string)
    ensures Rest([], boundary) == "--" + boundary + "--"
  {
    assert "--" + "" == "--";
  }

  lemma StartsWithText(text: string, attachments: seq<Attachment>, boundary: string)
    requires AllBytes(attachments)
    ensures MixedLine(boundary) + "\r\n" + "\r\n" + ("--" + boundary + "\r\n")
          + (TEXT_LINE + "\r\n" + EIGHT_BIT_LINE + "\r\n" + "\r\n") + (text + "\r\n") + Rest(attachments, boundary)
         == Document(text, attachments, boundary)
  {
    hide *;
    DocumentPieces(text, attachments, boundary);
    TailFirst(Delimiter(boundary), TextPart(text), FileParts(attachments));
    RestIs(attachments, boundary);
  }

  lemma DocumentPieces(text: string, attachments: seq<Attachment>, boundary: string)
    requires AllBytes(attachments)
    ensures Document(text, attachments, boundary)
         == MixedLine(boundary) + "\r\n" + "\r\n"
          + ("--" + boundary + PartsTail(Delimiter(boundary), [TextPart(text)] + FileParts(attachments), ""))
    ensures TextPart(text) == TEXT_LINE + "\r\n" + EIGHT_BIT_LINE + "\r\n" + "\r\n" + text
  {
    hide PartsTail, FileParts, MixedLine, AllBytes;
  }

  lemma RestIs(attachments: seq<Attachment>, boundary: string)
    requires AllBytes(attachments)
    ensures Rest(attachments, boundary) == Delimiter(boundary) + PartsTail(Delimiter(boundary), FileParts(attachments), "")
    ensures Delimiter(boundary) == "--" + boundary
  {
  }

  lemma TailFirst(delim: string, text: string, rest: seq<string>)
    ensures PartsTail(delim, [text] + rest, "") == "\r\n" + text + "\r\n" + delim + PartsTail(delim, rest, "")
  {
    assert ([text] + rest)[1..] == rest;
  }

  lemma FilesStep(attachments: seq<Attachment>, i: nat)
    requires i < |attachments| && AllBytes(attachments[i..])
    ensures AllBytes(attachments[i + 1..]) && Base64.IsBytes(attachments[i].bytes)
    ensures FileParts(attachments[i..]) == [FilePart(attachments[i])] + FileParts(attachments[i + 1..])
  {
    assert attachments[i..][0] == attachments[i];
    TailBytes(attachments[i..]);
    assert attachments[i..][1..] == attachments[i + 1..];
    hide FilePart, Base64.IsBytes;
  }

  lemma TailBytes(attachments: seq<Attachment>)
    requires attachments != [] && AllBytes(attachments)
    ensures AllBytes(attachments[1..])
  {
    hide Base64.IsBytes;
  }

  lemma WritesFile(attachments: seq<Attachment>, i: nat, boundary: string, b: string)
    requires i < |attachments| && AllBytes(attachments[i..])
    ensures AllBytes(attachments[i + 1..]) && Base64.IsBytes(attachments[i].bytes)
    ensures var a := attachments[i];
            b + Rest(attachments[i..], boundary)
            == b + ("--" + boundary + "\r\n") + ("Content-Type: " + TypeOf(a) + "\r\n")
             + ("Content-Disposition: attachment" + ("; filename=" + "\"" + ReplaceAll(a.filename, "\"", "") + "\"") + "\r\n")
             + (BASE64_LINE + "\r\n" + "\r\n") + (Base64.Wrap(Base64.Encode(a.bytes)) + "\r\n")
             + Rest(attachments[i + 1..], boundary)
  {
    hide *;
    FilesStep(attachments, i);
    var a := attachments[i];
    RestIs(attachments[i..], boundary);
    RestIs(attachments[i + 1..], boundary);
    FilePieces(a);
    TailFirst(Delimiter(boundary), FilePart(a), FileParts(attachments[i + 1..]));
    RegroupFile(b, Delimiter(boundary), TypeLine(a), DispositionLine(a), BASE64_LINE, Encoded(a),
                Delimiter(boundary) + PartsTail(Delimiter(boundary), FileParts(attachments[i + 1..]), ""));
  }

  lemma FilePieces(a: Attachment)
    requires Base64.IsBytes(a.bytes)
    ensures FilePart(a) == TypeLine(a) + "\r\n" + DispositionLine(a) + "\r\n" + BASE64_LINE + "\r\n" + "\r\n" + Encoded(a)
    ensures TypeLine(a) == "Content-Type: " + TypeOf(a) && Encoded(a) == Base64.Wrap(Base64.Encode(a.bytes))
    ensures DispositionLine(a)
         == "Content-Disposition: attachment" + ("; filename=" + "\"" + ReplaceAll(a.filename, "\"", "") + "\"")
  {
    hide Base64.Wrap, Base64.Encode, ReplaceAll, TypeOf;
  }

  lemma RegroupFile(b: string, d: string, t: string, n: string, e: string, body: string, rest: string)
    ensures b + (d + ("\r\n" + (t + "\r\n" + n + "\r\n" + e + "\r\n" + "\r\n" + body) + "\r\n" + rest))
         == b + (d + "\r\n") + (t + "\r\n") + (n + "\r\n") + (e + "\r\n" + "\r\n") + (body + "\r\n") + rest
  {
  }

  // ---- what survives ----------------------------------------------------------------------------------

  /** A file that can be told from the delimiters and the header syntax around it. */
  ghost predicate Sendable(a: Attachment, boundary: string) {
    && Base64.IsBytes(a.bytes)
    && OneLine(NameOf(a)) && Lacks(NameOf(a), Delimiter(boundary))
    && PlainMedia(TypeOf(a)) && OneLine(TypeOf(a)) && !IsMultipart(TypeOf(a)) && Lacks(TypeOf(a), Delimiter(boundary))
  }

  ghost predicate AllSendable(attachments: seq<Attachment>, boundary: string) {
    forall i :: 0 <= i < |attachments| ==> Sendable(attachments[i], boundary)
  }

  /** As it comes back: without quotes in the name, and with the default type filled in. */
  function Received(a: Attachment): Attachment {
    Attachment(NameOf(a), TypeOf(a), a.bytes)
  }

  function AllReceived(attachments: seq<Attachment>): seq<Attachment> {
    if attachments == [] then [] else [Received(attachments[0])] + AllReceived(attachments[1..])
  }

  lemma {:induction false} QuotesGone(s: string)
    ensures NoChar(ReplaceAll(s, "\"", ""), '"')
    decreases |s|
  {
    hide Find;
    match Find(s, "\"")
    case None =>
      forall i | 0 <= i < |s| ensures s[i] != '"' {
        assert !OccursAt(s, "\"", i);
      }
    case Some(i) =>
      QuotesGone(s[i + 1..]);
      forall j | 0 <= j < i ensures s[j] != '"' {
        assert !OccursAt(s, "\"", j);
      }
  }

  lemma NoQuotesToStrip(a: Attachment)
    requires NoChar(a.filename, '"')
    ensures NameOf(a) == a.filename && (a.contentType != "" ==> Received(a) == a)
  {
    LacksFirstChar(a.filename, "\"");
  }

  // ---- reading the header of a part ---------------------------------------------------------------------

  function FileHeaders(a: Attachment): Headers {
    [("Content-Type", TypeOf(a)), ("Content-Disposition", Disposition(a)), ("Content-Transfer-Encoding", "base64")]
  }

  function Disposition(a: Attachment): string {
    "attachment" + ("; filename=" + "\"" + NameOf(a) + "\"")
  }

  lemma NamesDiffer()
    ensures !EqIgnoreCase("Content-Type", "Content-Disposition")
    ensures !EqIgnoreCase("Content-Type", "Content-Transfer-Encoding")
    ensures !EqIgnoreCase("Content-Disposition", "Content-Transfer-Encoding")
    ensures !EqIgnoreCase("Content-Transfer-Encoding", "Content-Disposition")
  {
    assert |ToLower("Content-Type")| == 12 && |ToLower("Content-Disposition")| == 19;
    assert |ToLower("Content-Transfer-Encoding")| == 25;
  }

  lemma FileHeadersAre(a: Attachment)
    ensures FileHeaders(a) == [("Content-Type", TypeOf(a))]
            + [("Content-Disposition", Disposition(a)), ("Content-Transfer-Encoding", "base64")]
  {
    hide TypeOf, Disposition;
  }

  lemma FileGets(a: Attachment)
    ensures Get(FileHeaders(a), "Content-Type") == TypeOf(a)
    ensures Get(FileHeaders(a), "Content-Disposition") == Disposition(a)
    ensures Get(FileHeaders(a), "Content-Transfer-Encoding") == "base64"
  {
    hide *;
    var disposition, encoding := ("Content-Disposition", Disposition(a)), ("Content-Transfer-Encoding", "base64");
    NamesDiffer();
    FileHeadersAre(a);
    assert [disposition, encoding] == [disposition] + [encoding] && [encoding] == [encoding] + [];
    GetHere("Content-Type", TypeOf(a), [disposition, encoding]);
    GetNext("Content-Type", TypeOf(a), [disposition, encoding], "Content-Disposition");
    GetNext("Content-Type", TypeOf(a), [disposition, encoding], "Content-Transfer-Encoding");
    GetHere("Content-Disposition", Disposition(a), [encoding]);
    GetNext("Content-Disposition", Disposition(a), [encoding], "Content-Transfer-Encoding");
    GetHere("Content-Transfer-Encoding", "base64", []);
  }

  lemma HeaderNames()
    ensures NoChar("Content-Type", ':') && Trimmed("Content-Type")
    ensures NoChar("Content-Disposition", ':') && Trimmed("Content-Disposition")
    ensures NoChar("Content-Transfer-Encoding", ':') && Trimmed("Content-Transfer-Encoding")
    ensures Trimmed("base64") && Trimmed("8bit") && Trimmed("text/plain; charset=utf-8")
  {
  }

  lemma DispositionTrimmed(a: Attachment)
    ensures Trimmed(Disposition(a))
  {
    hide NameOf;
  }

  lemma FileLinesAre(a: Attachment)
    ensures TypeLine(a) == HeaderLine("Content-Type", TypeOf(a))
    ensures DispositionLine(a) == HeaderLine("Content-Disposition", Disposition(a))
    ensures BASE64_LINE == HeaderLine("Content-Transfer-Encoding", "base64")
  {
    hide NameOf, TypeOf;
    assert "Content-Disposition" + ": " + "attachment" == "Content-Disposition: attachment";
  }

  lemma FileLinesPlain(a: Attachment)
    requires OneLine(TypeOf(a)) && OneLine(NameOf(a))
    ensures PlainLine(TypeLine(a)) && PlainLine(DispositionLine(a)) && PlainLine(BASE64_LINE)
  {
    hide NameOf, TypeOf;
  }

  lemma ThreeLines(a: string, b: string, c: string)
    ensures Head([a, b, c]) == a + "\r\n" + b + "\r\n" + c + "\r\n"
    ensures Entries([a, b, c]) == EntryOf(a) + EntryOf(b) + EntryOf(c)
    ensures PlainLine(a) && PlainLine(b) && PlainLine(c) ==> AllPlain([a, b, c])
  {
    hide EntryOf, PlainLine;
    TwoLines(b, c);
    assert [a, b, c][1..] == [b, c];
  }

  lemma TwoLines(b: string, c: string)
    ensures Head([b, c]) == b + "\r\n" + c + "\r\n"
    ensures Entries([b, c]) == EntryOf(b) + EntryOf(c)
    ensures PlainLine(b) && PlainLine(c) ==> AllPlain([b, c])
  {
    hide EntryOf, PlainLine;
    PgpWrap.OneHead(c);
    assert [b, c][1..] == [c];
  }

  lemma FileEntries(a: Attachment)
    requires PlainMedia(TypeOf(a))
    ensures EntryOf(TypeLine(a)) + EntryOf(DispositionLine(a)) + EntryOf(BASE64_LINE) == FileHeaders(a)
  {
    hide *;
    FileLinesAre(a);
    HeaderNames();
    DispositionTrimmed(a);
    MediaIsTrimmed(TypeOf(a));
    EntryOfHeader("Content-Type", TypeOf(a));
    EntryOfHeader("Content-Disposition", Disposition(a));
    EntryOfHeader("Content-Transfer-Encoding", "base64");
    FileHeadersAre(a);
  }

  lemma MediaIsTrimmed(media: string)
    requires PlainMedia(media)
    ensures Trimmed(media)
  {
  }

  lemma SendableFacts(a: Attachment, boundary: string)
    requires Sendable(a, boundary)
    ensures Base64.IsBytes(a.bytes) && OneLine(NameOf(a)) && Lacks(NameOf(a), Delimiter(boundary))
    ensures PlainMedia(TypeOf(a)) && OneLine(TypeOf(a)) && !IsMultipart(TypeOf(a)) && Lacks(TypeOf(a), Delimiter(boundary))
  {
  }

  /** A file part is read with its three headers and its encoded body. */
  lemma ReadsFile(a: Attachment, boundary: string)
    requires Sendable(a, boundary)
    ensures PartIn(FilePart(a)) == [Part(FileHeaders(a), Encoded(a))]
  {
    SendableFacts(a, boundary);
    hide *;
    var lines := [TypeLine(a), DispositionLine(a), BASE64_LINE];
    FileLinesPlain(a);
    ThreeLines(TypeLine(a), DispositionLine(a), BASE64_LINE);
    FileEntries(a);
    ParsesMessage(lines, Encoded(a));
    FilePieces(a);
    PgpWrap.PartFrom(FilePart(a), FileHeaders(a), Encoded(a));
  }

  // ---- the attachment of a part -------------------------------------------------------------------------------

  lemma DispositionPrinted(a: Attachment)
    ensures Disposition(a) == Printed("attachment", [("filename", NameOf(a))])
  {
    hide NameOf;
    PgpWrap.OneParam(("filename", NameOf(a)));
    hide Params;
    assert Quoted(("filename", NameOf(a))) == " filename=" + "\"" + NameOf(a) + "\"";
    assert "; filename=" + "\"" + NameOf(a) + "\"" == ";" + (" filename=" + "\"" + NameOf(a) + "\"");
  }

  lemma AttachmentIsPlain(a: Attachment)
    ensures PlainMedia("attachment") && PlainParams([("filename", NameOf(a))])
  {
    assert ToLower("attachment") == "attachment" && ToLower("filename") == "filename";
    QuotesGone(a.filename);
    assert PlainParam(("filename", NameOf(a)));
  }

  lemma DispositionParses(a: Attachment)
    ensures ParseMediaType(Disposition(a)) == Some(MediaType("attachment", map["filename" := NameOf(a)]))
  {
    hide *;
    DispositionPrinted(a);
    AttachmentIsPlain(a);
    ParsesMedia("attachment", [("filename", NameOf(a))]);
    PgpWrap.OneParam(("filename", NameOf(a)));
  }

  lemma DecodesBase64(f: Foreign, a: Attachment)
    requires Base64.IsBytes(a.bytes)
    ensures DecodeTransfer(f, "base64", Encoded(a)) == a.bytes
  {
    hide *;
    Base64.DecodeOfWrapped(a.bytes);
    Base64Name();
    FilePieces(a);
    DecodesAs(f, "base64", Encoded(a));
  }

  lemma DecodesAs(f: Foreign, cte: string, body: string)
    requires ToLower(Trim(cte)) != "quoted-printable"
    ensures DecodeTransfer(f, cte, body) == if ToLower(Trim(cte)) == "base64" then Base64.DecodeLenient(body) else body
  {
    hide ToLower, Trim, Base64.DecodeLenient;
  }

  lemma Base64Name()
    ensures ToLower(Trim("base64")) == "base64" && "base64" != "quoted-printable"
  {
    hide *;
    HeaderNames();
    TrimsTo("base64");
    LowerNames();
  }

  lemma LowerNames()
    ensures ToLower("base64") == "base64" && |"base64"| != |"quoted-printable"|
    ensures ToLower("text/plain") == "text/plain" && "text/plain" != ""
    ensures |ToLower("8bit")| == 4 && |"base64"| == 6 && |"quoted-printable"| == 16
    ensures Trimmed("text/plain") && "text/plain; charset=utf-8" != ""
  {
  }

  /** From the three headers and the body, the attachment. */
  lemma LeafIsReceived(f: Foreign, a: Attachment)
    requires Base64.IsBytes(a.bytes) && PlainMedia(TypeOf(a)) && !IsMultipart(TypeOf(a))
    ensures Attachments(f, TypeOf(a), "base64", Disposition(a), Encoded(a)) == [Received(a)]
  {
    hide *;
    PgpWrap.MediaOfPlain(TypeOf(a));
    DispositionParses(a);
    DecodesBase64(f, a);
    LeafIs(f, TypeOf(a), "base64", Disposition(a), Encoded(a));
    FilenameOf(a);
  }

  lemma FilenameOf(a: Attachment)
    ensures Received(a) == Attachment(NameOf(a), TypeOf(a), a.bytes)
    ensures map["filename" := NameOf(a)]["filename"] == NameOf(a)
  {
    hide NameOf, TypeOf;
  }

  /** A part that is no multipart, with a disposition that has a file name or is no attachment. */
  lemma LeafIs(f: Foreign, contentType: string, cte: string, disposition: string, body: string)
    requires !IsMultipart(MediaOf(contentType))
    ensures var d := ParseMediaType(disposition);
            && (d.None? ==> Attachments(f, contentType, cte, disposition, body) == [])
            && (d.Some? && d.value.media == "attachment" && "filename" in d.value.params ==>
                  Attachments(f, contentType, cte, disposition, body)
                  == [Attachment(d.value.params["filename"], MediaOf(contentType), DecodeTransfer(f, cte, body))])
  {
    hide ParseMediaType, MediaOf, IsMultipart, DecodeTransfer;
  }

  // ---- the text part ------------------------------------------------------------------------------------------

  function TextHeaders(): Headers {
    [("Content-Type", "text/plain; charset=utf-8"), ("Content-Transfer-Encoding", "8bit")]
  }

  lemma TextLines()
    ensures TEXT_LINE == HeaderLine("Content-Type", "text/plain; charset=utf-8") && PlainLine(TEXT_LINE)
    ensures EIGHT_BIT_LINE == HeaderLine("Content-Transfer-Encoding", "8bit") && PlainLine(EIGHT_BIT_LINE)
  {
  }

  lemma ReadsTextPart(text: string)
    ensures PartIn(TextPart(text)) == [Part(TextHeaders(), text)]
  {
    hide *;
    TextLines();
    TwoLines(TEXT_LINE, EIGHT_BIT_LINE);
    HeaderNames();
    EntryOfHeader("Content-Type", "text/plain; charset=utf-8");
    EntryOfHeader("Content-Transfer-Encoding", "8bit");
    ParsesMessage([TEXT_LINE, EIGHT_BIT_LINE], text);
    TextPieces(text);
    PgpWrap.PartFrom(TextPart(text), TextHeaders(), text);
  }

  lemma TextPieces(text: string)
    ensures TextPart(text) == TEXT_LINE + "\r\n" + EIGHT_BIT_LINE + "\r\n" + "\r\n" + text
    ensures TextHeaders()
         == [("Content-Type", "text/plain; charset=utf-8")] + [("Content-Transfer-Encoding", "8bit")]
  {
  }

  lemma GetNothing(name: string)
    ensures Get([], name) == ""
  {
  }

  lemma TextGets()
    ensures Get(TextHeaders(), "Content-Type") == "text/plain; charset=utf-8"
    ensures Get(TextHeaders(), "Content-Transfer-Encoding") == "8bit"
    ensures Get(TextHeaders(), "Content-Disposition") == ""
  {
    hide *;
    var encoding := ("Content-Transfer-Encoding", "8bit");
    NamesDiffer();
    TextPieces("");
    GetNothing("Content-Disposition");
    assert [encoding] == [encoding] + [];
    GetHere("Content-Type", "text/plain; charset=utf-8", [encoding]);
    GetNext("Content-Type", "text/plain; charset=utf-8", [encoding], "Content-Transfer-Encoding");
    GetNext("Content-Type", "text/plain; charset=utf-8", [encoding], "Content-Disposition");
    GetHere("Content-Transfer-Encoding", "8bit", []);
    GetNext("Content-Transfer-Encoding", "8bit", [], "Content-Disposition");
  }

  lemma TextIsPlain()
    ensures MediaOf("text/plain; charset=utf-8") == "text/plain"
  {
    hide *;
    TextTypeSplits();
    TextTypeName();
    MediaFrom("text/plain; charset=utf-8", "text/plain", " charset=utf-8");
  }

  lemma MediaFrom(value: string, media: string, rest: string)
    requires Trim(value) == value != "" && SplitOnce(value, ';') == Some((media, rest)) && ToLower(Trim(media)) != ""
    ensures MediaOf(value) == ToLower(Trim(media))
  {
    hide Trim, ToLower, SplitOnce, SplitFrom, AddParams;
  }

  lemma TextTypeSplits()
    ensures Trim("text/plain; charset=utf-8") == "text/plain; charset=utf-8" != ""
    ensures SplitOnce("text/plain; charset=utf-8", ';') == Some(("text/plain", " charset=utf-8"))
  {
    hide *;
    HeaderNames();
    LowerNames();
    TrimsTo("text/plain; charset=utf-8");
    NoSemicolon();
    SplitOnceAt("text/plain", ';', " charset=utf-8");
  }

  lemma NoSemicolon()
    ensures NoChar("text/plain", ';')
    ensures "text/plain" + [';'] + " charset=utf-8" == "text/plain; charset=utf-8"
  {
  }

  lemma TextTypeName()
    ensures ToLower(Trim("text/plain")) == "text/plain" != ""
  {
    hide *;
    LowerNames();
    TrimsTo("text/plain");
  }

  lemma EightBit(f: Foreign, text: string)
    ensures DecodeTransfer(f, "8bit", text) == text
  {
    hide *;
    EightBitName();
    DecodesAs(f, "8bit", text);
  }

  lemma EightBitName()
    ensures ToLower(Trim("8bit")) != "quoted-printable" && ToLower(Trim("8bit")) != "base64"
  {
    hide *;
    HeaderNames();
    LowerNames();
    TrimsTo("8bit");
  }

  lemma NoDisposition()
    ensures ParseMediaType("") == None
  {
    assert Trim("") == "";
  }

  lemma NotMultipart()
    ensures !IsMultipart("text/plain")
  {
    assert "text/plain"[0] == 't' && "multipart/"[0] == 'm';
  }

  lemma TextIsNoAttachment(f: Foreign, text: string)
    ensures Attachments(f, "text/plain; charset=utf-8", "8bit", "", text) == []
  {
    hide *;
    TextIsPlain();
    NotMultipart();
    NoDisposition();
    LeafIs(f, "text/plain; charset=utf-8", "8bit", "", text);
  }

  // ---- delimiters stay out of the parts --------------------------------------------------------------------------

  lemma DelimiterFacts(boundary: string)
    requires PlainBoundary(boundary)
    ensures var n := Delimiter(boundary); n != "" && Dashed(n) && OneLine(n) && NoChar(n, '"')
    ensures OneLine(boundary)
  {
  }

  lemma LinesLack(n: string)
    requires Dashed(n)
    ensures Lacks(TEXT_LINE, n) && Lacks(EIGHT_BIT_LINE, n) && Lacks(BASE64_LINE, n)
    ensures Lacks("Content-Disposition: attachment" + "; filename=", n)
  {
    hide Find, Lacks;
    LacksLiteral("text/plain; charset=utf-8", n);
    LacksHyphens("Content-Type: ", "text/plain; charset=utf-8", n);
    LacksLiteral(": 8bit", n);
    LacksHyphens("Content-Transfer-Encoding", ": 8bit", n);
    LacksLiteral(": base64", n);
    LacksHyphens("Content-Transfer-Encoding", ": base64", n);
    LacksLiteral("; filename=", n);
    LacksHyphens("Content-Disposition: attachment", "; filename=", n);
  }

  lemma TypeLacks(a: Attachment, n: string)
    requires Dashed(n) && Lacks(TypeOf(a), n)
    ensures Lacks(TypeLine(a), n)
  {
    hide Find, TypeOf, Lacks;
    LacksHyphens("Content-Type: ", TypeOf(a), n);
  }

  lemma DispositionLacks(a: Attachment, n: string)
    requires Dashed(n) && NoChar(n, '"') && Lacks(NameOf(a), n)
    ensures Lacks(DispositionLine(a), n)
  {
    assert n != "";
    hide Find, NameOf, Lacks, Dashed;
    LinesLack(n);
    LacksEmpty(n);
    LacksJoin(NameOf(a), '"', "", n);
    LacksJoin("Content-Disposition: attachment" + "; filename=", '"', NameOf(a) + ['"'] + "", n);
    assert DispositionLine(a)
        == "Content-Disposition: attachment" + "; filename=" + ['"'] + (NameOf(a) + ['"'] + "");
  }

  lemma EncodedLacks(a: Attachment, n: string)
    requires Dashed(n) && Base64.IsBytes(a.bytes)
    ensures Lacks(Encoded(a), n)
  {
    Base64.DecodeOfWrapped(a.bytes);
    hide Base64.Wrap, Base64.Encode;
    LacksFirstChar(Encoded(a), n);
  }

  lemma LinesJoinLack(a: string, b: string, c: string, body: string, n: string)
    requires n != "" && OneLine(n) && Lacks(a, n) && Lacks(b, n) && Lacks(c, n) && Lacks(body, n)
    ensures Lacks(a + "\r\n" + b + "\r\n" + c + "\r\n" + "\r\n" + body, n)
    ensures Lacks(a + "\r\n" + b + "\r\n" + "\r\n" + body, n)
  {
    hide Find, Lacks, OneLine;
    LacksEmpty(n);
    LacksLine("", body, n);
    var blank := "" + "\r\n" + body;
    LacksLine(c, blank, n);
    LacksLine(b, c + "\r\n" + blank, n);
    LacksLine(a, b + "\r\n" + (c + "\r\n" + blank), n);
    LacksLine(b, blank, n);
    LacksLine(a, b + "\r\n" + blank, n);
    assert a + "\r\n" + b + "\r\n" + c + "\r\n" + "\r\n" + body == a + "\r\n" + (b + "\r\n" + (c + "\r\n" + blank));
    assert a + "\r\n" + b + "\r\n" + "\r\n" + body == a + "\r\n" + (b + "\r\n" + blank);
  }

  lemma FileLacks(a: Attachment, boundary: string)
    requires PlainBoundary(boundary) && Sendable(a, boundary)
    ensures Lacks(FilePart(a), Delimiter(boundary))
  {
    hide *;
    SendableFacts(a, boundary);
    FilePieces(a);
    var n := Delimiter(boundary);
    DelimiterFacts(boundary);
    LinesLack(n);
    TypeLacks(a, n);
    DispositionLacks(a, n);
    EncodedLacks(a, n);
    LinesJoinLack(TypeLine(a), DispositionLine(a), BASE64_LINE, Encoded(a), n);
  }

  lemma TextLacks(text: string, boundary: string)
    requires PlainBoundary(boundary) && Lacks(text, Delimiter(boundary))
    ensures Lacks(TextPart(text), Delimiter(boundary))
  {
    hide *;
    TextPieces(text);
    var n := Delimiter(boundary);
    DelimiterFacts(boundary);
    LinesLack(n);
    LinesJoinLack(TEXT_LINE, EIGHT_BIT_LINE, EIGHT_BIT_LINE, text, n);
  }

  // ---- the document -------------------------------------------------------------------------------------------------

  ghost function FilesRead(attachments: seq<Attachment>): seq<Part>
    requires AllBytes(attachments)
  {
    if attachments == [] then []
    else [Part(FileHeaders(attachments[0]), Encoded(attachments[0]))] + FilesRead(attachments[1..])
  }

  lemma {:induction false} ReadsFiles(attachments: seq<Attachment>, boundary: string)
    requires AllBytes(attachments) && AllSendable(attachments, boundary) && PlainBoundary(boundary)
    ensures PartsIn(FileParts(attachments)) == FilesRead(attachments)
    ensures AllLack(FileParts(attachments), Delimiter(boundary))
  {
    if attachments != [] {
      ReadsFiles(attachments[1..], boundary);
      assert Sendable(attachments[0], boundary);
      hide Sendable, PartIn, FilePart, FileHeaders, Find, PlainBoundary, Encoded;
      ReadsFile(attachments[0], boundary);
      FileLacks(attachments[0], boundary);
      assert FileParts(attachments)[1..] == FileParts(attachments[1..]);
    }
  }

  lemma {:induction false} CollectsFiles(f: Foreign, attachments: seq<Attachment>, boundary: string, limit: nat)
    requires AllBytes(attachments) && AllSendable(attachments, boundary)
    requires forall i :: 0 <= i < |FilesRead(attachments)| ==> |FilesRead(attachments)[i].body| < limit
    ensures AllAttachments(f, FilesRead(attachments), limit) == AllReceived(attachments)
  {
    if attachments != [] {
      var a, rest := attachments[0], FilesRead(attachments[1..]);
      assert FilesRead(attachments)[1..] == rest;
      forall i | 0 <= i < |rest| ensures |rest[i].body| < limit {
        assert FilesRead(attachments)[i + 1] == rest[i];
      }
      CollectsFiles(f, attachments[1..], boundary, limit);
      assert Sendable(a, boundary);
      hide PlainMedia, IsMultipart, Attachments, FileHeaders, Encoded, Find;
      FileGets(a);
      LeafIsReceived(f, a);
    }
  }

  lemma MixedPrinted(boundary: string)
    ensures MixedLine(boundary) == HeaderLine("Content-Type", Printed("multipart/mixed", [("boundary", boundary)]))
  {
    PgpWrap.OneParam(("boundary", boundary));
    PgpWrap.BoundaryQuoted(boundary);
    hide Params, Quoted;
    assert "Content-Type" + ": " + "multipart/mixed" == "Content-Type: multipart/mixed";
  }

  lemma MixedIsPlain(boundary: string)
    requires PlainBoundary(boundary)
    ensures PlainMedia("multipart/mixed") && PlainParams([("boundary", boundary)]) && PlainLine(MixedLine(boundary))
    ensures IsMultipart("multipart/mixed")
  {
    assert ToLower("multipart/mixed") == "multipart/mixed" && ToLower("boundary") == "boundary";
    assert PlainParam(("boundary", boundary));
  }

  function MixedType(boundary: string): string {
    "multipart/mixed" + ("; boundary=\"" + boundary + "\"")
  }

  lemma MixedTypePrinted(boundary: string)
    ensures MixedType(boundary) == Printed("multipart/mixed", [("boundary", boundary)])
    ensures Trimmed(MixedType(boundary)) && MixedType(boundary) != ""
  {
    PgpWrap.OneParam(("boundary", boundary));
    PgpWrap.BoundaryQuoted(boundary);
    hide Params, Quoted;
  }

  lemma MixedParses(boundary: string)
    requires PlainBoundary(boundary)
    ensures ParseMediaType(MixedType(boundary)) == Some(MediaType("multipart/mixed", map["boundary" := boundary]))
    ensures MediaOf(MixedType(boundary)) == "multipart/mixed"
  {
    hide *;
    MixedTypePrinted(boundary);
    MixedIsPlain(boundary);
    ParsesMedia("multipart/mixed", [("boundary", boundary)]);
    PgpWrap.OneParam(("boundary", boundary));
    MediaIs(MixedType(boundary));
  }

  lemma MediaIs(value: string)
    requires ParseMediaType(value).Some?
    ensures MediaOf(value) == ParseMediaType(value).value.media
  {
    hide ParseMediaType;
  }

  ghost function AllParts(text: string, attachments: seq<Attachment>): seq<Part>
    requires AllBytes(attachments)
  {
    [Part(TextHeaders(), text)] + FilesRead(attachments)
  }

  ghost function Body(text: string, attachments: seq<Attachment>, boundary: string): string
    requires AllBytes(attachments)
  {
    PrintedParts(Delimiter(boundary), [TextPart(text)] + FileParts(attachments), "")
  }

  /** The document is one header and a multipart body. */
  lemma ReadsDocument(text: string, attachments: seq<Attachment>, boundary: string)
    requires AllBytes(attachments) && PlainBoundary(boundary)
    ensures SplitMessage(Document(text, attachments, boundary))
         == Some(([("Content-Type", MixedType(boundary))], Body(text, attachments, boundary)))
  {
    hide *;
    var line := MixedLine(boundary);
    MixedIsPlain(boundary);
    MixedPrinted(boundary);
    MixedTypePrinted(boundary);
    HeaderNames();
    EntryOfHeader("Content-Type", MixedType(boundary));
    PgpWrap.OneHead(line);
    ParsesMessage([line], Body(text, attachments, boundary));
    DocumentIs(text, attachments, boundary);
  }

  lemma DocumentIs(text: string, attachments: seq<Attachment>, boundary: string)
    requires AllBytes(attachments)
    ensures Document(text, attachments, boundary)
         == MixedLine(boundary) + "\r\n" + "\r\n" + Body(text, attachments, boundary)
    ensures Body(text, attachments, boundary)
         == PrintedParts(Delimiter(boundary), [TextPart(text)] + FileParts(attachments), "")
    ensures AllParts(text, attachments) == [Part(TextHeaders(), text)] + FilesRead(attachments)
  {
    hide PrintedParts, MixedLine, FileParts, TextPart, FilesRead;
  }

  lemma ReadsBody(text: string, attachments: seq<Attachment>, boundary: string)
    requires AllBytes(attachments) && AllSendable(attachments, boundary) && PlainBoundary(boundary)
    requires Lacks(text, Delimiter(boundary))
    ensures PartsOf(Body(text, attachments, boundary), boundary) == AllParts(text, attachments)
  {
    hide *;
    var texts := [TextPart(text)] + FileParts(attachments);
    DelimiterFacts(boundary);
    TextLacks(text, boundary);
    ReadsFiles(attachments, boundary);
    FirstLacks(TextPart(text), FileParts(attachments), Delimiter(boundary));
    ReadsMultipart(boundary, texts, "");
    ReadsTextPart(text);
    FirstText(TextPart(text), FileParts(attachments));
    DocumentIs(text, attachments, boundary);
  }

  lemma FirstLacks(text: string, rest: seq<string>, n: string)
    requires n != "" && Lacks(text, n) && AllLack(rest, n)
    ensures AllLack([text] + rest, n)
  {
    hide Lacks;
  }

  lemma FirstText(text: string, rest: seq<string>)
    ensures PartsIn([text] + rest) == PartIn(text) + PartsIn(rest)
  {
    assert ([text] + rest)[1..] == rest;
    hide PartIn;
  }

  lemma MixedGets(boundary: string)
    ensures var h := [("Content-Type", MixedType(boundary))];
            && Get(h, "Content-Type") == MixedType(boundary)
            && Get(h, "Content-Transfer-Encoding") == "" && Get(h, "Content-Disposition") == ""
  {
    PgpWrap.GetOnly(MixedType(boundary));
    NamesDiffer();
    hide MixedType, EqIgnoreCase;
    assert [("Content-Type", MixedType(boundary))][1..] == [];
  }

  lemma CollectsAll(f: Foreign, text: string, attachments: seq<Attachment>, boundary: string, limit: nat)
    requires AllBytes(attachments) && AllSendable(attachments, boundary)
    requires forall i :: 0 <= i < |AllParts(text, attachments)| ==> |AllParts(text, attachments)[i].body| < limit
    ensures AllAttachments(f, AllParts(text, attachments), limit) == AllReceived(attachments)
  {
    var parts, rest := AllParts(text, attachments), FilesRead(attachments);
    assert parts[0] == Part(TextHeaders(), text) && parts[1..] == rest;
    forall i | 0 <= i < |rest| ensures |rest[i].body| < limit {
      assert parts[i + 1] == rest[i];
    }
    CollectsFiles(f, attachments, boundary, limit);
    hide FilesRead, AllSendable, AllBytes, TextHeaders, Attachments;
    TextGets();
    TextIsNoAttachment(f, text);
    assert AllAttachments(f, parts, limit) == [] + AllAttachments(f, rest, limit);
    hide AllAttachments;
  }

  /**
   Sealed attachments come back: for every text and list of files that the delimiter
   occurs in none of, the reader finds exactly those files, in order, byte for byte.
   */
  lemma AttachmentsComeBack(f: Foreign, text: string, attachments: seq<Attachment>, boundary: string)
    requires AllBytes(attachments) && AllSendable(attachments, boundary) && PlainBoundary(boundary)
    requires Lacks(text, Delimiter(boundary))
    ensures ExtractAttachments(f, Document(text, attachments, boundary)) == AllReceived(attachments)
  {
    hide *;
    var body := Body(text, attachments, boundary);
    ReadsDocument(text, attachments, boundary);
    ReadsBody(text, attachments, boundary);
    MixedGets(boundary);
    MixedParses(boundary);
    MixedIsPlain(boundary);
    CollectsAll(f, text, attachments, boundary, |body|);
    ExtractsAll(f, Document(text, attachments, boundary), [("Content-Type", MixedType(boundary))], body);
    BoundaryOf(boundary);
  }

  lemma BoundaryOf(boundary: string)
    ensures "boundary" in map["boundary" := boundary] && map["boundary" := boundary]["boundary"] == boundary
  {
  }

  lemma ExtractsAll(f: Foreign, raw: string, h: Headers, body: string)
    requires SplitMessage(raw) == Some((h, body)) && IsMultipart(MediaOf(Get(h, "Content-Type")))
    ensures var mt := ParseMediaType(Get(h, "Content-Type"));
            && mt.Some?
            && ("boundary" in mt.value.params ==>
                  ExtractAttachments(f, raw) == AllAttachments(f, PartsOf(body, mt.value.params["boundary"]), |body|))
  {
    assert !IsMultipart("") by {
      assert |"multipart/"| > |""|;
    }
    hide SplitMessage, Get, ParseMediaType, IsMultipart, PartsOf, AllAttachments;
  }

  lemma TakesText(f: Foreign, text: string, rest: seq<Part>, limit: nat)
    requires |text| < limit && forall i :: 0 <= i < |rest| ==> |rest[i].body| < limit
    ensures MixedText(f, [Part(TextHeaders(), text)] + rest, "", limit) == NormaliseNewlines(text)
  {
    TextGets();
    TextIsPlain();
    EightBit(f, text);
    hide Get, MediaOf, NormaliseNewlines, DecodeTransfer, TextHeaders, IsMultipart;
  }

  /** And so does the text, with LF line endings. */
  lemma TextComesBack(f: Foreign, text: string, attachments: seq<Attachment>, boundary: string)
    requires AllBytes(attachments) && AllSendable(attachments, boundary) && PlainBoundary(boundary)
    requires Lacks(text, Delimiter(boundary))
    ensures var read := SplitMessage(Document(text, attachments, boundary));
            && read.Some?
            && ExtractText(f, Get(read.value.0, "Content-Type"),
                           Get(read.value.0, "Content-Transfer-Encoding"), read.value.1) == NormaliseNewlines(text)
  {
    hide *;
    var body := Body(text, attachments, boundary);
    ReadsDocument(text, attachments, boundary);
    ReadsBody(text, attachments, boundary);
    MixedGets(boundary);
    MixedParses(boundary);
    MixedTypePrinted(boundary);
    MixedIsPlain(boundary);
    var parts := AllParts(text, attachments);
    DocumentIs(text, attachments, boundary);
    assert parts[0] == Part(TextHeaders(), text);
    forall i | 0 <= i < |FilesRead(attachments)| ensures |FilesRead(attachments)[i].body| < |body| {
      assert parts[i + 1] == FilesRead(attachments)[i];
    }
    TakesText(f, text, FilesRead(attachments), |body|);
    BoundaryOf(boundary);
    ExtractsMixed(f, MixedType(boundary), "", body);
  }

  lemma ExtractsMixed(f: Foreign, contentType: string, cte: string, body: string)
    requires contentType != "" && ParseMediaType(contentType).Some?
    requires var mt := ParseMediaType(contentType).value; mt.media == "multipart/mixed" && "boundary" in mt.params
    ensures ExtractText(f, contentType, cte, body)
         == MixedText(f, PartsOf(body, ParseMediaType(contentType).value.params["boundary"]), "", |body|)
  {
    hide ParseMediaType, PartsOf, MixedText, DecodeTransfer, NormaliseNewlines;
    assert "multipart/mixed"[0] == 'm' && "text/plain"[0] == 't' && "text/html"[0] == 't';
    assert |"multipart/mixed"| == 15 && |"multipart/encrypted"| == 19;
    assert "multipart/mixed"[..10] == "multipart/";
  }

  // ---- names and types filled in -----------------------------------------------------------------------------------

  /** A name without its quotes: every other character of it, in order. */
  lemma NameWithoutQuotes(a: Attachment, before: string, after: string)
    ensures a.filename == before + "\"" + after && NoChar(before, '"') ==>
              NameOf(a) == before + ReplaceAll(after, "\"", "")
    ensures a.contentType == "" ==> Received(a).contentType == "application/octet-stream"
  {
    if a.filename == before + "\"" + after && NoChar(before, '"') {
      hide Find;
      forall j | 0 <= j < |before| ensures !OccursAt(a.filename, "\"", j) {
        if OccursAt(a.filename, "\"", j) {
          OccursChars(a.filename, "\"", j, 0);
        }
      }
      assert a.filename[|before|..|before| + 1] == "\"";
      FindIs(a.filename, "\"", |before|);
      assert a.filename[..|before|] == before && a.filename[|before| + 1..] == after;
      assert before + "" + ReplaceAll(after, "\"", "") == before + ReplaceAll(after, "\"", "");
    }
  }
}
