/**
 What the reader makes of mail that neither printer of the relay lays out: bare LF line
 endings, parameters without quotes, encodings in any case, and attachments named by
 either of their headers.
 */
module MimeReader {
  import opened Wrappers
  import opened Text
  import opened Search
  import opened Mime
  import opened MimePrinted
  import Base64

  // ---- transfer encodings ----------------------------------------------------------------------------

  lemma TrimsTo2(before: string, word: string, after: string)
    requires AllSpace(before) && AllSpace(after) && word != "" && Trimmed(word)
    ensures Trim(before + word + after) == word
  {
    TrimsBoth(before, word, after);
  }

  lemma EncodingNames()
    ensures ToLower("base64") == "base64" && ToLower("quoted-printable") == "quoted-printable"
    ensures "base64" != "quoted-printable"
  {
    assert |"base64"| == 6 && |"quoted-printable"| == 16;
  }

  /** An encoding is known in any case and with white space around it; one that is not known is none. */
  lemma TransferExactly(f: Foreign, before: string, word: string, after: string, body: string)
    requires AllSpace(before) && AllSpace(after) && word != "" && Trimmed(word)
    ensures var read := DecodeTransfer(f, before + word + after, body);
            && (EqIgnoreCase(word, "quoted-printable") ==> read == f.quotedPrintable(body))
            && (EqIgnoreCase(word, "base64") ==>
                  forall data :: Base64.IsBytes(data) && body == Base64.Wrap(Base64.Encode(data)) ==> read == data)
            && (!EqIgnoreCase(word, "quoted-printable") && !EqIgnoreCase(word, "base64") ==> read == body)
  {
    TrimsTo2(before, word, after);
    EncodingNames();
    hide Trim, ToLower, Base64.DecodeLenient;
    forall data | Base64.IsBytes(data) && body == Base64.Wrap(Base64.Encode(data))
      ensures Base64.DecodeLenient(body) == data
    {
      Base64.DecodeOfWrapped(data);
    }
  }

  // ---- parameters without quotes -----------------------------------------------------------------------

  /** Quotes are taken off in pairs, and only at the two ends. */
  lemma UnquoteExactly(v: string, u: string)
    ensures v == "\"" + u + "\"" ==> Unquote(v) == u
    ensures (forall w :: v != "\"" + w + "\"") ==> Unquote(v) == v
  {
    if |v| >= 2 && v[0] == '"' && v[|v| - 1] == '"' {
      assert v == "\"" + v[1..|v| - 1] + "\"";
    }
  }

  predicate BareValue(v: string) {
    v != "" && Trimmed(v) && NoChar(v, '"') && NoChar(v, ';')
  }

  predicate PlainKeyWord(key: string) {
    key != "" && Trimmed(key) && NoChar(key, '"') && NoChar(key, ';') && NoChar(key, '=')
  }

  lemma NoQuoteJoin(a: string, b: string, c: char)
    requires NoChar(a, c) && NoChar(b, c)
    ensures NoChar(a + b, c)
  {
  }

  lemma LastOfJoin(a: string, b: string)
    requires b != ""
    ensures (a + b)[|a + b| - 1] == b[|b| - 1]
  {
  }

  /** A parameter need not be quoted, and its name and the media type may be in any case. */
  lemma ParsesBareParameter(media: string, key: string, v: string)
    requires media != "" && Trimmed(media) && NoChar(media, ';') && PlainKeyWord(key) && BareValue(v)
    ensures ParseMediaType(media + ";" + (" " + key + "=" + v))
         == Some(MediaType(ToLower(media), map[ToLower(key) := v]))
  {
    hide *;
    var param := " " + key + "=" + v;
    var value := media + ";" + param;
    BareParts(media, key, v);
    TrimIdentity(value);
    TrimIdentity(media);
    SplitOnceAt(media, ';', param);
    OnePiece(param);
    AddsBare(key, v);
    LowerNotEmpty(media);
    MediaFrom(value, media, param);
  }

  lemma BareParts(media: string, key: string, v: string)
    requires media != "" && Trimmed(media) && NoChar(media, ';') && PlainKeyWord(key) && BareValue(v)
    ensures var value := media + ";" + (" " + key + "=" + v);
            && value != "" && !IsSpace(value[0]) && !IsSpace(value[|value| - 1])
            && value == media + [';'] + (" " + key + "=" + v)
    ensures NoChar(" " + key + "=" + v, '"') && NoChar(" " + key + "=" + v, ';') && " " + key + "=" + v != ""
    ensures !IsSpace(media[0]) && !IsSpace(media[|media| - 1]) && NoChar(media, ';')
  {
    var param := " " + key + "=" + v;
    NoQuoteJoin(" ", key, '"');
    NoQuoteJoin(" " + key, "=", '"');
    NoQuoteJoin(" " + key + "=", v, '"');
    NoQuoteJoin(" ", key, ';');
    NoQuoteJoin(" " + key, "=", ';');
    NoQuoteJoin(" " + key + "=", v, ';');
    LastOfJoin(" " + key + "=", v);
    LastOfJoin(media + ";", param);
    assert (media + ";" + param)[0] == media[0];
    hide IsSpace, NoChar;
  }

  lemma OnePiece(param: string)
    requires NoChar(param, '"') && NoChar(param, ';') && param != ""
    ensures SplitFrom(param, "", false) == [param]
  {
    PlainRun(param, "", "", false);
    assert param + "" == param && "" + param == param;
  }

  lemma AddsBare(key: string, v: string)
    requires PlainKeyWord(key) && BareValue(v)
    ensures AddParams(map[], [" " + key + "=" + v]) == map[ToLower(key) := v]
  {
    hide *;
    var param := " " + key + "=" + v;
    BareKey(key, v);
    SplitOnceAt(" " + key, '=', v);
    TrimsTo(key);
    TrimIdentity(v);
    AddParamFrom(map[], param, " " + key, v);
    OneParam(param);
  }

  lemma BareKey(key: string, v: string)
    requires PlainKeyWord(key) && BareValue(v)
    ensures NoChar(" " + key, '=') && Trimmed(key) && " " + key + ['='] + v == " " + key + "=" + v
    ensures v != "" && !IsSpace(v[0]) && !IsSpace(v[|v| - 1]) && Unquote(v) == v
  {
  }

  lemma OneParam(param: string)
    ensures AddParams(map[], [param]) == AddParam(map[], param)
  {
    assert [param][..0] == [];
    hide AddParam;
  }

  lemma MediaFrom(value: string, media: string, param: string)
    requires Trim(value) == value && value != "" && SplitOnce(value, ';') == Some((media, param)) && Trim(media) == media
    requires ToLower(media) != ""
    ensures ParseMediaType(value) == Some(MediaType(ToLower(media), AddParams(map[], SplitFrom(param, "", false))))
  {
    hide Trim, SplitOnce, ToLower, SplitFrom, AddParams;
  }

  lemma LowerNotEmpty(s: string)
    requires s != ""
    ensures ToLower(s) != ""
  {
    assert |ToLower(s)| == |s|;
  }

  // ---- the name of an attachment ------------------------------------------------------------------------

  lemma Dispositions()
    ensures PlainMedia("attachment") && ToLower("filename") == "filename" && ToLower("name") == "name"
    ensures "filename" != "name"
  {
    assert ToLower("attachment") == "attachment";
    assert |"filename"| == 8 && |"name"| == 4;
  }

  lemma OneMapped(key: string, v: string)
    ensures Mapped(map[], [(key, v)]) == map[key := v]
  {
    assert [(key, v)][1..] == [];
    assert Mapped(map[key := v], []) == map[key := v];
  }

  lemma NoneMapped(media: string)
    ensures Mapped(map[], []) == map[] && Printed(media, []) == media
  {
  }

  /** The disposition names the file; failing that the content type does; failing that it has no name. */
  lemma NamesExactly(f: Foreign, media: string, name: string, filename: string, cte: string, body: string)
    requires PlainMedia(media) && NoChar(name, '"') && NoChar(filename, '"')
    ensures var typed, disposed := Printed(media, [("name", name)]), Printed("attachment", [("filename", filename)]);
            var bytes := DecodeTransfer(f, cte, body);
            && LeafAttachment(f, typed, cte, disposed, body) == [Attachment(filename, media, bytes)]
            && LeafAttachment(f, typed, cte, "attachment", body) == [Attachment(name, media, bytes)]
            && LeafAttachment(f, media, cte, "attachment", body) == [Attachment("", media, bytes)]
  {
    Dispositions();
    assert PlainParam(("name", name)) && PlainParam(("filename", filename));
    hide *;
    OnePlain(("name", name));
    OnePlain(("filename", filename));
    NonePlain();
    OneMapped("name", name);
    OneMapped("filename", filename);
    NoneMapped("attachment");
    NoneMapped(media);
    ParsesMedia(media, [("name", name)]);
    ParsesMedia(media, []);
    ParsesMedia("attachment", [("filename", filename)]);
    ParsesMedia("attachment", []);
    var typed, disposed := Printed(media, [("name", name)]), Printed("attachment", [("filename", filename)]);
    LeafIs(f, typed, cte, disposed, body, media, map["name" := name], map["filename" := filename]);
    LeafIs(f, typed, cte, "attachment", body, media, map["name" := name], map[]);
    LeafIs(f, media, cte, "attachment", body, media, map[], map[]);
  }

  lemma OnePlain(p: Param)
    requires PlainParam(p)
    ensures PlainParams([p])
  {
    hide PlainParam;
  }

  lemma NonePlain()
    ensures PlainParams([])
  {
  }

  lemma LeafIs(f: Foreign, contentType: string, cte: string, disposition: string, body: string,
               media: string, typed: map<string, string>, disposed: map<string, string>)
    requires ParseMediaType(contentType) == Some(MediaType(media, typed))
    requires ParseMediaType(disposition) == Some(MediaType("attachment", disposed))
    requires typed == map[] || exists n :: typed == map["name" := n]
    requires disposed == map[] || exists n :: disposed == map["filename" := n]
    ensures LeafAttachment(f, contentType, cte, disposition, body)
         == [Attachment(if "filename" in disposed then disposed["filename"] else if "name" in typed then typed["name"] else "",
                        media, DecodeTransfer(f, cte, body))]
  {
    hide ParseMediaType, DecodeTransfer;
  }

  /** Any other disposition, or none that can be read, is no attachment. */
  lemma OthersAreNone(f: Foreign, contentType: string, cte: string, disposition: string, body: string)
    requires PlainMedia(disposition) && disposition != "attachment"
    ensures LeafAttachment(f, contentType, cte, disposition, body) == []
    ensures LeafAttachment(f, contentType, cte, "", body) == []
  {
    NonePlain();
    NoneMapped(disposition);
    ParsesMedia(disposition, []);
    TrimIdentity("");
    hide Mapped, Printed, PlainParams, PlainMedia;
  }

  // ---- bare LF --------------------------------------------------------------------------------------------

  /** Lines, each with a bare LF. */
  ghost function LfHead(lines: seq<string>): string {
    if lines == [] then "" else lines[0] + "\n" + LfHead(lines[1..])
  }

  lemma AddsLf(entries: Headers, l: string)
    requires PlainLine(l)
    ensures AddLine(entries, l) == entries + EntryOf(l)
  {
    assert StripSuffixChar(l, '\r') == l;
    hide Trim;
  }

  lemma LfStep(lines: seq<string>)
    requires lines != [] && AllPlain(lines)
    ensures LfHead(lines) == lines[0] + "\n" + LfHead(lines[1..])
    ensures PlainLine(lines[0]) && NoChar(lines[0], '\n') && AllPlain(lines[1..])
  {
  }

  lemma LfNothing(entries: Headers)
    ensures ParseLines(entries, LfHead([])) == entries + Entries([])
  {
  }

  lemma {:induction false} ParsesLfHead(entries: Headers, lines: seq<string>)
    requires AllPlain(lines)
    ensures ParseLines(entries, LfHead(lines)) == entries + Entries(lines)
    decreases |lines|
  {
    hide *;
    if lines == [] {
      LfNothing(entries);
    } else {
      LfStep(lines);
      AddsLf(entries, lines[0]);
      ParsesLine(entries, lines[0], LfHead(lines[1..]));
      ParsesLfHead(entries + EntryOf(lines[0]), lines[1..]);
      RegroupHeaders(entries, EntryOf(lines[0]), Entries(lines[1..]));
      EntriesStep(lines);
    }
  }

  lemma TwoLf(h: string, j: nat)
    ensures OccursAt(h, "\n\n", j) <==> j + 2 <= |h| && h[j] == '\n' && h[j + 1] == '\n'
  {
    if j + 2 <= |h| {
      assert h[j..j + 2] == [h[j], h[j + 1]];
    }
  }

  lemma NoLfInside(l: string, rest: string, j: nat)
    requires OneLine(l) && j < |l|
    ensures !OccursAt(l + "\n" + rest, "\n\n", j)
  {
    hide OccursAt;
    TwoLf(l + "\n" + rest, j);
    assert (l + "\n" + rest)[j] == l[j];
  }

  lemma LfAtEnd(l: string, rest: string)
    ensures OccursAt(l + "\n" + rest, "\n\n", |l|) <==> rest != "" && rest[0] == '\n'
  {
    hide OccursAt;
    TwoLf(l + "\n" + rest, |l|);
  }

  lemma BlankLfAfterLine(l: string, rest: string)
    requires OneLine(l) && l != ""
    ensures Find(l + "\n" + rest, "\n\n") == if rest != "" && rest[0] == '\n' then Some(|l|) else Shift(Find(rest, "\n\n"), |l| + 1)
  {
    hide *;
    var h := l + "\n" + rest;
    forall j | 0 <= j < |l| ensures !OccursAt(h, "\n\n", j) {
      NoLfInside(l, rest, j);
    }
    LfAtEnd(l, rest);
    if rest != "" && rest[0] == '\n' {
      FindIs(h, "\n\n", |l|);
    } else {
      FindPast(l + "\n", rest, "\n\n");
    }
  }

  lemma {:induction false} BlankAfterLfHead(lines: seq<string>, body: string)
    requires lines != [] && AllPlain(lines)
    ensures |LfHead(lines)| >= 1 && Find(LfHead(lines) + "\n" + body, "\n\n") == Some(|LfHead(lines)| - 1)
  {
    hide Find;
    var l, rest := lines[0], LfHead(lines[1..]) + "\n" + body;
    assert LfHead(lines) + "\n" + body == l + "\n" + rest;
    BlankLfAfterLine(l, rest);
    if |lines| == 1 {
      assert rest == "\n" + body;
    } else {
      BlankAfterLfHead(lines[1..], body);
      assert PlainLine(lines[1]) && rest[0] == lines[1][0];
    }
  }

  /** A message with bare LF throughout: its headers and its body come back all the same. */
  lemma ParsesLfMessage(lines: seq<string>, body: string)
    requires lines != [] && AllPlain(lines)
    requires Lacks(LfHead(lines) + "\n" + body, "\r\n\r\n")
    ensures SplitMessage(LfHead(lines) + "\n" + body) == Some((Entries(lines), body))
  {
    hide Find, ParseLines, Entries;
    var data := LfHead(lines) + "\n" + body;
    BlankAfterLfHead(lines, body);
    ParsesLfHead([], lines);
    assert data[..|LfHead(lines)|] == LfHead(lines) && data[|LfHead(lines)| + 1..] == body;
    assert [] + Entries(lines) == Entries(lines);
  }

  /** A message that is nothing but a head is one without a body; nothing at all is none. */
  lemma ParsesHeadOnly(data: string)
    requires Lacks(data, "\r\n\r\n") && Lacks(data, "\n\n")
    ensures SplitMessage(data) == if data == "" then None else Some((ParseLines([], data), ""))
  {
    hide Find, ParseLines;
  }

  // ---- parts with bare LF -----------------------------------------------------------------------------------

  ghost function LfParts(delim: string, texts: seq<string>, trailer: string): string {
    if texts == [] then "--" + trailer
    else "\n" + texts[0] + "\n" + delim + LfParts(delim, texts[1..], trailer)
  }

  predicate NoCrAtEnd(text: string) {
    text != "" ==> text[|text| - 1] != '\r'
  }

  lemma StripsLf(rest: string)
    ensures StripEol("\n" + rest) == rest && !IsClosing("\n" + rest)
  {
    assert ("\n" + rest)[1..] == rest;
    assert ("\n" + rest)[0] == '\n';
  }

  lemma TextBeforeLf(text: string, rest: string)
    requires NoCrAtEnd(text)
    ensures PartText(text + "\n" + rest, |text| + 1) == text
  {
    var all := text + "\n" + rest;
    assert all[..|text|] == text && all[|text|] == '\n';
    if |text| >= 1 {
      assert all[|text| - 1..|text| + 1] == [text[|text| - 1], '\n'];
    }
  }

  lemma FindAfterLf(a: string, b: string, n: string)
    requires n != "" && Lacks(a, n) && OneLine(n)
    ensures Find(a + "\n" + b, n) == Shift(Find(b, n), |a| + 1)
  {
    FindAfter(a, '\n', b, n);
    hide Find;
    assert a + ['\n'] + b == a + "\n" + b;
  }

  lemma ReadsOneLfPart(delim: string, text: string, tail: string)
    requires delim != "" && OneLine(delim) && Lacks(text, delim) && NoCrAtEnd(text)
    ensures PartsAfter("\n" + text + "\n" + delim + tail, delim) == PartIn(text) + PartsAfter(tail, delim)
  {
    hide *;
    var line := text + "\n" + (delim + tail);
    assert "\n" + text + "\n" + delim + tail == "\n" + line;
    StripsLf(line);
    FindAfterLf(text, delim + tail, delim);
    FindHere(delim, tail);
    ShiftZero(|text| + 1);
    PartsStep("\n" + line, delim, |text| + 1);
    TextBeforeLf(text, delim + tail);
    assert line[|text| + 1 + |delim|..] == tail;
  }

  lemma {:induction false} ReadsLfParts(delim: string, texts: seq<string>, trailer: string)
    requires delim != "" && OneLine(delim) && AllLack(texts, delim)
    requires forall i :: 0 <= i < |texts| ==> NoCrAtEnd(texts[i])
    ensures PartsAfter(LfParts(delim, texts, trailer), delim) == PartsIn(texts)
  {
    if texts == [] {
      NoMoreParts("--" + trailer, delim);
    } else {
      ReadsOneLfPart(delim, texts[0], LfParts(delim, texts[1..], trailer));
      ReadsLfParts(delim, texts[1..], trailer);
      hide PartsAfter, PartIn, Find;
    }
  }

  /** Parts printed with bare LF are exactly those read, whatever stands before the first delimiter. */
  lemma ReadsLfMultipart(preamble: string, boundary: string, texts: seq<string>, trailer: string)
    requires OneLine(boundary) && AllLack(texts, Delimiter(boundary)) && Lacks(preamble, Delimiter(boundary))
    requires forall i :: 0 <= i < |texts| ==> NoCrAtEnd(texts[i])
    ensures PartsOf(preamble + "\n" + (Delimiter(boundary) + LfParts(Delimiter(boundary), texts, trailer)), boundary)
         == PartsIn(texts)
  {
    hide *;
    var delim := Delimiter(boundary);
    LineDelimiter(boundary);
    var tail := LfParts(delim, texts, trailer);
    FindAfterLf(preamble, delim + tail, delim);
    FindHere(delim, tail);
    ShiftZero(|preamble| + 1);
    ReadsLfParts(delim, texts, trailer);
    TailOf(preamble, delim, tail);
    PartsFrom(preamble + "\n" + (delim + tail), boundary, |preamble| + 1);
  }

  lemma LineDelimiter(boundary: string)
    requires OneLine(boundary)
    ensures OneLine(Delimiter(boundary)) && Delimiter(boundary) != ""
  {
  }

  lemma TailOf(preamble: string, delim: string, tail: string)
    ensures (preamble + "\n" + (delim + tail))[|preamble| + 1 + |delim|..] == tail
  {
  }

  lemma PartsFrom(body: string, boundary: string, start: nat)
    requires Find(body, Delimiter(boundary)) == Some(start)
    ensures start + |Delimiter(boundary)| <= |body|
    ensures PartsOf(body, boundary) == PartsAfter(body[start + |Delimiter(boundary)|..], Delimiter(boundary))
  {
    hide Find, PartsAfter, OccursAt, Delimiter;
  }

  // ---- the text of a multipart ------------------------------------------------------------------------------

  /** What one part has to say: plain text always does, a multipart inside if there is text in it. */
  function Says(f: Foreign, part: Part): Option<string> {
    var ct, cte := Get(part.headers, "Content-Type"), Get(part.headers, "Content-Transfer-Encoding");
    if ct != "" && MediaOf(ct) == "text/plain" then Some(NormaliseNewlines(DecodeTransfer(f, cte, part.body)))
    else if ct != "" && IsMultipart(MediaOf(ct)) && ExtractText(f, ct, cte, part.body) != ""
    then Some(ExtractText(f, ct, cte, part.body))
    else None
  }

  /** The HTML of one part, converted. */
  function Converted(f: Foreign, part: Part): string {
    var ct := Get(part.headers, "Content-Type");
    if ct != "" && MediaOf(ct) == "text/html"
    then f.htmlToMarkdown(DecodeTransfer(f, Get(part.headers, "Content-Transfer-Encoding"), part.body)) else ""
  }

  lemma MediaDiffer()
    ensures "text/plain" != "text/html" && !IsMultipart("text/html") && !IsMultipart("text/plain")
  {
    assert "text/plain"[5] == 'p' && "text/html"[5] == 'h' && "multipart/"[0] == 'm' && "text/html"[0] == 't';
    assert "text/plain"[0] == 't';
  }

  lemma MixedStep(f: Foreign, parts: seq<Part>, html: string, limit: nat)
    requires parts != [] && forall i :: 0 <= i < |parts| ==> |parts[i].body| < limit
    ensures MixedText(f, parts, html, limit) == match Says(f, parts[0])
            case Some(text) => text
            case None => MixedText(f, parts[1..], if html == "" then Converted(f, parts[0]) else html, limit)
  {
    MediaDiffer();
    hide MediaOf, Get, DecodeTransfer, NormaliseNewlines, ExtractText, IsMultipart;
  }

  ghost predicate SaysFirst(f: Foreign, parts: seq<Part>, i: nat) {
    i < |parts| && Says(f, parts[i]).Some? && forall j :: 0 <= j < i ==> Says(f, parts[j]).None?
  }

  ghost predicate Silent(f: Foreign, parts: seq<Part>) {
    forall i :: 0 <= i < |parts| ==> Says(f, parts[i]).None?
  }

  ghost predicate ConvertsFirst(f: Foreign, parts: seq<Part>, i: nat) {
    i < |parts| && Converted(f, parts[i]) != "" && forall j :: 0 <= j < i ==> Converted(f, parts[j]) == ""
  }

  ghost predicate NothingConverts(f: Foreign, parts: seq<Part>) {
    forall i :: 0 <= i < |parts| ==> Converted(f, parts[i]) == ""
  }

  lemma Onwards(f: Foreign, parts: seq<Part>, i: nat)
    requires parts != []
    ensures SaysFirst(f, parts, i) ==> if i == 0 then Says(f, parts[0]).Some? else Says(f, parts[0]).None? && SaysFirst(f, parts[1..], i - 1)
    ensures Silent(f, parts) ==> Says(f, parts[0]).None? && Silent(f, parts[1..])
    ensures ConvertsFirst(f, parts, i) ==>
              if i == 0 then Converted(f, parts[0]) != "" else Converted(f, parts[0]) == "" && ConvertsFirst(f, parts[1..], i - 1)
    ensures NothingConverts(f, parts) ==> Converted(f, parts[0]) == "" && NothingConverts(f, parts[1..])
  {
    hide Says, Converted;
    assert forall k :: 0 <= k < |parts| - 1 ==> parts[1..][k] == parts[k + 1];
  }

  lemma Shorter(parts: seq<Part>, limit: nat)
    requires parts != [] && forall i :: 0 <= i < |parts| ==> |parts[i].body| < limit
    ensures forall i :: 0 <= i < |parts[1..]| ==> |parts[1..][i].body| < limit
  {
  }

  lemma SilentStep(f: Foreign, parts: seq<Part>, html: string, limit: nat)
    requires parts != [] && (forall k :: 0 <= k < |parts| ==> |parts[k].body| < limit) && Says(f, parts[0]).None?
    ensures forall k :: 0 <= k < |parts[1..]| ==> |parts[1..][k].body| < limit
    ensures MixedText(f, parts, html, limit)
         == MixedText(f, parts[1..], if html == "" then Converted(f, parts[0]) else html, limit)
  {
    hide *;
    Shorter(parts, limit);
    MixedStep(f, parts, html, limit);
  }

  lemma SaysNow(f: Foreign, parts: seq<Part>, html: string, limit: nat)
    requires parts != [] && (forall k :: 0 <= k < |parts| ==> |parts[k].body| < limit) && Says(f, parts[0]).Some?
    ensures MixedText(f, parts, html, limit) == Says(f, parts[0]).value
  {
    hide *;
    MixedStep(f, parts, html, limit);
  }

  lemma Next(parts: seq<Part>, i: nat)
    requires 0 < i < |parts|
    ensures parts[1..][i - 1] == parts[i]
  {
  }

  lemma {:induction false} FirstToSay(f: Foreign, parts: seq<Part>, html: string, limit: nat, i: nat)
    requires (forall k :: 0 <= k < |parts| ==> |parts[k].body| < limit) && SaysFirst(f, parts, i)
    ensures i < |parts| && Says(f, parts[i]).Some? && MixedText(f, parts, html, limit) == Says(f, parts[i]).value
    decreases i
  {
    hide *;
    SaysFirstIs(f, parts, i);
    Onwards(f, parts, i);
    if i == 0 {
      SaysNow(f, parts, html, limit);
    } else {
      SilentStep(f, parts, html, limit);
      FirstToSay(f, parts[1..], if html == "" then Converted(f, parts[0]) else html, limit, i - 1);
      Next(parts, i);
    }
  }

  lemma SaysFirstIs(f: Foreign, parts: seq<Part>, i: nat)
    requires SaysFirst(f, parts, i)
    ensures i < |parts| && Says(f, parts[i]).Some?
  {
    hide Says;
  }

  lemma MixedNothing(f: Foreign, html: string, limit: nat)
    ensures MixedText(f, [], html, limit) == html
  {
  }

  lemma {:induction false} SilentKeepsHtml(f: Foreign, parts: seq<Part>, html: string, limit: nat)
    requires (forall k :: 0 <= k < |parts| ==> |parts[k].body| < limit) && Silent(f, parts) && html != ""
    ensures MixedText(f, parts, html, limit) == html
    decreases |parts|
  {
    hide *;
    if parts == [] {
      MixedNothing(f, html, limit);
    } else {
      Onwards(f, parts, 0);
      SilentStep(f, parts, html, limit);
      SilentKeepsHtml(f, parts[1..], html, limit);
    }
  }

  lemma {:induction false} FirstToConvert(f: Foreign, parts: seq<Part>, limit: nat, i: nat)
    requires (forall k :: 0 <= k < |parts| ==> |parts[k].body| < limit) && Silent(f, parts) && ConvertsFirst(f, parts, i)
    ensures MixedText(f, parts, "", limit) == Converted(f, parts[i])
    decreases i
  {
    hide *;
    ConvertsFirstIs(f, parts, i);
    Onwards(f, parts, i);
    SilentStep(f, parts, "", limit);
    var rest := parts[1..];
    if i == 0 {
      SilentKeepsHtml(f, rest, Converted(f, parts[0]), limit);
    } else {
      FirstToConvert(f, rest, limit, i - 1);
      Next(parts, i);
    }
  }

  lemma ConvertsFirstIs(f: Foreign, parts: seq<Part>, i: nat)
    requires ConvertsFirst(f, parts, i)
    ensures i < |parts| && Converted(f, parts[i]) != ""
  {
    hide Converted;
  }

  lemma {:induction false} NothingToSay(f: Foreign, parts: seq<Part>, limit: nat)
    requires (forall k :: 0 <= k < |parts| ==> |parts[k].body| < limit) && Silent(f, parts) && NothingConverts(f, parts)
    ensures MixedText(f, parts, "", limit) == ""
    decreases |parts|
  {
    hide *;
    if parts == [] {
      MixedNothing(f, "", limit);
    } else {
      Onwards(f, parts, 0);
      SilentStep(f, parts, "", limit);
      NothingToSay(f, parts[1..], limit);
    }
  }

  /**
   The text of a multipart is what its first part says that says anything; if none does it is
   the first HTML that converts to something; and if there is none of that either, nothing.
   A part without a Content-Type is passed over.
   */
  lemma MixedTextExactly(f: Foreign, parts: seq<Part>, limit: nat)
    requires forall i :: 0 <= i < |parts| ==> |parts[i].body| < limit
    ensures forall i: nat :: SaysFirst(f, parts, i) ==> MixedText(f, parts, "", limit) == Says(f, parts[i]).value
    ensures Silent(f, parts) ==>
              && (forall i: nat :: ConvertsFirst(f, parts, i) ==> MixedText(f, parts, "", limit) == Converted(f, parts[i]))
              && (NothingConverts(f, parts) ==> MixedText(f, parts, "", limit) == "")
  {
    forall i: nat | SaysFirst(f, parts, i) ensures MixedText(f, parts, "", limit) == Says(f, parts[i]).value {
      FirstToSay(f, parts, "", limit, i);
    }
    if Silent(f, parts) {
      forall i: nat | ConvertsFirst(f, parts, i) ensures MixedText(f, parts, "", limit) == Converted(f, parts[i]) {
        FirstToConvert(f, parts, limit, i);
      }
      if NothingConverts(f, parts) {
        NothingToSay(f, parts, limit);
      }
    }
    hide MixedText, Says, Converted, Silent, NothingConverts;
  }

  /**
   From an encrypted message nothing is taken but armour: the text is empty or holds a BEGIN
   line, whatever other parts there are, a plain text among them included.
   */
  lemma {:induction false} EncryptedIsArmour(f: Foreign, parts: seq<Part>)
    ensures EncryptedText(f, parts) == "" || Contains(EncryptedText(f, parts), BEGIN_PGP)
  {
    hide MediaOf, Get, DecodeTransfer, NormaliseNewlines, Contains;
    if parts != [] {
      EncryptedIsArmour(f, parts[1..]);
    }
  }
}
