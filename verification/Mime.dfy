/**
 Reading MIME: head and body, header lines, media types, the parts of a multipart, the
 text of a message and its attachments.

 Quoted-printable and the HTML conversion are parameters; nothing here looks into them.
 */
module Mime {
  import opened Wrappers
  import opened Text
  import opened Search
  import Base64

  datatype Foreign = Foreign(quotedPrintable: string -> string, htmlToMarkdown: string -> string)

  // ---- head and body -----------------------------------------------------------------------------

  type Headers = seq<(string, string)>

  /** The blank line, in either line ending; a message may be all head. */
  function SplitHeadBody(data: string): (r: Option<(string, string)>)
    ensures r.Some? ==> |r.value.1| <= |data|
  {
    match Find(data, "\r\n\r\n")
    case Some(i) => Some((data[..i + 2], data[i + 4..]))
    case None =>
      match Find(data, "\n\n")
      case Some(i) => Some((data[..i + 1], data[i + 2..]))
      case None => if data != "" then Some((data, "")) else None
  }

  /** One line of the head: a header, a continuation, or nothing of use. */
  function AddLine(entries: Headers, raw: string): Headers {
    var line := StripSuffixChar(raw, '\r');
    if line == "" then entries
    else if line[0] == ' ' || line[0] == '\t' then
      if entries == [] then entries
      else
        var (k, v) := entries[|entries| - 1];
        entries[..|entries| - 1] + [(k, v + " " + TrimStart(line))]
    else match SplitOnce(line, ':')
      case None => entries
      case Some(pair) => entries + [(Trim(pair.0), Trim(pair.1))]
  }

  function ParseLines(entries: Headers, text: string): Headers
    decreases |text|
  {
    match FindChar(text, '\n')
    case None => AddLine(entries, text)
    case Some(i) => ParseLines(AddLine(entries, text[..i]), text[i + 1..])
  }

  method ParseHeaders(head: string) returns (entries: Headers)
    ensures entries == ParseLines([], head)
  {
    hide AddLine;
    entries := [];
    var rest := head;
    while true
      invariant ParseLines(entries, rest) == ParseLines([], head)
      decreases |rest|
    {
      match FindChar(rest, '\n')
      case None =>
        entries := AddLine(entries, rest);
        return;
      case Some(i) =>
        entries := AddLine(entries, rest[..i]);
        rest := rest[i + 1..];
    }
  }

  function SplitMessage(data: string): (r: Option<(Headers, string)>)
    ensures r.Some? ==> |r.value.1| <= |data|
  {
    match SplitHeadBody(data)
    case None => None
    case Some(pair) => Some((ParseLines([], pair.0), pair.1))
  }

  /** The first value for a name, in any case; empty when there is none. */
  function Get(headers: Headers, name: string): string {
    if headers == [] then ""
    else if EqIgnoreCase(headers[0].0, name) then headers[0].1
    else Get(headers[1..], name)
  }

  // ---- media types -------------------------------------------------------------------------------

  datatype MediaType = MediaType(media: string, params: map<string, string>)

  /** `;` separates, except inside quotes. */
  function SplitFrom(s: string, current: string, quoted: bool): seq<string>
    decreases |s|
  {
    if s == "" then (if current != "" then [current] else [])
    else if s[0] == '"' then SplitFrom(s[1..], current + [s[0]], !quoted)
    else if s[0] == ';' && !quoted then [current] + SplitFrom(s[1..], "", quoted)
    else SplitFrom(s[1..], current + [s[0]], quoted)
  }

  method SplitParams(s: string) returns (out: seq<string>)
    ensures out == SplitFrom(s, "", false)
  {
    out := [];
    var start, quoted := 0, false;
    assert s[0..] == s && s[0..0] == "";
    for i := 0 to |s|
      invariant 0 <= start <= i
      invariant out + SplitFrom(s[i..], s[start..i], quoted) == SplitFrom(s, "", false)
    {
      SplitStep(s, i, start, quoted);
      match s[i]
      case '"' => quoted := !quoted;
      case ';' =>
        if !quoted {
          out := out + [s[start..i]];
          start := i + 1;
        }
      case _ =>
    }
    assert s[start..|s|] == s[start..] && s[|s|..] == "";
    if start < |s| {
      out := out + [s[start..]];
    }
  }

  lemma SplitStep(s: string, i: nat, start: nat, quoted: bool)
    requires start <= i < |s|
    ensures SplitFrom(s[i..], s[start..i], quoted) ==
            if s[i] == '"' then SplitFrom(s[i + 1..], s[start..i + 1], !quoted)
            else if s[i] == ';' && !quoted then [s[start..i]] + SplitFrom(s[i + 1..], s[i + 1..i + 1], quoted)
            else SplitFrom(s[i + 1..], s[start..i + 1], quoted)
  {
    assert s[i..][1..] == s[i + 1..] && s[start..i] + [s[i]] == s[start..i + 1];
    assert s[i + 1..i + 1] == "";
  }

  function Unquote(v: string): string {
    if |v| >= 2 && v[0] == '"' && v[|v| - 1] == '"' then v[1..|v| - 1] else v
  }

  function AddParam(params: map<string, string>, param: string): map<string, string> {
    match SplitOnce(param, '=')
    case None => params
    case Some(pair) => params[ToLower(Trim(pair.0)) := Unquote(Trim(pair.1))]
  }

  function AddParams(params: map<string, string>, list: seq<string>): map<string, string> {
    if list == [] then params else AddParam(AddParams(params, list[..|list| - 1]), list[|list| - 1])
  }

  /** Media type and parameters; None when there is no media type at all. */
  function ParseMediaType(raw: string): Option<MediaType> {
    var value := Trim(raw);
    if value == "" then None
    else
      var (media, rest) := match SplitOnce(value, ';') case None => (value, "") case Some(pair) => pair;
      var m := ToLower(Trim(media));
      if m == "" then None else Some(MediaType(m, AddParams(map[], SplitFrom(rest, "", false))))
  }

  function MediaOf(contentType: string): string {
    match ParseMediaType(contentType) case None => "" case Some(mt) => mt.media
  }

  // ---- parts ---------------------------------------------------------------------------------------

  datatype Part = Part(headers: Headers, body: string)

  function StripEol(s: string): (r: string)
    ensures |r| <= |s|
  {
    if "\r\n" <= s then s[2..] else if "\n" <= s then s[1..] else s
  }

  /** What is in front of a delimiter, without the line ending that belongs to it. */
  function PartText(rest: string, next: nat): (r: string)
    requires next <= |rest|
    ensures |r| <= next
  {
    if next >= 2 && rest[next - 2..next] == "\r\n" then rest[..next - 2]
    else if next >= 1 && rest[next - 1] == '\n' then rest[..next - 1]
    else rest[..next]
  }

  function Delimiter(boundary: string): string {
    "--" + boundary
  }

  /** The part that a piece of text parses to, if any. */
  function PartIn(text: string): (r: seq<Part>)
    ensures forall i :: 0 <= i < |r| ==> |r[i].body| <= |text|
  {
    match SplitMessage(text) case None => [] case Some(pair) => [Part(pair.0, pair.1)]
  }

  /** Two hyphens after a delimiter end the body. */
  predicate IsClosing(rest: string) {
    "--" <= rest
  }

  /** The parts still to come, once a delimiter has been passed. */
  function PartsAfter(rest0: string, delim: string): seq<Part>
    requires delim != ""
    decreases |rest0|
  {
    if IsClosing(rest0) then []
    else
      var rest := StripEol(rest0);
      match Find(rest, delim)
      case None => []
      case Some(next) =>
        PartIn(PartText(rest, next)) + PartsAfter(rest[next + |delim|..], delim)
  }

  function PartsOf(body: string, boundary: string): (r: seq<Part>)
    ensures forall i :: 0 <= i < |r| ==> |r[i].body| < |body|
  {
    var delim := Delimiter(boundary);
    match Find(body, delim)
    case None => []
    case Some(start) =>
      PartsFit(body[start + |delim|..], delim);
      PartsAfter(body[start + |delim|..], delim)
  }

  lemma {:induction false} PartsFit(rest0: string, delim: string)
    requires delim != ""
    ensures forall i :: 0 <= i < |PartsAfter(rest0, delim)| ==> |PartsAfter(rest0, delim)[i].body| <= |rest0|
    decreases |rest0|
  {
    hide PartText, PartIn, StripEol, Find;
    var rest := StripEol(rest0);
    if !IsClosing(rest0) && Find(rest, delim).Some? {
      PartsFit(rest[Find(rest, delim).value + |delim|..], delim);
    }
  }

  lemma PartsStep(rest: string, delim: string, next: nat)
    requires delim != "" && !IsClosing(rest) && Find(StripEol(rest), delim) == Some(next)
    ensures var line := StripEol(rest);
            && next + |delim| <= |line|
            && PartsAfter(rest, delim) == PartIn(PartText(line, next)) + PartsAfter(line[next + |delim|..], delim)
  {
    hide PartIn, PartText, StripEol, Find;
  }

  lemma NoMoreParts(rest: string, delim: string)
    requires delim != "" && (IsClosing(rest) || Find(StripEol(rest), delim) == None)
    ensures PartsAfter(rest, delim) == []
  {
    hide PartIn, PartText, StripEol, Find;
  }

  method SplitParts(body: string, boundary: string) returns (parts: seq<Part>)
    ensures parts == PartsOf(body, boundary)
  {
    hide Find, PartsAfter, OccursAt;
    var delim := Delimiter(boundary);
    var start := Find(body, delim);
    if start.None? {
      return [];
    }
    parts := TakeParts(body[start.value + |delim|..], delim);
  }

  method TakeParts(rest0: string, delim: string) returns (parts: seq<Part>)
    requires delim != ""
    ensures parts == PartsAfter(rest0, delim)
  {
    hide *;
    parts := [];
    var rest := rest0;
    while !IsClosing(rest)
      invariant parts + PartsAfter(rest, delim) == PartsAfter(rest0, delim)
      decreases |rest|
    {
      var line := StripEol(rest);
      var next := Find(line, delim);
      if next.None? {
        break;
      }
      PartsStep(rest, delim, next.value);
      var found := PartIn(PartText(line, next.value));
      Regroup3(parts, found, PartsAfter(line[next.value + |delim|..], delim));
      parts := parts + found;
      rest := line[next.value + |delim|..];
    }
    NoMoreParts(rest, delim);
  }

  lemma Regroup3(a: seq<Part>, b: seq<Part>, c: seq<Part>)
    ensures a + (b + c) == a + b + c
  {
  }

  // ---- decoding ---------------------------------------------------------------------------------------

  function DecodeTransfer(f: Foreign, cte: string, body: string): string {
    var name := ToLower(Trim(cte));
    if name == "quoted-printable" then f.quotedPrintable(body)
    else if name == "base64" then Base64.DecodeLenient(body)
    else body
  }

  function NormaliseNewlines(s: string): string {
    ReplaceAll(s, "\r\n", "\n")
  }

  const BEGIN_PGP := "-----BEGIN PGP MESSAGE-----"

  predicate IsMultipart(media: string) {
    "multipart/" <= media
  }

  /** The armour, from the first part that can carry it and does. */
  function EncryptedText(f: Foreign, parts: seq<Part>): string {
    if parts == [] then ""
    else
      var part := parts[0];
      var media := MediaOf(Get(part.headers, "Content-Type"));
      var text := NormaliseNewlines(DecodeTransfer(f, Get(part.headers, "Content-Transfer-Encoding"), part.body));
      if (media == "application/octet-stream" || media == "application/pgp-encrypted") && Contains(text, BEGIN_PGP)
      then text
      else EncryptedText(f, parts[1..])
  }

  function ExtractText(f: Foreign, contentType: string, cte: string, body: string): string
    decreases |body|, 1, 0
  {
    if contentType == "" then NormaliseNewlines(body)
    else match ParseMediaType(contentType)
      case None => NormaliseNewlines(body)
      case Some(mt) =>
        if mt.media == "text/plain" then NormaliseNewlines(DecodeTransfer(f, cte, body))
        else if mt.media == "text/html" then f.htmlToMarkdown(DecodeTransfer(f, cte, body))
        else if mt.media == "multipart/encrypted" then
          if "boundary" in mt.params then EncryptedText(f, PartsOf(body, mt.params["boundary"])) else ""
        else if IsMultipart(mt.media) then
          if "boundary" in mt.params then MixedText(f, PartsOf(body, mt.params["boundary"]), "", |body|) else ""
        else ""
  }

  /** The first text/plain part, or what a nested multipart gives, or else the first HTML. */
  function MixedText(f: Foreign, parts: seq<Part>, html: string, limit: nat): string
    requires forall i :: 0 <= i < |parts| ==> |parts[i].body| < limit
    decreases limit, 0, |parts|
  {
    if parts == [] then html
    else
      var part := parts[0];
      var ct := Get(part.headers, "Content-Type");
      var cte := Get(part.headers, "Content-Transfer-Encoding");
      if ct == "" then MixedText(f, parts[1..], html, limit)
      else if MediaOf(ct) == "text/plain" then NormaliseNewlines(DecodeTransfer(f, cte, part.body))
      else
        var html' :=
          if MediaOf(ct) == "text/html" && html == "" then f.htmlToMarkdown(DecodeTransfer(f, cte, part.body)) else html;
        var nested := if IsMultipart(MediaOf(ct)) then ExtractText(f, ct, cte, part.body) else "";
        if nested != "" then nested else MixedText(f, parts[1..], html', limit)
  }

  method ExtractMimeText(f: Foreign, contentType: string, cte: string, body: string) returns (text: string)
    ensures text == ExtractText(f, contentType, cte, body)
    decreases |body|
  {
    hide ParseMediaType, DecodeTransfer, NormaliseNewlines, PartsOf, Get, MediaOf, IsMultipart, Contains;
    if contentType == "" {
      return NormaliseNewlines(body);
    }
    var parsed := ParseMediaType(contentType);
    if parsed.None? {
      return NormaliseNewlines(body);
    }
    var MediaType(media, params) := parsed.value;
    if media == "text/plain" {
      return NormaliseNewlines(DecodeTransfer(f, cte, body));
    } else if media == "text/html" {
      return f.htmlToMarkdown(DecodeTransfer(f, cte, body));
    } else if media == "multipart/encrypted" {
      if "boundary" !in params {
        return "";
      }
      var parts := SplitParts(body, params["boundary"]);
      for i := 0 to |parts|
        invariant EncryptedText(f, parts) == EncryptedText(f, parts[i..])
      {
        assert parts[i..][0] == parts[i] && parts[i..][1..] == parts[i + 1..];
        var part := parts[i];
        var partMedia := MediaOf(Get(part.headers, "Content-Type"));
        if partMedia == "application/octet-stream" || partMedia == "application/pgp-encrypted" {
          var decoded := DecodeTransfer(f, Get(part.headers, "Content-Transfer-Encoding"), part.body);
          if Contains(NormaliseNewlines(decoded), BEGIN_PGP) {
            return NormaliseNewlines(decoded);
          }
        }
      }
      return "";
    } else if IsMultipart(media) {
      if "boundary" !in params {
        return "";
      }
      var parts := SplitParts(body, params["boundary"]);
      var html := "";
      for i := 0 to |parts|
        invariant MixedText(f, parts, "", |body|) == MixedText(f, parts[i..], html, |body|)
      {
        assert parts[i..][0] == parts[i] && parts[i..][1..] == parts[i + 1..];
        var part := parts[i];
        var partCt := Get(part.headers, "Content-Type");
        if partCt == "" {
          continue;
        }
        var partMedia := MediaOf(partCt);
        var partCte := Get(part.headers, "Content-Transfer-Encoding");
        if partMedia == "text/plain" {
          return NormaliseNewlines(DecodeTransfer(f, partCte, part.body));
        }
        if partMedia == "text/html" && html == "" {
          html := f.htmlToMarkdown(DecodeTransfer(f, partCte, part.body));
        }
        if IsMultipart(partMedia) {
          var nested := ExtractMimeText(f, partCt, partCte, part.body);
          if nested != "" {
            return nested;
          }
        }
      }
      return html;
    }
    return "";
  }

  // ---- attachments -------------------------------------------------------------------------------------

  datatype Attachment = Attachment(filename: string, contentType: string, bytes: string)

  /** A leaf counts only if its disposition says attachment. */
  function LeafAttachment(f: Foreign, contentType: string, cte: string, disposition: string, body: string): seq<Attachment> {
    match ParseMediaType(disposition)
    case None => []
    case Some(d) =>
      if d.media != "attachment" then []
      else
        var mt := ParseMediaType(contentType);
        var filename :=
          if "filename" in d.params then d.params["filename"]
          else if mt.Some? && "name" in mt.value.params then mt.value.params["name"]
          else "";
        [Attachment(filename, MediaOf(contentType), DecodeTransfer(f, cte, body))]
  }

  function Attachments(f: Foreign, contentType: string, cte: string, disposition: string, body: string): seq<Attachment>
    decreases |body|, 1, 0
  {
    if IsMultipart(MediaOf(contentType)) then
      var mt := ParseMediaType(contentType).value;
      if "boundary" in mt.params then AllAttachments(f, PartsOf(body, mt.params["boundary"]), |body|) else []
    else LeafAttachment(f, contentType, cte, disposition, body)
  }

  function AllAttachments(f: Foreign, parts: seq<Part>, limit: nat): seq<Attachment>
    requires forall i :: 0 <= i < |parts| ==> |parts[i].body| < limit
    decreases limit, 0, |parts|
  {
    if parts == [] then []
    else
      var h := parts[0].headers;
      Attachments(f, Get(h, "Content-Type"), Get(h, "Content-Transfer-Encoding"), Get(h, "Content-Disposition"), parts[0].body)
      + AllAttachments(f, parts[1..], limit)
  }

  method CollectAttachments(f: Foreign, contentType: string, cte: string, disposition: string, body: string)
    returns (out: seq<Attachment>)
    ensures out == Attachments(f, contentType, cte, disposition, body)
    decreases |body|
  {
    hide LeafAttachment, PartsOf, Get, ParseMediaType;
    out := [];
    if IsMultipart(MediaOf(contentType)) {
      hide IsMultipart, MediaOf;
      var parsed := ParseMediaType(contentType);
      if parsed.None? || "boundary" !in parsed.value.params {
        return;
      }
      var parts := SplitParts(body, parsed.value.params["boundary"]);
      for i := 0 to |parts|
        invariant out + AllAttachments(f, parts[i..], |body|) == AllAttachments(f, parts, |body|)
      {
        assert parts[i..][0] == parts[i] && parts[i..][1..] == parts[i + 1..];
        var h := parts[i].headers;
        var found := CollectAttachments(f, Get(h, "Content-Type"), Get(h, "Content-Transfer-Encoding"),
                                        Get(h, "Content-Disposition"), parts[i].body);
        RegroupAttachments(out, found, AllAttachments(f, parts[i + 1..], |body|));
        out := out + found;
      }
      assert out + [] == out;
    } else {
      out := LeafAttachment(f, contentType, cte, disposition, body);
    }
  }

  lemma RegroupAttachments(a: seq<Attachment>, b: seq<Attachment>, c: seq<Attachment>)
    ensures a + (b + c) == a + b + c
  {
  }

  function ExtractAttachments(f: Foreign, raw: string): seq<Attachment> {
    match SplitMessage(raw)
    case None => []
    case Some(pair) =>
      var h := pair.0;
      Attachments(f, Get(h, "Content-Type"), Get(h, "Content-Transfer-Encoding"), Get(h, "Content-Disposition"), pair.1)
  }
}
