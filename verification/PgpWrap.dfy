/**
 Rewrapping an inline PGP block as PGP/MIME (section 4 of RFC 3156), and reading it
 back: the armour comes out byte for byte.
 */
module PgpWrap {
  import opened Wrappers
  import opened Text
  import opened Search
  import opened Mime
  import opened MimePrinted
  import opened Heads

  // ---- the wrapper ---------------------------------------------------------------------------------

  function CrlfLines(data: string): seq<string>
    decreases |data|
  {
    match Find(data, "\r\n")
    case None => if data != "" then [data] else []
    case Some(i) => [data[..i]] + CrlfLines(data[i + 2..])
  }

  method SplitCrlf(data: string) returns (out: seq<string>)
    ensures out == CrlfLines(data)
  {
    hide Find;
    out := [];
    var rest := data;
    while Find(rest, "\r\n").Some?
      invariant out + CrlfLines(rest) == CrlfLines(data)
      decreases |rest|
    {
      var i := Find(rest, "\r\n").value;
      assert out + ([rest[..i]] + CrlfLines(rest[i + 2..])) == out + [rest[..i]] + CrlfLines(rest[i + 2..]);
      out := out + [rest[..i]];
      rest := rest[i + 2..];
    }
    if rest != "" {
      out := out + [rest];
    }
  }

  /** The name part of a line, or all of it when there is no colon. */
  function HeaderName(line: string): string {
    match FindChar(line, ':') case None => line case Some(i) => line[..i]
  }

  predicate DescribesBody(line: string) {
    EqIgnoreCase(HeaderName(line), "content-type") || EqIgnoreCase(HeaderName(line), "content-transfer-encoding")
  }

  function Kept(lines: seq<string>): seq<string> {
    if lines == [] then [] else (if DescribesBody(lines[0]) then [] else [lines[0]]) + Kept(lines[1..])
  }

  const END_PGP := "-----END PGP MESSAGE-----"

  /** The head, and the armour from BEGIN to the first END after it. */
  function PgpBlock(raw: string): Option<(string, string)> {
    match Find(raw, "\r\n\r\n")
    case None => None
    case Some(headerEnd) =>
      var body := raw[headerEnd + 4..];
      match Find(body, BEGIN_PGP)
      case None => None
      case Some(start) =>
        match Find(body[start..], END_PGP)
        case None => None
        case Some(end) => Some((raw[..headerEnd], body[start..start + end + |END_PGP|]))
  }

  function Boundary(digest: string): string {
    "biset-pgp-" + digest
  }

  function ContentType(boundary: string): string {
    "Content-Type: multipart/encrypted"
    + ("; protocol=\"" + "application/pgp-encrypted" + "\"")
    + ("; boundary=\"" + boundary + "\"")
  }

  const VERSION_HEAD := "Content-Type: " + "application/pgp-encrypted" + "\r\n"
  const OCTET_HEAD := "Content-Type: " + "application/octet-stream" + "\r\n"

  function VersionPart(): string {
    VERSION_HEAD + "\r\n" + "Version: 1\r\n"
  }

  /** The armour arrives with bare LF; SMTP wants CRLF. */
  function ArmourPart(block: string): string {
    OCTET_HEAD + "\r\n" + ReplaceAll(block, "\n", "\r\n")
  }

  ghost function Wrapped(head: string, block: string, boundary: string): string {
    Head(Kept(CrlfLines(head)) + [ContentType(boundary)]) + "\r\n"
    + PrintedParts(Delimiter(boundary), [VersionPart(), ArmourPart(block)], "\r\n")
  }

  method PgpMimeWrapInline(raw: string, digest: string -> string) returns (r: Option<string>)
    ensures match PgpBlock(raw)
            case None => r == None
            case Some(pair) => r == Some(Wrapped(pair.0, pair.1, Boundary(digest(pair.1))))
  {
    hide PgpBlock, Wrapped;
    var found := PgpBlock(raw);
    if found.None? {
      return None;
    }
    var out := WrapBlock(found.value.0, found.value.1, Boundary(digest(found.value.1)));
    return Some(out);
  }

  method WrapBlock(head: string, block: string, boundary: string) returns (out: string)
    ensures out == Wrapped(head, block, boundary)
  {
    hide *;
    var lines := SplitCrlf(head);
    out := "";
    EmptyLines(lines);
    for i := 0 to |lines|
      invariant out + Head(Kept(lines[i..])) == Head(Kept(lines))
    {
      KeptStep(lines, i, out);
      if !DescribesBody(lines[i]) {
        out := out + lines[i] + "\r\n";
      }
    }
    var armour := Replace(block, "\n", "\r\n");
    var top := out + ContentType(boundary) + "\r\n" + "\r\n";
    var first := "--" + boundary + "\r\n" + VERSION_HEAD + "\r\n" + "Version: 1\r\n";
    var second := "\r\n" + "--" + boundary + "\r\n" + OCTET_HEAD + "\r\n" + armour;
    var close := "\r\n" + "--" + boundary + "--" + "\r\n";
    WrappedIs(head, lines, block, boundary);
    assert out + "" == out;
    out := top + first + second + close;
  }

  lemma WrappedIs(head: string, lines: seq<string>, block: string, boundary: string)
    requires lines == CrlfLines(head)
    ensures Wrapped(head, block, boundary)
         == Head(Kept(lines)) + ContentType(boundary) + "\r\n" + "\r\n"
          + ("--" + boundary + "\r\n" + VERSION_HEAD + "\r\n" + "Version: 1\r\n")
          + ("\r\n" + "--" + boundary + "\r\n" + OCTET_HEAD + "\r\n" + ReplaceAll(block, "\n", "\r\n"))
          + ("\r\n" + "--" + boundary + "--" + "\r\n")
  {
    hide *;
    Layout(lines, block, boundary);
    WrappedParts(head, block, boundary);
  }

  lemma WrappedParts(head: string, block: string, boundary: string)
    ensures Wrapped(head, block, boundary)
         == Head(Kept(CrlfLines(head)) + [ContentType(boundary)]) + "\r\n"
          + PrintedParts(Delimiter(boundary), [VersionPart(), ArmourPart(block)], "\r\n")
  {
  }

  lemma EmptyLines(lines: seq<string>)
    ensures "" + Head(Kept(lines[0..])) == Head(Kept(lines)) && Head(Kept(lines[|lines|..])) == ""
  {
    assert lines[0..] == lines;
  }

  lemma KeptStep(lines: seq<string>, i: nat, out: string)
    requires i < |lines|
    ensures out + Head(Kept(lines[i..]))
         == (if DescribesBody(lines[i]) then out else out + lines[i] + "\r\n") + Head(Kept(lines[i + 1..]))
  {
    hide *;
    assert lines[i..][1..] == lines[i + 1..];
    KeptHead(lines[i..]);
    LineOut(out, lines[i], Head(Kept(lines[i + 1..])));
  }

  lemma LineOut(out: string, line: string, rest: string)
    ensures out + (line + "\r" + "\n" + rest) == out + line + "\r\n" + rest
  {
  }

  lemma KeptHead(lines: seq<string>)
    requires lines != []
    ensures Head(Kept(lines)) == if DescribesBody(lines[0]) then Head(Kept(lines[1..]))
                                 else lines[0] + "\r" + "\n" + Head(Kept(lines[1..]))
  {
    hide DescribesBody;
    var rest := Kept(lines[1..]);
    if DescribesBody(lines[0]) {
      assert [] + rest == rest;
    } else {
      assert ([lines[0]] + rest)[1..] == rest;
      assert lines[0] + "\r\n" == lines[0] + "\r" + "\n";
    }
  }

  lemma {:induction false} HeadSnoc(lines: seq<string>, l: string)
    ensures Head(lines + [l]) == Head(lines) + l + "\r\n"
  {
    if lines == [] {
      assert lines + [l] == [l] && [l][1..] == [];
    } else {
      assert (lines + [l])[1..] == lines[1..] + [l];
      HeadSnoc(lines[1..], l);
    }
  }

  lemma TwoParts(delim: string, a: string, b: string)
    ensures PrintedParts(delim, [a, b], "\r\n")
         == delim + "\r\n" + a + "\r\n" + delim + "\r\n" + b + "\r\n" + delim + "--" + "\r\n"
  {
    OnePart(delim, b);
    assert [a, b][1..] == [b];
    var tail := PartsTail(delim, [b], "\r\n");
    assert PartsTail(delim, [a, b], "\r\n") == "\r\n" + a + "\r\n" + delim + tail;
    hide PartsTail;
  }

  lemma OnePart(delim: string, b: string)
    ensures PartsTail(delim, [b], "\r\n") == "\r\n" + b + "\r\n" + delim + ("--" + "\r\n")
  {
    assert [b][1..] == [];
    assert PartsTail(delim, [], "\r\n") == "--" + "\r\n";
  }

  /** The pieces, put one after the other as they are written, are the wrapped message. */
  lemma Layout(lines: seq<string>, block: string, boundary: string)
    ensures Head(Kept(lines) + [ContentType(boundary)]) + "\r\n"
          + PrintedParts(Delimiter(boundary), [VersionPart(), ArmourPart(block)], "\r\n")
         == Head(Kept(lines)) + ContentType(boundary) + "\r\n" + "\r\n"
          + ("--" + boundary + "\r\n" + VERSION_HEAD + "\r\n" + "Version: 1\r\n")
          + ("\r\n" + "--" + boundary + "\r\n" + OCTET_HEAD + "\r\n" + ReplaceAll(block, "\n", "\r\n"))
          + ("\r\n" + "--" + boundary + "--" + "\r\n")
  {
    HeadSnoc(Kept(lines), ContentType(boundary));
    TwoParts(Delimiter(boundary), VersionPart(), ArmourPart(block));
    hide Head, Kept, ContentType, PrintedParts, ReplaceAll;
  }

  // ---- the armour survives its line endings -----------------------------------------------------------

  lemma SplitAtNewline(s: string)
    ensures match FindChar(s, '\n')
            case None => NoChar(s, '\n')
            case Some(i) => s == s[..i] + "\n" + s[i + 1..] && NoChar(s[..i], '\n')
  {
  }

  lemma FindNewline(a: string, b: string)
    requires NoChar(a, '\n')
    ensures Find(a + "\n" + b, "\n") == Some(|a|) && Lacks(a, "\n")
  {
    LacksFirstChar(a, "\n");
    hide Find;
    var h := a + "\n" + b;
    assert h[|a|..|a| + 1] == "\n";
    forall j | 0 <= j < |a| ensures !OccursAt(h, "\n", j) {
      if OccursAt(h, "\n", j) {
        OccursChars(h, "\n", j, 0);
      }
    }
    FindIs(h, "\n", |a|);
  }

  lemma FindCrlf(a: string, b: string)
    requires NoChar(a, '\n')
    ensures Find(a + "\r\n" + b, "\r\n") == Some(|a|) && Lacks(a, "\r\n")
  {
    hide Find;
    var h := a + "\r\n" + b;
    assert h[|a|..|a| + 2] == "\r\n";
    forall j | 0 <= j < |a| ensures !OccursAt(h, "\r\n", j) {
      if OccursAt(h, "\r\n", j) {
        OccursChars(h, "\r\n", j, 1);
      }
    }
    FindIs(h, "\r\n", |a|);
    forall j: nat ensures !OccursAt(a, "\r\n", j) {
      if OccursAt(a, "\r\n", j) {
        OccursChars(a, "\r\n", j, 1);
      }
    }
  }

  lemma ReplaceNewline(a: string, b: string)
    requires NoChar(a, '\n')
    ensures ReplaceAll(a + "\n" + b, "\n", "\r\n") == a + "\r\n" + ReplaceAll(b, "\n", "\r\n")
    ensures ReplaceAll(a, "\n", "\r\n") == a
  {
    hide Find;
    FindNewline(a, b);
    assert (a + "\n" + b)[..|a|] == a && (a + "\n" + b)[|a| + 1..] == b;
  }

  lemma ReplaceCrlf(a: string, b: string)
    requires NoChar(a, '\n')
    ensures ReplaceAll(a + "\r\n" + b, "\r\n", "\n") == a + "\n" + ReplaceAll(b, "\r\n", "\n")
    ensures ReplaceAll(a, "\r\n", "\n") == a
  {
    hide Find;
    FindCrlf(a, b);
    assert (a + "\r\n" + b)[..|a|] == a && (a + "\r\n" + b)[|a| + 2..] == b;
  }

  /** LF to CRLF and back is the identity, even where there was a CRLF to begin with. */
  lemma {:induction false} NewlinesThereAndBack(s: string)
    ensures NormaliseNewlines(ReplaceAll(s, "\n", "\r\n")) == s
    decreases |s|
  {
    hide ReplaceAll, Find;
    SplitAtNewline(s);
    match FindChar(s, '\n')
    case None =>
      ReplaceNewline(s, "");
      ReplaceCrlf(s, "");
    case Some(i) =>
      var a, b := s[..i], s[i + 1..];
      ReplaceNewline(a, b);
      ReplaceCrlf(a, ReplaceAll(b, "\n", "\r\n"));
      NewlinesThereAndBack(b);
  }

  lemma LacksSplit(a: string, b: string, n: string)
    requires n != "" && Lacks(a + "\n" + b, n)
    ensures Lacks(a, n) && Lacks(b, n)
  {
    hide Find;
    forall j: nat ensures !OccursAt(a, n, j) {
      if j + |n| <= |a| {
        OccursInHead(a, "\n" + b, n, j);
        assert a + "\n" + b == a + ("\n" + b);
      }
    }
    forall j: nat ensures !OccursAt(b, n, j) {
      OccursInTail(a + "\n", b, n, j);
    }
  }

  /** A delimiter that is not in the armour is not in its CRLF form either. */
  lemma {:induction false} ReplaceLacks(s: string, n: string)
    requires n != "" && OneLine(n) && Lacks(s, n)
    ensures Lacks(ReplaceAll(s, "\n", "\r\n"), n)
    decreases |s|
  {
    hide ReplaceAll, Find;
    SplitAtNewline(s);
    match FindChar(s, '\n')
    case None => ReplaceNewline(s, "");
    case Some(i) =>
      var a, b := s[..i], s[i + 1..];
      ReplaceNewline(a, b);
      LacksSplit(a, b, n);
      ReplaceLacks(b, n);
      LacksLine(a, ReplaceAll(b, "\n", "\r\n"), n);
  }

  // ---- the block --------------------------------------------------------------------------------------------

  /** The END marker cannot start within two characters of the BEGIN marker. */
  lemma EndIsLater(t: string, end: nat)
    requires BEGIN_PGP <= t && OccursAt(t, END_PGP, end)
    ensures end >= 2
  {
    assert t[5] == BEGIN_PGP[5] && BEGIN_PGP[5] == 'B';
    OccursChars(t, END_PGP, end, 5);
    OccursChars(t, END_PGP, end, 4);
    assert END_PGP[5] == 'E' && END_PGP[4] == '-';
  }

  lemma BlockBegins(raw: string)
    requires PgpBlock(raw).Some?
    ensures BEGIN_PGP <= PgpBlock(raw).value.1
  {
    hide Find;
    var headerEnd := Find(raw, "\r\n\r\n").value;
    var body := raw[headerEnd + 4..];
    var start := Find(body, BEGIN_PGP).value;
    var t := body[start..];
    var end := Find(t, END_PGP).value;
    var block := PgpBlock(raw).value.1;
    assert |BEGIN_PGP| == 27 && |END_PGP| == 25;
    assert t[..27] == body[start..start + 27] == BEGIN_PGP;
    EndIsLater(t, end);
    assert block == t[..end + 25];
    assert block[..27] == t[..27];
  }

  /** A message with its first blank line, its first BEGIN after that, and the first END after that. */
  ghost predicate ArmourAt(raw: string, head: string, before: string, block: string, after: string) {
    && raw == head + "\r\n\r\n" + (before + (block + after))
    && Find(raw, "\r\n\r\n") == Some(|head|)
    && Find(before + (block + after), BEGIN_PGP) == Some(|before|)
    && |block| >= |END_PGP| && Find(block + after, END_PGP) == Some(|block| - |END_PGP|)
  }

  lemma CutsBlank(raw: string, i: nat)
    requires Find(raw, "\r\n\r\n") == Some(i)
    ensures i + 4 <= |raw| && raw == raw[..i] + "\r\n\r\n" + raw[i + 4..]
  {
    hide Find;
    assert raw[i..i + 4] == "\r\n\r\n";
  }

  lemma BlockIsAt(raw: string) returns (before: string, after: string)
    requires PgpBlock(raw).Some?
    ensures ArmourAt(raw, PgpBlock(raw).value.0, before, PgpBlock(raw).value.1, after)
  {
    hide Find, OccursAt;
    var i := Find(raw, "\r\n\r\n").value;
    CutsBlank(raw, i);
    var body := raw[i + 4..];
    var start := Find(body, BEGIN_PGP).value;
    var end := Find(body[start..], END_PGP).value + |END_PGP|;
    before, after := body[..start], body[start + end..];
    assert body[start..] == body[start..start + end] + after;
    assert body == before + body[start..];
  }

  lemma AtIsBlock(raw: string, head: string, before: string, block: string, after: string)
    requires ArmourAt(raw, head, before, block, after)
    ensures PgpBlock(raw) == Some((head, block))
  {
    hide Find, OccursAt;
    var body := before + (block + after);
    assert raw[..|head|] == head && raw[|head| + 4..] == body;
    assert body[|before|..] == block + after;
    assert body[|before|..|before| + |block|] == block;
  }

  /** The armour that is found, exactly; and none is found where there is no such place. */
  lemma PgpBlockExactly(raw: string, head: string, block: string)
    ensures PgpBlock(raw) == Some((head, block)) <==> exists before, after :: ArmourAt(raw, head, before, block, after)
    ensures PgpBlock(raw) == None <==> forall h, before, b, after :: !ArmourAt(raw, h, before, b, after)
  {
    hide PgpBlock, ArmourAt;
    if PgpBlock(raw).Some? {
      var before, after := BlockIsAt(raw);
    }
    forall h, before, b, after | ArmourAt(raw, h, before, b, after) ensures PgpBlock(raw) == Some((h, b)) {
      AtIsBlock(raw, h, before, b, after);
    }
  }

  lemma BlockIsContained(block: string)
    requires BEGIN_PGP <= block
    ensures Contains(block, BEGIN_PGP)
  {
    hide Find;
    assert OccursAt(block, BEGIN_PGP, 0);
  }

  // ---- the headers ---------------------------------------------------------------------------------------------

  /** The reader's view of one line: a header of its own, called Content-Type once its name is trimmed. */
  predicate TypePiece(p: string) {
    p != "" && p[0] != ' ' && p[0] != '\t' && !NoChar(p, ':') && EqIgnoreCase(Trim(HeaderName(p)), "Content-Type")
  }

  /** The same for a text of several lines: to the reader a bare LF ends one too. */
  predicate ReadAsType(text: string)
    decreases |text|
  {
    match FindChar(text, '\n')
    case None => TypePiece(text)
    case Some(i) => TypePiece(text[..i]) || ReadAsType(text[i + 1..])
  }

  /** Lines are dropped by their untrimmed name and read by the trimmed one: this one slips through. */
  predicate Hides(line: string) {
    !DescribesBody(line) && ReadAsType(line)
  }

  ghost predicate NoneHides(lines: seq<string>) {
    forall i :: 0 <= i < |lines| ==> !Hides(lines[i])
  }

  /** A continuation, a line without a colon and a name with no space before its colon never do. */
  lemma UsualLinesDoNotHide(line: string)
    requires NoChar(line, '\n')
    requires || line == "" || line[0] == ' ' || line[0] == '\t' || NoChar(line, ':')
             || Trim(HeaderName(line)) == HeaderName(line)
    ensures !Hides(line)
  {
    ContentTypeNames(HeaderName(line));
    hide HeaderName, Trim, EqIgnoreCase;
  }

  lemma ContentTypeNames(name: string)
    ensures EqIgnoreCase(name, "Content-Type") <==> EqIgnoreCase(name, "content-type")
  {
    assert ToLower("Content-Type") == ToLower("content-type");
  }

  lemma HeaderNameCr(p: string)
    requires !NoChar(p, ':')
    ensures HeaderName(p + "\r") == HeaderName(p)
  {
    var i := FindChar(p, ':').value;
    assert (p + "\r")[..i] == p[..i] && (p + "\r")[i] == ':';
    assert FindChar(p + "\r", ':') == Some(i);
  }

  /** A CR at the end of a line is nothing to the reader. */
  lemma TypePieceCr(p: string)
    ensures TypePiece(p + "\r") <==> TypePiece(p)
  {
    hide HeaderName, Trim, EqIgnoreCase;
    if NoChar(p, ':') {
      assert NoChar(p + "\r", ':');
    } else {
      HeaderNameCr(p);
      var i := FindChar(p, ':').value;
      assert (p + "\r")[i] == ':';
    }
  }

  lemma StrippedPiece(raw: string)
    ensures TypePiece(StripSuffixChar(raw, '\r')) <==> TypePiece(raw)
  {
    hide TypePiece;
    if raw != "" && raw[|raw| - 1] == '\r' {
      TypePieceCr(raw[..|raw| - 1]);
      assert raw == raw[..|raw| - 1] + "\r";
    }
  }

  lemma NameBeforeColon(line: string)
    ensures match SplitOnce(line, ':')
            case None => NoChar(line, ':')
            case Some(pair) => !NoChar(line, ':') && pair.0 == HeaderName(line)
  {
  }

  lemma {:induction false} WithoutSnoc(h: Headers, k: string, v: string, name: string)
    ensures Without(h + [(k, v)], name) <==> Without(h, name) && !EqIgnoreCase(k, name)
  {
    hide EqIgnoreCase;
    assert (h + [(k, v)])[|h|] == (k, v);
    assert forall i :: 0 <= i < |h| ==> (h + [(k, v)])[i] == h[i];
  }

  lemma WithoutChanged(h: Headers, v: string, name: string)
    requires h != []
    ensures Without(h[..|h| - 1] + [(h[|h| - 1].0, v)], name) <==> Without(h, name)
  {
    WithoutSnoc(h[..|h| - 1], h[|h| - 1].0, v, name);
    WithoutSnoc(h[..|h| - 1], h[|h| - 1].0, h[|h| - 1].1, name);
    assert h == h[..|h| - 1] + [(h[|h| - 1].0, h[|h| - 1].1)];
    hide Without, EqIgnoreCase;
  }

  lemma AddLineNames(entries: Headers, raw: string)
    ensures Without(AddLine(entries, raw), "Content-Type") <==> Without(entries, "Content-Type") && !TypePiece(raw)
  {
    var line := StripSuffixChar(raw, '\r');
    StrippedPiece(raw);
    NameBeforeColon(line);
    hide Trim, EqIgnoreCase, Without, HeaderName, SplitOnce, NoChar;
    if line == "" {
    } else if line[0] == ' ' || line[0] == '\t' {
      if entries != [] {
        WithoutChanged(entries, entries[|entries| - 1].1 + " " + TrimStart(line), "Content-Type");
      }
    } else if SplitOnce(line, ':').Some? {
      var pair := SplitOnce(line, ':').value;
      WithoutSnoc(entries, Trim(pair.0), Trim(pair.1), "Content-Type");
    }
  }

  /** What the reader makes of a head, as far as Content-Type goes. */
  lemma {:induction false} NamesRead(entries: Headers, text: string)
    ensures Without(ParseLines(entries, text), "Content-Type") <==> Without(entries, "Content-Type") && !ReadAsType(text)
    decreases |text|
  {
    hide AddLine, TypePiece, Without;
    match FindChar(text, '\n')
    case None => AddLineNames(entries, text);
    case Some(i) =>
      AddLineNames(entries, text[..i]);
      NamesRead(AddLine(entries, text[..i]), text[i + 1..]);
  }

  lemma {:induction false} ReadAsTypeOn(a: string, b: string)
    ensures ReadAsType(a + "\n" + b) <==> ReadAsType(a) || ReadAsType(b)
    decreases |a|
  {
    hide TypePiece;
    match FindChar(a, '\n')
    case None => PieceFirst(a, b);
    case Some(i) =>
      var first, rest := a[..i], a[i + 1..];
      assert a + "\n" + b == first + "\n" + (rest + "\n" + b);
      PieceFirst(first, rest + "\n" + b);
      ReadAsTypeOn(rest, b);
  }

  lemma PieceFirst(a: string, b: string)
    requires NoChar(a, '\n')
    ensures ReadAsType(a + "\n" + b) <==> TypePiece(a) || ReadAsType(b)
  {
    FindCharAt(a, '\n', b);
    assert (a + "\n" + b)[..|a|] == a && (a + "\n" + b)[|a| + 1..] == b;
    hide TypePiece, FindChar;
  }

  lemma {:induction false} ReadAsTypeCr(text: string)
    ensures ReadAsType(text + "\r") <==> ReadAsType(text)
    decreases |text|
  {
    hide TypePiece;
    match FindChar(text, '\n')
    case None =>
      assert NoChar(text + "\r", '\n');
      TypePieceCr(text);
    case Some(i) =>
      var first, rest := text[..i], text[i + 1..];
      assert text == first + "\n" + rest && text + "\r" == first + "\n" + (rest + "\r");
      PieceFirst(first, rest + "\r");
      PieceFirst(first, rest);
      ReadAsTypeCr(rest);
  }

  lemma EmptyIsNoType()
    ensures !ReadAsType("")
  {
  }

  /** The kept lines hold a Content-Type exactly if one of the old ones hides it. */
  lemma {:induction false} KeptNames(lines: seq<string>)
    ensures ReadAsType(Head(Kept(lines))) <==> !NoneHides(lines)
  {
    hide *;
    if lines == [] {
      KeptNothing();
      EmptyIsNoType();
      EmptyHides();
    } else {
      KeptNames(lines[1..]);
      KeptHead(lines);
      HidesFirst(lines);
      if !DescribesBody(lines[0]) {
        ReadAsTypeOn(lines[0] + "\r", Head(Kept(lines[1..])));
        ReadAsTypeCr(lines[0]);
      }
    }
  }

  lemma KeptNothing()
    ensures Head(Kept([])) == ""
  {
  }

  lemma EmptyHides()
    ensures NoneHides([])
  {
  }

  lemma HidesFirst(lines: seq<string>)
    requires lines != []
    ensures NoneHides(lines) <==> NoneHides(lines[1..]) && (DescribesBody(lines[0]) || !ReadAsType(lines[0]))
  {
    hide DescribesBody, ReadAsType;
    assert forall i :: 0 < i < |lines| ==> lines[i] == lines[1..][i - 1];
    assert forall i :: 0 <= i < |lines| - 1 ==> lines[1..][i] == lines[i + 1];
  }

  // ---- the blank line stays where it is -----------------------------------------------------------------------

  /** Lines that cannot make a blank line between them: only the first may be empty. */
  ghost predicate Blankless(lines: seq<string>) {
    forall i :: 0 <= i < |lines| ==> NoCrlf(lines[i]) && (i > 0 ==> lines[i] != "")
  }

  ghost predicate AllFull(lines: seq<string>) {
    forall i :: 0 <= i < |lines| ==> NoCrlf(lines[i]) && lines[i] != ""
  }

  lemma BeforeCrlf(data: string, i: nat)
    requires Find(data, "\r\n") == Some(i)
    ensures i + 2 <= |data| && NoCrlf(data[..i]) && data[i] == '\r' && data[i + 1] == '\n'
  {
    hide Find, OccursAt;
    CrlfAt(data, i);
    forall j | 0 <= j < i - 1 ensures data[..i][j] != '\r' || data[..i][j + 1] != '\n' {
      CrlfAt(data, j);
    }
  }

  lemma WithoutCrlf(data: string)
    requires Find(data, "\r\n") == None
    ensures NoCrlf(data)
  {
    hide Find, OccursAt;
    forall j | 0 <= j < |data| - 1 ensures data[j] != '\r' || data[j + 1] != '\n' {
      CrlfAt(data, j);
    }
  }

  lemma LacksAfter(data: string, k: nat, n: string)
    requires n != "" && k <= |data| && Lacks(data, n)
    ensures Lacks(data[k..], n)
  {
    hide Find;
    forall j: nat ensures !OccursAt(data[k..], n, j) {
      OccursInTail(data[..k], data[k..], n, j);
      assert data[..k] + data[k..] == data;
    }
  }

  /** A text without a blank line splits into lines of which only the first may be empty. */
  lemma {:induction false} LinesAreBlankless(data: string)
    requires Lacks(data, "\r\n\r\n")
    ensures Blankless(CrlfLines(data))
    ensures data != "" && !("\r\n" <= data) ==> AllFull(CrlfLines(data))
    decreases |data|
  {
    hide Find, NoCrlf;
    match Find(data, "\r\n")
    case None => WithoutCrlf(data);
    case Some(i) =>
      BeforeCrlf(data, i);
      var rest := data[i + 2..];
      LacksAfter(data, i + 2, "\r\n\r\n");
      LinesAreBlankless(rest);
      if "\r\n" <= rest {
        BlankThere(data, i);
      }
      assert data != "" && !("\r\n" <= data) ==> data[..i] != "" by {
        if i == 0 {
          assert data[..2] == "\r\n";
        }
      }
      RestIsFull(data[..i], CrlfLines(rest), rest == "");
  }

  lemma RestIsFull(first: string, rest: seq<string>, none: bool)
    requires NoCrlf(first) && if none then rest == [] else AllFull(rest)
    ensures Blankless([first] + rest) && (first != "" ==> AllFull([first] + rest))
  {
    hide NoCrlf;
  }

  lemma BlankThere(data: string, i: nat)
    requires i + 2 <= |data| && data[i] == '\r' && data[i + 1] == '\n' && "\r\n" <= data[i + 2..]
    ensures !Lacks(data, "\r\n\r\n")
  {
    hide Find, OccursAt;
    StartsCrlf(data[i + 2..]);
    BlankAt(data, i);
  }

  lemma {:induction false} KeptIsBlankless(lines: seq<string>)
    requires Blankless(lines)
    ensures Blankless(Kept(lines)) && (AllFull(lines) ==> AllFull(Kept(lines)))
  {
    hide NoCrlf, DescribesBody;
    if lines != [] {
      assert AllFull(lines[1..]);
      KeptIsBlankless(lines[1..]);
      var rest := Kept(lines[1..]);
      assert Kept(lines) == (if DescribesBody(lines[0]) then [] else [lines[0]]) + rest;
      assert NoCrlf(lines[0]);
      assert [] + rest == rest;
    }
  }

  lemma LineStart(l: string, rest: string)
    requires NoCrlf(l) && l != ""
    ensures !("\r\n" <= l + "\r\n" + rest)
  {
    var h := l + "\r\n" + rest;
    StartsCrlf(h);
    assert |l| == 1 ==> h[1] == '\r';
    assert |l| > 1 ==> h[0] == l[0] && h[1] == l[1];
  }

  /** Printed again, such lines have no blank line among them. */
  lemma {:induction false} NoBlankInside(lines: seq<string>)
    requires Blankless(lines)
    ensures Lacks(Head(lines), "\r\n\r\n")
  {
    hide Find, NoCrlf;
    if lines != [] {
      var rest := Head(lines[1..]);
      NoBlankInside(lines[1..]);
      BlankAfterLine(lines[0], rest);
      if |lines| > 1 {
        LineStart(lines[1], Head(lines[1..][1..]));
      }
    }
  }

  lemma {:induction false} HeadEndsLine(lines: seq<string>)
    ensures EndsLine(Head(lines))
  {
    if lines != [] {
      HeadEndsLine(lines[1..]);
    }
  }

  // ---- the new header ------------------------------------------------------------------------------------------

  function TopType(boundary: string): seq<Param> {
    [("protocol", "application/pgp-encrypted"), ("boundary", boundary)]
  }

  lemma ContentTypePrinted(boundary: string)
    ensures ContentType(boundary) == HeaderLine("Content-Type", Printed("multipart/encrypted", TopType(boundary)))
  {
    hide *;
    TwoParams(("protocol", "application/pgp-encrypted"), ("boundary", boundary));
    ProtocolQuoted();
    BoundaryQuoted(boundary);
    ContentTypePieces(boundary);
  }

  lemma ContentTypePieces(boundary: string)
    ensures HeaderLine("Content-Type", Printed("multipart/encrypted", TopType(boundary)))
         == "Content-Type: multipart/encrypted"
          + Params([("protocol", "application/pgp-encrypted"), ("boundary", boundary)])
    ensures ContentType(boundary)
         == "Content-Type: multipart/encrypted"
          + ("; protocol=\"" + "application/pgp-encrypted" + "\"" + ("; boundary=\"" + boundary + "\""))
  {
    hide Params;
    assert "Content-Type" + ": " + "multipart/encrypted" == "Content-Type: multipart/encrypted";
  }

  lemma ProtocolQuoted()
    ensures ";" + Quoted(("protocol", "application/pgp-encrypted"))
         == "; protocol=\"" + "application/pgp-encrypted" + "\""
  {
  }

  lemma BoundaryQuoted(boundary: string)
    ensures ";" + Quoted(("boundary", boundary)) == "; boundary=\"" + boundary + "\""
  {
  }

  lemma OneParam(p: Param)
    ensures Params([p]) == ";" + Quoted(p) && Mapped(map[], [p]) == map[p.0 := p.1]
  {
    assert [p][1..] == [];
    assert Params([]) == "" && ";" + Quoted(p) + "" == ";" + Quoted(p);
  }

  lemma TwoParams(p: Param, q: Param)
    ensures Params([p, q]) == ";" + Quoted(p) + (";" + Quoted(q))
    ensures Mapped(map[], [p, q]) == map[p.0 := p.1][q.0 := q.1]
  {
    OneParam(q);
    assert [p, q][1..] == [q] && [q][1..] == [];
    assert Mapped(map[p.0 := p.1], [q]) == map[p.0 := p.1][q.0 := q.1];
    hide Quoted;
  }

  lemma ProtocolIsPlain(boundary: string)
    requires PlainBoundary(boundary)
    ensures PlainParams(TopType(boundary))
  {
    assert ToLower("protocol") == "protocol" && ToLower("boundary") == "boundary";
    assert PlainParam(("protocol", "application/pgp-encrypted"));
    assert PlainParam(("boundary", boundary));
  }

  lemma MediaIsPlain()
    ensures PlainMedia("multipart/encrypted") && PlainMedia("application/pgp-encrypted")
    ensures PlainMedia("application/octet-stream")
  {
    assert ToLower("multipart/encrypted") == "multipart/encrypted";
    assert ToLower("application/pgp-encrypted") == "application/pgp-encrypted";
    assert ToLower("application/octet-stream") == "application/octet-stream";
  }

  lemma TopParses(boundary: string)
    requires PlainBoundary(boundary)
    ensures var parsed := ParseMediaType(Printed("multipart/encrypted", TopType(boundary)));
            && parsed.Some? && parsed.value.media == "multipart/encrypted"
            && "boundary" in parsed.value.params && parsed.value.params["boundary"] == boundary
    ensures Printed("multipart/encrypted", TopType(boundary)) != ""
  {
    ProtocolIsPlain(boundary);
    MediaIsPlain();
    ParsesMedia("multipart/encrypted", TopType(boundary));
    hide ParseMediaType, PlainParams, PlainMedia, Params, Mapped;
    TwoParams(("protocol", "application/pgp-encrypted"), ("boundary", boundary));
  }

  lemma TopIsTrimmed(boundary: string)
    ensures Trimmed(Printed("multipart/encrypted", TopType(boundary)))
  {
    ParamsEnd(TopType(boundary));
    hide Params;
  }

  lemma OneLineJoin(a: string, b: string)
    requires OneLine(a) && OneLine(b)
    ensures OneLine(a + b)
  {
  }

  lemma ContentTypeIsPlainLine(boundary: string)
    requires PlainBoundary(boundary)
    ensures PlainLine(ContentType(boundary))
  {
    hide *;
    ContentTypeLiterals();
    BoundaryIsOneLine(boundary);
    OneLineJoin("; boundary=\"", boundary);
    OneLineJoin("; boundary=\"" + boundary, "\"");
    OneLineJoin("Content-Type: multipart/encrypted" + ("; protocol=\"" + "application/pgp-encrypted" + "\""),
                "; boundary=\"" + boundary + "\"");
    ContentTypeStarts(boundary);
  }

  lemma ContentTypeLiterals()
    ensures OneLine("Content-Type: multipart/encrypted" + ("; protocol=\"" + "application/pgp-encrypted" + "\""))
    ensures OneLine("; boundary=\"") && OneLine("\"")
  {
  }

  lemma ContentTypeStarts(boundary: string)
    requires OneLine("Content-Type: multipart/encrypted" + ("; protocol=\"" + "application/pgp-encrypted" + "\"")
                     + ("; boundary=\"" + boundary + "\""))
    ensures PlainLine(ContentType(boundary))
  {
    hide OneLine;
  }

  /** What the reader takes from the lines that were kept. */
  ghost function KeptHeaders(head: string): Headers {
    ParseLines([], Head(Kept(CrlfLines(head))))
  }

  /** The wrapped message is read as what was kept, and the new header last. */
  lemma TopHeader(head: string, block: string, boundary: string)
    requires Lacks(head, "\r\n\r\n") && PlainBoundary(boundary)
    ensures SplitMessage(Wrapped(head, block, boundary))
         == Some((KeptHeaders(head) + [("Content-Type", Printed("multipart/encrypted", TopType(boundary)))],
                  PrintedParts(Delimiter(boundary), [VersionPart(), ArmourPart(block)], "\r\n")))
  {
    hide *;
    var kept, ct := Kept(CrlfLines(head)), ContentType(boundary);
    var body := PrintedParts(Delimiter(boundary), [VersionPart(), ArmourPart(block)], "\r\n");
    LinesAreBlankless(head);
    KeptIsBlankless(CrlfLines(head));
    NoBlankInside(kept);
    HeadEndsLine(kept);
    ContentTypeIsPlainLine(boundary);
    ReadsWithLast(Head(kept), ct, body);
    HeadSnoc(kept, ct);
    WrappedParts(head, block, boundary);
    assert Head(kept + [ct]) + "\r\n" + body == Head(kept) + ct + "\r\n" + ("\r\n" + body);
    ContentTypePrinted(boundary);
    TopIsTrimmed(boundary);
    ContentTypeName();
    EntryOfHeader("Content-Type", Printed("multipart/encrypted", TopType(boundary)));
    KeptHeadersIs(head);
  }

  lemma KeptHeadersIs(head: string)
    ensures KeptHeaders(head) == ParseLines([], Head(Kept(CrlfLines(head))))
  {
  }

  /** A hidden line is what decides whether the new header is the one that is found. */
  lemma KeptAreWithout(head: string)
    ensures Without(KeptHeaders(head), "Content-Type") <==> NoneHides(CrlfLines(head))
  {
    hide *;
    KeptNames(CrlfLines(head));
    NamesRead([], Head(Kept(CrlfLines(head))));
    KeptHeadersIs(head);
    WithoutNothing("Content-Type");
  }

  lemma WithoutNothing(name: string)
    ensures Without([], name)
  {
  }

  lemma {:induction false} GetFirst(a: Headers, b: Headers, name: string)
    requires !Without(a, name)
    ensures Get(a + b, name) == Get(a, name)
  {
    hide EqIgnoreCase;
    if a == [] {
    } else {
      assert (a + b)[1..] == a[1..] + b;
      if !EqIgnoreCase(a[0].0, name) {
        assert forall i :: 0 < i < |a| ==> a[i] == a[1..][i - 1];
        GetFirst(a[1..], b, name);
      }
    }
  }

  lemma ContentTypeName()
    ensures NoChar("Content-Type", ':') && Trimmed("Content-Type")
  {
  }

  // ---- the parts -----------------------------------------------------------------------------------------------

  /** A part with a Content-Type and nothing else. */
  lemma TypedPart(value: string, body: string)
    requires OneLine(value) && Trimmed(value)
    ensures PartIn("Content-Type: " + value + "\r\n" + "\r\n" + body) == [Part([("Content-Type", value)], body)]
  {
    hide *;
    var line := HeaderLine("Content-Type", value);
    TypeLine(value);
    ContentTypeName();
    EntryOfHeader("Content-Type", value);
    OneHead(line);
    ParsesMessage([line], body);
    PartFrom(line + "\r\n" + "\r\n" + body, EntryOf(line), body);
  }

  lemma PartFrom(text: string, headers: Headers, body: string)
    requires SplitMessage(text) == Some((headers, body))
    ensures PartIn(text) == [Part(headers, body)]
  {
    hide SplitMessage;
  }

  lemma TypeLine(value: string)
    requires OneLine(value)
    ensures HeaderLine("Content-Type", value) == "Content-Type: " + value
    ensures PlainLine(HeaderLine("Content-Type", value))
  {
  }

  lemma OneHead(line: string)
    ensures Head([line]) == line + "\r\n" && Entries([line]) == EntryOf(line)
    ensures PlainLine(line) ==> AllPlain([line])
  {
    assert [line][1..] == [];
    assert EntryOf(line) + [] == EntryOf(line);
  }

  lemma GetOnly(value: string)
    ensures Get([("Content-Type", value)], "Content-Type") == value
    ensures Get([("Content-Type", value)], "Content-Transfer-Encoding") == ""
  {
    assert |ToLower("Content-Type")| != |ToLower("Content-Transfer-Encoding")|;
    assert [("Content-Type", value)][1..] == [];
  }

  lemma NoEncoding(f: Foreign, body: string)
    ensures DecodeTransfer(f, "", body) == body
  {
    assert Trim("") == "";
  }

  lemma MediaOfPlain(media: string)
    requires PlainMedia(media)
    ensures MediaOf(media) == media
  {
    ParsesMedia(media, []);
    assert Printed(media, []) == media;
    hide ParseMediaType;
  }

  lemma {:induction false} ReplaceShrinks(s: string)
    ensures |ReplaceAll(s, "\r\n", "\n")| <= |s|
    decreases |s|
  {
    hide Find;
    if Find(s, "\r\n").Some? {
      ReplaceShrinks(s[Find(s, "\r\n").value + 2..]);
    }
  }

  lemma VersionIsNotArmour()
    ensures !Contains(NormaliseNewlines("Version: 1\r\n"), BEGIN_PGP)
  {
    ReplaceShrinks("Version: 1\r\n");
    hide ReplaceAll;
  }

  /** The control part is passed over, and the armour is what is returned. */
  lemma ReadsArmour(f: Foreign, block: string)
    requires BEGIN_PGP <= block
    ensures EncryptedText(f, [Part([("Content-Type", "application/pgp-encrypted")], "Version: 1\r\n"),
                              Part([("Content-Type", "application/octet-stream")], ReplaceAll(block, "\n", "\r\n"))])
         == block
  {
    hide *;
    var armour := ReplaceAll(block, "\n", "\r\n");
    var control := Part([("Content-Type", "application/pgp-encrypted")], "Version: 1\r\n");
    var data := Part([("Content-Type", "application/octet-stream")], armour);
    GetOnly("application/pgp-encrypted");
    GetOnly("application/octet-stream");
    MediaIsPlain();
    MediaOfPlain("application/octet-stream");
    NoEncoding(f, "Version: 1\r\n");
    NoEncoding(f, armour);
    VersionIsNotArmour();
    NewlinesThereAndBack(block);
    BlockIsContained(block);
    SkipsPart(f, control, [data]);
    TakesPart(f, data, []);
    assert [control] + [data] == [control, data] && [data] + [] == [data];
  }

  lemma SkipsPart(f: Foreign, part: Part, rest: seq<Part>)
    requires !Contains(NormaliseNewlines(DecodeTransfer(f, Get(part.headers, "Content-Transfer-Encoding"), part.body)), BEGIN_PGP)
    ensures EncryptedText(f, [part] + rest) == EncryptedText(f, rest)
  {
    assert ([part] + rest)[1..] == rest;
    hide MediaOf, Get, DecodeTransfer, NormaliseNewlines, Contains;
  }

  lemma TakesPart(f: Foreign, part: Part, rest: seq<Part>)
    requires MediaOf(Get(part.headers, "Content-Type")) == "application/octet-stream"
    requires Contains(NormaliseNewlines(DecodeTransfer(f, Get(part.headers, "Content-Transfer-Encoding"), part.body)), BEGIN_PGP)
    ensures EncryptedText(f, [part] + rest)
         == NormaliseNewlines(DecodeTransfer(f, Get(part.headers, "Content-Transfer-Encoding"), part.body))
  {
    hide MediaOf, Get, DecodeTransfer, NormaliseNewlines, Contains;
  }

  lemma DelimiterIsDashed(boundary: string)
    requires OneLine(boundary)
    ensures Dashed(Delimiter(boundary)) && OneLine(Delimiter(boundary))
  {
  }

  lemma HeadsLack(n: string)
    requires Dashed(n) && OneLine(n)
    ensures Lacks(VersionPart(), n) && Lacks("Content-Type: " + "application/octet-stream", n)
  {
    hide Find;
    LacksLiteral("application/pgp-encrypted", n);
    LacksHyphens("Content-Type: ", "application/pgp-encrypted", n);
    LacksLiteral("application/octet-stream", n);
    LacksHyphens("Content-Type: ", "application/octet-stream", n);
    LacksLiteral("Version: 1\r\n", n);
    LacksEmpty(n);
    hide Lacks, OneLine, Dashed;
    LacksLine("", "Version: 1\r\n", n);
    LacksLine("Content-Type: " + "application/pgp-encrypted", "" + "\r\n" + "Version: 1\r\n", n);
    assert VersionPart()
        == "Content-Type: " + "application/pgp-encrypted" + "\r\n" + ("" + "\r\n" + "Version: 1\r\n");
  }

  lemma ArmourLacks(block: string, n: string)
    requires Dashed(n) && OneLine(n) && Lacks(block, n)
    ensures Lacks(ArmourPart(block), n)
  {
    assert n != "";
    hide Find, ReplaceAll, Lacks, OneLine, Dashed;
    var armour := ReplaceAll(block, "\n", "\r\n");
    HeadsLack(n);
    ReplaceLacks(block, n);
    LacksEmpty(n);
    LacksLine("", armour, n);
    LacksLine("Content-Type: " + "application/octet-stream", "" + "\r\n" + armour, n);
    assert ArmourPart(block)
        == "Content-Type: " + "application/octet-stream" + "\r\n" + ("" + "\r\n" + armour);
  }

  lemma BodyParses(block: string, boundary: string)
    requires OneLine(boundary) && Lacks(block, Delimiter(boundary))
    ensures PartsOf(PrintedParts(Delimiter(boundary), [VersionPart(), ArmourPart(block)], "\r\n"), boundary)
         == [Part([("Content-Type", "application/pgp-encrypted")], "Version: 1\r\n"),
             Part([("Content-Type", "application/octet-stream")], ReplaceAll(block, "\n", "\r\n"))]
  {
    hide *;
    var delim, armour := Delimiter(boundary), ReplaceAll(block, "\n", "\r\n");
    var texts := [VersionPart(), ArmourPart(block)];
    DelimiterIsDashed(boundary);
    HeadsLack(delim);
    ArmourLacks(block, delim);
    BothLack(VersionPart(), ArmourPart(block), delim);
    ReadsMultipart(boundary, texts, "\r\n");
    TwoTexts(VersionPart(), ArmourPart(block));
    ReadsVersion();
    ReadsOctets(armour);
    ArmourPieces(block);
  }

  lemma ArmourPieces(block: string)
    ensures ArmourPart(block)
         == "Content-Type: " + "application/octet-stream" + "\r\n" + "\r\n" + ReplaceAll(block, "\n", "\r\n")
  {
    hide ReplaceAll;
  }

  lemma BothLack(a: string, b: string, n: string)
    requires n != "" && Lacks(a, n) && Lacks(b, n)
    ensures AllLack([a, b], n)
  {
    hide Lacks;
  }

  lemma TwoTexts(a: string, b: string)
    ensures PartsIn([a, b]) == PartIn(a) + PartIn(b)
  {
    assert [a, b][1..] == [b] && [b][1..] == [];
    assert PartsIn([b]) == PartIn(b) + [];
    hide PartIn;
  }

  lemma ReadsVersion()
    ensures PartIn(VersionPart()) == [Part([("Content-Type", "application/pgp-encrypted")], "Version: 1\r\n")]
  {
    TypedPart("application/pgp-encrypted", "Version: 1\r\n");
    hide PartIn;
  }

  lemma ReadsOctets(body: string)
    ensures PartIn("Content-Type: " + "application/octet-stream" + "\r\n" + "\r\n" + body)
         == [Part([("Content-Type", "application/octet-stream")], body)]
  {
    TypedPart("application/octet-stream", body);
    hide PartIn;
  }

  /** The text the reader extracts from a wrapped message, if it reads it at all. */
  ghost function TextRead(f: Foreign, data: string): Option<string> {
    match SplitMessage(data)
    case None => None
    case Some((headers, body)) =>
      Some(ExtractText(f, Get(headers, "Content-Type"), Get(headers, "Content-Transfer-Encoding"), body))
  }

  lemma HeadHasNoBlank(raw: string)
    requires PgpBlock(raw).Some?
    ensures Lacks(PgpBlock(raw).value.0, "\r\n\r\n")
  {
    hide Find, OccursAt;
    var i := Find(raw, "\r\n\r\n").value;
    var head := raw[..i];
    assert head + raw[i..] == raw;
    if Find(head, "\r\n\r\n").Some? {
      OccursInHead(head, raw[i..], "\r\n\r\n", Find(head, "\r\n\r\n").value);
    }
  }

  /**
   Wrapping and then reading gives the armour back, byte for byte: for every message,
   folded headers and all, in which no line hides a Content-Type, and every block that
   does not contain the delimiter.
   */
  lemma WrapThenRead(f: Foreign, raw: string, digest: string -> string)
    requires PgpBlock(raw).Some? && NoneHides(CrlfLines(PgpBlock(raw).value.0))
    requires var block := PgpBlock(raw).value.1;
             PlainBoundary(digest(block)) && Lacks(block, Delimiter(Boundary(digest(block))))
    ensures var (head, block) := PgpBlock(raw).value;
            TextRead(f, Wrapped(head, block, Boundary(digest(block)))) == Some(block)
  {
    var (head, block) := PgpBlock(raw).value;
    var boundary := Boundary(digest(block));
    BlockBegins(raw);
    HeadHasNoBlank(raw);
    BoundaryIsPlain(digest(block));
    hide *;
    ReadsWrapped(f, head, block, boundary);
  }

  lemma BoundaryIsPlain(digest: string)
    requires PlainBoundary(digest)
    ensures PlainBoundary(Boundary(digest)) && Boundary(digest) != "" && Boundary(digest)[0] == 'b'
  {
  }

  lemma TextReadIs(f: Foreign, data: string, headers: Headers, body: string)
    requires SplitMessage(data) == Some((headers, body))
    ensures TextRead(f, data)
         == Some(ExtractText(f, Get(headers, "Content-Type"), Get(headers, "Content-Transfer-Encoding"), body))
  {
    hide SplitMessage, ExtractText, Get;
  }

  lemma ReadsWrapped(f: Foreign, head: string, block: string, boundary: string)
    requires Lacks(head, "\r\n\r\n") && NoneHides(CrlfLines(head)) && PlainBoundary(boundary) && BEGIN_PGP <= block
    requires Lacks(block, Delimiter(boundary))
    ensures TextRead(f, Wrapped(head, block, boundary)) == Some(block)
  {
    hide *;
    var value := Printed("multipart/encrypted", TopType(boundary));
    var headers := KeptHeaders(head) + [("Content-Type", value)];
    var body := PrintedParts(Delimiter(boundary), [VersionPart(), ArmourPart(block)], "\r\n");
    TopHeader(head, block, boundary);
    KeptAreWithout(head);
    GetPast(KeptHeaders(head), [("Content-Type", value)], "Content-Type");
    GetOnly(value);
    TextReadIs(f, Wrapped(head, block, boundary), headers, body);
    TopParses(boundary);
    BoundaryIsOneLine(boundary);
    BodyParses(block, boundary);
    ReadsArmour(f, block);
    ExtractsEncrypted(f, value, Get(headers, "Content-Transfer-Encoding"), body);
  }

  lemma BoundaryIsOneLine(boundary: string)
    requires PlainBoundary(boundary)
    ensures OneLine(boundary)
  {
  }

  lemma ExtractsEncrypted(f: Foreign, contentType: string, cte: string, body: string)
    requires contentType != "" && ParseMediaType(contentType).Some?
    requires var mt := ParseMediaType(contentType).value; mt.media == "multipart/encrypted" && "boundary" in mt.params
    ensures ExtractText(f, contentType, cte, body)
         == EncryptedText(f, PartsOf(body, ParseMediaType(contentType).value.params["boundary"]))
  {
    hide ParseMediaType, PartsOf, EncryptedText, DecodeTransfer, NormaliseNewlines;
    assert "multipart/encrypted"[0] == 'm' && "text/plain"[0] == 't' && "text/html"[0] == 't';
  }

  // ---- the other headers --------------------------------------------------------------------------------------

  predicate NamesBody(name: string) {
    EqIgnoreCase(name, "Content-Type") || EqIgnoreCase(name, "Content-Transfer-Encoding")
  }

  /** The headers that say nothing about the body, in order. */
  function Others(headers: Headers): Headers {
    if headers == [] then []
    else
      var last := headers[|headers| - 1];
      Others(headers[..|headers| - 1]) + if NamesBody(last.0) then [] else [last]
  }

  /** A line that a continuation may follow: a header about something else, or another continuation. */
  predicate Carries(line: string) {
    Continues(line) || (!NoChar(line, ':') && !NamesBody(HeaderName(line)))
  }

  predicate RegularLine(line: string) {
    OneLine(line) && (Continues(line) || NoChar(line, ':') || Trim(HeaderName(line)) == HeaderName(line))
  }

  predicate RegularAt(lines: seq<string>, i: nat)
    requires i < |lines|
  {
    RegularLine(lines[i]) && (Continues(lines[i]) ==> i > 0 && Carries(lines[i - 1]))
  }

  /** No space before a colon, and nothing folded but the headers that are kept. */
  ghost predicate Regular(lines: seq<string>) {
    forall i :: 0 <= i < |lines| ==> RegularAt(lines, i)
  }

  ghost function Reads(lines: seq<string>): Headers {
    ParseLines([], Head(lines))
  }

  lemma ReadsOneMore(lines: seq<string>, l: string)
    requires OneLine(l)
    ensures Reads(lines + [l]) == AddLine(Reads(lines), l + "\r")
  {
    HeadSnoc(lines, l);
    HeadEndsLine(lines);
    ParsesOneMore(Head(lines), l);
    hide ParseLines, AddLine, Head;
  }

  lemma {:induction false} KeptSnoc(lines: seq<string>, l: string)
    ensures Kept(lines + [l]) == Kept(lines) + if DescribesBody(l) then [] else [l]
  {
    hide DescribesBody;
    if lines == [] {
      assert lines + [l] == [l] && [l][1..] == [];
    } else {
      assert (lines + [l])[1..] == lines[1..] + [l];
      KeptSnoc(lines[1..], l);
    }
  }

  lemma OthersSnoc(h: Headers, e: (string, string))
    ensures Others(h + [e]) == Others(h) + if NamesBody(e.0) then [] else [e]
  {
    assert (h + [e])[..|h|] == h;
  }

  lemma BodyNames(name: string)
    ensures NamesBody(name) <==> EqIgnoreCase(name, "content-type") || EqIgnoreCase(name, "content-transfer-encoding")
  {
    assert ToLower("Content-Type") == ToLower("content-type");
    assert ToLower("Content-Transfer-Encoding") == ToLower("content-transfer-encoding");
  }

  lemma FoldDescribesNothing(line: string)
    requires Continues(line)
    ensures !DescribesBody(line)
  {
    var name := HeaderName(line);
    hide HeaderName;
    NameStart(line);
    assert name == "" || ToLower(name)[0] == LowerChar(name[0]);
    assert ToLower("content-type")[0] == 'c' && ToLower("content-transfer-encoding")[0] == 'c';
  }

  lemma NameStart(line: string)
    requires Continues(line)
    ensures HeaderName(line) == "" || HeaderName(line)[0] == line[0]
  {
  }

  /** A line that is neither a header nor a continuation says nothing. */
  lemma AddsNothing(entries: Headers, line: string)
    requires OneLine(line) && NoChar(line, ':') && !Continues(line)
    ensures AddLine(entries, line + "\r") == entries
  {
    assert StripSuffixChar(line + "\r", '\r') == line;
    hide Trim;
  }

  lemma AddsHeader(entries: Headers, line: string)
    requires RegularLine(line) && !NoChar(line, ':') && !Continues(line)
    ensures AddLine(entries, line + "\r") == entries + [(HeaderName(line), Trim(SplitOnce(line, ':').value.1))]
  {
    AddsPrinted(entries, line);
    NameBeforeColon(line);
    hide Trim, AddLine;
  }

  /** After these lines the last header read is one that is kept. */
  ghost predicate OpenEnded(h: Headers) {
    h != [] && !NamesBody(h[|h| - 1].0)
  }

  lemma OthersEnd(h: Headers)
    requires OpenEnded(h)
    ensures Others(h) == Others(h[..|h| - 1]) + [h[|h| - 1]]
    ensures OpenEnded(Others(h)) && Others(h)[|Others(h)| - 1] == h[|h| - 1] && Others(h)[..|Others(h)| - 1] == Others(h[..|h| - 1])
  {
    hide NamesBody;
  }

  /** A continuation of a kept header goes to the same header on both sides. */
  lemma FoldStep(h: Headers, line: string)
    requires OpenEnded(h) && OneLine(line) && Continues(line)
    ensures AddLine(Others(h), line + "\r") == Others(AddLine(h, line + "\r")) && OpenEnded(AddLine(h, line + "\r"))
  {
    OthersEnd(h);
    AddsContinuation(h, line);
    AddsContinuation(Others(h), line);
    OthersSnoc(h[..|h| - 1], (h[|h| - 1].0, h[|h| - 1].1 + " " + TrimStart(line)));
    hide AddLine, Others, TrimStart, NamesBody;
  }

  lemma LastStep(lines: seq<string>, l: string, h: Headers, kept: seq<string>)
    requires RegularLine(l) && (Continues(l) ==> OpenEnded(h)) && Reads(lines) == h && Reads(kept) == Others(h)
    ensures var h' := Reads(lines + [l]);
            && Reads(kept + if DescribesBody(l) then [] else [l]) == Others(h')
            && (Carries(l) ==> OpenEnded(h'))
  {
    hide *;
    RegularIsOneLine(l);
    ReadsOneMore(lines, l);
    ReadsOneMore(kept, l);
    assert kept + [] == kept;
    if Continues(l) {
      FoldStep(h, l);
      FoldDescribesNothing(l);
    } else if NoChar(l, ':') {
      AddsNothing(h, l);
      AddsNothing(Others(h), l);
      CarriesIs(l);
    } else {
      var e := (HeaderName(l), Trim(SplitOnce(l, ':').value.1));
      NameBeforeColon(l);
      AddsHeader(h, l);
      AddsHeader(Others(h), l);
      OthersSnoc(h, e);
      DescribesByName(l);
      CarriesIs(l);
      OpenAfter(h, e);
      assert Others(h) + [] == Others(h);
    }
  }

  lemma RegularIsOneLine(l: string)
    requires RegularLine(l)
    ensures OneLine(l)
  {
  }

  lemma CarriesIs(l: string)
    ensures Carries(l) <==> Continues(l) || (!NoChar(l, ':') && !NamesBody(HeaderName(l)))
  {
  }

  lemma DescribesByName(l: string)
    ensures DescribesBody(l) <==> NamesBody(HeaderName(l))
  {
    BodyNames(HeaderName(l));
    hide HeaderName, EqIgnoreCase;
  }

  lemma OpenAfter(h: Headers, e: (string, string))
    ensures !NamesBody(e.0) ==> OpenEnded(h + [e])
  {
  }

  lemma RegularInit(init: seq<string>, l: string)
    requires Regular(init + [l])
    ensures Regular(init) && RegularLine(l) && (Continues(l) ==> init != [] && Carries(init[|init| - 1]))
  {
    hide RegularLine, Continues, Carries;
    var lines := init + [l];
    forall i | 0 <= i < |init| ensures RegularAt(init, i) {
      assert RegularAt(lines, i) && lines[i] == init[i];
      assert i > 0 ==> lines[i - 1] == init[i - 1];
    }
    assert RegularAt(lines, |init|) && lines[|init|] == l;
    assert init != [] ==> lines[|init| - 1] == init[|init| - 1];
  }

  lemma {:induction false} KeptReads(lines: seq<string>)
    requires Regular(lines)
    ensures Reads(Kept(lines)) == Others(Reads(lines))
    ensures lines != [] && Carries(lines[|lines| - 1]) ==> OpenEnded(Reads(lines))
  {
    if lines == [] {
      ParsesEmpty([]);
    } else {
      var init, l := lines[..|lines| - 1], lines[|lines| - 1];
      assert lines == init + [l];
      RegularInit(init, l);
      KeptReads(init);
      KeptSnoc(init, l);
      hide Kept, Reads, Others, Carries, Continues, RegularLine, DescribesBody, OpenEnded, Regular;
      LastStep(init, l, Reads(init), Kept(init));
    }
  }

  predicate EndsCrlf(data: string) {
    |data| >= 2 && data[|data| - 2] == '\r' && data[|data| - 1] == '\n'
  }

  lemma {:induction false} PrintsBack(data: string)
    requires data != "" && !EndsCrlf(data)
    ensures Head(CrlfLines(data)) == data + "\r\n"
    decreases |data|
  {
    hide Find;
    match Find(data, "\r\n")
    case None =>
      assert [data][1..] == [];
    case Some(i) =>
      BeforeCrlf(data, i);
      var rest := data[i + 2..];
      PrintsBack(rest);
      assert ([data[..i]] + CrlfLines(rest))[1..] == CrlfLines(rest);
      assert data == data[..i] + "\r\n" + rest;
  }

  lemma HeadOfRaw(raw: string, i: nat)
    requires Find(raw, "\r\n\r\n") == Some(i)
    ensures i + 4 <= |raw| && Reads(CrlfLines(raw[..i])) == ParseLines([], raw[..i + 2])
  {
    hide Find, OccursAt, ParseLines, CrlfLines, Head;
    BlankFound(raw, i);
    var head := raw[..i];
    assert raw[..i + 2] == head + "\r\n";
    if head == "" {
      EmptyHeadReads();
    } else {
      if EndsCrlf(head) {
        BlankAt(raw, i - 2);
      }
      PrintsBack(head);
    }
  }

  lemma EmptyHeadReads()
    ensures Reads(CrlfLines("")) == ParseLines([], "" + "\r\n")
  {
    assert "" + "\r\n" == "\r" + "\n" + "";
    ParsesLine([], "\r", "");
    ParsesEmpty([]);
  }

  /**
   Every other header comes back: what is read of the wrapped message is what was read of the
   original, in order, without its Content-Type and Content-Transfer-Encoding, and the new
   Content-Type at the end.
   */
  lemma OthersComeBack(raw: string, digest: string -> string)
    requires PgpBlock(raw).Some? && PlainBoundary(digest(PgpBlock(raw).value.1))
    requires Regular(CrlfLines(PgpBlock(raw).value.0))
    ensures var (head, block) := PgpBlock(raw).value;
            var boundary := Boundary(digest(block));
            var before, after := SplitMessage(raw), SplitMessage(Wrapped(head, block, boundary));
            && before.Some? && after.Some?
            && after.value.0 == Others(before.value.0)
                              + [("Content-Type", Printed("multipart/encrypted", TopType(boundary)))]
  {
    var (head, block) := PgpBlock(raw).value;
    HeadHasNoBlank(raw);
    HeadIsBefore(raw);
    BoundaryIsPlain(digest(block));
    hide *;
    var i := Find(raw, "\r\n\r\n").value;
    SplitsAt(raw, i);
    HeadOfRaw(raw, i);
    KeptReads(CrlfLines(head));
    TopHeader(head, block, Boundary(digest(block)));
    KeptHeadersIs(head);
    ReadsIs(Kept(CrlfLines(head)));
  }

  lemma ReadsIs(lines: seq<string>)
    ensures Reads(lines) == ParseLines([], Head(lines))
  {
  }

  lemma HeadIsBefore(raw: string)
    requires PgpBlock(raw).Some?
    ensures Find(raw, "\r\n\r\n").Some?
    ensures PgpBlock(raw).value.0 == raw[..Find(raw, "\r\n\r\n").value]
  {
    hide Find;
  }

  /** A folded Content-Type spills: its continuation stays behind and goes to the header before it. */
  lemma FoldedTypeSpills(name: string, value: string, mediaType: string, c: Fold)
    requires PlainName(name) && !NamesBody(name) && OneLine(value) && Trimmed(value) && OneLine(mediaType) && IsFold(c)
    ensures var lines := [HeaderLine(name, value), HeaderLine("Content-Type", mediaType), c.lead + c.text];
            Reads(Kept(lines)) == [(name, value + " " + c.text)]
  {
    hide *;
    var lines := [HeaderLine(name, value), HeaderLine("Content-Type", mediaType), c.lead + c.text];
    KeepsFirstAndLast(name, value, mediaType, c);
    OneFoldLine(c);
    OneFold(c);
    ReadsFoldedHeader([], name, value, [c], "");
    ReadsIs(Kept(lines));
    ParsesEmpty([(name, value + " " + c.text)]);
    assert [] + [(name, value + (" " + c.text))] == [(name, value + (" " + c.text))];
    assert value + (" " + c.text) == value + " " + c.text;
    var head := Head([HeaderLine(name, value)] + [c.lead + c.text]);
    assert head + "" == head;
  }

  lemma OneFoldLine(c: Fold)
    ensures FoldLines([c]) == [c.lead + c.text]
  {
    assert [c][1..] == [];
  }

  lemma KeepsFirstAndLast(name: string, value: string, mediaType: string, c: Fold)
    requires PlainName(name) && !NamesBody(name) && IsFold(c)
    ensures var lines := [HeaderLine(name, value), HeaderLine("Content-Type", mediaType), c.lead + c.text];
            Kept(lines) == [HeaderLine(name, value)] + [c.lead + c.text]
  {
    hide *;
    var a, b, l := HeaderLine(name, value), HeaderLine("Content-Type", mediaType), c.lead + c.text;
    PlainNameIs(name);
    NameOfHeader(name, value);
    ContentTypeName();
    NameOfHeader("Content-Type", mediaType);
    DescribesByName(a);
    DescribesByName(b);
    TypeNamesBody();
    FoldContinues(c);
    FoldDescribesNothing(l);
    KeptThree(a, b, l);
  }

  lemma KeptThree(a: string, b: string, l: string)
    requires !DescribesBody(a) && DescribesBody(b) && !DescribesBody(l)
    ensures Kept([a, b, l]) == [a] + [l]
  {
    hide DescribesBody;
    assert [a, b, l][1..] == [b, l] && [b, l][1..] == [l] && [l][1..] == [];
    assert Kept([l]) == [l] + Kept([]) == [l];
    assert Kept([b, l]) == [] + Kept([l]) == [l];
  }

  lemma TypeNamesBody()
    ensures NamesBody("Content-Type")
  {
  }

  lemma NameOfHeader(name: string, value: string)
    requires NoChar(name, ':')
    ensures HeaderName(HeaderLine(name, value)) == name
  {
    FindCharAt(name, ':', " " + value);
    assert name + [':'] + (" " + value) == HeaderLine(name, value);
    assert HeaderLine(name, value)[..|name|] == name;
    hide FindChar;
  }

  // ---- exactly when it is lost --------------------------------------------------------------------------------

  /**
   The new Content-Type is the one that is found exactly if no line hides another; if one
   does, the first such value is found in its place.
   */
  lemma NewTypeIsFoundExactly(raw: string, digest: string -> string)
    requires PgpBlock(raw).Some? && PlainBoundary(digest(PgpBlock(raw).value.1))
    ensures var (head, block) := PgpBlock(raw).value;
            var boundary := Boundary(digest(block));
            var value := Printed("multipart/encrypted", TopType(boundary));
            var read := SplitMessage(Wrapped(head, block, boundary));
            && read.Some? && |read.value.0| > 0
            && var (old_, new_) := (read.value.0[..|read.value.0| - 1], read.value.0[|read.value.0| - 1]);
            && new_ == ("Content-Type", value)
            && (Without(old_, "Content-Type") <==> NoneHides(CrlfLines(head)))
            && Get(read.value.0, "Content-Type") == if NoneHides(CrlfLines(head)) then value else Get(old_, "Content-Type")
  {
    var (head, block) := PgpBlock(raw).value;
    var boundary := Boundary(digest(block));
    HeadHasNoBlank(raw);
    BoundaryIsPlain(digest(block));
    hide *;
    var value := Printed("multipart/encrypted", TopType(boundary));
    var old_ := KeptHeaders(head);
    TopHeader(head, block, boundary);
    KeptAreWithout(head);
    GetOnly(value);
    if NoneHides(CrlfLines(head)) {
      GetPast(old_, [("Content-Type", value)], "Content-Type");
    } else {
      GetFirst(old_, [("Content-Type", value)], "Content-Type");
    }
    assert (old_ + [("Content-Type", value)])[..|old_|] == old_;
  }

  /**
   A value under which the reader takes a body as it stands, or not at all.  What is
   left out is HTML and decoded text, whose results are those of the conversion, and
   another multipart, where everything depends on its boundary.
   */
  predicate TakesWhole(contentType: string, cte: string) {
    contentType == "" ||
    match ParseMediaType(contentType)
    case None => true
    case Some(mt) =>
      if mt.media == "text/plain" then ToLower(Trim(cte)) != "quoted-printable" && ToLower(Trim(cte)) != "base64"
      else mt.media != "text/html" && (IsMultipart(mt.media) ==> "boundary" !in mt.params)
  }

  lemma ExtractsWhole(f: Foreign, contentType: string, cte: string, body: string)
    requires TakesWhole(contentType, cte)
    ensures ExtractText(f, contentType, cte, body) in {"", NormaliseNewlines(body)}
  {
    hide ParseMediaType, NormaliseNewlines, Trim, ToLower, PartsOf, EncryptedText;
  }

  lemma KeepsStart(s: string)
    requires |s| >= 3 && s[0] != '\r' && s[1] != '\r' && s[2] != '\r'
    ensures |NormaliseNewlines(s)| >= 3 && NormaliseNewlines(s)[2] == s[2]
  {
    hide Find;
    match Find(s, "\r\n")
    case None =>
    case Some(i) => OccursChars(s, "\r\n", i, 0);
  }

  /** The body as a whole is not the armour: it begins with the delimiter. */
  lemma BodyIsNotArmour(boundary: string, texts: seq<string>, block: string)
    requires boundary != "" && boundary[0] == 'b' && BEGIN_PGP <= block
    ensures block !in {"", NormaliseNewlines(PrintedParts(Delimiter(boundary), texts, "\r\n"))}
  {
    var body := PrintedParts(Delimiter(boundary), texts, "\r\n");
    assert body[0] == '-' && body[1] == '-' && body[2] == 'b';
    assert block[2] == BEGIN_PGP[2] && BEGIN_PGP[2] == '-';
    hide NormaliseNewlines, PrintedParts;
    KeepsStart(body);
  }

  /**
   For such values the condition is exact: the armour is read back if and only if no line
   hides a Content-Type.
   */
  lemma ArmourIsReadExactly(f: Foreign, raw: string, digest: string -> string)
    requires PgpBlock(raw).Some?
    requires var block := PgpBlock(raw).value.1;
             PlainBoundary(digest(block)) && Lacks(block, Delimiter(Boundary(digest(block))))
    requires var kept := KeptHeaders(PgpBlock(raw).value.0);
             TakesWhole(Get(kept, "Content-Type"), Get(kept, "Content-Transfer-Encoding"))
    ensures var (head, block) := PgpBlock(raw).value;
            TextRead(f, Wrapped(head, block, Boundary(digest(block)))) == Some(block) <==> NoneHides(CrlfLines(head))
  {
    var (head, block) := PgpBlock(raw).value;
    var boundary := Boundary(digest(block));
    BlockBegins(raw);
    HeadHasNoBlank(raw);
    BoundaryIsPlain(digest(block));
    hide *;
    if NoneHides(CrlfLines(head)) {
      ReadsWrapped(f, head, block, boundary);
    } else {
      LosesArmour(f, head, block, boundary);
    }
  }

  lemma LosesArmour(f: Foreign, head: string, block: string, boundary: string)
    requires Lacks(head, "\r\n\r\n") && !NoneHides(CrlfLines(head)) && BEGIN_PGP <= block
    requires PlainBoundary(boundary) && boundary != "" && boundary[0] == 'b'
    requires TakesWhole(Get(KeptHeaders(head), "Content-Type"), Get(KeptHeaders(head), "Content-Transfer-Encoding"))
    ensures TextRead(f, Wrapped(head, block, boundary)) != Some(block)
  {
    hide *;
    var last := [("Content-Type", Printed("multipart/encrypted", TopType(boundary)))];
    var kept := KeptHeaders(head);
    var headers := kept + last;
    var body := PrintedParts(Delimiter(boundary), [VersionPart(), ArmourPart(block)], "\r\n");
    TopHeader(head, block, boundary);
    KeptAreWithout(head);
    GetFirst(kept, last, "Content-Type");
    GetEncoding(kept, last[0].1);
    TextReadIs(f, Wrapped(head, block, boundary), headers, body);
    ExtractsWhole(f, Get(kept, "Content-Type"), Get(kept, "Content-Transfer-Encoding"), body);
    BodyIsNotArmour(boundary, [VersionPart(), ArmourPart(block)], block);
  }

  lemma {:induction false} GetEncoding(kept: Headers, value: string)
    ensures Get(kept + [("Content-Type", value)], "Content-Transfer-Encoding") == Get(kept, "Content-Transfer-Encoding")
  {
    hide EqIgnoreCase;
    if kept == [] {
      GetOnly(value);
      assert kept + [("Content-Type", value)] == [("Content-Type", value)];
    } else {
      assert (kept + [("Content-Type", value)])[1..] == kept[1..] + [("Content-Type", value)];
      GetEncoding(kept[1..], value);
    }
  }

  /** It does get lost: an old value behind a spaced name, and any armour at all. */
  lemma SpacedNameLoses(f: Foreign, value: string, block: string, digest: string -> string)
    requires OneLine(value) && Trimmed(value) && TakesWhole(value, "")
    requires BEGIN_PGP <= block && Find(block, END_PGP) == Some(|block| - |END_PGP|)
    requires PlainBoundary(digest(block))
    ensures var head := "Content-Type : " + value;
            && PgpBlock(head + "\r\n\r\n" + block) == Some((head, block))
            && TextRead(f, Wrapped(head, block, Boundary(digest(block)))) != Some(block)
  {
    hide *;
    var head := "Content-Type : " + value;
    SpacedHides(value);
    OneLineBlock(head, block);
    SpacedLines(value);
    SpacedHeaders(value);
    OneHides(head);
    NoBlankInLine(head);
    BoundaryIsPlain(digest(block));
    LosesArmour(f, head, block, Boundary(digest(block)));
  }

  lemma NoBlankInLine(line: string)
    requires PlainLine(line)
    ensures Lacks(line, "\r\n\r\n")
  {
    OneLineLacks(line, "\r\n\r\n");
    hide Find;
  }

  lemma OneLineBlock(head: string, block: string)
    requires PlainLine(head) && BEGIN_PGP <= block && Find(block, END_PGP) == Some(|block| - |END_PGP|)
    ensures PgpBlock(head + "\r\n\r\n" + block) == Some((head, block))
  {
    hide *;
    OneLineHead(head, block);
    StartsWithBegin(block);
    PgpBlockIs(head + "\r\n\r\n" + block, head, block);
  }

  lemma OneLineHead(head: string, block: string)
    requires PlainLine(head)
    ensures var raw := head + "\r\n\r\n" + block;
            Find(raw, "\r\n\r\n") == Some(|head|) && raw[..|head|] == head && raw[|head| + 4..] == block
  {
    hide Find;
    var raw := head + "\r\n\r\n" + block;
    BlankBehind(head, block);
    assert raw == head + "\r\n" + ("\r\n" + block);
  }

  lemma StartsWithBegin(block: string)
    requires BEGIN_PGP <= block
    ensures Find(block, BEGIN_PGP) == Some(0)
  {
    hide Find;
    assert OccursAt(block, BEGIN_PGP, 0);
    FindIs(block, BEGIN_PGP, 0);
  }

  lemma PgpBlockIs(raw: string, head: string, block: string)
    requires Find(raw, "\r\n\r\n") == Some(|head|) && raw[..|head|] == head && raw[|head| + 4..] == block
    requires Find(block, BEGIN_PGP) == Some(0) && Find(block, END_PGP) == Some(|block| - |END_PGP|)
    ensures PgpBlock(raw) == Some((head, block))
  {
    hide Find, OccursAt;
    assert block[0..] == block && block[..|block|] == block;
  }

  lemma OneHides(line: string)
    requires Hides(line)
    ensures !NoneHides([line])
  {
    hide Hides;
    assert Hides([line][0]);
  }

  lemma OneLineLacks(line: string, n: string)
    requires OneLine(line) && n != "" && IsEol(n[0])
    ensures Lacks(line, n)
  {
    LacksFirstChar(line, n);
    hide Find;
  }

  /** Such as the plain text that was there before. */
  lemma PlainTextTakesWhole()
    ensures OneLine("text/plain") && Trimmed("text/plain") && TakesWhole("text/plain", "")
  {
    hide *;
    PlainTextIsPlain();
    MediaParses("text/plain");
    TextTakesWhole("text/plain", "");
    EmptyEncoding();
  }

  lemma PlainTextIsPlain()
    ensures OneLine("text/plain") && Trimmed("text/plain") && PlainMedia("text/plain")
  {
  }

  lemma MediaParses(media: string)
    requires PlainMedia(media)
    ensures ParseMediaType(media).Some? && ParseMediaType(media).value.media == media
  {
    ParsesMedia(media, []);
    assert Printed(media, []) == media;
    hide ParseMediaType;
  }

  lemma TextTakesWhole(contentType: string, cte: string)
    requires ParseMediaType(contentType).Some? && ParseMediaType(contentType).value.media == "text/plain"
    ensures ToLower(Trim(cte)) == "" ==> TakesWhole(contentType, cte)
  {
    hide ParseMediaType, ToLower, Trim;
  }

  lemma EmptyEncoding()
    ensures ToLower(Trim("")) == ""
  {
  }

  lemma SpacedName(value: string)
    ensures HeaderName("Content-Type : " + value) == "Content-Type "
    ensures SplitOnce("Content-Type : " + value, ':') == Some(("Content-Type ", " " + value))
  {
    assert "Content-Type " + [':'] + (" " + value) == "Content-Type : " + value;
    FindCharAt("Content-Type ", ':', " " + value);
    SplitOnceAt("Content-Type ", ':', " " + value);
  }

  lemma SpacedDescribesNothing(value: string)
    ensures !DescribesBody("Content-Type : " + value)
  {
    SpacedName(value);
    assert |ToLower("Content-Type ")| != |ToLower("content-type")|;
    assert |ToLower("Content-Type ")| != |ToLower("content-transfer-encoding")|;
    hide HeaderName;
  }

  /** Any old value slips through behind a space. */
  lemma SpacedHides(value: string)
    requires OneLine(value)
    ensures Hides("Content-Type : " + value) && PlainLine("Content-Type : " + value)
  {
    hide *;
    var line := "Content-Type : " + value;
    SpacedDescribesNothing(value);
    SpacedName(value);
    SpacedIsLine(value);
    NameTrims();
    SameName("Content-Type");
    OnePieceHides(line);
  }

  lemma SpacedIsLine(value: string)
    requires OneLine(value)
    ensures PlainLine("Content-Type : " + value) && NoChar("Content-Type : " + value, '\n')
    ensures !NoChar("Content-Type : " + value, ':')
  {
    assert ("Content-Type : " + value)[13] == ':';
  }

  lemma SameName(name: string)
    ensures EqIgnoreCase(name, name)
  {
  }

  lemma OnePieceHides(line: string)
    requires PlainLine(line) && NoChar(line, '\n') && !NoChar(line, ':') && !DescribesBody(line)
    requires EqIgnoreCase(Trim(HeaderName(line)), "Content-Type")
    ensures Hides(line)
  {
    hide DescribesBody, HeaderName, Trim, EqIgnoreCase;
  }

  lemma SpacedLines(value: string)
    requires OneLine(value)
    ensures CrlfLines("Content-Type : " + value) == ["Content-Type : " + value]
    ensures Head(Kept(["Content-Type : " + value])) == "" + ("Content-Type : " + value) + "\r\n"
  {
    hide *;
    SpacedIsLine(value);
    OneCrlfLine("Content-Type : " + value);
    SpacedDescribesNothing(value);
    KeepsOne("Content-Type : " + value);
  }

  lemma OneCrlfLine(line: string)
    requires PlainLine(line)
    ensures CrlfLines(line) == [line]
  {
    OneLineLacks(line, "\r\n");
    hide Find;
  }

  lemma KeepsOne(line: string)
    requires !DescribesBody(line)
    ensures Head(Kept([line])) == "" + line + "\r\n"
  {
    hide DescribesBody;
    KeptHead([line]);
    assert [line][1..] == [];
    assert Kept([]) == [] && Head([]) == "";
  }

  lemma SpacedHeaders(value: string)
    requires Trimmed(value) && OneLine(value)
    ensures Get(KeptHeaders("Content-Type : " + value), "Content-Type") == value
    ensures Get(KeptHeaders("Content-Type : " + value), "Content-Transfer-Encoding") == ""
  {
    hide *;
    var line := "Content-Type : " + value;
    SpacedLines(value);
    SpacedEntry(value);
    SpacedHides(value);
    KeptHeadersIs(line);
    EmptyEndsLine();
    ParsesLast("", line);
    ParsesEmpty([]);
    assert [] + EntryOf(line) == EntryOf(line);
    GetOnly(value);
  }

  lemma EmptyEndsLine()
    ensures EndsLine("")
  {
  }

  lemma SpacedEntry(value: string)
    requires Trimmed(value)
    ensures EntryOf("Content-Type : " + value) == [("Content-Type", value)]
  {
    hide *;
    SpacedName(value);
    EntryFrom("Content-Type : " + value, "Content-Type ", " " + value);
    TrimsTo(value);
    NameTrims();
  }

  lemma NameTrims()
    ensures Trim("Content-Type ") == "Content-Type"
  {
    assert "Content-Type "[..12] == "Content-Type";
  }
}
