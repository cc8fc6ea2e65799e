/**
 Printed MIME reads back: header lines, quoted parameters, and the parts between
 delimiters, as the two printers of the relay lay them out.
 */
module MimePrinted {
  import opened Wrappers
  import opened Text
  import opened Search
  import opened Mime

  // ---- header lines -------------------------------------------------------------------------------

  /** Lines, each with its CRLF. */
  ghost function Head(lines: seq<string>): string {
    if lines == [] then "" else lines[0] + "\r\n" + Head(lines[1..])
  }

  /** A line of its own: neither empty nor the continuation of another. */
  predicate PlainLine(l: string) {
    OneLine(l) && l != "" && l[0] != ' ' && l[0] != '\t'
  }

  ghost predicate AllPlain(lines: seq<string>) {
    forall i :: 0 <= i < |lines| ==> PlainLine(lines[i])
  }

  function EntryOf(l: string): Headers {
    match SplitOnce(l, ':') case None => [] case Some(pair) => [(Trim(pair.0), Trim(pair.1))]
  }

  function Entries(lines: seq<string>): Headers {
    if lines == [] then [] else EntryOf(lines[0]) + Entries(lines[1..])
  }

  lemma StartsCrlf(rest: string)
    ensures "\r\n" <= rest <==> |rest| >= 2 && rest[0] == '\r' && rest[1] == '\n'
  {
  }

  predicate NoCrlf(s: string) {
    forall i :: 0 <= i < |s| - 1 ==> s[i] != '\r' || s[i + 1] != '\n'
  }

  /** The blank line is right after a line, or somewhere further on. */
  lemma BlankAfterLine(l: string, rest: string)
    requires NoCrlf(l)
    ensures Find(l + "\r\n" + rest, "\r\n\r\n") == if "\r\n" <= rest then Some(|l|) else Shift(Find(rest, "\r\n\r\n"), |l| + 2)
  {
    hide Find;
    var h := l + "\r\n" + rest;
    StartsCrlf(rest);
    forall j | 0 <= j < |l| ensures !OccursAt(h, "\r\n\r\n", j) {
      if OccursAt(h, "\r\n\r\n", j) {
        OccursChars(h, "\r\n\r\n", j, 0);
        OccursChars(h, "\r\n\r\n", j, 1);
      }
    }
    if "\r\n" <= rest {
      assert h[|l|..|l| + 4] == "\r\n\r\n";
      FindIs(h, "\r\n\r\n", |l|);
    } else {
      if OccursAt(h, "\r\n\r\n", |l|) {
        OccursChars(h, "\r\n\r\n", |l|, 2);
        OccursChars(h, "\r\n\r\n", |l|, 3);
      }
      if OccursAt(h, "\r\n\r\n", |l| + 1) {
        OccursChars(h, "\r\n\r\n", |l| + 1, 0);
      }
      FindPast(l + "\r\n", rest, "\r\n\r\n");
    }
  }

  lemma {:induction false} BlankAfterHead(lines: seq<string>, body: string)
    requires lines != [] && AllPlain(lines)
    ensures |Head(lines)| >= 2
    ensures Find(Head(lines) + "\r\n" + body, "\r\n\r\n") == Some(|Head(lines)| - 2)
  {
    hide Find;
    var l, rest := lines[0], Head(lines[1..]) + "\r\n" + body;
    assert Head(lines) + "\r\n" + body == l + "\r\n" + rest;
    BlankAfterLine(l, rest);
    StartsCrlf(rest);
    if |lines| == 1 {
      assert rest == "\r\n" + body;
    } else {
      BlankAfterHead(lines[1..], body);
      assert PlainLine(lines[1]) && rest[0] == lines[1][0];
    }
  }

  lemma SplitsHead(lines: seq<string>, body: string)
    requires lines != [] && AllPlain(lines)
    ensures SplitHeadBody(Head(lines) + "\r\n" + body) == Some((Head(lines), body))
  {
    hide Find;
    BlankAfterHead(lines, body);
    var data := Head(lines) + "\r\n" + body;
    assert data[..|Head(lines)|] == Head(lines) && data[|Head(lines)| + 2..] == body;
  }

  lemma AddsPrinted(entries: Headers, l: string)
    requires PlainLine(l)
    ensures AddLine(entries, l + "\r") == entries + EntryOf(l)
  {
    assert StripSuffixChar(l + "\r", '\r') == l;
    hide Trim;
  }

  lemma ParsesLine(entries: Headers, line: string, rest: string)
    requires NoChar(line, '\n')
    ensures ParseLines(entries, line + "\n" + rest) == ParseLines(AddLine(entries, line), rest)
  {
    var text := line + "\n" + rest;
    FindCharAt(line, '\n', rest);
    assert text[..|line|] == line && text[|line| + 1..] == rest;
    hide AddLine, FindChar;
  }

  /** Reading a text is reading it up to a newline, and then the rest. */
  lemma {:induction false} ParsesOn(entries: Headers, a: string, b: string)
    ensures ParseLines(entries, a + "\n" + b) == ParseLines(ParseLines(entries, a), b)
    decreases |a|
  {
    match FindChar(a, '\n')
    case None =>
      ParsesLine(entries, a, b);
    case Some(i) =>
      var first, rest := a[..i], a[i + 1..];
      assert a + "\n" + b == first + "\n" + (rest + "\n" + b);
      ParsesLine(entries, first, rest + "\n" + b);
      ParsesOn(AddLine(entries, first), rest, b);
  }

  lemma HeadStep(lines: seq<string>)
    requires lines != [] && AllPlain(lines)
    ensures Head(lines) == lines[0] + "\r" + "\n" + Head(lines[1..])
    ensures PlainLine(lines[0]) && NoChar(lines[0] + "\r", '\n') && AllPlain(lines[1..])
  {
    assert lines[0] + "\r" + "\n" == lines[0] + "\r\n";
  }

  lemma EmptyHead(entries: Headers)
    ensures ParseLines(entries, Head([])) == entries + Entries([])
  {
  }

  lemma {:induction false} ParsesHead(entries: Headers, lines: seq<string>)
    requires AllPlain(lines)
    ensures ParseLines(entries, Head(lines)) == entries + Entries(lines)
    decreases |lines|
  {
    hide *;
    if lines == [] {
      EmptyHead(entries);
    } else {
      var l, rest := lines[0], Head(lines[1..]);
      HeadStep(lines);
      AddsPrinted(entries, l);
      ParsesLine(entries, l + "\r", rest);
      ParsesHead(entries + EntryOf(l), lines[1..]);
      RegroupHeaders(entries, EntryOf(l), Entries(lines[1..]));
      EntriesStep(lines);
    }
  }

  lemma EntriesStep(lines: seq<string>)
    requires lines != []
    ensures Entries(lines) == EntryOf(lines[0]) + Entries(lines[1..])
  {
    hide EntryOf;
  }

  lemma RegroupHeaders(a: Headers, b: Headers, c: Headers)
    ensures a + (b + c) == a + b + c
  {
  }

  /** A printed head and a blank line: the headers come back, and so does the body. */
  lemma ParsesMessage(lines: seq<string>, body: string)
    requires lines != [] && AllPlain(lines)
    ensures SplitMessage(Head(lines) + "\r\n" + body) == Some((Entries(lines), body))
  {
    SplitsHead(lines, body);
    ParsesHead([], lines);
    assert [] + Entries(lines) == Entries(lines);
    hide SplitHeadBody, ParseLines, Entries;
  }

  // ---- looking headers up ----------------------------------------------------------------------------

  function HeaderLine(name: string, value: string): string {
    name + ": " + value
  }

  predicate Trimmed(s: string) {
    s != "" ==> !IsSpace(s[0]) && !IsSpace(s[|s| - 1])
  }

  lemma TrimSpaceFirst(s: string)
    ensures Trim(" " + s) == Trim(s)
  {
    assert (" " + s)[1..] == s;
  }

  lemma EntryOfHeader(name: string, value: string)
    requires NoChar(name, ':') && Trimmed(name) && Trimmed(value)
    ensures EntryOf(HeaderLine(name, value)) == [(name, value)]
  {
    hide *;
    HeaderSplits(name, value);
    EntryFrom(HeaderLine(name, value), name, " " + value);
    TrimsTo(name);
    TrimsTo(value);
  }

  lemma EntryFrom(l: string, name: string, value: string)
    requires SplitOnce(l, ':') == Some((name, value))
    ensures EntryOf(l) == [(Trim(name), Trim(value))]
  {
    hide SplitOnce, Trim;
  }

  lemma HeaderSplits(name: string, value: string)
    requires NoChar(name, ':')
    ensures SplitOnce(HeaderLine(name, value), ':') == Some((name, " " + value))
  {
    SplitOnceAt(name, ':', " " + value);
    assert name + [':'] + (" " + value) == HeaderLine(name, value);
    hide SplitOnce;
  }

  lemma TrimsTo(s: string)
    requires Trimmed(s)
    ensures Trim(s) == s && Trim(" " + s) == s
  {
    TrimIdentity(s);
    TrimSpaceFirst(s);
    hide Trim;
  }

  predicate Without(headers: Headers, name: string) {
    forall i :: 0 <= i < |headers| ==> !EqIgnoreCase(headers[i].0, name)
  }

  lemma {:induction false} GetPast(a: Headers, b: Headers, name: string)
    requires Without(a, name)
    ensures Get(a + b, name) == Get(b, name)
  {
    hide EqIgnoreCase;
    if a == [] {
      assert a + b == b;
    } else {
      assert (a + b)[1..] == a[1..] + b;
      GetPast(a[1..], b, name);
    }
  }

  lemma GetHere(name: string, value: string, b: Headers)
    ensures Get([(name, value)] + b, name) == value
  {
  }

  lemma GetNext(k: string, v: string, b: Headers, name: string)
    requires !EqIgnoreCase(k, name)
    ensures Get([(k, v)] + b, name) == Get(b, name)
  {
    assert ([(k, v)] + b)[1..] == b;
    hide EqIgnoreCase;
  }

  // ---- parameters -------------------------------------------------------------------------------------

  type Param = (string, string)

  function Quoted(p: Param): string {
    " " + p.0 + "=\"" + p.1 + "\""
  }

  ghost function Params(params: seq<Param>): string {
    if params == [] then "" else ";" + Quoted(params[0]) + Params(params[1..])
  }

  ghost function Printed(media: string, params: seq<Param>): string {
    media + Params(params)
  }

  predicate PlainParam(p: Param) {
    && p.0 != "" && NoChar(p.0, '"') && NoChar(p.0, ';') && NoChar(p.0, '=') && Trimmed(p.0) && ToLower(p.0) == p.0
    && NoChar(p.1, '"')
  }

  ghost predicate PlainParams(params: seq<Param>) {
    forall i :: 0 <= i < |params| ==> PlainParam(params[i])
  }

  lemma {:induction false} PlainRun(w: string, rest: string, current: string, quoted: bool)
    requires NoChar(w, '"') && (quoted || NoChar(w, ';'))
    ensures SplitFrom(w + rest, current, quoted) == SplitFrom(rest, current + w, quoted)
    decreases |w|
  {
    if w == "" {
      assert w + rest == rest && current + w == current;
    } else {
      assert (w + rest)[1..] == w[1..] + rest;
      PlainRun(w[1..], rest, current + [w[0]], quoted);
      assert current + [w[0]] + w[1..] == current + w;
    }
  }

  lemma QuoteStep(rest: string, current: string, quoted: bool)
    ensures SplitFrom("\"" + rest, current, quoted) == SplitFrom(rest, current + "\"", !quoted)
  {
    assert ("\"" + rest)[1..] == rest;
  }

  /** One quoted parameter is read as one piece. */
  lemma ReadsQuoted(p: Param, rest: string)
    requires PlainParam(p)
    ensures SplitFrom(Quoted(p) + rest, "", false) == SplitFrom(rest, Quoted(p), false)
  {
    var key := " " + p.0 + "=";
    assert NoChar(key, '"') && NoChar(key, ';');
    assert Quoted(p) + rest == key + ("\"" + (p.1 + ("\"" + rest)));
    hide SplitFrom;
    PlainRun(key, "\"" + (p.1 + ("\"" + rest)), "", false);
    assert "" + key == key;
    QuoteStep(p.1 + ("\"" + rest), key, false);
    PlainRun(p.1, "\"" + rest, key + "\"", true);
    QuoteStep(rest, key + "\"" + p.1, true);
    assert key + "\"" + p.1 + "\"" == Quoted(p);
  }

  ghost function AllQuoted(params: seq<Param>): seq<string> {
    if params == [] then [] else [Quoted(params[0])] + AllQuoted(params[1..])
  }

  lemma {:induction false} ReadsParams(params: seq<Param>)
    requires params != [] && PlainParams(params)
    ensures SplitFrom(Params(params)[1..], "", false) == AllQuoted(params)
  {
    hide *;
    ParamsStep(params);
    ReadsQuoted(params[0], Params(params[1..]));
    if |params| == 1 {
      LastPiece(params);
    } else {
      ReadsParams(params[1..]);
      NextPiece(Quoted(params[0]), Params(params[1..]));
      assert params[1..] != [];
    }
  }

  lemma ParamsStep(params: seq<Param>)
    requires params != [] && PlainParams(params)
    ensures PlainParam(params[0]) && PlainParams(params[1..])
    ensures |Params(params)| >= 1 && Params(params)[1..] == Quoted(params[0]) + Params(params[1..])
    ensures AllQuoted(params) == [Quoted(params[0])] + AllQuoted(params[1..])
    ensures |params| > 1 ==> |Params(params[1..])| >= 1 && Params(params[1..])[0] == ';'
  {
    hide PlainParam, Quoted;
    assert ";" + Quoted(params[0]) + Params(params[1..]) == ";" + (Quoted(params[0]) + Params(params[1..]));
  }

  lemma LastPiece(params: seq<Param>)
    requires |params| == 1
    ensures SplitFrom(Params(params[1..]), Quoted(params[0]), false) == [Quoted(params[0])]
    ensures AllQuoted(params[1..]) == []
  {
    assert params[1..] == [];
  }

  lemma NextPiece(piece: string, rest: string)
    requires rest != "" && rest[0] == ';'
    ensures SplitFrom(rest, piece, false) == [piece] + SplitFrom(rest[1..], "", false)
  {
  }

  /** The parameters as a map; a later one replaces an earlier. */
  ghost function Mapped(start: map<string, string>, params: seq<Param>): map<string, string>
    decreases |params|
  {
    if params == [] then start else Mapped(start[params[0].0 := params[0].1], params[1..])
  }

  lemma AddsQuoted(m: map<string, string>, p: Param)
    requires PlainParam(p)
    ensures AddParam(m, Quoted(p)) == m[p.0 := p.1]
  {
    hide *;
    PlainKey(p);
    QuotedSplits(p);
    AddParamFrom(m, Quoted(p), " " + p.0, "\"" + p.1 + "\"");
    TrimsTo(p.0);
    QuotesTrim(p.1);
  }

  lemma PlainKey(p: Param)
    requires PlainParam(p)
    ensures Trimmed(p.0) && ToLower(p.0) == p.0
  {
    hide Trimmed, ToLower, NoChar;
  }

  lemma AddParamFrom(m: map<string, string>, param: string, key: string, value: string)
    requires SplitOnce(param, '=') == Some((key, value))
    ensures AddParam(m, param) == m[ToLower(Trim(key)) := Unquote(Trim(value))]
  {
    hide SplitOnce, Trim, ToLower, Unquote;
  }

  lemma QuotedSplits(p: Param)
    requires PlainParam(p)
    ensures SplitOnce(Quoted(p), '=') == Some((" " + p.0, "\"" + p.1 + "\""))
  {
    hide SplitOnce, ToLower, Trimmed;
    var key, value := " " + p.0, "\"" + p.1 + "\"";
    assert key + ['='] + value == Quoted(p);
    SplitOnceAt(key, '=', value);
  }

  lemma QuotesTrim(v: string)
    ensures Trim("\"" + v + "\"") == "\"" + v + "\"" && Unquote("\"" + v + "\"") == v
  {
    TrimIdentity("\"" + v + "\"");
    hide Trim;
  }

  lemma {:induction false} AddParamsFront(m: map<string, string>, first: string, rest: seq<string>)
    ensures AddParams(m, [first] + rest) == AddParams(AddParam(m, first), rest)
    decreases |rest|
  {
    hide AddParam;
    if rest == [] {
      assert [first] + rest == [first] && [first][..0] == [];
    } else {
      var init := rest[..|rest| - 1];
      AddParamsFront(m, first, init);
      assert ([first] + rest)[..|rest|] == [first] + init;
    }
  }

  lemma {:induction false} AddsAll(m: map<string, string>, params: seq<Param>)
    requires PlainParams(params)
    ensures AddParams(m, AllQuoted(params)) == Mapped(m, params)
    decreases |params|
  {
    if params != [] {
      assert PlainParam(params[0]);
      AddsQuoted(m, params[0]);
      AddParamsFront(m, Quoted(params[0]), AllQuoted(params[1..]));
      hide AddParam, Quoted, AddParams;
      AddsAll(m[params[0].0 := params[0].1], params[1..]);
    }
  }

  /** What can stand between quotes as a boundary, on one line. */
  predicate PlainBoundary(boundary: string) {
    OneLine(boundary) && NoChar(boundary, '"')
  }

  predicate PlainMedia(media: string) {
    media != "" && Trimmed(media) && NoChar(media, ';') && ToLower(media) == media
  }

  lemma {:induction false} ParamsEnd(params: seq<Param>)
    requires params != []
    ensures Params(params) != "" && Params(params)[0] == ';' && Params(params)[|Params(params)| - 1] == '"'
  {
    if |params| > 1 {
      ParamsEnd(params[1..]);
    }
  }

  /** A printed media type reads back, parameters and all. */
  lemma ParsesMedia(media: string, params: seq<Param>)
    requires PlainMedia(media) && PlainParams(params)
    ensures ParseMediaType(Printed(media, params)) == Some(MediaType(media, Mapped(map[], params)))
  {
    var value := Printed(media, params);
    TrimIdentity(media);
    if params == [] {
      assert value == media;
      hide Trim, ToLower, Trimmed;
      assert SplitOnce(media, ';') == None;
      assert SplitFrom("", "", false) == [] && AddParams(map[], []) == map[];
    } else {
      ParamsEnd(params);
      TrimIdentity(value);
      ReadsParams(params);
      AddsAll(map[], params);
      assert value == media + [';'] + Params(params)[1..];
      SplitOnceAt(media, ';', Params(params)[1..]);
      hide Trim, ToLower, Trimmed, SplitFrom, AddParams, Params, SplitOnce;
    }
  }

  // ---- parts between delimiters ----------------------------------------------------------------------------

  /** The delimiters and texts, from the first delimiter to what follows the last. */
  ghost function PrintedParts(delim: string, texts: seq<string>, trailer: string): string {
    delim + PartsTail(delim, texts, trailer)
  }

  ghost function PartsTail(delim: string, texts: seq<string>, trailer: string): string {
    if texts == [] then "--" + trailer
    else "\r\n" + texts[0] + "\r\n" + delim + PartsTail(delim, texts[1..], trailer)
  }

  ghost function PartsIn(texts: seq<string>): seq<Part> {
    if texts == [] then [] else PartIn(texts[0]) + PartsIn(texts[1..])
  }

  ghost predicate AllLack(texts: seq<string>, delim: string)
    requires delim != ""
  {
    forall i :: 0 <= i < |texts| ==> Lacks(texts[i], delim)
  }

  lemma StripsEol(rest: string)
    ensures StripEol("\r\n" + rest) == rest && !IsClosing("\r\n" + rest)
  {
    assert ("\r\n" + rest)[2..] == rest;
    assert ("\r\n" + rest)[0] == '\r';
  }

  lemma TextBefore(text: string, rest: string)
    ensures PartText(text + "\r\n" + rest, |text| + 2) == text
  {
    var all := text + "\r\n" + rest;
    assert all[|text|..|text| + 2] == "\r\n";
    assert all[..|text|] == text;
  }

  lemma ShiftZero(k: nat)
    ensures Shift(Some(0), k) == Some(k)
  {
  }

  lemma ReadsOnePart(delim: string, text: string, tail: string)
    requires delim != "" && OneLine(delim) && Lacks(text, delim)
    ensures PartsAfter("\r\n" + text + "\r\n" + delim + tail, delim) == PartIn(text) + PartsAfter(tail, delim)
  {
    hide *;
    var line := text + "\r\n" + (delim + tail);
    assert "\r\n" + text + "\r\n" + delim + tail == "\r\n" + line;
    StripsEol(line);
    FindAfterLine(text, delim + tail, delim);
    FindHere(delim, tail);
    ShiftZero(|text| + 2);
    PartsStep("\r\n" + line, delim, |text| + 2);
    TextBefore(text, delim + tail);
    assert line[|text| + 2 + |delim|..] == tail;
  }

  lemma {:induction false} ReadsParts(delim: string, texts: seq<string>, trailer: string)
    requires delim != "" && OneLine(delim) && AllLack(texts, delim)
    ensures PartsAfter(PartsTail(delim, texts, trailer), delim) == PartsIn(texts)
  {
    if texts == [] {
      NoMoreParts("--" + trailer, delim);
    } else {
      assert Lacks(texts[0], delim);
      hide Find, PartsAfter, PartIn, OneLine;
      ReadsParts(delim, texts[1..], trailer);
      ReadsOnePart(delim, texts[0], PartsTail(delim, texts[1..], trailer));
    }
  }

  /** What is printed between delimiters that occur nowhere else is what is read. */
  lemma ReadsMultipart(boundary: string, texts: seq<string>, trailer: string)
    requires OneLine(boundary) && AllLack(texts, Delimiter(boundary))
    ensures PartsOf(PrintedParts(Delimiter(boundary), texts, trailer), boundary) == PartsIn(texts)
  {
    var delim := Delimiter(boundary);
    assert OneLine(delim);
    ReadsParts(delim, texts, trailer);
    hide Find, PartsAfter, PartsTail, OneLine, AllLack;
    var body := PrintedParts(delim, texts, trailer);
    FindHere(delim, PartsTail(delim, texts, trailer));
    assert body[0 + |delim|..] == PartsTail(delim, texts, trailer);
  }
}
