/**
 Heads as they come, folded or not: one more line at the end of a head is read as one more
 header, and nothing else changes.
 */
module Heads {
  import opened Wrappers
  import opened Text
  import opened Search
  import opened Mime
  import opened MimePrinted

  // ---- the blank line ------------------------------------------------------------------------------

  lemma CrlfAt(data: string, j: nat)
    ensures OccursAt(data, "\r\n", j) <==> j + 2 <= |data| && data[j] == '\r' && data[j + 1] == '\n'
  {
    if j + 2 <= |data| {
      assert data[j..j + 2] == [data[j], data[j + 1]];
    }
  }

  lemma BlankAt(data: string, j: nat)
    ensures OccursAt(data, "\r\n\r\n", j) <==>
              && j + 4 <= |data|
              && data[j] == '\r' && data[j + 1] == '\n' && data[j + 2] == '\r' && data[j + 3] == '\n'
  {
    if j + 4 <= |data| {
      assert data[j..j + 4] == [data[j], data[j + 1], data[j + 2], data[j + 3]];
    }
  }

  ghost predicate EndsLine(h: string) {
    h == "" || (|h| >= 2 && h[|h| - 2] == '\r' && h[|h| - 1] == '\n')
  }

  lemma NoBlankBefore(h: string, rest: string, j: nat)
    requires Lacks(h, "\r\n\r\n") && EndsLine(h) && rest != "" && !IsEol(rest[0]) && j < |h|
    ensures !OccursAt(h + rest, "\r\n\r\n", j)
  {
    hide Find, OccursAt;
    BlankAt(h + rest, j);
    BlankAt(h, j);
  }

  lemma BlankLater(h: string, rest: string)
    requires Lacks(h, "\r\n\r\n") && EndsLine(h) && rest != "" && !IsEol(rest[0])
    ensures Find(h + rest, "\r\n\r\n") == Shift(Find(rest, "\r\n\r\n"), |h|)
  {
    hide Find, OccursAt, EndsLine, Lacks;
    forall j | 0 <= j < |h| ensures !OccursAt(h + rest, "\r\n\r\n", j) {
      NoBlankBefore(h, rest, j);
    }
    FindPast(h, rest, "\r\n\r\n");
  }

  lemma BlankBehind(line: string, body: string)
    requires PlainLine(line)
    ensures Find(line + "\r\n" + ("\r\n" + body), "\r\n\r\n") == Some(|line|)
    ensures line + "\r\n" + ("\r\n" + body) != "" && !IsEol((line + "\r\n" + ("\r\n" + body))[0])
  {
    hide Find;
    BlankAfterLine(line, "\r\n" + body);
  }

  lemma Regroup4(a: string, b: string, c: string, d: string)
    ensures a + (b + c + d) == a + b + c + d
  {
  }

  lemma ShiftSome(i: nat, k: nat)
    ensures Shift(Some(i), k) == Some(k + i)
  {
  }

  /** One more line after such a head, and the blank line is right behind it. */
  lemma BlankAfterLast(h: string, line: string, body: string)
    requires Lacks(h, "\r\n\r\n") && EndsLine(h) && PlainLine(line)
    ensures Find(h + line + "\r\n" + ("\r\n" + body), "\r\n\r\n") == Some(|h| + |line|)
  {
    hide *;
    BlankBehind(line, body);
    BlankLater(h, line + "\r\n" + ("\r\n" + body));
    ShiftSome(|line|, |h|);
    Regroup4(h, line, "\r\n", "\r\n" + body);
  }

  lemma ParsesEmpty(entries: Headers)
    ensures ParseLines(entries, "") == entries
  {
  }

  /** One more line of any kind, at the end of a head. */
  lemma ParsesOneMore(h: string, line: string)
    requires EndsLine(h) && OneLine(line)
    ensures ParseLines([], h + line + "\r\n") == AddLine(ParseLines([], h), line + "\r")
  {
    hide ParseLines, AddLine;
    var printed := line + "\r";
    assert NoChar(printed, '\n');
    if h == "" {
      assert h + line + "\r\n" == printed + "\n" + "";
      ParsesEmpty([]);
      ParsesLine([], printed, "");
      ParsesEmpty(AddLine([], printed));
    } else {
      var g := h[..|h| - 1];
      assert h == g + "\n" + "" && h + line + "\r\n" == g + "\n" + (printed + "\n" + "");
      var entries := ParseLines([], g);
      ParsesOn([], g, "");
      ParsesEmpty(entries);
      ParsesOn([], g, printed + "\n" + "");
      ParsesLine(entries, printed, "");
      ParsesEmpty(AddLine(entries, printed));
    }
  }

  /** What is read of it: the headers there were, and the new one. */
  lemma ParsesLast(h: string, line: string)
    requires EndsLine(h) && PlainLine(line)
    ensures ParseLines([], h + line + "\r\n") == ParseLines([], h) + EntryOf(line)
  {
    ParsesOneMore(h, line);
    AddsPrinted(ParseLines([], h), line);
    hide ParseLines, AddLine, EntryOf;
  }

  lemma SplitsAt(raw: string, i: nat)
    requires Find(raw, "\r\n\r\n") == Some(i)
    ensures i + 4 <= |raw| && SplitMessage(raw) == Some((ParseLines([], raw[..i + 2]), raw[i + 4..]))
  {
    hide Find, ParseLines;
  }

  lemma CutsBehind(head: string, body: string)
    ensures var data := head + "\r\n" + ("\r\n" + body);
            data[..|head| + 2] == head + "\r\n" && data[|head| + 4..] == body
  {
  }

  lemma ReadsWithLast(h: string, line: string, body: string)
    requires Lacks(h, "\r\n\r\n") && EndsLine(h) && PlainLine(line)
    ensures SplitMessage(h + line + "\r\n" + ("\r\n" + body)) == Some((ParseLines([], h) + EntryOf(line), body))
  {
    hide *;
    BlankAfterLast(h, line, body);
    SplitsAt(h + line + "\r\n" + ("\r\n" + body), |h| + |line|);
    CutsBehind(h + line, body);
    ParsesLast(h, line);
  }

  // ---- one more header ---------------------------------------------------------------------------------------

  /** A header line goes in just before the blank line; a message without one is left alone. */
  function InsertHeader(raw: string, header: string): string {
    match Find(raw, "\r\n\r\n")
    case None => raw
    case Some(i) => raw[..i + 2] + header + raw[i + 2..]
  }

  /** In any message at all the inserted header is read as the last one, and nothing else changes. */
  lemma InsertedIsLast(raw: string, line: string)
    requires PlainLine(line) && Find(raw, "\r\n\r\n").Some?
    ensures var before := SplitMessage(raw);
            && before.Some?
            && SplitMessage(InsertHeader(raw, line + "\r\n")) == Some((before.value.0 + EntryOf(line), before.value.1))
  {
    var i := Find(raw, "\r\n\r\n").value;
    var h, body := raw[..i + 2], raw[i + 4..];
    AtBlank(raw, i);
    assert InsertHeader(raw, line + "\r\n") == h + line + "\r\n" + ("\r\n" + body);
    hide *;
    ReadsWithLast(h, line, body);
    SplitsAt(raw, i);
  }

  lemma CrlfNext(raw: string, k: nat)
    requires k + 2 <= |raw| && raw[k] == '\r' && raw[k + 1] == '\n'
    ensures raw[k..] == "\r\n" + raw[k + 2..] && EndsLine(raw[..k + 2])
  {
  }

  lemma AtBlank(raw: string, i: nat)
    requires Find(raw, "\r\n\r\n") == Some(i)
    ensures i + 4 <= |raw| && raw[i + 2..] == "\r\n" + raw[i + 4..]
    ensures Lacks(raw[..i + 2], "\r\n\r\n") && EndsLine(raw[..i + 2])
  {
    hide *;
    BlankFound(raw, i);
    CrlfNext(raw, i);
    CrlfNext(raw, i + 2);
    FirstBlank(raw, i);
  }

  lemma BlankFound(raw: string, i: nat)
    requires Find(raw, "\r\n\r\n") == Some(i)
    ensures i + 4 <= |raw|
    ensures raw[i] == '\r' && raw[i + 1] == '\n' && raw[i + 2] == '\r' && raw[i + 3] == '\n'
  {
    hide Find, OccursAt;
    BlankAt(raw, i);
  }

  lemma FirstBlank(raw: string, i: nat)
    requires Find(raw, "\r\n\r\n") == Some(i)
    ensures i + 2 <= |raw| && Lacks(raw[..i + 2], "\r\n\r\n")
  {
    hide Find, OccursAt;
    var h := raw[..i + 2];
    assert h + raw[i + 2..] == raw;
    if Find(h, "\r\n\r\n").Some? {
      var j := Find(h, "\r\n\r\n").value;
      OccursInHead(h, raw[i + 2..], "\r\n\r\n", j);
    }
  }

  // ---- folded headers -------------------------------------------------------------------------------------

  /** A continuation: white space, at least a blank or a tab, and the text that is carried on. */
  datatype Fold = Fold(lead: string, text: string)

  predicate IsFold(c: Fold) {
    && c.lead != "" && (c.lead[0] == ' ' || c.lead[0] == '\t') && AllSpace(c.lead) && OneLine(c.lead)
    && OneLine(c.text) && (c.text != "" ==> !IsSpace(c.text[0]))
  }

  ghost predicate AllFolds(conts: seq<Fold>) {
    forall i :: 0 <= i < |conts| ==> IsFold(conts[i])
  }

  function FoldLines(conts: seq<Fold>): seq<string> {
    if conts == [] then [] else [conts[0].lead + conts[0].text] + FoldLines(conts[1..])
  }

  /** The carried texts, each after one blank. */
  function Unfolded(conts: seq<Fold>): string {
    if conts == [] then "" else " " + conts[0].text + Unfolded(conts[1..])
  }

  predicate Continues(line: string) {
    line != "" && (line[0] == ' ' || line[0] == '\t')
  }

  lemma AddsContinuation(entries: Headers, line: string)
    requires OneLine(line) && Continues(line) && entries != []
    ensures var (k, v) := entries[|entries| - 1];
            AddLine(entries, line + "\r") == entries[..|entries| - 1] + [(k, v + " " + TrimStart(line))]
  {
    hide *;
    StripsCr(line);
    ContinuesLast(entries, line + "\r", line);
  }

  lemma StripsCr(line: string)
    ensures StripSuffixChar(line + "\r", '\r') == line
  {
  }

  lemma ContinuesLast(entries: Headers, raw: string, line: string)
    requires StripSuffixChar(raw, '\r') == line && Continues(line) && entries != []
    ensures var (k, v) := entries[|entries| - 1];
            AddLine(entries, raw) == entries[..|entries| - 1] + [(k, v + " " + TrimStart(line))]
  {
    hide StripSuffixChar, TrimStart, Trim, SplitOnce;
  }

  lemma FoldContinues(c: Fold)
    requires IsFold(c)
    ensures Continues(c.lead + c.text) && TrimStart(c.lead + c.text) == c.text
  {
    assert (c.lead + c.text)[0] == c.lead[0];
    TrimStartPast(c.lead, c.text);
    hide TrimStart;
  }

  lemma AddsFold(entries: Headers, c: Fold)
    requires entries != [] && IsFold(c)
    ensures var (k, v) := entries[|entries| - 1];
            AddLine(entries, c.lead + c.text + "\r") == entries[..|entries| - 1] + [(k, v + " " + c.text)]
  {
    hide *;
    FoldIsOneLine(c);
    FoldContinues(c);
    AddsContinuation(entries, c.lead + c.text);
  }

  lemma SplitsLine(entries: Headers, line: string, rest: string)
    requires OneLine(line)
    ensures ParseLines(entries, line + "\r\n" + rest) == ParseLines(AddLine(entries, line + "\r"), rest)
  {
    ParsesLine(entries, line + "\r", rest);
    assert line + "\r" + "\n" + rest == line + "\r\n" + rest;
    hide ParseLines, AddLine;
  }

  lemma HeadSplits(line: string, lines: seq<string>, rest: string)
    ensures Head([line] + lines) + rest == line + "\r\n" + (Head(lines) + rest)
  {
    assert ([line] + lines)[1..] == lines;
  }

  lemma FoldIsOneLine(c: Fold)
    requires IsFold(c)
    ensures OneLine(c.lead + c.text)
  {
    hide IsSpace;
  }

  lemma NoFolds()
    ensures FoldLines([]) == [] && Unfolded([]) == "" && Head([]) == ""
  {
  }

  lemma FirstFold(conts: seq<Fold>)
    requires conts != [] && AllFolds(conts)
    ensures FoldLines(conts) == [conts[0].lead + conts[0].text] + FoldLines(conts[1..])
    ensures Unfolded(conts) == " " + conts[0].text + Unfolded(conts[1..])
    ensures IsFold(conts[0]) && AllFolds(conts[1..])
  {
    hide IsFold;
  }

  lemma LastValue(before: Headers, name: string, value: string)
    ensures var h := before + [(name, value)]; h != [] && h[..|h| - 1] == before && h[|h| - 1] == (name, value)
  {
  }

  lemma {:induction false} ReadsFolds(before: Headers, name: string, value: string, conts: seq<Fold>, rest: string)
    requires AllFolds(conts)
    ensures ParseLines(before + [(name, value)], Head(FoldLines(conts)) + rest)
         == ParseLines(before + [(name, value + Unfolded(conts))], rest)
    decreases |conts|
  {
    hide *;
    if conts == [] {
      NoFolds();
      assert "" + rest == rest && value + "" == value;
    } else {
      var c := conts[0];
      FirstFold(conts);
      FoldIsOneLine(c);
      HeadSplits(c.lead + c.text, FoldLines(conts[1..]), rest);
      SplitsLine(before + [(name, value)], c.lead + c.text, Head(FoldLines(conts[1..])) + rest);
      LastValue(before, name, value);
      AddsFold(before + [(name, value)], c);
      ReadsFolds(before, name, value + " " + c.text, conts[1..], rest);
      assert value + " " + c.text + Unfolded(conts[1..]) == value + (" " + c.text + Unfolded(conts[1..]));
    }
  }

  predicate PlainName(name: string) {
    name != "" && NoChar(name, ':') && OneLine(name) && Trimmed(name)
  }

  lemma HeaderIsPlainLine(name: string, value: string)
    requires PlainName(name) && OneLine(value)
    ensures PlainLine(HeaderLine(name, value))
  {
    assert HeaderLine(name, value)[0] == name[0];
    assert !IsSpace(name[0]);
  }

  lemma PlainNameIs(name: string)
    requires PlainName(name)
    ensures NoChar(name, ':') && Trimmed(name)
  {
  }

  /**
   Unfolding (section 2.2.3 of RFC 5322): a header printed over several lines is read as one, its
   continuations joined to the value by single blanks; what is read before and after is as ever.
   */
  lemma ReadsFoldedHeader(before: Headers, name: string, value: string, conts: seq<Fold>, rest: string)
    requires PlainName(name) && OneLine(value) && Trimmed(value) && AllFolds(conts)
    ensures ParseLines(before, Head([HeaderLine(name, value)] + FoldLines(conts)) + rest)
         == ParseLines(before + [(name, value + Unfolded(conts))], rest)
  {
    hide *;
    var line := HeaderLine(name, value);
    HeaderIsPlainLine(name, value);
    PlainLineIs(line);
    PlainNameIs(name);
    HeadSplits(line, FoldLines(conts), rest);
    SplitsLine(before, line, Head(FoldLines(conts)) + rest);
    AddsPrinted(before, line);
    EntryOfHeader(name, value);
    ReadsFolds(before, name, value, conts, rest);
  }

  lemma PlainLineIs(line: string)
    requires PlainLine(line)
    ensures OneLine(line)
  {
  }

  /** A boundary on a line of its own is found: the folded Content-Type reads as the unfolded one. */
  lemma FindsFoldedBoundary(lead: string, boundary: string, rest: string)
    requires IsFold(Fold(lead, "boundary=\"" + boundary + "\"")) && PlainBoundary(boundary)
    ensures var head := Head([HeaderLine("Content-Type", "multipart/mixed;")]
                             + FoldLines([Fold(lead, "boundary=\"" + boundary + "\"")]));
            var value := "multipart/mixed; boundary=\"" + boundary + "\"";
            && ParseLines([], head + rest) == ParseLines([("Content-Type", value)], rest)
            && ParseMediaType(value) == Some(MediaType("multipart/mixed", map["boundary" := boundary]))
  {
    hide *;
    var c := Fold(lead, "boundary=\"" + boundary + "\"");
    OneFold(c);
    MixedPieces(boundary);
    ReadsFoldedHeader([], "Content-Type", "multipart/mixed;", [c], rest);
    MixedParses(boundary);
    assert [] + [("Content-Type", "multipart/mixed; boundary=\"" + boundary + "\"")]
        == [("Content-Type", "multipart/mixed; boundary=\"" + boundary + "\"")];
  }

  lemma OneFold(c: Fold)
    requires IsFold(c)
    ensures AllFolds([c]) && Unfolded([c]) == " " + c.text
  {
    hide IsFold;
    assert [c][1..] == [];
    assert " " + c.text + "" == " " + c.text;
  }

  lemma MixedPieces(boundary: string)
    ensures PlainName("Content-Type") && OneLine("multipart/mixed;") && Trimmed("multipart/mixed;")
    ensures "multipart/mixed;" + (" " + ("boundary=\"" + boundary + "\"")) == "multipart/mixed; boundary=\"" + boundary + "\""
  {
  }

  lemma MixedParses(boundary: string)
    requires PlainBoundary(boundary)
    ensures ParseMediaType("multipart/mixed; boundary=\"" + boundary + "\"")
         == Some(MediaType("multipart/mixed", map["boundary" := boundary]))
  {
    hide *;
    MixedIsPrinted(boundary);
    BoundaryIsParam(boundary);
    ParsesMedia("multipart/mixed", [("boundary", boundary)]);
  }

  lemma MixedIsPrinted(boundary: string)
    ensures Printed("multipart/mixed", [("boundary", boundary)]) == "multipart/mixed; boundary=\"" + boundary + "\""
    ensures Mapped(map[], [("boundary", boundary)]) == map["boundary" := boundary]
  {
    var p := ("boundary", boundary);
    assert [p][1..] == [];
    assert Params([p]) == ";" + Quoted(p) + "";
    assert Mapped(map[], [p]) == Mapped(map["boundary" := boundary], []);
  }

  lemma BoundaryIsParam(boundary: string)
    requires PlainBoundary(boundary)
    ensures PlainMedia("multipart/mixed") && PlainParams([("boundary", boundary)])
  {
    assert ToLower("multipart/mixed") == "multipart/mixed" && ToLower("boundary") == "boundary";
  }
}
