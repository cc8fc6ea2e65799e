/**
 The DATA payload on the wire: dot-stuffing and the lone-dot terminator
 (section 4.5.2 of RFC 5321), written by the client and undone by the server.
 */
module SmtpData {
  import opened Wrappers
  import opened Text
  import opened SmtpServer

  // ---- the sender -------------------------------------------------------------

  ghost function Stuffed(raw: string, atLineStart: bool): string {
    if raw == "" then ""
    else (if atLineStart && raw[0] == '.' then "." else "") + [raw[0]] + Stuffed(raw[1..], raw[0] == '\n')
  }

  /** Escape a leading dot on every line. */
  method DotStuff(raw: string) returns (out: string)
    ensures out == Stuffed(raw, true)
  {
    out := "";
    var atLineStart := true;
    assert raw[0..] == raw;
    for i := 0 to |raw|
      invariant Stuffed(raw, true) == out + Stuffed(raw[i..], atLineStart)
    {
      StuffedStep(raw, i, atLineStart, out);
      if atLineStart && raw[i] == '.' {
        out := out + ".";
      }
      out := out + [raw[i]];
      atLineStart := raw[i] == '\n';
    }
    assert raw[|raw|..] == "";
  }

  lemma StuffedStep(raw: string, i: nat, atLineStart: bool, out: string)
    requires i < |raw|
    ensures out + Stuffed(raw[i..], atLineStart)
         == (if atLineStart && raw[i] == '.' then out + "." else out) + [raw[i]]
          + Stuffed(raw[i + 1..], raw[i] == '\n')
  {
    assert raw[i..][1..] == raw[i + 1..];
    var dot := if atLineStart && raw[i] == '.' then "." else "";
    assert out + (dot + [raw[i]] + Stuffed(raw[i + 1..], raw[i] == '\n'))
        == (out + dot) + [raw[i]] + Stuffed(raw[i + 1..], raw[i] == '\n');
    assert out + "" == out;
  }

  predicate EndsInLf(raw: string) {
    raw != "" && raw[|raw| - 1] == '\n'
  }

  /** What goes over the wire after the 354. */
  ghost function Framed(raw: string): string {
    Stuffed(raw, true) + (if EndsInLf(raw) then "" else "\r\n") + ".\r\n"
  }

  // ---- what arrives ------------------------------------------------------------

  /** Every LF that no CR precedes becomes CRLF. */
  ghost function FullLines(raw: string, afterCr: bool): string {
    if raw == "" then ""
    else (if raw[0] == '\n' && !afterCr then "\r\n" else [raw[0]]) + FullLines(raw[1..], raw[0] == '\r')
  }

  /** The message with CRLF line endings, the last one included. */
  ghost function Normalised(raw: string): string {
    FullLines(raw, false) + if EndsInLf(raw) then "" else "\r\n"
  }

  /** A message in CRLF form is its own normal form. */
  lemma {:induction false} FullLinesOfCrlf(raw: string, afterCr: bool)
    requires raw != "" && raw[0] == '\n' ==> afterCr
    requires forall i :: 1 <= i < |raw| && raw[i] == '\n' ==> raw[i - 1] == '\r'
    ensures FullLines(raw, afterCr) == raw
  {
    if raw != "" {
      assert |raw| > 1 && raw[1] == '\n' ==> raw[1 - 1] == '\r';
      FullLinesOfCrlf(raw[1..], raw[0] == '\r');
      assert raw == [raw[0]] + raw[1..];
    }
  }

  lemma NormalisedOfCrlf(raw: string)
    requires EndsInLf(raw) && raw[0] != '\n'
    requires forall i :: 1 <= i < |raw| && raw[i] == '\n' ==> raw[i - 1] == '\r'
    ensures Normalised(raw) == raw
  {
    FullLinesOfCrlf(raw, false);
  }

  // ---- line by line --------------------------------------------------------------

  function LineStuffed(l: string): string {
    if l != "" && l[0] == '.' then "." + l else l
  }

  lemma Regroup(c: string, a: string, b: string, s: string)
    ensures c + (a + b + s) == (c + a) + b + s
  {
  }

  lemma Uncons(l: string, t: string)
    requires l != ""
    ensures l == [l[0]] + l[1..] && (l + "\n" + t)[0] == l[0] && (l + "\n" + t)[1..] == l[1..] + "\n" + t
  {
  }

  /** Inside a line nothing is stuffed. */
  lemma {:induction false} StuffedInside(l: string, t: string)
    requires NoChar(l, '\n')
    ensures Stuffed(l + "\n" + t, false) == l + "\n" + Stuffed(t, true)
    ensures Stuffed(l, false) == l
  {
    if l == "" {
      assert l + "\n" + t == "\n" + t;
      assert ("\n" + t)[1..] == t;
    } else {
      StuffedInside(l[1..], t);
      Uncons(l, t);
      Regroup([l[0]], l[1..], "\n", Stuffed(t, true));
    }
  }

  lemma StuffedLine(l: string, t: string)
    requires NoChar(l, '\n')
    ensures Stuffed(l + "\n" + t, true) == LineStuffed(l) + "\n" + Stuffed(t, true)
    ensures Stuffed(l, true) == LineStuffed(l)
  {
    StuffedInside(l, t);
    if l == "" {
      assert l + "\n" + t == "\n" + t;
      assert ("\n" + t)[1..] == t;
    } else if l[0] == '.' {
      Uncons(l, t);
      DotFirst(l + "\n" + t);
      DotFirst(l);
      Regroup(".", l, "\n", Stuffed(t, true));
    } else {
      Uncons(l, t);
    }
  }

  lemma DotFirst(s: string)
    requires s != "" && s[0] == '.'
    ensures Stuffed(s, true) == "." + Stuffed(s, false)
  {
    assert "." + [s[0]] + Stuffed(s[1..], false) == "." + ([s[0]] + Stuffed(s[1..], false));
  }

  function EndsInCr(l: string, afterCr: bool): bool {
    if l == "" then afterCr else l[|l| - 1] == '\r'
  }

  lemma {:induction false} FullLine(l: string, t: string, afterCr: bool)
    requires NoChar(l, '\n')
    ensures FullLines(l + "\n" + t, afterCr)
         == l + (if EndsInCr(l, afterCr) then "\n" else "\r\n") + FullLines(t, false)
    ensures FullLines(l, afterCr) == l
  {
    if l == "" {
      assert l + "\n" + t == "\n" + t;
      assert ("\n" + t)[1..] == t;
    } else {
      FullLine(l[1..], t, l[0] == '\r');
      Uncons(l, t);
      Regroup([l[0]], l[1..], if EndsInCr(l, afterCr) then "\n" else "\r\n", FullLines(t, false));
    }
  }

  /** A complete line as it arrives. */
  function LineNormalised(l: string): string {
    l + if EndsInCr(l, false) then "\n" else "\r\n"
  }

  /** A stuffed line is never the terminator, and unstuffing gives it back. */
  lemma UnstuffLine(l: string)
    requires NoChar(l, '\n')
    ensures Body(LineStuffed(l) + "\n") != "."
    ensures Unstuff(LineStuffed(l) + "\n") == LineNormalised(l)
  {
    var s := LineStuffed(l);
    assert StripSuffixChar(s + "\n", '\n') == s;
    if EndsInCr(l, false) {
      assert s[..|s| - 1] == LineStuffed(l[..|l| - 1]);
      assert l == l[..|l| - 1] + "\r";
    }
  }

  lemma UnstuffLast(l: string)
    requires NoChar(l, '\n')
    ensures Body(LineStuffed(l) + "\r\n") != "."
    ensures Unstuff(LineStuffed(l) + "\r\n") == l + "\r\n"
  {
    var s := LineStuffed(l);
    assert StripSuffixChar(s + "\r\n", '\n') == s + "\r";
    assert StripSuffixChar(s + "\r", '\r') == s;
  }

  /** What remains to be written once some lines are out. */
  ghost function FramedTail(t: string): string {
    if t == "" then ".\r\n" else Framed(t)
  }

  ghost function NormalisedTail(t: string): string {
    if t == "" then "" else Normalised(t)
  }

  lemma EndOfLines(l: string, t: string)
    ensures EndsInLf(l + "\n" + t) <==> t == "" || EndsInLf(t)
  {
    var raw := l + "\n" + t;
    assert raw[|raw| - 1] == if t == "" then '\n' else t[|t| - 1];
  }

  lemma FramedLine(l: string, t: string)
    requires NoChar(l, '\n')
    ensures Framed(l + "\n" + t) == LineStuffed(l) + "\n" + FramedTail(t)
  {
    StuffedLine(l, t);
    EndOfLines(l, t);
    var fill := if t == "" || EndsInLf(t) then "" else "\r\n";
    assert LineStuffed(l) + "\n" + Stuffed(t, true) + fill + ".\r\n"
        == LineStuffed(l) + "\n" + (Stuffed(t, true) + fill + ".\r\n");
    if t == "" {
      assert "" + "" + ".\r\n" == ".\r\n";
    }
  }

  lemma NormalisedLine(l: string, t: string)
    requires NoChar(l, '\n')
    ensures Normalised(l + "\n" + t)
         == LineNormalised(l) + NormalisedTail(t)
  {
    FullLine(l, t, false);
    EndOfLines(l, t);
    var eol := if EndsInCr(l, false) then "\n" else "\r\n";
    var fill := if t == "" || EndsInLf(t) then "" else "\r\n";
    assert l + eol + FullLines(t, false) + fill == l + eol + (FullLines(t, false) + fill);
  }

  lemma FramedLast(l: string)
    requires NoChar(l, '\n')
    ensures Framed(l) == LineStuffed(l) + "\r\n" + ".\r\n"
    ensures Normalised(l) == l + "\r\n"
  {
    StuffedLine(l, "");
    FullLine(l, "", false);
  }

  // ---- the framing theorem ----------------------------------------------------------

  /** One complete line off the front of the stream. */
  lemma NextLineOf(l: string, rest: string)
    requires NoChar(l, '\n')
    ensures NextLine(l + "\n" + rest) == (l + "\n", rest)
  {
    var input := l + "\n" + rest;
    FindCharAt(l, '\n', rest);
    assert input[..|l| + 1] == l + "\n" && input[|l| + 1..] == rest;
  }

  lemma LineStuffedIsOneLine(l: string)
    requires NoChar(l, '\n')
    ensures NoChar(LineStuffed(l), '\n')
  {
  }

  lemma ReadOneLine(l: string, rest: string, out: string)
    requires NoChar(l, '\n')
    ensures ReadPayload(LineStuffed(l) + "\n" + rest, out)
         == ReadPayload(rest, out + LineNormalised(l))
  {
    LineStuffedIsOneLine(l);
    NextLineOf(LineStuffed(l), rest);
    UnstuffLine(l);
  }

  lemma ReadLastLine(l: string, rest: string, out: string)
    requires NoChar(l, '\n')
    ensures ReadPayload(LineStuffed(l) + "\r\n" + rest, out) == ReadPayload(rest, out + (l + "\r\n"))
  {
    LineStuffedIsOneLine(l);
    NextLineOf(LineStuffed(l) + "\r", rest);
    assert LineStuffed(l) + "\r" + "\n" == LineStuffed(l) + "\r\n";
    UnstuffLast(l);
  }

  lemma ReadTerminator(rest: string, out: string)
    ensures ReadPayload(".\r\n" + rest, out) == (out, rest)
  {
    NextLineOf(".\r", rest);
    assert ".\r" + "\n" == ".\r\n";
    assert StripSuffixChar(".\r\n", '\n') == ".\r";
    assert StripSuffixChar(".\r", '\r') == ".";
  }

  lemma SplitAtLf(raw: string)
    ensures match FindChar(raw, '\n')
            case None => NoChar(raw, '\n')
            case Some(i) => raw == raw[..i] + "\n" + raw[i + 1..] && NoChar(raw[..i], '\n')
  {
  }

  /**
   The payload reader consumes exactly the frame, whatever follows it, and gives
   back the message with CRLF line endings.
   */
  lemma {:induction false} ReadFramed(raw: string, rest: string, out: string)
    ensures ReadPayload(Framed(raw) + rest, out) == (out + Normalised(raw), rest)
    decreases |raw|
  {
    SplitAtLf(raw);
    match FindChar(raw, '\n')
    case None =>
      FramedLast(raw);
      Assoc3(LineStuffed(raw), "\r\n", ".\r\n", rest);
      ReadLastLine(raw, ".\r\n" + rest, out);
      ReadTerminator(rest, out + (raw + "\r\n"));
    case Some(i) =>
      var l, t := raw[..i], raw[i + 1..];
      FramedLine(l, t);
      NormalisedLine(l, t);
      Assoc3(LineStuffed(l), "\n", FramedTail(t), rest);
      ReadOneLine(l, FramedTail(t) + rest, out);
      if t == "" {
        ReadTerminator(rest, out + LineNormalised(l));
        assert LineNormalised(l) + "" == LineNormalised(l);
      } else {
        ReadFramed(t, rest, out + LineNormalised(l));
        Assoc2(out, LineNormalised(l), Normalised(t));
      }
  }

  lemma Assoc2(a: string, b: string, c: string)
    ensures (a + b) + c == a + (b + c)
  {
  }

  lemma Assoc3(a: string, b: string, c: string, d: string)
    ensures (a + b + c) + d == a + b + (c + d)
  {
  }

  /** The same for the machine: the frame ends the payload and nothing else happens. */
  lemma {:induction false} FeedFramed(cfg: Config, accepts: Accepts, m: Server, raw: string)
    requires m.mode.Payload? && m.partial == ""
    ensures Feed(cfg, accepts, m, Framed(raw))
         == EndPayload(m.(mode := Payload(m.mode.raw + Normalised(raw))))
    decreases |raw|
  {
    hide React;
    var p := m.mode.raw;
    SplitAtLf(raw);
    match FindChar(raw, '\n')
    case None =>
      FramedLast(raw);
      FeedLastLine(cfg, accepts, m, raw);
      FeedAppend(cfg, accepts, m, LineStuffed(raw) + "\r\n", ".\r\n");
      FeedTerminator(cfg, accepts, m.(mode := Payload(p + (raw + "\r\n"))));
    case Some(i) =>
      var l, t := raw[..i], raw[i + 1..];
      var m' := m.(mode := Payload(p + LineNormalised(l)));
      FramedLine(l, t);
      NormalisedLine(l, t);
      FeedOneLine(cfg, accepts, m, l);
      FeedAppend(cfg, accepts, m, LineStuffed(l) + "\n", FramedTail(t));
      if t == "" {
        FeedTerminator(cfg, accepts, m');
        assert LineNormalised(l) + "" == LineNormalised(l);
      } else {
        FeedFramed(cfg, accepts, m', t);
        Assoc2(p, LineNormalised(l), Normalised(t));
      }
  }

  lemma FeedOneLine(cfg: Config, accepts: Accepts, m: Server, l: string)
    requires m.mode.Payload? && m.partial == "" && NoChar(l, '\n')
    ensures Feed(cfg, accepts, m, LineStuffed(l) + "\n")
         == m.(mode := Payload(m.mode.raw + LineNormalised(l)))
  {
    LineStuffedIsOneLine(l);
    FeedLine(cfg, accepts, m, LineStuffed(l));
    UnstuffLine(l);
  }

  lemma FeedLastLine(cfg: Config, accepts: Accepts, m: Server, l: string)
    requires m.mode.Payload? && m.partial == "" && NoChar(l, '\n')
    ensures Feed(cfg, accepts, m, LineStuffed(l) + "\r\n") == m.(mode := Payload(m.mode.raw + (l + "\r\n")))
  {
    LineStuffedIsOneLine(l);
    FeedLine(cfg, accepts, m, LineStuffed(l) + "\r");
    assert LineStuffed(l) + "\r" + "\n" == LineStuffed(l) + "\r\n";
    UnstuffLast(l);
  }

  lemma FeedTerminator(cfg: Config, accepts: Accepts, m: Server)
    requires m.mode.Payload? && m.partial == ""
    ensures Feed(cfg, accepts, m, ".\r\n") == EndPayload(m)
  {
    FeedLine(cfg, accepts, m, ".\r");
    assert ".\r" + "\n" == ".\r\n";
    assert StripSuffixChar(".\r\n", '\n') == ".\r";
    assert StripSuffixChar(".\r", '\r') == ".";
  }
}
