/**
 The outbound SMTP client, talking to the inbound server of the same relay.

 A `Wire` is one connection: the server machine on the far end, and how much of
 what it wrote the client has read.  The client's procedures write commands to it
 and read replies from it, one at a time.
 */
module SmtpClient {
  import opened Wrappers
  import opened Text
  import opened SmtpServer
  import opened SmtpData

  datatype SendError =
    | Eof
    | Rejected(command: string, reply: string)
    | Pipelined(count: nat)
    | HandshakeBegun

  // ---- the wire -----------------------------------------------------------------

  /** The far end, and the client's position in what it has written. */
  datatype Wire = Wire(server: Server, read: nat, sent: string)

  function Flatten(replies: seq<string>): string {
    if replies == [] then "" else Flatten(replies[..|replies| - 1]) + replies[|replies| - 1]
  }

  predicate InStep(w: Wire) {
    w.read <= |Flatten(w.server.replies)|
  }

  function Inbox(w: Wire): string
    requires InStep(w)
  {
    Flatten(w.server.replies)[w.read..]
  }

  function Write(cfg: Config, accepts: Accepts, w: Wire, bytes: string): Wire {
    Wire(Feed(cfg, accepts, w.server, bytes), w.read, w.sent + bytes)
  }

  /** A freshly accepted connection: the banner is waiting. */
  function Connect(cfg: Config): Wire {
    Wire(Start([Banner(cfg)]), 0, "")
  }

  /** The server only ever adds to what it has written. */
  lemma {:induction false} FlattenPrefix(a: seq<string>, b: seq<string>)
    requires a <= b
    ensures Flatten(a) <= Flatten(b)
    decreases |b|
  {
    if |a| < |b| {
      FlattenPrefix(a, b[..|b| - 1]);
    } else {
      assert a == b;
    }
  }

  lemma {:induction false} FeedOnlyAdds(cfg: Config, accepts: Accepts, m: Server, bytes: string)
    ensures m.replies <= Feed(cfg, accepts, m, bytes).replies
    decreases |bytes|
  {
    hide React;
    if bytes != "" && !m.mode.Closed? {
      var line := m.partial + [bytes[0]];
      if bytes[0] == '\n' {
        FeedOnlyAdds(cfg, accepts, TakeLine(cfg, accepts, m.(partial := ""), line), bytes[1..]);
      } else {
        FeedOnlyAdds(cfg, accepts, m.(partial := line), bytes[1..]);
      }
    }
  }

  lemma WriteInStep(cfg: Config, accepts: Accepts, w: Wire, bytes: string)
    requires InStep(w)
    ensures InStep(Write(cfg, accepts, w, bytes))
  {
    FeedOnlyAdds(cfg, accepts, w.server, bytes);
    FlattenPrefix(w.server.replies, Feed(cfg, accepts, w.server, bytes).replies);
  }

  // ---- reading a reply --------------------------------------------------------------

  /** A hyphen in the fourth column means more lines follow. */
  predicate Continues(line: string) {
    |line| > 3 && line[3] == '-'
  }

  /** The bytes of one reply at the front of the stream; None when it runs out. */
  function ReplyLength(inbox: string): Option<nat>
    decreases |inbox|
  {
    if inbox == "" then None
    else
      var (line, rest) := NextLine(inbox);
      if !Continues(line) then Some(|line|)
      else match ReplyLength(rest)
        case None => None
        case Some(n) => Some(|line| + n)
  }

  /** Reading lines until one ends the reply. */
  method TakeReply(inbox: string) returns (reply: Option<string>)
    ensures match ReplyLength(inbox)
            case None => reply == None
            case Some(n) => n <= |inbox| && reply == Some(inbox[..n])
  {
    hide *;
    ReplyOfNothing();
    var out := "";
    var rest := inbox;
    while rest != ""
      invariant |out| + |rest| == |inbox| && inbox[|out|..] == rest && inbox[..|out|] == out
      invariant ReplyLength(inbox) == Further(|out|, ReplyLength(rest))
      decreases |rest|
    {
      var (line, tail) := NextLine(rest);
      ReplyStep(rest);
      FurtherTwice(|out|, |line|, ReplyLength(tail));
      Advance(inbox, |out|, line, tail);
      out := out + line;
      rest := tail;
      if !Continues(line) {
        return Some(out);
      }
    }
    return None;
  }

  function Further(k: nat, n: Option<nat>): (r: Option<nat>)
    ensures n.None? ==> r == None
    ensures n.Some? ==> r == Some(k + n.value)
  {
    match n case None => None case Some(i) => Some(k + i)
  }

  lemma FurtherTwice(j: nat, k: nat, n: Option<nat>)
    ensures Further(j, Further(k, n)) == Further(j + k, n) && Further(0, n) == n
  {
  }

  lemma ReplyStep(inbox: string)
    requires inbox != ""
    ensures var (line, rest) := NextLine(inbox);
            ReplyLength(inbox) == if Continues(line) then Further(|line|, ReplyLength(rest)) else Some(|line|)
  {
    hide NextLine, Continues;
  }

  lemma ReplyOfNothing()
    ensures ReplyLength("") == None
  {
  }

  lemma Advance(s: string, n: nat, a: string, b: string)
    requires n <= |s| && s[n..] == a + b
    ensures s[..n + |a|] == s[..n] + a && s[n + |a|..] == b
  {
  }

  method ReadReply(w0: Wire) returns (w: Wire, reply: Option<string>)
    requires InStep(w0)
    ensures match ReplyLength(Inbox(w0))
            case None => reply == None && w == w0
            case Some(n) => n <= |Inbox(w0)| && reply == Some(Inbox(w0)[..n]) && w == w0.(read := w0.read + n)
    ensures InStep(w)
  {
    hide Flatten, ReplyLength;
    reply := TakeReply(Inbox(w0));
    w := if reply.None? then w0 else w0.(read := w0.read + |reply.value|);
  }

  predicate Positive(reply: string) {
    reply != "" && reply[0] == '2'
  }

  /** Any reply of the wanted class will do. */
  function Check(reply: Option<string>, want: char, what: string): Option<SendError> {
    if reply.None? then Some(Eof)
    else
      var got := if reply.value == "" then '5' else reply.value[0];
      if got == want then None else Some(Rejected(what, TrimEnd(reply.value)))
  }

  // ---- what an EHLO reply advertises ---------------------------------------------------

  predicate Mentions(line: string, keyword: string) {
    var rest := if |line| > 4 then line[4..] else "";
    var word := FirstWord(TrimStart(rest));
    word != "" && EqIgnoreCase(word, keyword)
  }

  predicate Advertises(ehlo: string, keyword: string)
    decreases |ehlo|
  {
    if ehlo == "" then false
    else
      var (line, rest) := NextLine(ehlo);
      Mentions(TrimEol(line), keyword) || Advertises(rest, keyword)
  }

  /** A command line, without its line ending. */
  function Command(verb: string, arg: string): string {
    verb + " " + arg
  }

  /** `FROM:<a@b>` or `TO:<a@b>`, with what follows. */
  function Bracketed(prefix: string, addr: string, params: string): string {
    prefix + ("<" + (addr + ">" + params))
  }

  function MailFrom(from: string, ehlo: string): string {
    Command("MAIL", Bracketed("FROM:", from, MailParams(ehlo)))
  }

  function MailParams(ehlo: string): string {
    (if Advertises(ehlo, "8BITMIME") then " BODY=8BITMIME" else "")
    + (if Advertises(ehlo, "SMTPUTF8") then " SMTPUTF8" else "")
  }

  // ---- one command, one reply -----------------------------------------------------------

  /** Nothing half sent and nothing unread. */
  predicate Settled(w: Wire) {
    w.server.partial == "" && w.read == |Flatten(w.server.replies)|
  }

  predicate WholeReply(reply: string) {
    ReplyLength(reply) == Some(|reply|)
  }

  lemma FlattenSnoc(replies: seq<string>, r: string)
    ensures Flatten(replies + [r]) == Flatten(replies) + r
  {
    assert (replies + [r])[..|replies|] == replies;
  }

  /** The connection after a reply has been written and read. */
  function Answered(w: Wire, server: Server, bytes: string): Wire {
    Wire(server, |Flatten(server.replies)|, w.sent + bytes)
  }

  /** Writing a command makes its reply, and only that, readable. */
  lemma Ask(cfg: Config, accepts: Accepts, w: Wire, text: string, reply: string)
    requires Settled(w) && w.server.mode.Commands? && NoChar(text, '\n')
    requires var s := TakeCommand(cfg, accepts, w.server, text + "\r\n");
             s.replies == w.server.replies + [reply]
    requires WholeReply(reply)
    ensures var w' := Write(cfg, accepts, w, text + "\r\n");
            && w'.server == TakeCommand(cfg, accepts, w.server, text + "\r\n")
            && InStep(w') && Inbox(w') == reply && ReplyLength(Inbox(w')) == Some(|reply|)
            && w'.(read := w'.read + |reply|) == Answered(w, w'.server, text + "\r\n")
  {
    hide TakeCommand;
    FeedLine(cfg, accepts, w.server, text + "\r");
    assert text + "\r" + "\n" == text + "\r\n";
    FlattenSnoc(w.server.replies, reply);
  }

  lemma ReplyIsWhole(code: string, text: string)
    requires |code| == 3 && NoChar(code, '\n') && NoChar(text, '\n')
    ensures WholeReply(Reply(code, text)) && Reply(code, text)[0] == code[0]
  {
    var r := Reply(code, text);
    var line := code + " " + text + "\r";
    assert r == line + "\n" + "";
    assert r[3] == ' ';
    FindCharAt(line, '\n', "");
    assert line + "\n" == r;
  }

  /** The first line of a reply, and the rest of it. */
  lemma FirstReplyLine(line: string, rest: string)
    requires NoChar(line, '\n')
    ensures line + "\r\n" + rest != "" && NextLine(line + "\r\n" + rest) == (line + "\r\n", rest)
  {
    NextLineOf(line + "\r", rest);
    assert line + "\r" + "\n" == line + "\r\n";
  }

  lemma CapabilitiesAreWords(cfg: Config)
    ensures forall i :: 0 <= i < |Capabilities(cfg)| ==> Word(Capabilities(cfg)[i])
  {
    assert Word("PIPELINING") && Word("8BITMIME") && Word("ENHANCEDSTATUSCODES") && Word("CHUNKING");
    assert Word("STARTTLS") && Word("SMTPUTF8") && Word("SIZE");
  }

  predicate Word(s: string) {
    s != "" && forall i :: 0 <= i < |s| ==> !IsSpace(s[i])
  }

  lemma {:induction false} CapabilityLinesWhole(caps: seq<string>)
    requires caps != [] && forall i :: 0 <= i < |caps| ==> Word(caps[i])
    ensures WholeReply(CapabilityLines(caps))
  {
    hide *;
    WordHasNoLf(caps[0]);
    if |caps| == 1 {
      LastCapability(caps);
    } else {
      TailWords(caps);
      CapabilityLinesWhole(caps[1..]);
      MoreCapabilities(caps);
    }
  }

  lemma TailWords(caps: seq<string>)
    requires caps != [] && forall i :: 0 <= i < |caps| ==> Word(caps[i])
    ensures forall i :: 0 <= i < |caps[1..]| ==> Word(caps[1..][i])
  {
    hide Word;
  }

  lemma WordHasNoLf(w: string)
    requires Word(w)
    ensures NoChar(w, '\n')
  {
  }

  lemma LastCapability(caps: seq<string>)
    requires |caps| == 1 && NoChar(caps[0], '\n')
    ensures WholeReply(CapabilityLines(caps))
  {
    hide WholeReply;
    ReplyIsWhole("250", caps[0]);
    assert Reply("250", caps[0]) == "250 " + caps[0] + "\r\n";
  }

  lemma MoreCapabilities(caps: seq<string>)
    requires |caps| > 1 && NoChar(caps[0], '\n') && WholeReply(CapabilityLines(caps[1..]))
    ensures WholeReply(CapabilityLines(caps))
  {
    var line, rest := "250-" + caps[0], CapabilityLines(caps[1..]);
    assert CapabilityLines(caps) == line + "\r\n" + rest;
    hide CapabilityLines, ReplyLength;
    FirstReplyLine(line, rest);
    ReplyStep(line + "\r\n" + rest);
    assert (line + "\r\n")[3] == '-';
  }

  lemma EhloReplyIsWhole(cfg: Config, domain: string)
    requires NoChar(domain, '\n')
    ensures WholeReply(EhloReply(cfg, domain)) && Positive(EhloReply(cfg, domain))
  {
    hide Capabilities;
    CapabilitiesAreWords(cfg);
    var caps := CapabilityLines(Capabilities(cfg));
    CapabilityLinesWhole(Capabilities(cfg));
    FirstReplyLine("250-Hello " + domain, caps);
    assert ("250-Hello " + domain + "\r\n")[3] == '-';
  }

  // ---- advertisement ---------------------------------------------------------------------

  lemma {:induction false} FirstWordOf(word: string, rest: string)
    requires forall i :: 0 <= i < |word| ==> !IsSpace(word[i])
    requires rest != "" ==> IsSpace(rest[0])
    ensures FirstWord(word + rest) == word
  {
    if word == "" {
      assert word + rest == rest;
    } else {
      FirstWordOf(word[1..], rest);
      assert (word + rest)[1..] == word[1..] + rest;
    }
  }

  lemma MentionsFirstWord(code: string, word: string, rest: string, keyword: string)
    requires |code| == 4 && Word(word) && (rest != "" ==> IsSpace(rest[0]))
    ensures Mentions(code + word + rest, keyword) <==> EqIgnoreCase(word, keyword)
  {
    var line := code + word + rest;
    assert line[4..] == word + rest;
    assert (word + rest)[0] == word[0];
    FirstWordOf(word, rest);
  }

  predicate Listed(caps: seq<string>, keyword: string) {
    exists i :: 0 <= i < |caps| && EqIgnoreCase(caps[i], keyword)
  }

  lemma OneLineJoin(a: string, b: string)
    requires OneLine(a) && OneLine(b)
    ensures OneLine(a + b)
  {
  }

  lemma WordIsOneLine(w: string)
    requires Word(w)
    ensures OneLine(w)
  {
    forall i | 0 <= i < |w| ensures !IsEol(w[i]) {
      assert !IsSpace(w[i]);
    }
  }

  lemma CapabilityMentions(code: string, cap: string, keyword: string)
    requires code in {"250 ", "250-"} && Word(cap)
    ensures OneLine(code + cap)
    ensures Mentions(code + cap, keyword) <==> EqIgnoreCase(cap, keyword)
  {
    hide EqIgnoreCase;
    WordIsOneLine(cap);
    OneLineJoin(code, cap);
    MentionsFirstWord(code, cap, "", keyword);
    assert code + cap + "" == code + cap;
  }

  lemma HelloMentions(domain: string, keyword: string)
    requires OneLine(domain)
    ensures OneLine("250-Hello " + domain)
    ensures Mentions("250-Hello " + domain, keyword) <==> EqIgnoreCase("Hello", keyword)
  {
    hide EqIgnoreCase;
    OneLineJoin("250-Hello ", domain);
    MentionsFirstWord("250-", "Hello", " " + domain, keyword);
    assert "250-" + "Hello" + (" " + domain) == "250-Hello " + domain;
  }

  lemma AdvertiseStep(line: string, rest: string, keyword: string)
    requires OneLine(line)
    ensures Advertises(line + "\r\n" + rest, keyword) <==> Mentions(line, keyword) || Advertises(rest, keyword)
  {
    hide Mentions;
    FirstReplyLine(line, rest);
    TrimCrlf(line);
  }

  lemma ListedStep(caps: seq<string>, keyword: string)
    requires caps != []
    ensures Listed(caps, keyword) <==> EqIgnoreCase(caps[0], keyword) || Listed(caps[1..], keyword)
  {
    hide EqIgnoreCase;
    if Listed(caps, keyword) {
      var i :| 0 <= i < |caps| && EqIgnoreCase(caps[i], keyword);
      assert i > 0 ==> caps[1..][i - 1] == caps[i];
    }
    if Listed(caps[1..], keyword) {
      var i :| 0 <= i < |caps[1..]| && EqIgnoreCase(caps[1..][i], keyword);
      assert caps[i + 1] == caps[1..][i];
    }
  }

  lemma {:induction false} CapabilityLinesAdvertise(caps: seq<string>, keyword: string)
    requires forall i :: 0 <= i < |caps| ==> Word(caps[i])
    ensures Advertises(CapabilityLines(caps), keyword) <==> Listed(caps, keyword)
  {
    hide EqIgnoreCase, Mentions;
    if caps != [] {
      var code := if |caps| == 1 then "250 " else "250-";
      var rest := CapabilityLines(caps[1..]);
      assert CapabilityLines(caps) == code + caps[0] + "\r\n" + rest;
      CapabilityLinesAdvertise(caps[1..], keyword);
      CapabilityMentions(code, caps[0], keyword);
      AdvertiseStep(code + caps[0], rest, keyword);
      ListedStep(caps, keyword);
    }
  }

  /**
   An EHLO reply advertises exactly the listed capabilities, whatever the domain
   it echoes, bar the greeting word itself.
   */
  lemma EhloAdvertises(cfg: Config, domain: string, keyword: string)
    requires OneLine(domain)
    ensures Advertises(EhloReply(cfg, domain), keyword)
    <==> Listed(Capabilities(cfg), keyword) || EqIgnoreCase("Hello", keyword)
  {
    hide Capabilities, CapabilityLines, Advertises, Mentions, EqIgnoreCase, Listed;
    CapabilitiesAreWords(cfg);
    CapabilityLinesAdvertise(Capabilities(cfg), keyword);
    HelloMentions(domain, keyword);
    AdvertiseStep("250-Hello " + domain, CapabilityLines(Capabilities(cfg)), keyword);
  }

  lemma BitsAndUtf8(cfg: Config)
    ensures Listed(Capabilities(cfg), "8BITMIME") && !EqIgnoreCase("Hello", "8BITMIME") && !EqIgnoreCase("Hello", "SMTPUTF8")
    ensures Listed(Capabilities(cfg), "SMTPUTF8") <==> cfg.enableSmtputf8
  {
    assert Capabilities(cfg)[1] == "8BITMIME";
    assert |"Hello"| == 5 && |"8BITMIME"| == 8 && |"SMTPUTF8"| == 8;
    if !cfg.enableSmtputf8 {
      OnlyUtf8(cfg);
    } else {
      var k := if cfg.starttls then 5 else 4;
      assert Capabilities(cfg)[k] == "SMTPUTF8";
    }
  }

  lemma NotUtf8(word: string)
    requires word in ["PIPELINING", "8BITMIME", "ENHANCEDSTATUSCODES", "CHUNKING", "STARTTLS", "SIZE"]
    ensures !EqIgnoreCase(word, "SMTPUTF8")
  {
    assert ToLower("8BITMIME")[0] == '8' && ToLower("SMTPUTF8")[0] == 's';
    assert ToLower("STARTTLS")[1] == 't' && ToLower("SMTPUTF8")[1] == 'm';
  }

  lemma OnlyUtf8(cfg: Config)
    requires !cfg.enableSmtputf8
    ensures !Listed(Capabilities(cfg), "SMTPUTF8")
  {
    forall i | 0 <= i < |Capabilities(cfg)| ensures !EqIgnoreCase(Capabilities(cfg)[i], "SMTPUTF8") {
      NotUtf8(Capabilities(cfg)[i]);
    }
  }

  /** The MAIL line of a client that was greeted by this server, to the letter. */
  lemma MailLine(cfg: Config, domain: string, from: string)
    requires OneLine(domain)
    ensures MailFrom(from, EhloReply(cfg, domain))
         == "MAIL FROM:<" + from + "> BODY=8BITMIME" + if cfg.enableSmtputf8 then " SMTPUTF8" else ""
  {
    hide *;
    EhloAdvertises(cfg, domain, "8BITMIME");
    EhloAdvertises(cfg, domain, "SMTPUTF8");
    BitsAndUtf8(cfg);
    ParamsOf(EhloReply(cfg, domain), if cfg.enableSmtputf8 then " SMTPUTF8" else "");
    MailPieces(from, EhloReply(cfg, domain), if cfg.enableSmtputf8 then " SMTPUTF8" else "");
  }

  lemma ParamsOf(ehlo: string, utf8: string)
    requires Advertises(ehlo, "8BITMIME") && utf8 == if Advertises(ehlo, "SMTPUTF8") then " SMTPUTF8" else ""
    ensures MailParams(ehlo) == " BODY=8BITMIME" + utf8
  {
    hide Advertises;
  }

  lemma MailPieces(from: string, ehlo: string, utf8: string)
    requires MailParams(ehlo) == " BODY=8BITMIME" + utf8
    ensures MailFrom(from, ehlo) == "MAIL FROM:<" + from + "> BODY=8BITMIME" + utf8
  {
    hide MailParams, Advertises;
    assert "MAIL" + " " + ("FROM:" + ("<" + (from + ">" + (" BODY=8BITMIME" + utf8))))
        == "MAIL FROM:<" + from + "> BODY=8BITMIME" + utf8;
  }

  // ---- what the server makes of the client's commands ----------------------------------------

  lemma NotStartTls(line: string)
    requires |line| >= 8 && line[0] != 'S' && line[0] != 's'
    ensures !EqIgnoreCase(line[..8], "STARTTLS")
  {
    assert ToLower(line[..8])[0] == LowerChar(line[0]);
    assert ToLower("STARTTLS")[0] == 's';
  }

  /** A command with an argument, whatever the argument holds besides line ends. */
  lemma SplitVerb(verb: string, arg: string)
    requires |verb| == 4 && arg != "" && OneLine(arg)
    requires verb[0] != 'S' && verb[0] != 's'
    ensures SplitCommand(Command(verb, arg) + "\r\n") == Verb(ToUpper(verb), Trim(arg))
  {
    var line := Command(verb, arg);
    assert line[|line| - 1] == arg[|arg| - 1];
    TrimCrlf(line);
    assert line[..4] == verb && line[5..] == arg && line[4] == ' ';
    hide EqIgnoreCase, Trim;
    if |line| >= 8 {
      NotStartTls(line);
    }
  }

  lemma VerbsAreUpperCase()
    ensures ToUpper("EHLO") == "EHLO" && ToUpper("MAIL") == "MAIL" && ToUpper("RCPT") == "RCPT"
    ensures ToUpper("DATA") == "DATA" && ToUpper("QUIT") == "QUIT"
  {
  }

  lemma ServerEhlo(cfg: Config, accepts: Accepts, s: SessionState, host: string)
    requires host != "" && OneLine(host)
    ensures React(cfg, accepts, s, Command("EHLO", host) + "\r\n")
         == Reaction(SessionState(true, None, []), EhloReply(cfg, Trim(host)), More)
  {
    SplitVerb("EHLO", host);
    VerbsAreUpperCase();
    hide SplitCommand, Command, Trim, ToUpper, EhloReply, ReactMail, ReactRcpt, ReactData, Fixed;
  }

  /** Without a host name both greetings have a shape the server refuses. */
  lemma ServerNoHost(cfg: Config, accepts: Accepts, s: SessionState, verb: string)
    requires verb in {"EHLO", "HELO"}
    ensures React(cfg, accepts, s, Command(verb, "") + "\r\n")
         == Reaction(s, Reply("501", "5.5.2 Bad command"), CountError)
  {
    TrimCrlf(Command(verb, ""));
  }

  predicate PlainAddress(a: string) {
    OneLine(a) && NoChar(a, '>')
  }

  lemma TrimKeepsOneLine(s: string)
    requires OneLine(s)
    ensures OneLine(Trim(s))
  {
    var t := TrimStart(s);
    forall i | 0 <= i < |t| ensures !IsEol(t[i]) {
      assert t[i] == s[|s| - |t|..][i];
    }
  }

  lemma BracketedIsOneLine(prefix: string, addr: string, params: string)
    requires OneLine(prefix) && OneLine(addr) && OneLine(params)
    ensures OneLine(Bracketed(prefix, addr, params))
  {
    OneLineJoin(addr, ">");
    OneLineJoin(addr + ">", params);
    OneLineJoin("<", addr + ">" + params);
    OneLineJoin(prefix, "<" + (addr + ">" + params));
  }

  /** The ends of the argument are not spaces, so nothing is trimmed. */
  lemma BracketedTrim(prefix: string, addr: string, params: string)
    requires prefix in {"FROM:", "TO:"}
    requires params != "" ==> !IsSpace(params[|params| - 1])
    ensures Trim(Bracketed(prefix, addr, params)) == Bracketed(prefix, addr, params)
    ensures TrimStart(Bracketed(prefix, addr, params)) == Bracketed(prefix, addr, params)
  {
    var arg := Bracketed(prefix, addr, params);
    assert arg[0] == prefix[0];
    assert arg[|arg| - 1] == if params == "" then '>' else params[|params| - 1];
    TrimIdentity(arg);
  }

  lemma ParsePathOf(prefix: string, inner: string, addr: string, params: string)
    requires prefix in {"FROM:", "TO:"} && NoChar(addr, '>') && inner == addr + (">" + params)
    requires TrimStart(prefix + ("<" + inner)) == prefix + ("<" + inner)
    ensures ParsePath(prefix + ("<" + inner), prefix) == Some(addr)
  {
    hide *;
    ParsePathIs(prefix, inner);
    FindCharAt(addr, '>', params);
    assert addr + ['>'] + params == inner;
    assert inner[..|addr|] == addr;
  }

  /** After the prefix and a bracket, the address goes up to the next one. */
  lemma ParsePathIs(prefix: string, inner: string)
    requires TrimStart(prefix + ("<" + inner)) == prefix + ("<" + inner)
    ensures ParsePath(prefix + ("<" + inner), prefix)
         == match FindChar(inner, '>') case None => None case Some(end) => Some(inner[..end])
  {
    hide ToLower, FirstWord, TrimStart, FindChar;
    var arg, path := prefix + ("<" + inner), "<" + inner;
    assert arg[..|prefix|] == prefix && arg[|prefix|..] == path;
    assert path[1..] == inner;
    assert TrimStart(path) == path;
  }

  lemma ParseBracketed(prefix: string, addr: string, params: string)
    requires prefix in {"FROM:", "TO:"} && NoChar(addr, '>')
    requires params != "" ==> !IsSpace(params[|params| - 1])
    ensures ParsePath(Bracketed(prefix, addr, params), prefix) == Some(addr)
  {
    BracketedTrim(prefix, addr, params);
    var inner := addr + ">" + params;
    assert inner == addr + (">" + params);
    ParsePathOf(prefix, inner, addr, params);
  }

  /** How the server reads a command whose argument is a bracketed address. */
  lemma ReadsBracketed(verb: string, prefix: string, addr: string, params: string)
    requires (verb == "MAIL" && prefix == "FROM:") || (verb == "RCPT" && prefix == "TO:")
    requires PlainAddress(addr) && OneLine(params)
    requires params != "" ==> !IsSpace(params[|params| - 1])
    ensures var arg := Bracketed(prefix, addr, params);
            && SplitCommand(Command(verb, arg) + "\r\n") == Verb(verb, arg)
            && ParsePath(arg, prefix) == Some(addr)
  {
    var arg := Bracketed(prefix, addr, params);
    BracketedIsOneLine(prefix, addr, params);
    BracketedTrim(prefix, addr, params);
    ParseBracketed(prefix, addr, params);
    assert arg != "";
    hide Bracketed, Command, SplitCommand, ParsePath, ToUpper, Trim, OneLine;
    VerbsAreUpperCase();
    SplitVerb(verb, arg);
  }

  /** MAIL and RCPT go to their own handlers. */
  lemma ReactsAs(cfg: Config, accepts: Accepts, s: SessionState, line: string, arg: string)
    ensures SplitCommand(line) == Verb("MAIL", arg) ==> React(cfg, accepts, s, line) == ReactMail(s, arg)
    ensures SplitCommand(line) == Verb("RCPT", arg) ==> React(cfg, accepts, s, line) == ReactRcpt(accepts, s, arg)
  {
    hide SplitCommand, ReactMail, ReactRcpt, ReactData, EhloReply, Fixed, Reply;
  }

  lemma AcceptsMail(s: SessionState, arg: string, from: string)
    requires s.greeted && ParsePath(arg, "FROM:") == Some(from)
    ensures ReactMail(s, arg) == Reaction(SessionState(true, Some(from), []), MailReply(from), More)
  {
    hide ParsePath, Reply;
  }

  lemma AcceptsRcpt(accepts: Accepts, s: SessionState, arg: string, addr: string)
    requires s.from.Some? && ParsePath(arg, "TO:") == Some(addr)
    ensures ReactRcpt(accepts, s, arg) == Reaction(AddRcpt(accepts, s, addr), RcptReply(addr), More)
  {
    hide ParsePath, Reply, ToLower;
  }

  function MailReply(from: string): string {
    Reply("250", "2.0.0 Roger, accepting mail from <" + from + ">")
  }

  function RcptReply(addr: string): string {
    Reply("250", "2.0.0 I'll make sure <" + addr + "> gets this")
  }

  function AddRcpt(accepts: Accepts, s: SessionState, addr: string): SessionState {
    if accepts(ToLower(addr)) then s.(rcpts := s.rcpts + [ToLower(addr)]) else s
  }

  lemma ServerMail(cfg: Config, accepts: Accepts, s: SessionState, from: string, params: string)
    requires s.greeted && PlainAddress(from) && OneLine(params)
    requires params != "" ==> !IsSpace(params[|params| - 1])
    ensures React(cfg, accepts, s, Command("MAIL", Bracketed("FROM:", from, params)) + "\r\n")
         == Reaction(SessionState(true, Some(from), []), MailReply(from), More)
  {
    hide *;
    var arg := Bracketed("FROM:", from, params);
    ReadsBracketed("MAIL", "FROM:", from, params);
    ReactsAs(cfg, accepts, s, Command("MAIL", arg) + "\r\n", arg);
    AcceptsMail(s, arg, from);
  }

  lemma ServerRcpt(cfg: Config, accepts: Accepts, s: SessionState, addr: string)
    requires s.from.Some? && PlainAddress(addr)
    ensures React(cfg, accepts, s, Command("RCPT", Bracketed("TO:", addr, "")) + "\r\n")
         == Reaction(AddRcpt(accepts, s, addr), RcptReply(addr), More)
  {
    hide *;
    var arg := Bracketed("TO:", addr, "");
    NoParams();
    ReadsBracketed("RCPT", "TO:", addr, "");
    ReactsAs(cfg, accepts, s, Command("RCPT", arg) + "\r\n", arg);
    AcceptsRcpt(accepts, s, arg, addr);
  }

  lemma NoParams()
    ensures OneLine("")
  {
  }

  lemma ServerBare(verb: string)
    requires verb in {"DATA", "QUIT"}
    ensures SplitCommand(verb + "\r\n") == Verb(verb, "")
  {
    TrimCrlf(verb);
    VerbsAreUpperCase();
  }

  lemma ServerStartTls(cfg: Config, accepts: Accepts, s: SessionState)
    requires cfg.starttls && !cfg.tlsAvailable
    ensures React(cfg, accepts, s, "STARTTLS" + "\r\n")
         == Reaction(s, Reply("454", "4.7.0 TLS not available on this connection"), More)
  {
    TrimCrlf("STARTTLS");
    assert "STARTTLS"[..8] == "STARTTLS";
  }

  // ---- the dialogue --------------------------------------------------------------------------

  /** The server is where the bytes sent so far have put it. */
  predicate Joined(cfg: Config, accepts: Accepts, w: Wire) {
    w.server == Feed(cfg, accepts, Start([Banner(cfg)]), w.sent)
  }

  lemma WriteJoined(cfg: Config, accepts: Accepts, w: Wire, bytes: string)
    requires Joined(cfg, accepts, w)
    ensures Joined(cfg, accepts, Write(cfg, accepts, w, bytes))
  {
    FeedAppend(cfg, accepts, Start([Banner(cfg)]), w.sent, bytes);
  }

  lemma ReadingKeepsJoined(cfg: Config, accepts: Accepts, w: Wire, w': Wire)
    requires Joined(cfg, accepts, w) && w' == w.(read := w'.read)
    ensures Joined(cfg, accepts, w')
  {
    hide Feed;
  }

  /** The part of the server a dialogue is about. */
  datatype Standing = Standing(state: SessionState, errors: nat, mode: Mode, deliveries: seq<Delivery>)

  function Stand(w: Wire): Standing {
    Standing(w.server.state, w.server.errors, w.server.mode, w.server.deliveries)
  }

  ghost predicate At(w: Wire, st: Standing) {
    Settled(w) && Stand(w) == st
  }

  /** The server, taking commands, gives this one reply to this line. */
  ghost predicate Replies(cfg: Config, accepts: Accepts, st: Standing, text: string, after: Standing, reply: string) {
    var r := React(cfg, accepts, st.state, text + "\r\n");
    && st.mode.Commands? && NoChar(text, '\n') && WholeReply(reply)
    && r.state == after.state && r.reply == reply && after.deliveries == st.deliveries
    && match r.next
       case More => after.mode == st.mode && after.errors == st.errors
       case CountError => after.mode == st.mode && after.errors == st.errors + 1 <= ERROR_THRESHOLD
       case AwaitPayload => after.mode == Payload("") && after.errors == st.errors
       case Hangup(outcome) => after.mode == Closed(outcome) && after.errors == st.errors
  }

  /** A reaction that leaves the server reading commands. */
  lemma RepliesMore(cfg: Config, accepts: Accepts, st: Standing, text: string, after: SessionState, reply: string)
    requires st.mode.Commands? && NoChar(text, '\n') && WholeReply(reply)
    requires React(cfg, accepts, st.state, text + "\r\n") == Reaction(after, reply, More)
    ensures Replies(cfg, accepts, st, text, st.(state := after), reply)
  {
    hide React, WholeReply, NoChar;
  }

  /** A reaction that leaves the session as it was and ends or pauses the commands, or counts an error. */
  lemma RepliesNext(cfg: Config, accepts: Accepts, st: Standing, text: string, reply: string, next: Next)
    requires st.mode.Commands? && NoChar(text, '\n') && WholeReply(reply)
    requires React(cfg, accepts, st.state, text + "\r\n") == Reaction(st.state, reply, next)
    ensures next.CountError? && st.errors < ERROR_THRESHOLD ==>
              Replies(cfg, accepts, st, text, st.(errors := st.errors + 1), reply)
    ensures next.AwaitPayload? ==> Replies(cfg, accepts, st, text, st.(mode := Payload("")), reply)
    ensures next.Hangup? ==> Replies(cfg, accepts, st, text, st.(mode := Closed(next.outcome)), reply)
  {
    hide React, WholeReply, NoChar;
  }

  lemma Answer(cfg: Config, accepts: Accepts, w: Wire, text: string, after: Standing, reply: string)
    requires Settled(w) && Replies(cfg, accepts, Stand(w), text, after, reply)
    ensures var w' := Write(cfg, accepts, w, text + "\r\n");
            && InStep(w') && Inbox(w') == reply && ReplyLength(Inbox(w')) == Some(|reply|)
            && At(w'.(read := w'.read + |reply|), after)
  {
    hide React, WholeReply;
    Ask(cfg, accepts, w, text, reply);
  }

  /** Write one command and read one reply. */
  method Say(cfg: Config, accepts: Accepts, w0: Wire, text: string) returns (w: Wire, reply: Option<string>)
    requires InStep(w0) && Joined(cfg, accepts, w0)
    ensures InStep(w) && Joined(cfg, accepts, w)
    ensures forall after, answer ::
              Settled(w0) && Replies(cfg, accepts, Stand(w0), text, after, answer) ==>
                reply == Some(answer) && At(w, after)
  {
    hide *;
    WriteInStep(cfg, accepts, w0, text + "\r\n");
    WriteJoined(cfg, accepts, w0, text + "\r\n");
    var w1 := Write(cfg, accepts, w0, text + "\r\n");
    w, reply := ReadReply(w1);
    ReadingKeepsJoined(cfg, accepts, w1, w);
    forall after, answer | Settled(w0) && Replies(cfg, accepts, Stand(w0), text, after, answer)
      ensures reply == Some(answer) && At(w, after)
    {
      Answer(cfg, accepts, w0, text, after, answer);
      assert Inbox(w1)[..|answer|] == answer;
    }
  }

  lemma CommandIsOneLine(verb: string, arg: string)
    requires |verb| == 4 && NoChar(verb, '\n') && OneLine(arg)
    ensures NoChar(Command(verb, arg), '\n')
  {
  }

  lemma EhloAnswered(cfg: Config, host: string)
    requires OneLine(host)
    ensures NoChar(Command("EHLO", host), '\n')
    ensures WholeReply(EhloReply(cfg, Trim(host))) && Positive(EhloReply(cfg, Trim(host)))
  {
    TrimKeepsOneLine(host);
    CommandIsOneLine("EHLO", host);
    EhloReplyIsWhole(cfg, Trim(host));
  }

  const GREETED := SessionState(true, None, [])

  lemma GreetedIs()
    ensures GREETED == SessionState(true, None, []) && ERROR_THRESHOLD == 3
  {
  }

  lemma RepliesToEhlo(cfg: Config, accepts: Accepts, st: Standing, host: string)
    requires st.mode.Commands? && host != "" && OneLine(host)
    ensures Replies(cfg, accepts, st, Command("EHLO", host), st.(state := GREETED), EhloReply(cfg, Trim(host)))
    ensures Positive(EhloReply(cfg, Trim(host)))
  {
    hide *;
    ServerEhlo(cfg, accepts, st.state, host);
    EhloAnswered(cfg, host);
    GreetedIs();
    RepliesMore(cfg, accepts, st, Command("EHLO", host), GREETED, EhloReply(cfg, Trim(host)));
  }

  const BAD_SHAPE := Reply("501", "5.5.2 Bad command")

  lemma RepliesToNoHost(cfg: Config, accepts: Accepts, st: Standing, verb: string)
    requires st.mode.Commands? && verb in {"EHLO", "HELO"} && st.errors < ERROR_THRESHOLD
    ensures Replies(cfg, accepts, st, Command(verb, ""), st.(errors := st.errors + 1), BAD_SHAPE)
    ensures !Positive(BAD_SHAPE) && Check(Some(BAD_SHAPE), '2', "EHLO") == Some(Rejected("EHLO", TrimEnd(BAD_SHAPE)))
  {
    hide *;
    ServerNoHost(cfg, accepts, st.state, verb);
    NoHostAnswered(verb);
    RepliesNext(cfg, accepts, st, Command(verb, ""), BAD_SHAPE, CountError);
  }

  lemma NoHostAnswered(verb: string)
    requires verb in {"EHLO", "HELO"}
    ensures NoChar(Command(verb, ""), '\n') && WholeReply(BAD_SHAPE) && BAD_SHAPE == Reply("501", "5.5.2 Bad command")
    ensures !Positive(BAD_SHAPE) && Check(Some(BAD_SHAPE), '2', "EHLO") == Some(Rejected("EHLO", TrimEnd(BAD_SHAPE)))
  {
    CommandIsOneLine(verb, "");
    ReplyIsWhole("501", "5.5.2 Bad command");
    hide WholeReply, Command, Reply, TrimEnd;
  }

  lemma StandsWhere(w: Wire)
    ensures forall st :: At(w, st) <==> Settled(w) && Stand(w) == st
  {
    hide Settled, Stand;
  }

  /**
   EHLO, falling back to HELO.  Against this server the greeting works exactly when
   there is a host name to announce: the fallback never helps.
   */
  method Greet(cfg: Config, accepts: Accepts, w0: Wire, host: string) returns (w: Wire, r: Result<string, SendError>)
    requires InStep(w0) && Joined(cfg, accepts, w0)
    ensures InStep(w) && Joined(cfg, accepts, w)
    ensures var st := Stand(w0);
            Settled(w0) && st.mode.Commands? && host != "" && OneLine(host) ==>
              r == Ok(EhloReply(cfg, Trim(host))) && At(w, st.(state := GREETED))
    ensures var st := Stand(w0);
            Settled(w0) && st.mode.Commands? && host == "" && st.errors + 2 <= ERROR_THRESHOLD ==>
              r == Err(Rejected("EHLO", TrimEnd(BAD_SHAPE))) && At(w, st.(errors := st.errors + 2))
  {
    hide *;
    ghost var st := Stand(w0);
    if st.mode.Commands? && host != "" && OneLine(host) {
      RepliesToEhlo(cfg, accepts, st, host);
    }
    if st.mode.Commands? && host == "" && st.errors + 2 <= ERROR_THRESHOLD {
      GreetedIs();
      RepliesToNoHost(cfg, accepts, st, "EHLO");
      RepliesToNoHost(cfg, accepts, st.(errors := st.errors + 1), "HELO");
    }
    var w1, ehlo := Say(cfg, accepts, w0, Command("EHLO", host));
    StandsWhere(w1);
    if ehlo.None? {
      return w1, Err(Eof);
    }
    if Positive(ehlo.value) {
      return w1, Ok(ehlo.value);
    }
    var helo;
    w, helo := Say(cfg, accepts, w1, Command("HELO", host));
    var error := Check(helo, '2', "EHLO");
    r := if error.Some? then Err(error.value) else Ok(ehlo.value);
  }

  // ---- one message --------------------------------------------------------------------------

  function RcptTo(addr: string): string {
    Command("RCPT", Bracketed("TO:", addr, ""))
  }

  /** The recipients this server keeps, in the order given. */
  function Accepted(accepts: Accepts, to: seq<string>): seq<string> {
    if to == [] then []
    else
      var last := ToLower(to[|to| - 1]);
      Accepted(accepts, to[..|to| - 1]) + if accepts(last) then [last] else []
  }

  function Envelope(accepts: Accepts, from: string, to: seq<string>): SessionState {
    SessionState(true, Some(from), Accepted(accepts, to))
  }

  lemma ParamsAreOneLine(ehlo: string)
    ensures OneLine(MailParams(ehlo))
    ensures MailParams(ehlo) != "" ==> !IsSpace(MailParams(ehlo)[|MailParams(ehlo)| - 1])
  {
    hide Advertises;
    var body := if Advertises(ehlo, "8BITMIME") then " BODY=8BITMIME" else "";
    var utf8 := if Advertises(ehlo, "SMTPUTF8") then " SMTPUTF8" else "";
    assert MailParams(ehlo) == body + utf8;
    OneLineJoin(body, utf8);
    assert utf8 == "" ==> body + utf8 == body;
  }

  lemma MailAnswered(from: string, params: string)
    requires PlainAddress(from) && OneLine(params)
    ensures NoChar(Command("MAIL", Bracketed("FROM:", from, params)), '\n') && WholeReply(MailReply(from))
    ensures Check(Some(MailReply(from)), '2', "MAIL FROM") == None
  {
    BracketedIsOneLine("FROM:", from, params);
    CommandIsOneLine("MAIL", Bracketed("FROM:", from, params));
    ReplyIsWhole("250", "2.0.0 Roger, accepting mail from <" + from + ">");
    hide TrimEnd;
  }

  lemma MailFromIs(accepts: Accepts, from: string, ehlo: string)
    ensures MailFrom(from, ehlo) == Command("MAIL", Bracketed("FROM:", from, MailParams(ehlo)))
    ensures Envelope(accepts, from, []) == SessionState(true, Some(from), [])
  {
    hide Command, Bracketed, MailParams;
  }

  lemma RepliesToMail(cfg: Config, accepts: Accepts, st: Standing, from: string, ehlo: string)
    requires st.mode.Commands? && st.state.greeted && PlainAddress(from)
    ensures Replies(cfg, accepts, st, MailFrom(from, ehlo), st.(state := Envelope(accepts, from, [])), MailReply(from))
    ensures Check(Some(MailReply(from)), '2', "MAIL FROM") == None
  {
    hide *;
    ParamsAreOneLine(ehlo);
    ServerMail(cfg, accepts, st.state, from, MailParams(ehlo));
    MailAnswered(from, MailParams(ehlo));
    MailFromIs(accepts, from, ehlo);
    RepliesMore(cfg, accepts, st, MailFrom(from, ehlo), Envelope(accepts, from, []), MailReply(from));
  }

  lemma RcptAnswered(addr: string)
    requires PlainAddress(addr)
    ensures NoChar(RcptTo(addr), '\n') && WholeReply(RcptReply(addr))
    ensures RcptTo(addr) == Command("RCPT", Bracketed("TO:", addr, ""))
  {
    BracketedIsOneLine("TO:", addr, "");
    CommandIsOneLine("RCPT", Bracketed("TO:", addr, ""));
    ReplyIsWhole("250", "2.0.0 I'll make sure <" + addr + "> gets this");
  }

  lemma RepliesToRcpt(cfg: Config, accepts: Accepts, st: Standing, addr: string)
    requires st.mode.Commands? && st.state.from.Some? && PlainAddress(addr)
    ensures Replies(cfg, accepts, st, RcptTo(addr), st.(state := AddRcpt(accepts, st.state, addr)), RcptReply(addr))
  {
    hide *;
    ServerRcpt(cfg, accepts, st.state, addr);
    RcptAnswered(addr);
    RepliesMore(cfg, accepts, st, RcptTo(addr), AddRcpt(accepts, st.state, addr), RcptReply(addr));
  }

  lemma EnvelopeGrows(accepts: Accepts, from: string, to: seq<string>, i: nat)
    requires i < |to|
    ensures Envelope(accepts, from, to[..i + 1]) == AddRcpt(accepts, Envelope(accepts, from, to[..i]), to[i])
  {
    assert to[..i + 1][..i] == to[..i];
  }

  lemma RepliesToData(cfg: Config, accepts: Accepts, st: Standing)
    requires st.mode.Commands? && st.state.from.Some?
    ensures Replies(cfg, accepts, st, "DATA", st.(mode := Payload("")), GoAhead())
    ensures Check(Some(GoAhead()), '3', "DATA") == None
  {
    hide *;
    ServerData(cfg, accepts, st.state);
    DataAnswered();
    RepliesNext(cfg, accepts, st, "DATA", GoAhead(), AwaitPayload);
  }

  lemma ServerData(cfg: Config, accepts: Accepts, s: SessionState)
    requires s.from.Some?
    ensures React(cfg, accepts, s, "DATA" + "\r\n") == Reaction(s, GoAhead(), AwaitPayload)
  {
    ServerBare("DATA");
    hide SplitCommand, Reply, GoAhead, ReactMail, ReactRcpt, EhloReply;
  }

  lemma GoAheadIsOneLine()
    ensures NoChar("Go ahead. End your data with <CR><LF>.<CR><LF>", '\n')
  {
    var before, after := "Go ahead. End your data with ", "<CR><LF>.<CR><LF>";
    assert NoChar(before, '\n') && NoChar(after, '\n');
    assert before + after == "Go ahead. End your data with <CR><LF>.<CR><LF>";
  }

  lemma DataAnswered()
    ensures NoChar("DATA", '\n') && WholeReply(GoAhead()) && Check(Some(GoAhead()), '3', "DATA") == None
  {
    GoAheadIsOneLine();
    ReplyIsWhole("354", "Go ahead. End your data with <CR><LF>.<CR><LF>");
    hide WholeReply, Reply, TrimEnd;
  }

  lemma RepliesToQuit(cfg: Config, accepts: Accepts, st: Standing)
    requires st.mode.Commands?
    ensures Replies(cfg, accepts, st, "QUIT", st.(mode := Closed(Done)), Reply("221", "2.0.0 Bye"))
  {
    hide *;
    ServerQuit(cfg, accepts, st.state);
    QuitAnswered();
    RepliesNext(cfg, accepts, st, "QUIT", Reply("221", "2.0.0 Bye"), Hangup(Done));
  }

  lemma QuitAnswered()
    ensures NoChar("QUIT", '\n') && WholeReply(Reply("221", "2.0.0 Bye"))
  {
    ReplyIsWhole("221", "2.0.0 Bye");
    hide WholeReply, Reply;
  }

  lemma ServerQuit(cfg: Config, accepts: Accepts, s: SessionState)
    ensures React(cfg, accepts, s, "QUIT" + "\r\n") == Reaction(s, Reply("221", "2.0.0 Bye"), Hangup(Done))
  {
    ServerBare("QUIT");
    hide SplitCommand, Reply, GoAhead, ReactMail, ReactRcpt, ReactData, EhloReply;
  }

  /** The server with the whole message in. */
  function Took(st: Standing, message: string): Standing {
    Standing(ResetState(st.state), st.errors, Commands,
             if st.state.rcpts == [] then st.deliveries
             else st.deliveries + [Delivery(Sender(st.state), st.state.rcpts, message)])
  }

  lemma QueuedIsWhole()
    ensures WholeReply(Queued()) && Check(Some(Queued()), '2', "end DATA") == None
  {
    ReplyIsWhole("250", "2.0.0 OK: queued");
    hide TrimEnd;
  }

  /** The framed message makes the final reply readable. */
  lemma PayloadAnswered(cfg: Config, accepts: Accepts, w: Wire, raw: string)
    requires Settled(w) && w.server.mode == Payload("")
    ensures var w' := Write(cfg, accepts, w, Framed(raw));
            && InStep(w') && Inbox(w') == Queued() && ReplyLength(Inbox(w')) == Some(|Queued()|)
            && At(w'.(read := w'.read + |Queued()|), Took(Stand(w), Normalised(raw)))
  {
    hide Normalised, Framed, Feed;
    FeedFramed(cfg, accepts, w.server, raw);
    assert "" + Normalised(raw) == Normalised(raw);
    QueuedIsWhole();
    hide Queued;
    FlattenSnoc(w.server.replies, Queued());
  }

  lemma WriteWrite(cfg: Config, accepts: Accepts, w: Wire, a: string, b: string)
    ensures Write(cfg, accepts, Write(cfg, accepts, w, a), b) == Write(cfg, accepts, w, a + b)
  {
    FeedAppend(cfg, accepts, w.server, a, b);
    assert w.sent + (a + b) == w.sent + a + b;
  }

  lemma FramedIs(raw: string)
    ensures Framed(raw) == Stuffed(raw, true) + (if EndsInLf(raw) then "" else "\r\n") + ".\r\n"
  {
    hide Stuffed, EndsInLf;
  }

  /** The message, dot-stuffed, and its terminator on a line of its own. */
  method SendPayload(cfg: Config, accepts: Accepts, w0: Wire, raw: string) returns (w: Wire, reply: Option<string>)
    requires InStep(w0) && Joined(cfg, accepts, w0)
    ensures InStep(w) && Joined(cfg, accepts, w)
    ensures Settled(w0) && w0.server.mode == Payload("") ==>
              reply == Some(Queued()) && At(w, Took(Stand(w0), Normalised(raw)))
  {
    hide *;
    var stuffed := DotStuff(raw);
    var w1 := Write(cfg, accepts, w0, stuffed);
    if !EndsInLf(raw) {
      WriteWrite(cfg, accepts, w0, stuffed, "\r\n");
      w1 := Write(cfg, accepts, w1, "\r\n");
    }
    ghost var body := stuffed + if EndsInLf(raw) then "" else "\r\n";
    assert stuffed + "" == stuffed;
    WriteWrite(cfg, accepts, w0, body, ".\r\n");
    w1 := Write(cfg, accepts, w1, ".\r\n");
    FramedIs(raw);
    WriteInStep(cfg, accepts, w0, Framed(raw));
    WriteJoined(cfg, accepts, w0, Framed(raw));
    w, reply := ReadReply(w1);
    ReadingKeepsJoined(cfg, accepts, w1, w);
    if Settled(w0) && w0.server.mode == Payload("") {
      PayloadAnswered(cfg, accepts, w0, raw);
      assert Inbox(w1)[..|Queued()|] == Queued();
    }
  }

  /** After the greeting: the envelope, the message, and goodbye. */
  function Sent(accepts: Accepts, st: Standing, from: string, to: seq<string>, raw: string): Standing {
    Took(st.(state := Envelope(accepts, from, to)), raw).(mode := Closed(Done))
  }

  ghost predicate AllPlain(to: seq<string>) {
    forall i :: 0 <= i < |to| ==> PlainAddress(to[i])
  }

  lemma EnvelopeHasSender(accepts: Accepts, from: string, to: seq<string>)
    ensures Envelope(accepts, from, to).from == Some(from)
  {
  }

  lemma Settles(w: Wire, st: Standing)
    requires At(w, st)
    ensures Settled(w) && Stand(w) == st && w.server.mode == st.mode && w.server.deliveries == st.deliveries
  {
  }

  lemma PlainAt(to: seq<string>, i: nat)
    requires AllPlain(to) && i < |to|
    ensures PlainAddress(to[i])
  {
    hide PlainAddress;
  }

  /** A refused recipient is skipped; the message goes to the others. */
  method AddRecipients(cfg: Config, accepts: Accepts, w0: Wire, ghost from: string, to: seq<string>)
    returns (w: Wire, error: Option<SendError>)
    requires InStep(w0) && Joined(cfg, accepts, w0)
    ensures InStep(w) && Joined(cfg, accepts, w)
    ensures var st := Stand(w0);
            Settled(w0) && st.mode.Commands? && st.state == Envelope(accepts, from, []) && AllPlain(to) ==>
              error == None && At(w, st.(state := Envelope(accepts, from, to)))
  {
    hide *;
    w := w0;
    ghost var st := Stand(w0);
    ghost var expected := Settled(w0) && st.mode.Commands? && st.state == Envelope(accepts, from, []) && AllPlain(to);
    if expected {
      assert to[..0] == [];
      StandsWhere(w);
    }
    for i := 0 to |to|
      invariant InStep(w) && Joined(cfg, accepts, w)
      invariant expected ==> At(w, st.(state := Envelope(accepts, from, to[..i])))
    {
      if expected {
        ghost var here := st.(state := Envelope(accepts, from, to[..i]));
        Settles(w, here);
        EnvelopeHasSender(accepts, from, to[..i]);
        PlainAt(to, i);
        RepliesToRcpt(cfg, accepts, here, to[i]);
        EnvelopeGrows(accepts, from, to, i);
      }
      var reply;
      w, reply := Say(cfg, accepts, w, RcptTo(to[i]));
      if reply.None? {
        return w, Some(Eof);
      }
    }
    assert to[..|to|] == to;
    error := None;
  }

  lemma SentIs(accepts: Accepts, st: Standing, from: string, to: seq<string>, message: string)
    ensures var taken := Took(st.(state := Envelope(accepts, from, to)).(mode := Payload("")), message);
            taken.mode.Commands? && taken.(mode := Closed(Done)) == Sent(accepts, st, from, to, message)
  {
    hide Envelope;
  }

  method Converse(cfg: Config, accepts: Accepts, w0: Wire, ehlo: string, from: string, to: seq<string>, raw: string)
    returns (w: Wire, error: Option<SendError>)
    requires InStep(w0) && Joined(cfg, accepts, w0)
    ensures InStep(w) && Joined(cfg, accepts, w)
    ensures var st := Stand(w0);
            Settled(w0) && st.mode.Commands? && st.state.greeted && PlainAddress(from) && AllPlain(to) ==>
              error == None && At(w, Sent(accepts, st, from, to, Normalised(raw)))
  {
    hide *;
    ghost var st := Stand(w0);
    ghost var expected := Settled(w0) && st.mode.Commands? && st.state.greeted && PlainAddress(from) && AllPlain(to);
    ghost var begun := st.(state := Envelope(accepts, from, []));
    ghost var addressed := st.(state := Envelope(accepts, from, to));
    ghost var taken := Took(addressed.(mode := Payload("")), Normalised(raw));
    if expected {
      RepliesToMail(cfg, accepts, st, from, ehlo);
      EnvelopeHasSender(accepts, from, to);
      RepliesToData(cfg, accepts, addressed);
      QueuedIsWhole();
      SentIs(accepts, st, from, to, Normalised(raw));
      RepliesToQuit(cfg, accepts, taken);
    }
    var mail, added, data, queued, quit;
    w, mail := Say(cfg, accepts, w0, MailFrom(from, ehlo));
    error := Check(mail, '2', "MAIL FROM");
    if error.Some? {
      return;
    }
    if expected {
      Settles(w, begun);
    }
    w, added := AddRecipients(cfg, accepts, w, from, to);
    if added.Some? {
      return w, added;
    }
    if expected {
      Settles(w, addressed);
    }
    w, data := Say(cfg, accepts, w, "DATA");
    error := Check(data, '3', "DATA");
    if error.Some? {
      return;
    }
    if expected {
      Settles(w, addressed.(mode := Payload("")));
    }
    w, queued := SendPayload(cfg, accepts, w, raw);
    error := Check(queued, '2', "end DATA");
    if error.Some? {
      return;
    }
    if expected {
      Settles(w, taken);
    }
    w, quit := Say(cfg, accepts, w, "QUIT");
    error := None;
  }

  // ---- one connection ---------------------------------------------------------------------

  lemma OnlyStartTls(cfg: Config)
    ensures Listed(Capabilities(cfg), "STARTTLS") <==> cfg.starttls
    ensures !EqIgnoreCase("Hello", "STARTTLS")
  {
    var caps := Capabilities(cfg);
    if cfg.starttls {
      assert caps[4] == "STARTTLS";
    } else {
      assert ToLower("STARTTLS")[0] == 's' && ToLower("STARTTLS")[1] == 't';
      forall i | 0 <= i < |caps| ensures !EqIgnoreCase(caps[i], "STARTTLS") {
        assert ToLower(caps[i])[0] == LowerChar(caps[i][0]);
        assert ToLower(caps[i])[1] == LowerChar(caps[i][1]);
      }
    }
  }

  /** STARTTLS is attempted exactly when the server is configured to offer it. */
  lemma OffersStartTls(cfg: Config, host: string)
    requires OneLine(host)
    ensures Advertises(EhloReply(cfg, Trim(host)), "STARTTLS") <==> cfg.starttls
  {
    hide *;
    TrimKeepsOneLine(host);
    EhloAdvertises(cfg, Trim(host), "STARTTLS");
    OnlyStartTls(cfg);
  }

  function NoTls(): string {
    Reply("454", "4.7.0 TLS not available on this connection")
  }

  lemma RepliesToStartTls(cfg: Config, accepts: Accepts, st: Standing)
    requires st.mode.Commands? && cfg.starttls && !cfg.tlsAvailable
    ensures Replies(cfg, accepts, st, "STARTTLS", st, NoTls()) && !Positive(NoTls())
  {
    hide *;
    ServerStartTls(cfg, accepts, st.state);
    NoTlsAnswered();
    RepliesMore(cfg, accepts, st, "STARTTLS", st.state, NoTls());
  }

  lemma NoTlsAnswered()
    ensures NoChar("STARTTLS", '\n') && WholeReply(NoTls()) && !Positive(NoTls())
    ensures NoTls() == Reply("454", "4.7.0 TLS not available on this connection")
  {
    NoTlsIsOneLine();
    ReplyIsWhole("454", "4.7.0 TLS not available on this connection");
    hide WholeReply, Reply, NoChar;
  }

  lemma NoTlsIsOneLine()
    ensures NoChar("4.7.0 TLS not available on this connection", '\n') && NoChar("454", '\n') && NoChar("STARTTLS", '\n')
  {
    var before, after := "4.7.0 TLS not available ", "on this connection";
    assert NoChar(before, '\n') && NoChar(after, '\n');
    assert before + after == "4.7.0 TLS not available on this connection";
  }

  lemma WholeLength(reply: string)
    requires WholeReply(reply)
    ensures ReplyLength(reply) == Some(|reply|)
  {
    hide ReplyLength;
  }

  lemma BannerIsWhole(cfg: Config)
    requires OneLine(cfg.hostname)
    ensures WholeReply(Banner(cfg)) && Check(Some(Banner(cfg)), '2', "greeting") == None
  {
    OneLineJoin(cfg.hostname, " ESMTP Service Ready");
    ReplyIsWhole("220", cfg.hostname + " ESMTP Service Ready");
    hide TrimEnd;
  }

  const NEWCOMER := Standing(FRESH, 0, Commands, [])

  lemma NewcomerIs()
    ensures NEWCOMER.mode.Commands? && NEWCOMER.errors == 0 && NEWCOMER.deliveries == [] && ERROR_THRESHOLD == 3
    ensures GREETED.greeted
  {
  }

  lemma BannerAnswered(cfg: Config, accepts: Accepts)
    ensures InStep(Connect(cfg)) && Joined(cfg, accepts, Connect(cfg)) && Inbox(Connect(cfg)) == Banner(cfg)
    ensures At(Connect(cfg).(read := |Banner(cfg)|), NEWCOMER) && Connect(cfg).read == 0
  {
    hide Banner;
    assert [Banner(cfg)][..0] == [];
    assert Flatten([Banner(cfg)]) == "" + Banner(cfg) == Banner(cfg);
  }

  /** What the far end is to be handed: nothing if it kept no recipient. */
  function Expected(accepts: Accepts, from: string, to: seq<string>, raw: string): seq<Delivery> {
    if Accepted(accepts, to) == [] then [] else [Delivery(from, Accepted(accepts, to), raw)]
  }

  lemma RunOfSent(cfg: Config, accepts: Accepts, w: Wire, from: string, to: seq<string>, raw: string)
    requires Joined(cfg, accepts, w) && At(w, Sent(accepts, NEWCOMER, from, to, raw))
    ensures var run := Run(cfg, accepts, [Banner(cfg)], w.sent);
            run == w.server && run.deliveries == Expected(accepts, from, to, raw)
  {
    hide Feed, Banner, Accepted;
  }

  /**
   One connection, one message, possibly several recipients.  Client meets server:
   the send succeeds, and the server's own loop over the bytes that went out makes
   exactly the delivery that was asked for.  A TLS handshake, once the far end has
   agreed to it, is where this model stops.
   */
  method SendOne(cfg: Config, accepts: Accepts, host: string, from: string, to: seq<string>, raw: string)
    returns (w: Wire, error: Option<SendError>)
    ensures Joined(cfg, accepts, w)
    ensures OneLine(cfg.hostname) && !(cfg.starttls && cfg.tlsAvailable)
            && host != "" && OneLine(host) && PlainAddress(from) && AllPlain(to) ==>
              && error == None
              && Run(cfg, accepts, [Banner(cfg)], w.sent) == w.server
              && w.server.deliveries == Expected(accepts, from, to, Normalised(raw))
    ensures OneLine(cfg.hostname) && host == "" ==>
              error == Some(Rejected("EHLO", TrimEnd(BAD_SHAPE))) && w.server.deliveries == []
  {
    hide *;
    BannerAnswered(cfg, accepts);
    var banner, greeting, reply;
    w, banner := ReadReply(Connect(cfg));
    error := Check(banner, '2', "greeting");
    ghost var polite := OneLine(cfg.hostname);
    if polite {
      BannerIsWhole(cfg);
      WholeLength(Banner(cfg));
      assert Inbox(Connect(cfg))[..|Banner(cfg)|] == Banner(cfg);
      Settles(w, NEWCOMER);
    }
    ReadingKeepsJoined(cfg, accepts, Connect(cfg), w);
    if error.Some? {
      return;
    }
    NewcomerIs();
    w, greeting := Greet(cfg, accepts, w, host);
    if polite && host == "" {
      Settles(w, NEWCOMER.(errors := 2));
    }
    if greeting.Err? {
      return w, Some(greeting.error);
    }
    ghost var served := polite && host != "" && OneLine(host);
    ghost var st := NEWCOMER.(state := GREETED);
    if served {
      Settles(w, st);
      OffersStartTls(cfg, host);
    }
    if !Advertises(greeting.value, "STARTTLS") {
      w, error := Converse(cfg, accepts, w, greeting.value, from, to, raw);
      if served && PlainAddress(from) && AllPlain(to) {
        SentFromGreeting(accepts, from, to, Normalised(raw));
        RunOfSent(cfg, accepts, w, from, to, Normalised(raw));
      }
      return;
    }
    if served && !cfg.tlsAvailable {
      RepliesToStartTls(cfg, accepts, st);
    }
    w, reply := Say(cfg, accepts, w, "STARTTLS");
    if reply.None? {
      return w, Some(Eof);
    }
    if !Positive(reply.value) {
      if served && !cfg.tlsAvailable {
        Settles(w, st);
      }
      w, error := Converse(cfg, accepts, w, greeting.value, from, to, raw);
      if served && !cfg.tlsAvailable && PlainAddress(from) && AllPlain(to) {
        SentFromGreeting(accepts, from, to, Normalised(raw));
        RunOfSent(cfg, accepts, w, from, to, Normalised(raw));
      }
      return;
    }
    error := Some(if Inbox(w) != "" then Pipelined(|Inbox(w)|) else HandshakeBegun);
  }

  lemma SentFromGreeting(accepts: Accepts, from: string, to: seq<string>, message: string)
    ensures Sent(accepts, NEWCOMER.(state := GREETED), from, to, message) == Sent(accepts, NEWCOMER, from, to, message)
  {
  }
}
