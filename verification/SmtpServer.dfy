/**
 The inbound ESMTP session: a command loop over a byte stream, with the envelope,
 the error counter and the dot-stuffed DATA payload.

 The same session is given twice.  `HandleInner` is the loop that blocks on its
 reads; `Feed` is the machine that takes the bytes as they come.  They agree on
 every input.
 */
module SmtpServer {
  import opened Wrappers
  import opened Text

  datatype Config = Config(hostname: string, starttls: bool, tlsAvailable: bool, enableSmtputf8: bool)

  datatype Delivery = Delivery(from: string, rcpts: seq<string>, raw: string)

  datatype Outcome = Done | StartTls

  /** What `Backend::accepts` answers, per lower-cased address. */
  type Accepts = string -> bool

  // ---- command lines -----------------------------------------------------------

  datatype Command = Verb(verb: string, rest: string) | BadCommand

  /** A verb is exactly four characters; STARTTLS is matched by prefix before that. */
  function SplitCommand(raw: string): Command {
    var line := TrimEol(raw);
    if |line| >= 8 && EqIgnoreCase(line[..8], "STARTTLS") then Verb("STARTTLS", "")
    else if |line| == 0 then Verb("", "")
    else if |line| < 4 then BadCommand
    else if |line| == 4 then Verb(ToUpper(line), "")
    else if |line| == 5 then BadCommand
    else if line[4] != ' ' then BadCommand
    else Verb(ToUpper(line[..4]), Trim(line[5..]))
  }

  /** The address in `FROM:<a@b>` or `TO:<a@b>`; the brackets are optional. */
  function ParsePath(arg: string, prefix: string): Option<string> {
    var rest := TrimStart(arg);
    if |rest| < |prefix| || !EqIgnoreCase(rest[..|prefix|], prefix) then None
    else
      var path := TrimStart(rest[|prefix|..]);
      if path != "" && path[0] == '<' then
        match FindChar(path[1..], '>')
        case None => None
        case Some(end) => Some(path[1..][..end])
      else
        var addr := FirstWord(path);
        if addr == "" then None else Some(addr)
  }

  /** Everything up to the first space. */
  function FirstWord(s: string): (r: string)
    ensures r <= s
    ensures forall i :: 0 <= i < |r| ==> !IsSpace(r[i])
    ensures |r| < |s| ==> IsSpace(s[|r|])
  {
    if s == "" || IsSpace(s[0]) then "" else [s[0]] + FirstWord(s[1..])
  }

  // ---- replies -----------------------------------------------------------------

  function Reply(code: string, text: string): string {
    code + " " + text + "\r\n"
  }

  function Banner(cfg: Config): string {
    Reply("220", cfg.hostname + " ESMTP Service Ready")
  }

  function Capabilities(cfg: Config): (caps: seq<string>)
    ensures |caps| >= 5
  {
    ["PIPELINING", "8BITMIME", "ENHANCEDSTATUSCODES", "CHUNKING"]
    + (if cfg.starttls then ["STARTTLS"] else [])
    + (if cfg.enableSmtputf8 then ["SMTPUTF8"] else [])
    + ["SIZE"]
  }

  /** One line per capability; a hyphen after the code says more follow. */
  function CapabilityLines(caps: seq<string>): string
  {
    if |caps| == 0 then ""
    else if |caps| == 1 then "250 " + caps[0] + "\r\n"
    else "250-" + caps[0] + "\r\n" + CapabilityLines(caps[1..])
  }

  function EhloReply(cfg: Config, domain: string): string {
    "250-Hello " + domain + "\r\n" + CapabilityLines(Capabilities(cfg))
  }

  method EhloResponse(cfg: Config, domain: string) returns (out: string)
    ensures out == EhloReply(cfg, domain)
  {
    var caps := ["PIPELINING", "8BITMIME", "ENHANCEDSTATUSCODES", "CHUNKING"];
    if cfg.starttls {
      caps := caps + ["STARTTLS"];
    }
    if cfg.enableSmtputf8 {
      caps := caps + ["SMTPUTF8"];
    }
    caps := caps + ["SIZE"];
    assert caps == Capabilities(cfg);
    hide *;
    out := "250-Hello " + domain + "\r\n";
    ghost var head := out;
    var last := |caps| - 1;
    for i := 0 to |caps|
      invariant out + CapabilityLines(caps[i..]) == head + CapabilityLines(caps)
    {
      var sep := if i == last then " " else "-";
      CapabilityLine(caps, i, out);
      out := out + ("250" + sep + caps[i] + "\r\n");
    }
    NoCapabilities(caps);
  }

  lemma CapabilityLine(caps: seq<string>, i: nat, out: string)
    requires i < |caps|
    ensures out + CapabilityLines(caps[i..])
         == (out + ("250" + (if i == |caps| - 1 then " " else "-") + caps[i] + "\r\n")) + CapabilityLines(caps[i + 1..])
  {
    assert caps[i..][1..] == caps[i + 1..];
    var sep := if i == |caps| - 1 then " " else "-";
    assert "250" + sep == "250 " || "250" + sep == "250-";
    assert CapabilityLines(caps[i..]) == ("250" + sep + caps[i] + "\r\n") + CapabilityLines(caps[i + 1..]);
  }

  lemma NoCapabilities(caps: seq<string>)
    ensures CapabilityLines(caps[|caps|..]) == ""
  {
  }

  // ---- one command ---------------------------------------------------------------

  datatype SessionState = SessionState(greeted: bool, from: Option<string>, rcpts: seq<string>)

  const FRESH := SessionState(false, None, [])

  function ResetState(s: SessionState): SessionState {
    s.(from := None, rcpts := [])
  }

  /** What the loop does after the reply. */
  datatype Next = More | CountError | AwaitPayload | Hangup(outcome: Outcome)

  datatype Reaction = Reaction(state: SessionState, reply: string, next: Next)

  function React(cfg: Config, accepts: Accepts, s: SessionState, line: string): Reaction {
    match SplitCommand(line)
    case BadCommand => Reaction(s, Reply("501", "5.5.2 Bad command"), CountError)
    case Verb(verb, rest) =>
      if verb == "EHLO" then
        Reaction(ResetState(s).(greeted := true), EhloReply(cfg, rest), More)
      else if verb == "HELO" then
        Reaction(ResetState(s).(greeted := true), Reply("250", "2.0.0 Hello " + rest), More)
      else if verb == "MAIL" then ReactMail(s, rest)
      else if verb == "RCPT" then ReactRcpt(accepts, s, rest)
      else if verb == "DATA" then ReactData(s)
      else if verb == "RSET" then
        Reaction(ResetState(s), Reply("250", "2.0.0 Session reset"), More)
      else
        var (code, text, next) := Fixed(cfg, verb);
        Reaction(s, Reply(code, text), next)
  }

  /** The verbs that leave the session as it is; the last two are errors. */
  function Fixed(cfg: Config, verb: string): (r: (string, string, Next))
    ensures r.0 in {"250", "221", "502", "220", "454", "252", "500"}
    ensures r.2.CountError? <==> r.0 == "500"
    ensures !r.2.AwaitPayload?
  {
    if verb == "NOOP" then ("250", "2.0.0 I have successfully done nothing", More)
    else if verb == "QUIT" then ("221", "2.0.0 Bye", Hangup(Done))
    else if verb == "AUTH" then
      ("502", "5.5.1 This is a public MX; no authentication is offered.", More)
    else if verb == "STARTTLS" && cfg.starttls && cfg.tlsAvailable then
      ("220", "2.0.0 Ready to start TLS", Hangup(StartTls))
    else if verb == "STARTTLS" && cfg.starttls then
      ("454", "4.7.0 TLS not available on this connection", More)
    else if verb == "VRFY" then
      ("252", "2.5.0 Cannot VRFY user, but will accept message", More)
    else if verb == "" then ("500", "5.5.2 Error: bad syntax", CountError)
    else ("500", "5.5.2 Syntax errors, " + verb + " command unrecognized", CountError)
  }

  function ReactMail(s: SessionState, rest: string): Reaction {
    if !s.greeted then
      Reaction(s, Reply("502", "5.5.1 Please introduce yourself first."), More)
    else match ParsePath(rest, "FROM:")
      case Some(addr) =>
        Reaction(s.(from := Some(addr), rcpts := []),
                 Reply("250", "2.0.0 Roger, accepting mail from <" + addr + ">"), More)
      case None =>
        Reaction(s, Reply("501", "5.5.2 Was expecting MAIL arg syntax of FROM:<address>"), More)
  }

  /** A 250 either way: an address that is not served is dropped in silence. */
  function ReactRcpt(accepts: Accepts, s: SessionState, rest: string): Reaction {
    if s.from.None? then
      Reaction(s, Reply("502", "5.5.1 Missing MAIL FROM command."), More)
    else match ParsePath(rest, "TO:")
      case Some(addr) =>
        Reaction(if accepts(ToLower(addr)) then s.(rcpts := s.rcpts + [ToLower(addr)]) else s,
                 Reply("250", "2.0.0 I'll make sure <" + addr + "> gets this"), More)
      case None =>
        Reaction(s, Reply("501", "5.5.2 Was expecting RCPT arg syntax of TO:<address>"), More)
  }

  function ReactData(s: SessionState): Reaction {
    if s.from.None? then
      Reaction(s, Reply("502", "5.5.1 Missing RCPT TO command."), More)
    else
      Reaction(s, GoAhead(), AwaitPayload)
  }

  function GoAhead(): string {
    Reply("354", "Go ahead. End your data with <CR><LF>.<CR><LF>")
  }

  function Queued(): string {
    Reply("250", "2.0.0 OK: queued")
  }

  function TooManyErrors(): string {
    Reply("500", "5.5.1 Too many errors. Quiting now")
  }

  const ERROR_THRESHOLD: nat := 3

  // ---- the payload ------------------------------------------------------------------

  /** A payload line without its line ending. */
  function Body(line: string): string {
    StripSuffixChar(StripSuffixChar(line, '\n'), '\r')
  }

  /** What a payload line contributes: one stuffed dot less, and a full CRLF. */
  function Unstuff(line: string): string {
    StripPrefixChar(Body(line), '.') + "\r\n"
  }

  // ---- the machine ------------------------------------------------------------------

  datatype Mode = Commands | Payload(raw: string) | Closed(outcome: Outcome)

  /** What passed over the connection, for stating what a session did. */
  datatype Exchange =
    | Asked(line: string, reply: string)
    | Received(raw: string)
    | GaveUp

  datatype Server = Server(
    state: SessionState,
    errors: nat,
    mode: Mode,
    partial: string,
    replies: seq<string>,
    deliveries: seq<Delivery>,
    log: seq<Exchange>)

  function Start(banner: seq<string>): Server {
    Server(FRESH, 0, Commands, "", banner, [], [])
  }

  function TakeCommand(cfg: Config, accepts: Accepts, m: Server, line: string): Server {
    var r := React(cfg, accepts, m.state, line);
    var m' := m.(state := r.state, replies := m.replies + [r.reply], log := m.log + [Asked(line, r.reply)]);
    match r.next
    case More => m'
    case CountError => ProtocolError(m')
    case AwaitPayload => m'.(mode := Payload(""))
    case Hangup(outcome) => m'.(mode := Closed(outcome))
  }

  function ProtocolError(m: Server): Server {
    var m' := m.(errors := m.errors + 1);
    if m'.errors > ERROR_THRESHOLD then
      m'.(replies := m'.replies + [TooManyErrors()], mode := Closed(Done), log := m'.log + [GaveUp])
    else m'
  }

  /** The payload is complete: deliver it if a recipient survived, then reset. */
  function EndPayload(m: Server): Server
    requires m.mode.Payload?
  {
    var raw := m.mode.raw;
    m.(state := ResetState(m.state),
       mode := Commands,
       replies := m.replies + [Queued()],
       deliveries := if m.state.rcpts == [] then m.deliveries
                     else m.deliveries + [Delivery(Sender(m.state), m.state.rcpts, raw)],
       log := m.log + [Received(raw)])
  }

  function Sender(s: SessionState): string {
    match s.from case Some(a) => a case None => ""
  }

  function TakeLine(cfg: Config, accepts: Accepts, m: Server, line: string): Server {
    match m.mode
    case Commands => TakeCommand(cfg, accepts, m, line)
    case Payload(raw) =>
      if Body(line) == "." then EndPayload(m)
      else m.(mode := Payload(raw + Unstuff(line)))
    case Closed(_) => m
  }

  /** Bytes arriving: a line is handled when its LF is in. */
  function Feed(cfg: Config, accepts: Accepts, m: Server, bytes: string): Server
    decreases |bytes|
  {
    if bytes == "" || m.mode.Closed? then m
    else
      var line := m.partial + [bytes[0]];
      if bytes[0] == '\n' then
        Feed(cfg, accepts, TakeLine(cfg, accepts, m.(partial := ""), line), bytes[1..])
      else
        Feed(cfg, accepts, m.(partial := line), bytes[1..])
  }

  /**
   The peer hangs up.  An unterminated last line still counts as a line, and a
   payload cut short is delivered as it stands and answered 250.
   */
  function HangUp(cfg: Config, accepts: Accepts, m: Server): (r: Server)
    ensures r.mode.Closed?
  {
    if m.mode.Closed? then m
    else
      var m1 := if m.partial == "" then m else TakeLine(cfg, accepts, m.(partial := ""), m.partial);
      var m2 := if m1.mode.Payload? then EndPayload(m1) else m1;
      if m2.mode.Closed? then m2 else m2.(mode := Closed(Done))
  }

  /** A whole session over everything the peer sends. */
  function Run(cfg: Config, accepts: Accepts, banner: seq<string>, input: string): Server {
    HangUp(cfg, accepts, Feed(cfg, accepts, Start(banner), input))
  }

  // ---- bytes and lines ------------------------------------------------------------------

  /** Where the network cuts the stream makes no difference. */
  lemma {:induction false} FeedAppend(cfg: Config, accepts: Accepts, m: Server, a: string, b: string)
    ensures Feed(cfg, accepts, m, a + b) == Feed(cfg, accepts, Feed(cfg, accepts, m, a), b)
    decreases |a|
  {
    if a == "" {
      assert a + b == b;
    } else if !m.mode.Closed? {
      var line := m.partial + [a[0]];
      assert (a + b)[1..] == a[1..] + b;
      if a[0] == '\n' {
        FeedAppend(cfg, accepts, TakeLine(cfg, accepts, m.(partial := ""), line), a[1..], b);
      } else {
        FeedAppend(cfg, accepts, m.(partial := line), a[1..], b);
      }
    }
  }

  lemma {:induction false} FeedPartial(cfg: Config, accepts: Accepts, m: Server, text: string)
    requires !m.mode.Closed? && NoChar(text, '\n')
    ensures Feed(cfg, accepts, m, text) == m.(partial := m.partial + text)
    decreases |text|
  {
    if text == "" {
      assert m.partial + text == m.partial;
    } else {
      FeedPartial(cfg, accepts, m.(partial := m.partial + [text[0]]), text[1..]);
      assert m.partial + [text[0]] + text[1..] == m.partial + text;
    }
  }

  /** A complete line is one step of the machine. */
  lemma FeedLine(cfg: Config, accepts: Accepts, m: Server, text: string)
    requires !m.mode.Closed? && NoChar(text, '\n') && m.partial == ""
    ensures Feed(cfg, accepts, m, text + "\n") == TakeLine(cfg, accepts, m, text + "\n")
  {
    FeedAppend(cfg, accepts, m, text, "\n");
    FeedPartial(cfg, accepts, m, text);
    assert "" + text == text;
    assert m.(partial := text).(partial := "") == m;
    assert "\n"[1..] == "";
  }

  // ---- the blocking loops ------------------------------------------------------------------

  /** One `read_line` or `read_until`: through the next LF, or all that is left. */
  function NextLine(input: string): (r: (string, string))
    requires input != ""
    ensures r.0 + r.1 == input && r.0 != ""
  {
    match FindChar(input, '\n')
    case None => (input, "")
    case Some(i) => (input[..i + 1], input[i + 1..])
  }

  /** Everything still to come, once the machine is in state m. */
  ghost function Remaining(cfg: Config, accepts: Accepts, m: Server, input: string): Server {
    HangUp(cfg, accepts, Feed(cfg, accepts, m, input))
  }

  /** An unterminated last line is handled when the stream ends. */
  lemma LastLine(cfg: Config, accepts: Accepts, m: Server, line: string)
    requires !m.mode.Closed? && m.partial == "" && line != "" && NoChar(line, '\n')
    ensures Remaining(cfg, accepts, m, line) == Remaining(cfg, accepts, TakeLine(cfg, accepts, m, line), "")
  {
    hide React;
    FeedPartial(cfg, accepts, m, line);
    assert "" + line == line;
    assert m.(partial := line).(partial := "") == m;
    TakeLineKeepsPartial(cfg, accepts, m, line);
  }

  lemma TakeLineKeepsPartial(cfg: Config, accepts: Accepts, m: Server, line: string)
    ensures TakeLine(cfg, accepts, m, line).partial == m.partial
  {
    hide React;
  }

  /** Reading a line and handling it is what the machine does with its bytes. */
  lemma LineStep(cfg: Config, accepts: Accepts, m: Server, input: string)
    requires !m.mode.Closed? && m.partial == "" && input != ""
    ensures var (line, rest) := NextLine(input);
            Remaining(cfg, accepts, m, input) == Remaining(cfg, accepts, TakeLine(cfg, accepts, m, line), rest)
  {
    var (line, rest) := NextLine(input);
    match FindChar(input, '\n')
    case Some(i) =>
      hide TakeLine;
      assert line == input[..i] + "\n";
      FeedLine(cfg, accepts, m, input[..i]);
      FeedAppend(cfg, accepts, m, line, rest);
    case None =>
      LastLine(cfg, accepts, m, input);
  }

  /** What `read_data` returns: the payload, and what it leaves unread. */
  function ReadPayload(input: string, out: string): (string, string)
    decreases |input|
  {
    if input == "" then (out, "")
    else
      var (line, rest) := NextLine(input);
      if Body(line) == "." then (out, rest) else ReadPayload(rest, out + Unstuff(line))
  }

  /** The payload loop: until the lone dot, or the end of the stream. */
  method ReadData(cfg: Config, accepts: Accepts, ghost m: Server, input: string) returns (out: string, rest: string)
    requires m.mode == Payload("") && m.partial == ""
    ensures |rest| <= |input| && (out, rest) == ReadPayload(input, "")
    ensures Remaining(cfg, accepts, m, input)
         == Remaining(cfg, accepts, EndPayload(m.(mode := Payload(out))), rest)
  {
    out := "";
    rest := input;
    assert m.(mode := Payload(out)) == m;
    while true
      invariant |rest| <= |input| && ReadPayload(input, "") == ReadPayload(rest, out)
      invariant Remaining(cfg, accepts, m, input)
             == Remaining(cfg, accepts, m.(mode := Payload(out)), rest)
      decreases |rest|
    {
      ghost var before := m.(mode := Payload(out));
      if rest == "" {
        return;
      }
      LineStep(cfg, accepts, before, rest);
      var (line, tail) := NextLine(rest);
      rest := tail;
      var body := StripSuffixChar(StripSuffixChar(line, '\n'), '\r');
      if body == "." {
        return;
      }
      body := StripPrefixChar(body, '.');
      out := out + body;
      out := out + "\r\n";
      assert out == before.mode.raw + Unstuff(line);
      assert before.(mode := Payload(out)) == m.(mode := Payload(out));
    }
  }

  /** One connection's state. */
  class Session {
    var greeted: bool
    var from: Option<string>
    var rcpts: seq<string>

    function State(): SessionState
      reads this
    {
      SessionState(greeted, from, rcpts)
    }

    constructor ()
      ensures State() == FRESH
    {
      greeted, from, rcpts := false, None, [];
    }

    method Reset()
      modifies this
      ensures State() == ResetState(old(State()))
    {
      from := None;
      rcpts := [];
    }

    method SetGreeted()
      modifies this
      ensures State() == ResetState(old(State())).(greeted := true)
    {
      greeted := true;
      Reset();
    }

    /** The verb table: updates the session and says what to answer. */
    method Handle(cfg: Config, accepts: Accepts, line: string) returns (reply: string, next: Next)
      modifies this
      ensures Reaction(State(), reply, next) == React(cfg, accepts, old(State()), line)
    {
      next := More;
      var command := SplitCommand(line);
      if command.BadCommand? {
        return Reply("501", "5.5.2 Bad command"), CountError;
      }
      var verb, rest := command.verb, command.rest;
      match verb {
        case "EHLO" =>
          SetGreeted();
          reply := EhloResponse(cfg, rest);
        case "HELO" =>
          SetGreeted();
          reply := Reply("250", "2.0.0 Hello " + rest);
        case "MAIL" =>
          reply := Mail(rest);
        case "RCPT" =>
          reply := Rcpt(accepts, rest);
        case "DATA" =>
          if from.None? {
            return Reply("502", "5.5.1 Missing RCPT TO command."), More;
          }
          return GoAhead(), AwaitPayload;
        case "RSET" =>
          Reset();
          reply := Reply("250", "2.0.0 Session reset");
        case "NOOP" =>
          reply := Reply("250", "2.0.0 I have successfully done nothing");
        case "QUIT" =>
          return Reply("221", "2.0.0 Bye"), Hangup(Done);
        case "AUTH" =>
          reply := Reply("502", "5.5.1 This is a public MX; no authentication is offered.");
        case "STARTTLS" =>
          if cfg.starttls && cfg.tlsAvailable {
            return Reply("220", "2.0.0 Ready to start TLS"), Hangup(StartTls);
          } else if cfg.starttls {
            return Reply("454", "4.7.0 TLS not available on this connection"), More;
          }
          return Reply("500", "5.5.2 Syntax errors, " + verb + " command unrecognized"), CountError;
        case "VRFY" =>
          reply := Reply("252", "2.5.0 Cannot VRFY user, but will accept message");
        case "" =>
          return Reply("500", "5.5.2 Error: bad syntax"), CountError;
        case _ =>
          return Reply("500", "5.5.2 Syntax errors, " + verb + " command unrecognized"), CountError;
      }
    }

    method Mail(rest: string) returns (reply: string)
      modifies this
      ensures Reaction(State(), reply, More) == ReactMail(old(State()), rest)
    {
      if !greeted {
        return Reply("502", "5.5.1 Please introduce yourself first.");
      }
      var path := ParsePath(rest, "FROM:");
      if path.None? {
        return Reply("501", "5.5.2 Was expecting MAIL arg syntax of FROM:<address>");
      }
      reply := Reply("250", "2.0.0 Roger, accepting mail from <" + path.value + ">");
      from := path;
      rcpts := [];
    }

    method Rcpt(accepts: Accepts, rest: string) returns (reply: string)
      modifies this
      ensures Reaction(State(), reply, More) == ReactRcpt(accepts, old(State()), rest)
    {
      if from.None? {
        return Reply("502", "5.5.1 Missing MAIL FROM command.");
      }
      var path := ParsePath(rest, "TO:");
      if path.None? {
        return Reply("501", "5.5.2 Was expecting RCPT arg syntax of TO:<address>");
      }
      if accepts(ToLower(path.value)) {
        rcpts := rcpts + [ToLower(path.value)];
      }
      reply := Reply("250", "2.0.0 I'll make sure <" + path.value + "> gets this");
    }
  }

  /** The session loop, over everything the peer will ever send. */
  method HandleInner(cfg: Config, accepts: Accepts, greet: bool, input: string)
    returns (outcome: Outcome, replies: seq<string>, deliveries: seq<Delivery>)
    ensures var r := Run(cfg, accepts, if greet then [Banner(cfg)] else [], input);
            r.mode == Closed(outcome) && r.replies == replies && r.deliveries == deliveries
  {
    replies := if greet then [Banner(cfg)] else [];
    deliveries := [];
    var session := new Session();
    var errors := 0;
    var rest := input;
    ghost var m := Start(replies);
    ghost var whole := Run(cfg, accepts, replies, input);
    while true
      invariant whole == Remaining(cfg, accepts, m, rest)
      invariant m == Server(session.State(), errors, Commands, "", replies, deliveries, m.log)
      decreases |rest|
    {
      if rest == "" {
        return Done, replies, deliveries;
      }
      LineStep(cfg, accepts, m, rest);
      var (line, tail) := NextLine(rest);
      rest := tail;
      m := TakeLine(cfg, accepts, m, line);
      var reply, next := session.Handle(cfg, accepts, line);
      replies := replies + [reply];
      match next {
        case More =>
        case CountError =>
          errors := errors + 1;
          if errors > ERROR_THRESHOLD {
            replies := replies + [TooManyErrors()];
            return Done, replies, deliveries;
          }
        case Hangup(o) =>
          return o, replies, deliveries;
        case AwaitPayload =>
          var raw;
          raw, rest := ReadData(cfg, accepts, m, rest);
          if session.rcpts != [] {
            deliveries := deliveries + [Delivery(Sender(session.State()), session.rcpts, raw)];
          }
          session.Reset();
          replies := replies + [Queued()];
          m := EndPayload(m.(mode := Payload(raw)));
      }
    }
  }
}
