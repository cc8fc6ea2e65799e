/**
 What an SMTP session did, read off the log of what passed over the connection:
 envelopes, deliveries, the error limit and the number of replies.
 */
module SmtpTrace {
  import opened Wrappers
  import opened Text
  import opened SmtpServer

  // ---- reading the log ---------------------------------------------------------

  predicate HasCode(reply: string, code: string) {
    code <= reply
  }

  /** The sender an accepted MAIL named. */
  function MailOf(x: Exchange): Option<string> {
    if x.Asked? && HasCode(x.reply, "250") then
      match SplitCommand(x.line)
      case Verb(verb, rest) => if verb == "MAIL" then ParsePath(rest, "FROM:") else None
      case BadCommand => None
    else None
  }

  /** The recipient an accepted RCPT added, if the backend serves it. */
  function KeptOf(accepts: Accepts, x: Exchange): seq<string> {
    if x.Asked? && HasCode(x.reply, "250") then
      match SplitCommand(x.line)
      case Verb(verb, rest) =>
        if verb == "RCPT" && ParsePath(rest, "TO:").Some? && accepts(ToLower(ParsePath(rest, "TO:").value))
        then [ToLower(ParsePath(rest, "TO:").value)]
        else []
      case BadCommand => []
    else []
  }

  /** EHLO, HELO, RSET and the end of a payload drop the envelope. */
  predicate Resets(x: Exchange) {
    x.Received?
    || (x.Asked? && SplitCommand(x.line).Verb? && SplitCommand(x.line).verb in {"EHLO", "HELO", "RSET"})
  }

  predicate Greets(x: Exchange) {
    x.Asked? && SplitCommand(x.line).Verb? && SplitCommand(x.line).verb in {"EHLO", "HELO"}
  }

  predicate Known(cfg: Config, verb: string) {
    || verb in {"EHLO", "HELO", "MAIL", "RCPT", "DATA", "RSET", "NOOP", "QUIT", "AUTH", "VRFY"}
    || (verb == "STARTTLS" && cfg.starttls)
  }

  /** A bad shape, an empty command or an unknown verb. */
  predicate IsError(cfg: Config, x: Exchange) {
    x.Asked? && match SplitCommand(x.line)
                case BadCommand => true
                case Verb(verb, _) => !Known(cfg, verb)
  }

  function Kept(accepts: Accepts, log: seq<Exchange>): seq<string> {
    if log == [] then []
    else Kept(accepts, log[..|log| - 1]) + KeptOf(accepts, log[|log| - 1])
  }

  /** The accepted MAIL that nothing has reset or replaced since. */
  ghost predicate OpenedAt(log: seq<Exchange>, i: nat) {
    && i < |log| && MailOf(log[i]).Some?
    && forall k :: i < k < |log| ==> MailOf(log[k]).None? && !Resets(log[k])
  }

  /** The envelope a log leaves open: that MAIL's sender, the kept RCPTs since. */
  ghost predicate EnvelopeIs(accepts: Accepts, log: seq<Exchange>, from: Option<string>, rcpts: seq<string>) {
    match from
    case Some(a) => exists i: nat :: OpenedAt(log, i) && MailOf(log[i]) == Some(a) && rcpts == Kept(accepts, log[i + 1..])
    case None => rcpts == [] && forall i: nat :: !OpenedAt(log, i)
  }

  /** Every delivery is some payload with the envelope open when it ended. */
  ghost predicate DeliveriesAre(accepts: Accepts, log: seq<Exchange>, ds: seq<Delivery>)
    decreases |log|
  {
    if log == [] then ds == []
    else
      var before, last := log[..|log| - 1], log[|log| - 1];
      if last.Received? && !EnvelopeEmpty(accepts, before) then
        && ds != [] && DeliveriesAre(accepts, before, ds[..|ds| - 1])
        && ds[|ds| - 1].raw == last.raw
        && EnvelopeIs(accepts, before, Some(ds[|ds| - 1].from), ds[|ds| - 1].rcpts)
      else DeliveriesAre(accepts, before, ds)
  }

  ghost predicate EnvelopeEmpty(accepts: Accepts, log: seq<Exchange>) {
    forall i: nat :: OpenedAt(log, i) ==> Kept(accepts, log[i + 1..]) == []
  }

  function Count(log: seq<Exchange>, p: Exchange -> bool): nat {
    if log == [] then 0 else Count(log[..|log| - 1], p) + if p(log[|log| - 1]) then 1 else 0
  }

  function Commands(log: seq<Exchange>): nat {
    Count(log, (x: Exchange) => x.Asked?)
  }

  function GoAheads(log: seq<Exchange>): nat {
    Count(log, (x: Exchange) => x.Asked? && HasCode(x.reply, "354"))
  }

  function Errors(cfg: Config, log: seq<Exchange>): nat {
    Count(log, (x: Exchange) => IsError(cfg, x))
  }

  function Payloads(log: seq<Exchange>): nat {
    Count(log, (x: Exchange) => x.Received?)
  }

  function GaveUps(log: seq<Exchange>): nat {
    Count(log, (x: Exchange) => x.GaveUp?)
  }

  // ---- the invariant ---------------------------------------------------------------

  ghost predicate Faithful(cfg: Config, accepts: Accepts, banner: seq<string>, m: Server) {
    && (m.state.rcpts != [] ==> m.state.from.Some?)
    && (m.state.from.Some? ==> m.state.greeted)
    && (m.state.greeted <==> exists i :: 0 <= i < |m.log| && Greets(m.log[i]))
    && EnvelopeIs(accepts, m.log, m.state.from, m.state.rcpts)
    && DeliveriesAre(accepts, m.log, m.deliveries)
    && (m.mode.Payload? ==> m.state.from.Some?)
  }

  ghost predicate Tallied(cfg: Config, banner: seq<string>, m: Server) {
    && m.errors == Errors(cfg, m.log)
    && |m.replies| == |banner| + Commands(m.log) + Payloads(m.log) + GaveUps(m.log)
    && GoAheads(m.log) == Payloads(m.log) + (if m.mode.Payload? then 1 else 0)
    && GaveUps(m.log) == (if m.errors > ERROR_THRESHOLD then 1 else 0)
    && m.errors <= ERROR_THRESHOLD + 1
    && (m.errors > ERROR_THRESHOLD ==> m.mode == Closed(Done))
  }

  // ---- how the log grows -----------------------------------------------------------------

  lemma TallySnoc(cfg: Config, log: seq<Exchange>, x: Exchange)
    ensures Commands(log + [x]) == Commands(log) + if x.Asked? then 1 else 0
    ensures GoAheads(log + [x]) == GoAheads(log) + if x.Asked? && HasCode(x.reply, "354") then 1 else 0
    ensures Errors(cfg, log + [x]) == Errors(cfg, log) + if IsError(cfg, x) then 1 else 0
    ensures Payloads(log + [x]) == Payloads(log) + if x.Received? then 1 else 0
    ensures GaveUps(log + [x]) == GaveUps(log) + if x.GaveUp? then 1 else 0
  {
    assert (log + [x])[..|log|] == log;
  }

  lemma KeptSnoc(accepts: Accepts, log: seq<Exchange>, x: Exchange)
    ensures Kept(accepts, log + [x]) == Kept(accepts, log) + KeptOf(accepts, x)
  {
    assert (log + [x])[..|log|] == log;
  }

  /** A new entry closes, opens or extends the envelope. */
  lemma OpenedSnoc(log: seq<Exchange>, x: Exchange, i: nat)
    ensures OpenedAt(log + [x], i)
      <==> (i == |log| && MailOf(x).Some?) || (OpenedAt(log, i) && MailOf(x).None? && !Resets(x))
  {
    hide MailOf, Resets;
    var log' := log + [x];
    assert log'[|log|] == x;
    assert forall k :: 0 <= k < |log| ==> log'[k] == log[k];
  }

  lemma EnvelopeSnoc(accepts: Accepts, log: seq<Exchange>, x: Exchange, from: Option<string>, rcpts: seq<string>)
    requires EnvelopeIs(accepts, log, from, rcpts)
    ensures MailOf(x).Some? ==> EnvelopeIs(accepts, log + [x], MailOf(x), [])
    ensures MailOf(x).None? && Resets(x) ==> EnvelopeIs(accepts, log + [x], None, [])
    ensures MailOf(x).None? && !Resets(x)
        ==> EnvelopeIs(accepts, log + [x], from, if from.Some? then rcpts + KeptOf(accepts, x) else [])
  {
    hide MailOf, Resets, KeptOf;
    var log' := log + [x];
    if MailOf(x).Some? {
      OpenedSnoc(log, x, |log|);
      assert log'[|log| + 1..] == [];
    } else if !Resets(x) && from.Some? {
      var i: nat :| OpenedAt(log, i) && MailOf(log[i]) == from && rcpts == Kept(accepts, log[i + 1..]);
      OpenedSnoc(log, x, i);
      assert log'[i + 1..] == log[i + 1..] + [x];
      KeptSnoc(accepts, log[i + 1..], x);
    } else {
      forall i: nat ensures !OpenedAt(log', i) {
        OpenedSnoc(log, x, i);
      }
    }
  }

  /** At most one MAIL is open. */
  lemma OpenedOnce(log: seq<Exchange>, i: nat, j: nat)
    requires OpenedAt(log, i) && OpenedAt(log, j)
    ensures i == j
  {
  }

  /** An open envelope without recipients is exactly an empty one. */
  lemma EmptyEnvelope(accepts: Accepts, log: seq<Exchange>, from: Option<string>, rcpts: seq<string>)
    requires EnvelopeIs(accepts, log, from, rcpts)
    ensures EnvelopeEmpty(accepts, log) <==> rcpts == []
  {
    hide MailOf, Resets, KeptOf;
    if from.Some? {
      var i: nat :| OpenedAt(log, i) && MailOf(log[i]) == from && rcpts == Kept(accepts, log[i + 1..]);
      forall j: nat | OpenedAt(log, j) ensures j == i {
        OpenedOnce(log, i, j);
      }
    }
  }

  // ---- one step --------------------------------------------------------------------------

  lemma ReplyCode(code: string, text: string, want: string)
    requires |code| == 3 && |want| == 3
    ensures HasCode(Reply(code, text), want) <==> code == want
  {
    assert Reply(code, text)[..3] == code;
  }

  /** What a reaction shows in the log agrees with what it does to the state. */
  ghost predicate Shows(cfg: Config, accepts: Accepts, s: SessionState, line: string, r: Reaction) {
    var x := Asked(line, r.reply);
    && (MailOf(x).Some? ==> r.state.from == MailOf(x) && r.state.rcpts == [])
    && (MailOf(x).None? && Resets(x) ==> r.state.from == None && r.state.rcpts == [])
    && (MailOf(x).None? && !Resets(x) ==>
          r.state.from == s.from && r.state.rcpts == if s.from.Some? then s.rcpts + KeptOf(accepts, x) else [])
    && (r.state.greeted <==> s.greeted || Greets(x))
    && (r.state.from.Some? ==> r.state.greeted)
    && (r.next == AwaitPayload ==> r.state.from.Some?)
    && (HasCode(r.reply, "354") <==> r.next == AwaitPayload)
    && (IsError(cfg, x) <==> r.next == CountError)
  }

  lemma ReactShows(cfg: Config, accepts: Accepts, s: SessionState, line: string)
    requires (s.rcpts != [] ==> s.from.Some?) && (s.from.Some? ==> s.greeted)
    ensures Shows(cfg, accepts, s, line, React(cfg, accepts, s, line))
  {
    hide *;
    match SplitCommand(line)
    case BadCommand => BadShapeShows(cfg, accepts, s, line);
    case Verb(verb, rest) =>
      if verb == "MAIL" {
        MailReacts(cfg, accepts, s, line, rest);
      } else if verb == "RCPT" {
        RcptReacts(cfg, accepts, s, line, rest);
      } else if verb == "EHLO" || verb == "HELO" {
        GreetingShows(cfg, accepts, s, line, verb, rest);
      } else if verb == "DATA" {
        DataShows(cfg, accepts, s, line, rest);
      } else {
        OtherShows(cfg, accepts, s, line, verb, rest);
      }
  }

  lemma BadShapeShows(cfg: Config, accepts: Accepts, s: SessionState, line: string)
    requires SplitCommand(line).BadCommand?
    requires (s.rcpts != [] ==> s.from.Some?) && (s.from.Some? ==> s.greeted)
    ensures Shows(cfg, accepts, s, line, React(cfg, accepts, s, line))
  {
    hide SplitCommand;
    ReplyCode("501", "5.5.2 Bad command", "354");
    assert s.rcpts + [] == s.rcpts;
  }

  lemma MailReacts(cfg: Config, accepts: Accepts, s: SessionState, line: string, rest: string)
    requires SplitCommand(line) == Verb("MAIL", rest)
    requires (s.rcpts != [] ==> s.from.Some?) && (s.from.Some? ==> s.greeted)
    ensures Shows(cfg, accepts, s, line, React(cfg, accepts, s, line))
  {
    hide SplitCommand, ParsePath, ReactMail, ReactRcpt, ReactData, EhloReply, Fixed, HasCode, MailOf, KeptOf;
    MailShows(cfg, accepts, s, line, rest);
    assert s.rcpts + [] == s.rcpts;
  }

  lemma RcptReacts(cfg: Config, accepts: Accepts, s: SessionState, line: string, rest: string)
    requires SplitCommand(line) == Verb("RCPT", rest)
    requires (s.rcpts != [] ==> s.from.Some?) && (s.from.Some? ==> s.greeted)
    ensures Shows(cfg, accepts, s, line, React(cfg, accepts, s, line))
  {
    hide SplitCommand, ParsePath, ReactMail, ReactRcpt, ReactData, EhloReply, Fixed, HasCode, MailOf, KeptOf;
    RcptShows(cfg, accepts, s, line, rest);
  }

  lemma MailShows(cfg: Config, accepts: Accepts, s: SessionState, line: string, rest: string)
    requires SplitCommand(line) == Verb("MAIL", rest)
    requires (s.rcpts != [] ==> s.from.Some?) && (s.from.Some? ==> s.greeted)
    ensures var r := ReactMail(s, rest);
            var x := Asked(line, r.reply);
            && (MailOf(x).Some? ==> r.state.from == MailOf(x) && r.state.rcpts == [])
            && (MailOf(x).None? ==> r.state == s)
            && (r.state.from.Some? ==> r.state.greeted)
            && (r.state.greeted <==> s.greeted)
            && KeptOf(accepts, x) == [] && !HasCode(r.reply, "354") && r.next == More
  {
    hide ParsePath;
    var r := ReactMail(s, rest);
    var path := ParsePath(rest, "FROM:");
    ReplyCode("502", "5.5.1 Please introduce yourself first.", "250");
    ReplyCode("502", "5.5.1 Please introduce yourself first.", "354");
    ReplyCode("501", "5.5.2 Was expecting MAIL arg syntax of FROM:<address>", "250");
    ReplyCode("501", "5.5.2 Was expecting MAIL arg syntax of FROM:<address>", "354");
    if path.Some? {
      ReplyCode("250", "2.0.0 Roger, accepting mail from <" + path.value + ">", "250");
      ReplyCode("250", "2.0.0 Roger, accepting mail from <" + path.value + ">", "354");
    }
  }

  lemma RcptShows(cfg: Config, accepts: Accepts, s: SessionState, line: string, rest: string)
    requires SplitCommand(line) == Verb("RCPT", rest)
    requires s.rcpts != [] ==> s.from.Some?
    ensures var r := ReactRcpt(accepts, s, rest);
            var x := Asked(line, r.reply);
            && MailOf(x).None? && r.state == s.(rcpts := r.state.rcpts)
            && r.state.rcpts == (if s.from.Some? then s.rcpts + KeptOf(accepts, x) else [])
            && !HasCode(r.reply, "354") && r.next == More
  {
    hide ParsePath;
    var path := ParsePath(rest, "TO:");
    ReplyCode("502", "5.5.1 Missing MAIL FROM command.", "250");
    ReplyCode("502", "5.5.1 Missing MAIL FROM command.", "354");
    ReplyCode("501", "5.5.2 Was expecting RCPT arg syntax of TO:<address>", "250");
    ReplyCode("501", "5.5.2 Was expecting RCPT arg syntax of TO:<address>", "354");
    if path.Some? {
      ReplyCode("250", "2.0.0 I'll make sure <" + path.value + "> gets this", "250");
      ReplyCode("250", "2.0.0 I'll make sure <" + path.value + "> gets this", "354");
    }
  }

  lemma GreetingShows(cfg: Config, accepts: Accepts, s: SessionState, line: string, verb: string, rest: string)
    requires SplitCommand(line) == Verb(verb, rest) && verb in {"EHLO", "HELO"}
    ensures Shows(cfg, accepts, s, line, React(cfg, accepts, s, line))
  {
    hide SplitCommand;
    ReplyCode("250", "2.0.0 Hello " + rest, "354");
    assert EhloReply(cfg, rest)[0] == '2';
  }

  lemma DataShows(cfg: Config, accepts: Accepts, s: SessionState, line: string, rest: string)
    requires SplitCommand(line) == Verb("DATA", rest)
    requires (s.rcpts != [] ==> s.from.Some?) && (s.from.Some? ==> s.greeted)
    ensures Shows(cfg, accepts, s, line, React(cfg, accepts, s, line))
  {
    hide SplitCommand;
    ReplyCode("502", "5.5.1 Missing RCPT TO command.", "354");
    ReplyCode("354", "Go ahead. End your data with <CR><LF>.<CR><LF>", "354");
    assert KeptOf(accepts, Asked(line, ReactData(s).reply)) == [];
  }

  lemma OtherShows(cfg: Config, accepts: Accepts, s: SessionState, line: string, verb: string, rest: string)
    requires SplitCommand(line) == Verb(verb, rest)
    requires verb !in {"MAIL", "RCPT", "EHLO", "HELO", "DATA"}
    requires (s.rcpts != [] ==> s.from.Some?) && (s.from.Some? ==> s.greeted)
    ensures Shows(cfg, accepts, s, line, React(cfg, accepts, s, line))
  {
    hide SplitCommand;
    ReplyCode("250", "2.0.0 Session reset", "354");
    ReplyCode(Fixed(cfg, verb).0, Fixed(cfg, verb).1, "354");
    if verb != "RSET" {
      FixedErrors(cfg, verb);
    }
    var x := Asked(line, React(cfg, accepts, s, line).reply);
    assert MailOf(x).None? && KeptOf(accepts, x) == [];
    assert s.rcpts + [] == s.rcpts;
  }

  lemma FixedErrors(cfg: Config, verb: string)
    requires verb !in {"MAIL", "RCPT", "EHLO", "HELO", "DATA", "RSET"}
    ensures Fixed(cfg, verb).2.CountError? <==> !Known(cfg, verb)
  {
  }

  // ---- preservation --------------------------------------------------------------------

  lemma SnocFront<T>(s: seq<T>, x: T)
    ensures (s + [x])[..|s|] == s && (s + [x])[|s|] == x
  {
  }

  lemma DeliveriesSnoc(accepts: Accepts, log: seq<Exchange>, x: Exchange, ds: seq<Delivery>)
    requires DeliveriesAre(accepts, log, ds) && !x.Received?
    ensures DeliveriesAre(accepts, log + [x], ds)
  {
    SnocFront(log, x);
  }

  lemma GreetsSnoc(log: seq<Exchange>, x: Exchange)
    ensures (exists i :: 0 <= i < |log + [x]| && Greets((log + [x])[i]))
    <==> (exists i :: 0 <= i < |log| && Greets(log[i])) || Greets(x)
  {
    hide Greets;
    SnocFront(log, x);
    if exists i :: 0 <= i < |log| && Greets(log[i]) {
      var i :| 0 <= i < |log| && Greets(log[i]);
      assert (log + [x])[i] == log[i];
    }
  }

  lemma CommandKeepsFaith(cfg: Config, accepts: Accepts, banner: seq<string>, m: Server, line: string)
    requires Faithful(cfg, accepts, banner, m) && m.mode.Commands?
    ensures Faithful(cfg, accepts, banner, TakeCommand(cfg, accepts, m, line))
  {
    hide React, MailOf, KeptOf, Resets, Greets, IsError, EnvelopeIs, DeliveriesAre;
    var r := React(cfg, accepts, m.state, line);
    var x := Asked(line, r.reply);
    ReactShows(cfg, accepts, m.state, line);
    EnvelopeSnoc(accepts, m.log, x, m.state.from, m.state.rcpts);
    DeliveriesSnoc(accepts, m.log, x, m.deliveries);
    GreetsSnoc(m.log, x);
    var m' := m.(state := r.state, replies := m.replies + [r.reply], log := m.log + [x]);
    assert Faithful(cfg, accepts, banner, m');
    if r.next == CountError {
      ErrorKeepsFaith(cfg, accepts, banner, m');
    }
  }

  lemma ErrorKeepsFaith(cfg: Config, accepts: Accepts, banner: seq<string>, m: Server)
    requires Faithful(cfg, accepts, banner, m) && m.mode.Commands?
    ensures Faithful(cfg, accepts, banner, ProtocolError(m))
  {
    hide MailOf, KeptOf, Resets, Greets, EnvelopeIs, DeliveriesAre;
    EnvelopeSnoc(accepts, m.log, GaveUp, m.state.from, m.state.rcpts);
    GaveUpShows(accepts);
    DeliveriesSnoc(accepts, m.log, GaveUp, m.deliveries);
    GreetsSnoc(m.log, GaveUp);
    assert m.state.rcpts + [] == m.state.rcpts;
  }

  lemma GaveUpShows(accepts: Accepts)
    ensures MailOf(GaveUp).None? && !Resets(GaveUp) && KeptOf(accepts, GaveUp) == [] && !Greets(GaveUp)
  {
  }

  lemma EndKeepsFaith(cfg: Config, accepts: Accepts, banner: seq<string>, m: Server)
    requires Faithful(cfg, accepts, banner, m) && m.mode.Payload?
    ensures Faithful(cfg, accepts, banner, EndPayload(m))
  {
    hide EnvelopeIs, EnvelopeEmpty, DeliveriesAre, MailOf, KeptOf, Greets;
    var x := Received(m.mode.raw);
    ReceivedShows(accepts, m.mode.raw);
    EnvelopeSnoc(accepts, m.log, x, m.state.from, m.state.rcpts);
    GreetsSnoc(m.log, x);
    DeliversEnvelope(accepts, m);
  }

  lemma ReceivedShows(accepts: Accepts, raw: string)
    ensures MailOf(Received(raw)).None? && Resets(Received(raw)) && !Greets(Received(raw))
  {
  }

  lemma DeliversEnvelope(accepts: Accepts, m: Server)
    requires m.mode.Payload? && m.state.from.Some? && EnvelopeIs(accepts, m.log, m.state.from, m.state.rcpts)
    requires DeliveriesAre(accepts, m.log, m.deliveries)
    ensures DeliveriesAre(accepts, EndPayload(m).log, EndPayload(m).deliveries)
  {
    EmptyEnvelope(accepts, m.log, m.state.from, m.state.rcpts);
    SnocFront(m.log, Received(m.mode.raw));
    SnocFront(m.deliveries, Delivery(Sender(m.state), m.state.rcpts, m.mode.raw));
    hide EnvelopeIs, EnvelopeEmpty;
  }

  lemma LineKeepsFaith(cfg: Config, accepts: Accepts, banner: seq<string>, m: Server, line: string)
    requires Faithful(cfg, accepts, banner, m)
    ensures Faithful(cfg, accepts, banner, TakeLine(cfg, accepts, m, line))
  {
    hide React, EnvelopeIs, DeliveriesAre;
    match m.mode
    case Commands => CommandKeepsFaith(cfg, accepts, banner, m, line);
    case Payload(_) =>
      if Body(line) == "." {
        EndKeepsFaith(cfg, accepts, banner, m);
      }
    case Closed(_) =>
  }

  lemma LineKeepsTally(cfg: Config, accepts: Accepts, banner: seq<string>, m: Server, line: string)
    requires Tallied(cfg, banner, m) && Faithful(cfg, accepts, banner, m)
    ensures Tallied(cfg, banner, TakeLine(cfg, accepts, m, line))
  {
    hide React, Body, Tallied, Faithful, Unstuff;
    match m.mode
    case Commands => CommandKeepsTally(cfg, accepts, banner, m, line);
    case Payload(raw) =>
      if Body(line) == "." {
        EndKeepsTally(cfg, banner, m);
      } else {
        MoreKeepsTally(cfg, banner, m, m.(mode := Payload(raw + Unstuff(line))));
      }
    case Closed(_) =>
  }

  lemma MoreKeepsTally(cfg: Config, banner: seq<string>, m: Server, m': Server)
    requires Tallied(cfg, banner, m) && m.mode.Payload? && m'.mode.Payload? && m' == m.(mode := m'.mode)
    ensures Tallied(cfg, banner, m')
  {
    hide Commands, GoAheads, Errors, Payloads, GaveUps;
  }

  lemma NoErrorInGivingUp(cfg: Config)
    ensures !IsError(cfg, GaveUp)
  {
  }

  lemma CommandKeepsTally(cfg: Config, accepts: Accepts, banner: seq<string>, m: Server, line: string)
    requires Tallied(cfg, banner, m) && Faithful(cfg, accepts, banner, m) && m.mode.Commands?
    ensures Tallied(cfg, banner, TakeCommand(cfg, accepts, m, line))
  {
    hide React, Commands, GoAheads, Errors, Payloads, GaveUps, EnvelopeIs, DeliveriesAre, HasCode, IsError, MailOf, KeptOf;
    NoErrorInGivingUp(cfg);
    var r := React(cfg, accepts, m.state, line);
    ReactShows(cfg, accepts, m.state, line);
    TallySnoc(cfg, m.log, Asked(line, r.reply));
    TallySnoc(cfg, m.log + [Asked(line, r.reply)], GaveUp);
  }

  lemma EndKeepsTally(cfg: Config, banner: seq<string>, m: Server)
    requires Tallied(cfg, banner, m) && m.mode.Payload?
    ensures Tallied(cfg, banner, EndPayload(m))
  {
    TallySnoc(cfg, m.log, Received(m.mode.raw));
  }

  ghost predicate Inv(cfg: Config, accepts: Accepts, banner: seq<string>, m: Server) {
    Faithful(cfg, accepts, banner, m) && Tallied(cfg, banner, m)
  }

  /** The invariants do not look at the bytes of an incomplete line. */
  lemma PartialIsInvisible(cfg: Config, accepts: Accepts, banner: seq<string>, m: Server, partial: string)
    requires Inv(cfg, accepts, banner, m)
    ensures Inv(cfg, accepts, banner, m.(partial := partial))
  {
  }

  lemma LineKeepsInv(cfg: Config, accepts: Accepts, banner: seq<string>, m: Server, line: string)
    requires Inv(cfg, accepts, banner, m)
    ensures Inv(cfg, accepts, banner, TakeLine(cfg, accepts, m, line))
  {
    hide TakeLine;
    LineKeepsFaith(cfg, accepts, banner, m, line);
    LineKeepsTally(cfg, accepts, banner, m, line);
  }

  lemma StartHolds(cfg: Config, accepts: Accepts, banner: seq<string>)
    ensures Inv(cfg, accepts, banner, Start(banner))
  {
  }

  lemma {:induction false} FeedKeepsInv(cfg: Config, accepts: Accepts, banner: seq<string>, m: Server, bytes: string)
    requires Inv(cfg, accepts, banner, m)
    ensures Inv(cfg, accepts, banner, Feed(cfg, accepts, m, bytes))
    decreases |bytes|
  {
    if bytes != "" && !m.mode.Closed? {
      hide Inv, TakeLine;
      var line := m.partial + [bytes[0]];
      if bytes[0] == '\n' {
        PartialIsInvisible(cfg, accepts, banner, m, "");
        LineKeepsInv(cfg, accepts, banner, m.(partial := ""), line);
        FeedKeepsInv(cfg, accepts, banner, TakeLine(cfg, accepts, m.(partial := ""), line), bytes[1..]);
      } else {
        PartialIsInvisible(cfg, accepts, banner, m, line);
        FeedKeepsInv(cfg, accepts, banner, m.(partial := line), bytes[1..]);
      }
    }
  }

  // ---- the theorems ------------------------------------------------------------------------

  /**
   At every moment of every session: recipients need a sender and a sender needs
   a greeting, the envelope is the one the log leaves open, and every delivery so
   far carried exactly the recipients kept since the MAIL open when its payload
   ended.
   */
  lemma EnvelopesAreFaithful(cfg: Config, accepts: Accepts, banner: seq<string>, input: string)
    ensures var m := Feed(cfg, accepts, Start(banner), input);
            && (m.state.rcpts != [] ==> m.state.from.Some?)
            && (m.state.from.Some? ==> exists i :: 0 <= i < |m.log| && Greets(m.log[i]))
            && EnvelopeIs(accepts, m.log, m.state.from, m.state.rcpts)
            && DeliveriesAre(accepts, m.log, m.deliveries)
  {
    hide Feed;
    StartHolds(cfg, accepts, banner);
    FeedKeepsInv(cfg, accepts, banner, Start(banner), input);
  }

  /** The same for the whole session, the peer's disappearance included. */
  lemma RunIsFaithful(cfg: Config, accepts: Accepts, banner: seq<string>, input: string)
    ensures var m := Run(cfg, accepts, banner, input);
            Inv(cfg, accepts, banner, m) && m.mode.Closed?
  {
    hide Feed, React, TakeLine, EnvelopeIs, DeliveriesAre;
    var m := Feed(cfg, accepts, Start(banner), input);
    StartHolds(cfg, accepts, banner);
    FeedKeepsInv(cfg, accepts, banner, Start(banner), input);
    if !m.mode.Closed? {
      PartialIsInvisible(cfg, accepts, banner, m, "");
      LineKeepsInv(cfg, accepts, banner, m.(partial := ""), m.partial);
      var m1 := if m.partial == "" then m else TakeLine(cfg, accepts, m.(partial := ""), m.partial);
      if m1.mode.Payload? {
        EndKeepsFaith(cfg, accepts, banner, m1);
        EndKeepsTally(cfg, banner, m1);
      }
    }
  }

  /**
   The fourth bad shape, empty command or unknown verb ends the session, and
   nothing else makes it give up; and replies are accounted for one by one.
   */
  lemma RepliesAreCounted(cfg: Config, accepts: Accepts, banner: seq<string>, input: string)
    ensures var m := Run(cfg, accepts, banner, input);
            var gaveUp := Errors(cfg, m.log) == 4;
            && Errors(cfg, m.log) <= 4
            && (gaveUp ==> m.mode == Closed(Done))
            && |m.replies| == |banner| + Commands(m.log) + GoAheads(m.log) + (if gaveUp then 1 else 0)
  {
    RunIsFaithful(cfg, accepts, banner, input);
    hide Run, EnvelopeIs, DeliveriesAre, Commands, GoAheads, Errors, Payloads, GaveUps;
  }

  /**
   A connection lost inside a payload, in the middle of a line or not, does not lose the
   message: what arrived is delivered as if it were complete, and answered 250.  It is
   discarded exactly when no recipient was kept.
   */
  lemma TruncatedPayloadIsDelivered(cfg: Config, accepts: Accepts, banner: seq<string>, input: string)
    requires Feed(cfg, accepts, Start(banner), input).mode.Payload?
    ensures var m, r := Feed(cfg, accepts, Start(banner), input), Run(cfg, accepts, banner, input);
            var line := m.partial;
            var arrived := m.mode.raw + if line == "" || Body(line) == "." then "" else Unstuff(line);
            && (m.state.rcpts != [] ==> m.state.from.Some?)
            && r.deliveries == m.deliveries
                             + (if m.state.rcpts == [] then [] else [Delivery(m.state.from.value, m.state.rcpts, arrived)])
            && r.replies == m.replies + [Queued()]
  {
    EnvelopesAreFaithful(cfg, accepts, banner, input);
    hide Feed, EnvelopeIs, DeliveriesAre, Body, Unstuff;
    var m := Feed(cfg, accepts, Start(banner), input);
    assert m.mode.raw + "" == m.mode.raw && m.deliveries + [] == m.deliveries;
  }
}
