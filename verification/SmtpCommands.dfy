/**
 The command lines a server reads, exactly: which shapes are commands, and which
 arguments of MAIL and RCPT hold an address.
 */
module SmtpCommands {
  import opened Wrappers
  import opened Text
  import opened SmtpServer

  // ---- addresses -----------------------------------------------------------------

  predicate NoSpace(s: string) {
    forall i :: 0 <= i < |s| ==> !IsSpace(s[i])
  }

  /** The prefix in any case, with white space before and after it. */
  predicate Opens(before: string, word: string, between: string, prefix: string) {
    AllSpace(before) && EqIgnoreCase(word, prefix) && AllSpace(between)
  }

  /** The address stands in brackets, and anything may follow. */
  ghost predicate InBrackets(arg: string, prefix: string, addr: string) {
    exists before, word, between, params :: BracketsAt(arg, prefix, before, word, between, addr, params)
  }

  predicate BracketsAt(arg: string, prefix: string, before: string, word: string, between: string, addr: string, params: string) {
    && Opens(before, word, between, prefix) && NoChar(addr, '>')
    && arg == before + (word + (between + ("<" + addr + ">" + params)))
  }

  /** The address stands on its own, and what follows is kept apart by white space. */
  ghost predicate Unbracketed(arg: string, prefix: string, addr: string) {
    exists before, word, between, params :: WordAt(arg, prefix, before, word, between, addr, params)
  }

  predicate WordAt(arg: string, prefix: string, before: string, word: string, between: string, addr: string, params: string) {
    && Opens(before, word, between, prefix)
    && addr != "" && NoSpace(addr) && addr[0] != '<' && (params != "" ==> IsSpace(params[0]))
    && arg == before + (word + (between + (addr + params)))
  }

  lemma {:induction false} TrimStartSplits(s: string)
    ensures AllSpace(s[..|s| - |TrimStart(s)|]) && s == s[..|s| - |TrimStart(s)|] + TrimStart(s)
  {
    hide TrimStart, IsSpace;
    if s != "" && IsSpace(s[0]) {
      TrimStartSplits(s[1..]);
      FirstOf(s);
      TrimStartStep(s[0], s[1..]);
      OneMoreSpace(s, |s[1..]| - |TrimStart(s[1..])|);
    } else {
      TrimStartHere(s);
    }
  }

  lemma OneMoreSpace(s: string, k: nat)
    requires s != "" && IsSpace(s[0]) && k < |s| && AllSpace(s[1..][..k])
    ensures AllSpace(s[..k + 1]) && s == s[..k + 1] + s[k + 1..]
  {
    hide IsSpace;
    var head := s[..k + 1];
    forall i | 0 <= i < |head| ensures IsSpace(head[i]) {
      if i > 0 {
        assert head[i] == s[1..][..k][i - 1];
      }
    }
  }

  lemma {:induction false} FirstWordOf(addr: string, params: string)
    requires NoSpace(addr) && (params != "" ==> IsSpace(params[0]))
    ensures FirstWord(addr + params) == addr
  {
    if addr == "" {
      assert addr + params == params;
    } else {
      FirstWordOf(addr[1..], params);
      assert (addr + params)[1..] == addr[1..] + params;
    }
  }

  predicate StartsDark(prefix: string) {
    prefix != "" && !IsSpace(prefix[0])
  }

  lemma SameLength(word: string, prefix: string)
    requires EqIgnoreCase(word, prefix) && StartsDark(prefix)
    ensures |word| == |prefix| && word != "" && !IsSpace(word[0])
  {
    assert |ToLower(word)| == |ToLower(prefix)|;
    assert LowerChar(word[0]) == ToLower(word)[0] == ToLower(prefix)[0] == LowerChar(prefix[0]);
  }

  /** What is left once the prefix is off: the argument from its first dark character on. */
  lemma PrefixOff(before: string, word: string, between: string, rest: string, prefix: string)
    requires Opens(before, word, between, prefix) && StartsDark(prefix) && (rest != "" ==> !IsSpace(rest[0]))
    ensures var arg := TrimStart(before + (word + (between + rest)));
            && |arg| >= |prefix| && EqIgnoreCase(arg[..|prefix|], prefix) && TrimStart(arg[|prefix|..]) == rest
  {
    SameLength(word, prefix);
    hide EqIgnoreCase, TrimStart;
    var arg := word + (between + rest);
    TrimStartPast(before, arg);
    assert arg[..|prefix|] == word && arg[|prefix|..] == between + rest;
    TrimStartPast(between, rest);
  }

  /** Once the prefix is off and the white space after it. */
  lemma ParsesRest(arg: string, prefix: string, path: string)
    requires |TrimStart(arg)| >= |prefix| && EqIgnoreCase(TrimStart(arg)[..|prefix|], prefix)
    requires TrimStart(TrimStart(arg)[|prefix|..]) == path
    ensures ParsePath(arg, prefix)
         == if path != "" && path[0] == '<' then
              match FindChar(path[1..], '>') case None => None case Some(end) => Some(path[1..][..end])
            else if FirstWord(path) == "" then None else Some(FirstWord(path))
  {
    hide TrimStart, EqIgnoreCase, FirstWord, FindChar;
  }

  lemma BracketFound(addr: string, params: string)
    requires NoChar(addr, '>')
    ensures var path := "<" + addr + ">" + params;
            path[1..] == addr + ['>'] + params && FindChar(path[1..], '>') == Some(|addr|) && path[1..][..|addr|] == addr
  {
    FindCharAt(addr, '>', params);
    assert ("<" + addr + ">" + params)[1..] == addr + ['>'] + params;
    hide FindChar;
  }

  lemma ReadsBrackets(arg: string, prefix: string, before: string, word: string, between: string, addr: string, params: string)
    requires StartsDark(prefix) && BracketsAt(arg, prefix, before, word, between, addr, params)
    ensures ParsePath(arg, prefix) == Some(addr)
  {
    hide TrimStart, EqIgnoreCase, FirstWord, Opens, FindChar, ParsePath;
    var path := "<" + addr + ">" + params;
    PrefixOff(before, word, between, path, prefix);
    ParsesRest(arg, prefix, path);
    BracketFound(addr, params);
  }

  lemma ReadsWord(arg: string, prefix: string, before: string, word: string, between: string, addr: string, params: string)
    requires StartsDark(prefix) && WordAt(arg, prefix, before, word, between, addr, params)
    ensures ParsePath(arg, prefix) == Some(addr)
  {
    hide TrimStart, EqIgnoreCase, FirstWord, Opens, FindChar, ParsePath;
    PrefixOff(before, word, between, addr + params, prefix);
    ParsesRest(arg, prefix, addr + params);
    FirstWordOf(addr, params);
  }

  lemma BracketIsSpelled(path: string, end: nat)
    requires path != "" && path[0] == '<' && FindChar(path[1..], '>') == Some(end)
    ensures path == "<" + path[1..][..end] + ">" + path[1..][end + 1..] && NoChar(path[1..][..end], '>')
  {
    hide FindChar;
    var rest := path[1..];
    assert rest == rest[..end] + ">" + rest[end + 1..];
    assert path == "<" + rest;
  }

  lemma WordIsSpelled(path: string)
    requires FirstWord(path) != "" && path[0] != '<'
    ensures var addr, params := FirstWord(path), path[|FirstWord(path)|..];
            path == addr + params && NoSpace(addr) && addr[0] != '<' && (params != "" ==> IsSpace(params[0]))
  {
    hide FirstWord, IsSpace;
  }

  /** The pieces of an argument that has the prefix. */
  lemma Decompose(arg: string, prefix: string) returns (before: string, word: string, between: string)
    requires |TrimStart(arg)| >= |prefix| && EqIgnoreCase(TrimStart(arg)[..|prefix|], prefix)
    ensures Opens(before, word, between, prefix)
    ensures arg == before + (word + (between + TrimStart(TrimStart(arg)[|prefix|..])))
  {
    hide *;
    var tail := TrimStart(arg)[|prefix|..];
    before := SpaceBefore(arg);
    word := TrimStart(arg)[..|prefix|];
    between := SpaceBefore(tail);
    CutAt(TrimStart(arg), |prefix|);
    OpensWith(before, word, between, prefix);
  }

  lemma SpaceBefore(s: string) returns (before: string)
    ensures AllSpace(before) && s == before + TrimStart(s)
  {
    hide *;
    TrimStartSplits(s);
    before := s[..|s| - |TrimStart(s)|];
  }

  lemma CutAt(s: string, n: nat)
    requires n <= |s|
    ensures s == s[..n] + s[n..]
  {
  }

  lemma OpensWith(before: string, word: string, between: string, prefix: string)
    requires AllSpace(before) && EqIgnoreCase(word, prefix) && AllSpace(between)
    ensures Opens(before, word, between, prefix)
  {
  }

  /** An address that is read was spelled in one of the two ways. */
  lemma ReadIsSpelled(arg: string, prefix: string)
    requires ParsePath(arg, prefix).Some?
    ensures InBrackets(arg, prefix, ParsePath(arg, prefix).value) || Unbracketed(arg, prefix, ParsePath(arg, prefix).value)
  {
    hide *;
    ParsedOpens(arg, prefix);
    var before, word, between := Decompose(arg, prefix);
    var path := TrimStart(TrimStart(arg)[|prefix|..]);
    ParsesRest(arg, prefix, path);
    EmptyWord();
    if path != "" && path[0] == '<' {
      var end := FindChar(path[1..], '>').value;
      BracketIsSpelled(path, end);
      SpelledInBrackets(arg, prefix, before, word, between, path[1..][..end], path[1..][end + 1..]);
    } else {
      WordIsSpelled(path);
      SpelledAsWord(arg, prefix, before, word, between, FirstWord(path), path[|FirstWord(path)|..]);
    }
  }

  lemma SpelledInBrackets(arg: string, prefix: string, before: string, word: string, between: string, addr: string, params: string)
    requires Opens(before, word, between, prefix) && NoChar(addr, '>')
    requires arg == before + (word + (between + ("<" + addr + ">" + params)))
    ensures InBrackets(arg, prefix, addr)
  {
    assert BracketsAt(arg, prefix, before, word, between, addr, params);
  }

  lemma SpelledAsWord(arg: string, prefix: string, before: string, word: string, between: string, addr: string, params: string)
    requires Opens(before, word, between, prefix)
    requires addr != "" && NoSpace(addr) && addr[0] != '<' && (params != "" ==> IsSpace(params[0]))
    requires arg == before + (word + (between + (addr + params)))
    ensures Unbracketed(arg, prefix, addr)
  {
    assert WordAt(arg, prefix, before, word, between, addr, params);
  }

  lemma EmptyWord()
    ensures FirstWord("") == ""
  {
  }

  lemma ParsedOpens(arg: string, prefix: string)
    requires ParsePath(arg, prefix).Some?
    ensures |TrimStart(arg)| >= |prefix| && EqIgnoreCase(TrimStart(arg)[..|prefix|], prefix)
  {
    hide TrimStart, EqIgnoreCase, FirstWord, FindChar;
  }

  /**
   The argument of MAIL and RCPT, exactly: an address is read if and only if it is spelled
   in brackets or as a word of its own, whatever the case of the prefix and whatever
   parameters follow; and nothing is read if it is spelled in neither way.
   */
  lemma ParsePathExactly(arg: string, prefix: string, addr: string)
    requires StartsDark(prefix)
    ensures ParsePath(arg, prefix) == Some(addr) <==> InBrackets(arg, prefix, addr) || Unbracketed(arg, prefix, addr)
    ensures ParsePath(arg, prefix) == None <==> forall a :: !InBrackets(arg, prefix, a) && !Unbracketed(arg, prefix, a)
  {
    forall a | InBrackets(arg, prefix, a) ensures ParsePath(arg, prefix) == Some(a) {
      var before, word, between, params :| BracketsAt(arg, prefix, before, word, between, a, params);
      ReadsBrackets(arg, prefix, before, word, between, a, params);
    }
    forall a | Unbracketed(arg, prefix, a) ensures ParsePath(arg, prefix) == Some(a) {
      var before, word, between, params :| WordAt(arg, prefix, before, word, between, a, params);
      ReadsWord(arg, prefix, before, word, between, a, params);
    }
    hide ParsePath, InBrackets, Unbracketed;
    if ParsePath(arg, prefix).Some? {
      ReadIsSpelled(arg, prefix);
    }
  }

  // ---- command lines, exactly ----------------------------------------------------

  predicate AllEol(s: string) {
    forall i :: 0 <= i < |s| ==> IsEol(s[i])
  }

  lemma {:induction false} TrimEolPast(text: string, eol: string)
    requires AllEol(eol) && (text != "" ==> !IsEol(text[|text| - 1]))
    ensures TrimEol(text + eol) == text
    decreases |eol|
  {
    if eol == "" {
      assert text + eol == text;
    } else {
      TrimEolPast(text, eol[..|eol| - 1]);
      assert (text + eol)[..|text + eol| - 1] == text + eol[..|eol| - 1];
    }
  }

  predicate BeginsStartTls(text: string) {
    |text| >= 8 && EqIgnoreCase(text[..8], "STARTTLS")
  }

  /**
   A line has a command's shape if it is empty, a verb of four characters, or such a verb, a
   space and at least one more character; STARTTLS may run on into anything.
   */
  predicate Shaped(text: string) {
    text == "" || |text| == 4 || (|text| > 5 && text[4] == ' ') || BeginsStartTls(text)
  }

  /** Verbs are read in any case, and their argument without the white space around it. */
  lemma SplitCommandExactly(text: string, eol: string)
    requires AllEol(eol) && (text != "" ==> !IsEol(text[|text| - 1]))
    ensures SplitCommand(text + eol) == BadCommand <==> !Shaped(text)
    ensures BeginsStartTls(text) ==> SplitCommand(text + eol) == Verb("STARTTLS", "")
    ensures text == "" ==> SplitCommand(text + eol) == Verb("", "")
  {
    TrimEolPast(text, eol);
    hide EqIgnoreCase, TrimEol, Trim, ToUpper;
  }

  lemma VerbAndArgument(verb: string, before: string, arg: string, after: string, eol: string)
    requires |verb| == 4 && AllEol(eol) && AllSpace(before) && AllSpace(after) && NoEolAt(verb)
    requires arg != "" && !IsSpace(arg[0]) && !IsSpace(arg[|arg| - 1]) && NoEolAt(after)
    ensures SplitCommand(verb + " " + (before + arg + after) + eol) == Verb(ToUpper(verb), arg)
    ensures SplitCommand(verb + eol) == Verb(ToUpper(verb), "")
  {
    hide EqIgnoreCase, TrimEol, Trim, ToUpper;
    var tail := before + arg + after;
    TrimEolPast(verb, eol);
    TrimsBoth(before, arg, after);
    LastOf(before, arg, after);
    assert verb + " " + tail != "" && (verb + " " + tail)[|verb + " " + tail| - 1] == tail[|tail| - 1];
    TrimEolPast(verb + " " + tail, eol);
    SplitsVerb(verb, tail, verb + " " + tail + eol);
  }

  lemma LastOf(before: string, arg: string, after: string)
    requires arg != "" && !IsSpace(arg[|arg| - 1]) && NoEolAt(after)
    ensures var tail := before + arg + after; tail != "" && !IsEol(tail[|tail| - 1])
  {
    var tail := before + arg + after;
    assert tail[|tail| - 1] == if after == "" then arg[|arg| - 1] else after[|after| - 1];
  }

  lemma SplitsVerb(verb: string, tail: string, raw: string)
    requires |verb| == 4 && tail != "" && TrimEol(raw) == verb + " " + tail
    ensures SplitCommand(raw) == Verb(ToUpper(verb), Trim(tail))
  {
    hide EqIgnoreCase, TrimEol, Trim, ToUpper;
    var text := verb + " " + tail;
    assert text[..4] == verb && text[5..] == tail && text[4] == ' ';
    if |text| >= 8 {
      assert text[..8][4] == ' ';
      NotStartTls(text[..8]);
    }
  }

  predicate NoEolAt(s: string) {
    s != "" ==> !IsEol(s[|s| - 1])
  }

  lemma NotStartTls(s: string)
    requires |s| == 8 && s[4] == ' '
    ensures !EqIgnoreCase(s, "STARTTLS")
  {
    assert ToLower(s)[4] == ' ' && ToLower("STARTTLS")[4] == 't';
  }
}
