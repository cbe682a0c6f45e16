/** How the SMTP sink reads a command line and a line of a message, and a whole session over TLS. */
module SmtpCommands {
  import opened Basics
  import opened Text
  import opened SmtpSink

  // --- Command lines --------------------------------------------------------------------------

  lemma WordStarts()
    ensures "EHLO"[0] == 'E' && "HELO"[0] == 'H' && "AUTH"[0] == 'A' && "MAIL FROM"[0] == 'M'
    ensures "STARTTLS"[0] == 'S' && "RCPT TO"[0] == 'R' && "RCPT TO"[1] == 'C' && "DATA"[0] == 'D'
    ensures "RSET"[0] == 'R' && "RSET"[1] == 'S' && "QUIT"[0] == 'Q'
  {
  }

  lemma SmallWords()
    ensures Lower("STARTTLS") == "starttls" && Lower("DATA") == "data" && Lower("RSET") == "rset"
    ensures Lower("QUIT") == "quit" && Lower("RCPT TO") == "rcpt to"
  {
  }

  predicate IsCapital(word: string) { forall i | 0 <= i < |word| :: 'A' <= word[i] <= 'Z' || word[i] == ' ' }

  /** Comparing in capitals is comparing in small letters. */
  lemma CaseDoesNotMatter(s: string, word: string)
    requires IsCapital(word)
    ensures Upper(s) == word <==> Lower(s) == Lower(word)
    ensures word <= Upper(s) <==> Lower(word) <= Lower(s)
  {
    if |s| >= |word| {
      assert forall i | 0 <= i < |word| :: Upper(s)[i] == word[i] <==> Lower(s)[i] == Lower(word)[i];
    }
  }

  lemma CommandsByCapitals(raw: string)
    ensures
      var word := Upper(Strip(raw));
      && (Parse(raw).StartTls? <==> word == "STARTTLS")
      && (Parse(raw).Data? <==> word == "DATA")
      && (Parse(raw).Rset? <==> word == "RSET")
      && (Parse(raw).Quit? <==> word == "QUIT")
      && (Parse(raw).Rcpt? <==> "RCPT TO" <= word)
  {
    WordStarts();
  }

  /** Which lines are which commands: the line without blanks at its ends, in any case, is the word of the
      command, or begins with RCPT TO; every other line leaves the envelope alone. */
  lemma CommandsInPlainTerms(raw: string)
    ensures
      var word := Lower(Strip(raw));
      && (Parse(raw).StartTls? <==> word == "starttls")
      && (Parse(raw).Data? <==> word == "data")
      && (Parse(raw).Rset? <==> word == "rset")
      && (Parse(raw).Quit? <==> word == "quit")
      && (Parse(raw).Rcpt? <==> "rcpt to" <= word)
  {
    var line := Strip(raw);
    SmallWords();
    CommandsByCapitals(raw);
    CaseDoesNotMatter(line, "STARTTLS");
    CaseDoesNotMatter(line, "DATA");
    CaseDoesNotMatter(line, "RSET");
    CaseDoesNotMatter(line, "QUIT");
    CaseDoesNotMatter(line, "RCPT TO");
  }

  /** Text with no blank at its ends. */
  predicate IsBare(s: string) { s != [] && !IsSpace(s[0]) && !IsSpace(s[|s| - 1]) }

  lemma Unpadded(before: string, s: string, after: string)
    requires IsBlank(before) && IsBare(s) && IsBlank(after)
    ensures Strip(before + (s + after)) == s
  {
    BlanksAreStripped(before, s + after);
    BlanksAreStrippedRight(s, after);
  }

  /** A recipient is what stands behind the first colon, without blanks at its ends and without the angle
      brackets around it, if there are such. */
  lemma RecipientIsRead(word: string, blanks: string, value: string, after: string)
    requires Upper(word) == "RCPT TO" && ':' !in word
    requires IsBlank(blanks) && IsBare(value) && IsBlank(after)
    ensures
      var raw := word + (":" + (blanks + value)) + after;
      && (forall a | value == "<" + a + ">" :: Parse(raw) == Rcpt(a))
      && (value[0] != '<' || value[|value| - 1] != '>' ==> Parse(raw) == Rcpt(value))
  {
    var line := word + (":" + (blanks + value));
    RecipientLine(word, ":" + (blanks + value), after);
    Partitioned(word, ':', blanks + value);
    assert word + [':'] + (blanks + value) == line;
    Unpadded(blanks, value, []);
    assert value + [] == value;
    forall a | value == "<" + a + ">" ensures StripAngles(value) == a {
      assert value[1..|value| - 1] == a;
    }
  }

  lemma RecipientLine(word: string, rest: string, after: string)
    requires Upper(word) == "RCPT TO" && IsBlank(after) && rest != [] && !IsSpace(rest[|rest| - 1])
    ensures Strip(word + rest + after) == word + rest
    ensures Parse(word + rest + after) == Rcpt(StripAngles(Strip(After(word + rest, ':'))))
  {
    var line := word + rest;
    WordStarts();
    assert Upper(word)[0] == UpperChar(word[0]);
    assert [] + (line + after) == line + after;
    Unpadded([], line, after);
    UpperPrefix(line, word);
    assert Upper(line)[0] == 'R' && Upper(line)[1] == 'C';
  }

  // --- The lines of a message -------------------------------------------------------------------

  predicate IsEnd(end: string) { end == "\n" || end == "\r\n" }

  lemma EndedLine(line: string, end: string)
    requires IsClean(line) && IsEnd(end)
    ensures IsLine(line + end) && TrimRight(line + end, "\r\n") == line
  {
    if end == "\n" {
      UnixLine(line);
    } else {
      CleanLine(line);
    }
  }

  lemma UnixLine(line: string)
    requires IsClean(line)
    ensures IsLine(line + "\n") && TrimRight(line + "\n", "\r\n") == line
  {
    Trimmed(line, "\n", "\r\n");
    assert (line + "\n")[..|line + "\n"| - 1] == line;
  }

  lemma DotsInFront(line: string, end: string)
    requires IsEnd(end)
    ensures StartsWith(line + end, "..") <==> StartsWith(line, "..")
    ensures StartsWith(line, "..") ==> (line + end)[1..] == line[1..] + end
  {
    if |line| >= 2 {
      assert (line + end)[..2] == line[..2];
    } else if |line| == 1 {
      assert (line + end)[1] == end[0] && ".."[1] == '.';
    } else {
      assert (line + end)[0] == end[0] && ".."[0] == '.';
    }
  }

  /** The text of a message, line by line: it ends at a line that is a single dot, one of two dots in front
      of a line is dropped, and a single one is kept. */
  lemma DataLineByLine(line: string, end: string, tail: string)
    requires IsClean(line) && IsEnd(end)
    ensures ReadData(line + end + tail) ==
      if line == "." then ([], tail)
      else ((if StartsWith(line, "..") then line[1..] else line) + end + ReadData(tail).0, ReadData(tail).1)
  {
    EndedLine(line, end);
    LineThen(line + end, tail);
    DotsInFront(line, end);
  }

  lemma {:induction false} UnendedLine(s: string)
    requires '\n' !in s
    ensures FirstLine(s) == s && Rest(s) == []
  {
    if s != [] {
      UnendedLine(s[1..]);
    }
  }

  /** A text that breaks off is taken as far as it came. */
  lemma DataBreaksOff(line: string)
    requires IsClean(line) && line != []
    ensures ReadData(line) == (if line == "." then [] else if StartsWith(line, "..") then line[1..] else line, [])
  {
    UnendedLine(line);
    Trimmed(line, [], "\r\n");
    assert line + [] == line;
    assert ReadData([]) == ([], []);
  }

  /** A message answers for an address, in any case and with blanks around it, iff it has a code and one of
      its recipients is that address in any case. */
  lemma AnswersInAnyCase(message: Captured, before: string, address: string, after: string)
    requires IsBlank(before) && IsBare(address) && IsBlank(after)
    requires forall r | r in message.recipients :: IsBare(r)
    ensures Answers(message, before + (address + after)) <==>
      && message.code.Some? && message.code.value != ""
      && exists r :: r in message.recipients && Lower(r) == Lower(address)
  {
    Unpadded(before, address, after);
    forall r | r in message.recipients ensures Strip(r) == r {
      BareAngles(r);
    }
    if r :| r in message.recipients && Lower(r) == Lower(address) {
      var k :| 0 <= k < |message.recipients| && message.recipients[k] == r;
      assert Lower(Strip(message.recipients[k])) == Lower(address);
    }
  }

  // --- A session over TLS -----------------------------------------------------------------------

  lemma TlsIsHeard(line: string, lost: string, secured: string, upgrades: seq<string>)
    requires IsLine(line) && Parse(line).StartTls?
    ensures Conversation(SMTP, line + lost, [secured] + upgrades)
         == [Heard(StartTls, "")] + Conversation(SMTP, secured, upgrades)
  {
    LineThen(line, lost);
    assert ([secured] + upgrades)[1..] == upgrades;
  }

  /** What a client says that secures the connection, gives up one envelope, and sends mails: before the
      upgrade, and after it. */
  function Opening(hello: string, tls: string, lost: string): string { hello + (tls + lost) }

  function Secured(hello: string, auth: string, abandoned: seq<string>, reset: string, mails: seq<Mail>): string {
    hello + (auth + (Addressing(CLIENT, abandoned) + (reset + Session(CLIENT, mails))))
  }

  predicate IsPassed(line: string) { IsLine(line) && Parse(line).Other? }

  function SecuredLog(abandoned: seq<string>): seq<Heard> {
    [Heard(Other, "")] + ([Heard(Other, "")] + (Named(abandoned) + [Heard(Rset, "")]))
  }

  lemma SecuredIsHeard(hello: string, auth: string, abandoned: seq<string>, reset: string, mails: seq<Mail>, upgrades: seq<string>)
    requires IsPassed(hello) && IsPassed(auth) && IsLine(reset) && Parse(reset).Rset?
    requires forall i | 0 <= i < |abandoned| :: IsClean(abandoned[i])
    ensures Conversation(SMTP, Secured(hello, auth, abandoned, reset, mails), upgrades)
         == SecuredLog(abandoned) + Conversation(SMTP, Session(CLIENT, mails), upgrades)
  {
    var session := Session(CLIENT, mails);
    var (c, n, r, o) := (Conversation(SMTP, session, upgrades), Named(abandoned), [Heard(Rset, "")], [Heard(Other, "")]);
    ClientIsUnderstood();
    LineIsHeard(SMTP, reset, session, upgrades);
    AddressingIsHeard(SMTP, CLIENT, abandoned, reset + session, upgrades);
    LineIsHeard(SMTP, auth, Addressing(CLIENT, abandoned) + (reset + session), upgrades);
    LineIsHeard(SMTP, hello, auth + (Addressing(CLIENT, abandoned) + (reset + session)), upgrades);
    Grouping(n, r, c);
    Grouping(o, n + r, c);
    Grouping(o, o + (n + r), c);
  }

  lemma {:induction false} NamedLeavesNoLetter(log: seq<Heard>, abandoned: seq<string>, verb: Verb)
    requires verb.Rset?
    ensures Letters(log + (Named(abandoned) + [Heard(verb, "")])) == Letters(log)
    ensures RecipientsSince(log + (Named(abandoned) + [Heard(verb, "")])) == []
  {
    NamedAreSince(log, abandoned);
    LogGrows(log + Named(abandoned), Heard(verb, ""));
    Grouping(log, Named(abandoned), [Heard(verb, "")]);
  }

  lemma OpeningLeavesNothing(abandoned: seq<string>)
    ensures
      var log := [Heard(Other, "")] + ([Heard(StartTls, "")] + SecuredLog(abandoned));
      Letters(log) == [] && RecipientsSince(log) == []
  {
    var (o, t) := (Heard(Other, ""), Heard(StartTls, ""));
    var rest := Named(abandoned) + [Heard(Rset, "")];
    LogGrows([], o);
    assert [] + [o] == [o];
    LogGrows([o], t);
    LogGrows([o] + [t], o);
    LogGrows([o] + [t] + [o], o);
    NamedLeavesNoLetter([o] + [t] + [o] + [o], abandoned, Rset);
    InARow([o], [t], rest);
  }

  lemma InARow<T>(o: seq<T>, t: seq<T>, rest: seq<T>)
    ensures o + (t + (o + (o + rest))) == o + t + o + o + rest
  {
  }

  /** A greeting, the upgrade, a login, an envelope that is reset, and any mails: each mail is captured with
      its own recipients and text, and nothing else is; what was left of the plain stream is not heard. */
  lemma SecuredSessionIsCaptured(hello: string, tls: string, lost: string, auth: string, abandoned: seq<string>, reset: string,
                                 mails: seq<Mail>, upgrades: seq<string>)
    requires IsPassed(hello) && IsLine(tls) && Parse(tls).StartTls? && IsPassed(auth) && IsLine(reset) && Parse(reset).Rset?
    requires forall i | 0 <= i < |abandoned| :: IsClean(abandoned[i])
    requires forall i | 0 <= i < |mails| :: IsSendable(mails[i])
    ensures Letters(Conversation(SMTP, Opening(hello, tls, lost), [Secured(hello, auth, abandoned, reset, mails)] + upgrades))
         == Sent(mails)
  {
    var secured := Secured(hello, auth, abandoned, reset, mails);
    var (o, t, l) := ([Heard(Other, "")], [Heard(StartTls, "")], SecuredLog(abandoned));
    var c := Conversation(SMTP, Session(CLIENT, mails), upgrades);
    LineIsHeard(SMTP, hello, tls + lost, [secured] + upgrades);
    TlsIsHeard(tls, lost, secured, upgrades);
    SecuredIsHeard(hello, auth, abandoned, reset, mails, upgrades);
    OpeningLeavesNothing(abandoned);
    ClientIsUnderstood();
    SessionLeaves(SMTP, CLIENT, mails, upgrades, o + (t + l));
    Grouping(t, l, c);
    Grouping(o, t + l, c);
    assert [] + Sent(mails) == Sent(mails);
  }

  lemma PassedWord(line: string, word: string)
    requires IsClean(line) && IsBare(line) && (word == "EHLO" || word == "HELO" || word == "AUTH" || word == "NOOP")
    requires word <= Upper(line) && (word == "NOOP" ==> Upper(line) == word)
    ensures IsPassed(line + EOL)
  {
    CleanLine(line);
    BareLine(line);
    CommandsByCapitals(line + EOL);
    WordStarts();
    assert "NOOP"[0] == 'N' && Upper(line)[0] == word[0];
  }

  /** Lines that such a session can be made of. */
  lemma SessionWords()
    ensures IsLine("STARTTLS" + EOL) && Parse("STARTTLS" + EOL).StartTls?
    ensures IsLine("RSET" + EOL) && Parse("RSET" + EOL).Rset?
  {
    CleanLine("STARTTLS");
    CleanLine("RSET");
    assert Upper("STARTTLS") == "STARTTLS" && Upper("RSET") == "RSET";
    WordsAreUnderstood("STARTTLS");
    WordsAreUnderstood("RSET");
  }

  lemma GreetingPasses()
    ensures IsPassed("EHLO client" + EOL)
  {
    PassedUpper("EHLO client", "EHLO");
  }

  lemma LoginPasses()
    ensures IsPassed("AUTH PLAIN x" + EOL)
  {
    PassedUpper("AUTH PLAIN x", "AUTH");
  }

  lemma PassedUpper(line: string, word: string)
    requires IsClean(line) && IsBare(line) && (word == "EHLO" || word == "AUTH") && word <= line
    ensures IsPassed(line + EOL)
  {
    UpperPrefix(line, word);
    assert Upper("EHLO") == "EHLO" && Upper("AUTH") == "AUTH";
    PassedWord(line, word);
  }

  /** Such a session, word for word. */
  lemma SecuredSession(abandoned: seq<string>, mails: seq<Mail>, upgrades: seq<string>)
    requires forall i | 0 <= i < |abandoned| :: IsClean(abandoned[i])
    requires forall i | 0 <= i < |mails| :: IsSendable(mails[i])
    ensures
      var (hello, auth) := ("EHLO client" + EOL, "AUTH PLAIN x" + EOL);
      var secured := Secured(hello, auth, abandoned, "RSET" + EOL, mails);
      Letters(Conversation(SMTP, Opening(hello, "STARTTLS" + EOL, ""), [secured] + upgrades)) == Sent(mails)
  {
    GreetingPasses();
    LoginPasses();
    SessionWords();
    SecuredSessionIsCaptured("EHLO client" + EOL, "STARTTLS" + EOL, "", "AUTH PLAIN x" + EOL, abandoned, "RSET" + EOL, mails, upgrades);
  }
}
