/** The SMTP sink: what a conversation leaves in its mailbox. */
module SmtpSink {
  import opened Basics
  import opened Text

  function UpperChar(c: char): char {
    if 'a' <= c <= 'z' then (c as int - 32) as char else c
  }

  function Upper(s: string): (r: string)
    ensures |r| == |s|
  {
    seq(|s|, i requires 0 <= i < |s| => UpperChar(s[i]))
  }

  // --- Lines ------------------------------------------------------------------------------

  /** `readline`: up to a line feed, which it includes, or to the end of the stream. */
  function FirstLine(s: string): (line: string)
    ensures line <= s && (s != [] ==> line != [])
  {
    if s == [] then [] else if s[0] == '\n' then [s[0]] else [s[0]] + FirstLine(s[1..])
  }

  function Rest(s: string): (rest: string)
    ensures s == FirstLine(s) + rest && (s != [] ==> |rest| < |s|)
  {
    s[|FirstLine(s)|..]
  }

  predicate IsTerminator(line: string) { TrimRight(line, "\r\n") == "." }

  function Unstuffed(line: string): string {
    if StartsWith(line, "..") then line[1..] else line
  }

  /** The text of a message, and what follows it in the stream. */
  function ReadData(s: string): (r: (string, string))
    ensures |r.1| <= |s|
    decreases |s|
  {
    if s == [] then ([], [])
    else if IsTerminator(FirstLine(s)) then ([], Rest(s))
    else
      var (text, after) := ReadData(Rest(s));
      (Unstuffed(FirstLine(s)) + text, after)
  }

  // --- Commands ---------------------------------------------------------------------------

  datatype Verb = Rcpt(address: string) | Data | Rset | Quit | StartTls | Other

  function StripAngles(value: string): string {
    if value != [] && value[0] == '<' && value[|value| - 1] == '>' && |value| > 1 then value[1..|value| - 1] else value
  }

  function Parse(raw: string): Verb {
    var line := Strip(raw);
    var upper := Upper(line);
    if StartsWith(upper, "EHLO") || StartsWith(upper, "HELO") then Other
    else if upper == "STARTTLS" then StartTls
    else if StartsWith(upper, "AUTH") then Other
    else if StartsWith(upper, "MAIL FROM") then Other
    else if StartsWith(upper, "RCPT TO") then Rcpt(StripAngles(Strip(After(line, ':'))))
    else if upper == "DATA" then Data
    else if upper == "RSET" then Rset
    else if upper == "QUIT" then Quit
    else Other
  }

  /** What reads a command line. */
  type Grammar = string -> Verb

  const SMTP: Grammar := s => Parse(s)

  /** A command as it was heard, with the message that came after a DATA. */
  datatype Heard = Heard(verb: Verb, text: string)

  /** What is heard with a command, and the streams after it. Each TLS upgrade goes on with a new
      stream, and drops what was left of the one before; without one the conversation is over. */
  function Taken(verb: Verb, input: string, upgrades: seq<string>): (r: (Heard, string, seq<string>))
    ensures |r.2| < |upgrades| || (r.2 == upgrades && |r.1| <= |input|)
  {
    match verb
    case Quit => (Heard(Quit, ""), "", upgrades)
    case StartTls =>
      if upgrades == [] then (Heard(StartTls, ""), "", upgrades) else (Heard(StartTls, ""), upgrades[0], upgrades[1..])
    case Data => (Heard(Data, ReadData(input).0), ReadData(input).1, upgrades)
    case _ => (Heard(verb, ""), input, upgrades)
  }

  /** All that is heard in a conversation. */
  function Conversation(parse: Grammar, input: string, upgrades: seq<string>): seq<Heard>
    decreases |upgrades|, |input|
  {
    if input == [] then []
    else
      var (heard, input', upgrades') := Taken(parse(FirstLine(input)), Rest(input), upgrades);
      [heard] + Conversation(parse, input', upgrades')
  }

  // --- What a conversation leaves -----------------------------------------------------------

  /** Looking back: the addresses named since the last DATA or RSET. */
  function RecipientsSince(log: seq<Heard>): seq<string> {
    if log == [] then []
    else
      var before := log[..|log| - 1];
      match log[|log| - 1].verb
      case Data => []
      case Rset => []
      case Rcpt(address) => RecipientsSince(before) + [address]
      case _ => RecipientsSince(before)
  }

  datatype Letter = Letter(recipients: seq<string>, text: string)

  /** Each DATA leaves one message, addressed to the recipients named since the DATA or RSET before it. */
  function Letters(log: seq<Heard>): seq<Letter> {
    if log == [] then []
    else
      var (before, last) := (log[..|log| - 1], log[|log| - 1]);
      Letters(before) + if last.verb == Data then [Letter(RecipientsSince(before), last.text)] else []
  }

  datatype Captured = Captured(recipients: seq<string>, subject: string, body: string, code: Option<string>)

  /** The mail library and the search for a code: subject, body and code of a text. */
  type Reader = string -> (string, string, Option<string>)

  function Capture(letter: Letter, reader: Reader): Captured {
    var (subject, body, code) := reader(letter.text);
    Captured(letter.recipients, subject, body, code)
  }

  function CaptureAll(letters: seq<Letter>, reader: Reader): seq<Captured> {
    seq(|letters|, i requires 0 <= i < |letters| => Capture(letters[i], reader))
  }

  // --- The mailbox --------------------------------------------------------------------------

  predicate IsFor(message: Captured, wanted: string) {
    exists k | 0 <= k < |message.recipients| :: Lower(Strip(message.recipients[k])) == wanted
  }

  /** The message has a code, and is for the address. */
  predicate Answers(message: Captured, address: string) {
    message.code.Some? && message.code.value != "" && IsFor(message, Lower(Strip(address)))
  }

  class Mailbox {
    var messages: seq<Captured>

    constructor ()
      ensures messages == []
    {
      messages := [];
    }

    method Add(message: Captured)
      modifies this
      ensures messages == old(messages) + [message]
    {
      messages := messages + [message];
    }

    /** The code of the newest message that answers, or None when none does. */
    method LatestCodeFor(address: string) returns (code: Option<string>)
      ensures code.None? <==> forall i | 0 <= i < |messages| :: !Answers(messages[i], address)
      ensures code.Some? ==> exists i | 0 <= i < |messages| ::
                && Answers(messages[i], address) && messages[i].code == code
                && forall j | i < j < |messages| :: !Answers(messages[j], address)
    {
      var i := |messages|;
      while i > 0
        invariant 0 <= i <= |messages|
        invariant forall j | i <= j < |messages| :: !Answers(messages[j], address)
      {
        i := i - 1;
        if Answers(messages[i], address) {
          return messages[i].code;
        }
      }
      return None;
    }
  }

  /** One conversation. */
  class Handler {
    var input: string
    var upgrades: seq<string>
    var mailbox: Mailbox

    constructor (input: string, upgrades: seq<string>, mailbox: Mailbox)
      ensures this.input == input && this.upgrades == upgrades && this.mailbox == mailbox
    {
      this.input := input;
      this.upgrades := upgrades;
      this.mailbox := mailbox;
    }

    method ReadLine() returns (line: string)
      modifies this`input
      ensures line == FirstLine(old(input)) && input == Rest(old(input))
    {
      line := FirstLine(input);
      input := Rest(input);
    }

    method ReceiveData() returns (text: string)
      modifies this`input
      ensures (text, input) == ReadData(old(input))
    {
      var lines: seq<string> := [];
      ghost var start := input;
      while true
        invariant Received(start, lines, input)
        decreases |input|
      {
        ReceiveStep(start, lines, input);
        var raw := ReadLine();
        if raw == [] || IsTerminator(raw) {
          break;
        }
        lines := lines + [Unstuffed(raw)];
      }
      return Concat(lines);
    }

    /** One command, after its line was read. */
    method Obey(verb: Verb, recipients: seq<string>, reader: Reader) returns (recipients': seq<string>, more: bool)
      modifies this, mailbox
      ensures mailbox == old(mailbox)
      ensures
        var (heard, input', upgrades') := Taken(verb, old(input), old(upgrades));
        && recipients' == Next(heard, recipients)
        && mailbox.messages == old(mailbox.messages) + CaptureAll(Left(heard, recipients), reader)
        && (if more then input == input' && upgrades == upgrades' else input' == "")
    {
      recipients', more := recipients, true;
      match verb
      case Quit => more := false;
      case StartTls =>
        if upgrades == [] {
          more := false;
        } else {
          input, upgrades := upgrades[0], upgrades[1..];
        }
      case Rcpt(address) => recipients' := recipients + [address];
      case Data =>
        var text := ReceiveData();
        mailbox.Add(Capture(Letter(recipients, text), reader));
        recipients' := [];
      case Rset => recipients' := [];
      case Other =>
    }

    /** The loop over the commands. */
    method Converse(parse: Grammar, reader: Reader)
      modifies this, mailbox
      ensures mailbox == old(mailbox)
      ensures mailbox.messages ==
              old(mailbox.messages) + CaptureAll(Letters(Conversation(parse, old(input), old(upgrades))), reader)
    {
      var recipients: seq<string> := [];
      ghost var log: seq<Heard> := [];
      ghost var all := Conversation(parse, input, upgrades);
      ghost var held := mailbox.messages;
      var more := true;
      while more
        invariant mailbox == old(mailbox)
        invariant Going(reader, all, held, log, if more then Conversation(parse, input, upgrades) else [], recipients, mailbox.messages)
        decreases more, |upgrades|, |input|
      {
        ghost var (start, coming) := (input, Conversation(parse, input, upgrades));
        var raw := ReadLine();
        if raw == [] {
          more := false;
        } else {
          Unrolled(parse, start, upgrades);
          GoingStep(reader, all, held, log, coming, recipients, mailbox.messages);
          log := log + [coming[0]];
          recipients, more := Obey(parse(raw), recipients, reader);
          assert coming[1..] == if more then Conversation(parse, input, upgrades) else [];
        }
      }
      assert log + [] == log;
    }

    /** A whole conversation: the mailbox gains exactly the letters of what was heard. */
    method Handle(reader: Reader)
      modifies this, mailbox
      ensures mailbox == old(mailbox)
      ensures mailbox.messages ==
              old(mailbox.messages) + CaptureAll(Letters(Conversation(SMTP, old(input), old(upgrades))), reader)
    {
      Converse(SMTP, reader);
    }
  }

  // --- The loops, a step at a time -------------------------------------------------------------

  ghost predicate Received(start: string, lines: seq<string>, input: string) {
    Concat(lines) + ReadData(input).0 == ReadData(start).0 && ReadData(input).1 == ReadData(start).1
  }

  lemma ReceiveStep(start: string, lines: seq<string>, input: string)
    requires Received(start, lines, input)
    ensures
      if input == [] || IsTerminator(FirstLine(input)) then ReadData(start) == (Concat(lines), Rest(input))
      else Received(start, lines + [Unstuffed(FirstLine(input))], Rest(input))
  {
    if !(input == [] || IsTerminator(FirstLine(input))) {
      Appended(lines, Unstuffed(FirstLine(input)), ReadData(Rest(input)).0);
    } else {
      assert Concat(lines) + [] == Concat(lines);
    }
  }

  lemma Appended(lines: seq<string>, line: string, text: string)
    ensures Concat(lines + [line]) + text == Concat(lines) + (line + text)
  {
    ConcatAppend(lines, [line]);
    assert [line][1..] == [] && line + [] == line;
  }

  /** The recipients after one more command. */
  function Next(heard: Heard, recipients: seq<string>): seq<string> {
    match heard.verb
    case Data => []
    case Rset => []
    case Rcpt(address) => recipients + [address]
    case _ => recipients
  }

  /** The message that one more command leaves. */
  function Left(heard: Heard, recipients: seq<string>): seq<Letter> {
    if heard.verb == Data then [Letter(recipients, heard.text)] else []
  }

  lemma LogGrows(log: seq<Heard>, heard: Heard)
    ensures RecipientsSince(log + [heard]) == Next(heard, RecipientsSince(log))
    ensures Letters(log + [heard]) == Letters(log) + Left(heard, RecipientsSince(log))
  {
    assert (log + [heard])[..|log + [heard]| - 1] == log;
  }

  lemma CaptureAllAppend(a: seq<Letter>, b: seq<Letter>, reader: Reader)
    ensures CaptureAll(a + b, reader) == CaptureAll(a, reader) + CaptureAll(b, reader)
  {
  }

  lemma Unrolled(parse: Grammar, input: string, upgrades: seq<string>)
    requires input != []
    ensures
      var (taken, coming) := (Taken(parse(FirstLine(input)), Rest(input), upgrades), Conversation(parse, input, upgrades));
      coming != [] && coming[0] == taken.0 && coming[1..] == Conversation(parse, taken.1, taken.2)
  {
  }

  /** `log` was heard and `coming` is still to come; the recipients and the messages agree with the log. */
  ghost predicate Going(reader: Reader, all: seq<Heard>, held: seq<Captured>, log: seq<Heard>, coming: seq<Heard>,
                        recipients: seq<string>, messages: seq<Captured>) {
    && log + coming == all
    && recipients == RecipientsSince(log)
    && messages == held + CaptureAll(Letters(log), reader)
  }

  lemma GoingStep(reader: Reader, all: seq<Heard>, held: seq<Captured>, log: seq<Heard>, coming: seq<Heard>,
                  recipients: seq<string>, messages: seq<Captured>)
    requires coming != [] && Going(reader, all, held, log, coming, recipients, messages)
    ensures Going(reader, all, held, log + [coming[0]], coming[1..], Next(coming[0], recipients),
                  messages + CaptureAll(Left(coming[0], recipients), reader))
  {
    LogGrows(log, coming[0]);
    assert log + [coming[0]] + coming[1..] == log + coming;
    CaptureAllAppend(Letters(log), Left(coming[0], recipients), reader);
    var (a, b) := (CaptureAll(Letters(log), reader), CaptureAll(Left(coming[0], recipients), reader));
    assert held + a + b == held + (a + b);
  }

  // --- Dot transparency: section 4.5.2 of RFC 5321 --------------------------------------------

  predicate IsClean(s: string) { '\r' !in s && '\n' !in s }

  const EOL := "\r\n"

  /** A client doubles the dot a line begins with. */
  function Stuffed(line: string): string { if StartsWith(line, ".") then "." + line else line }

  function Transfer(lines: seq<string>): string {
    if lines == [] then "." + EOL else Stuffed(lines[0]) + EOL + Transfer(lines[1..])
  }

  function TextOf(lines: seq<string>): string {
    if lines == [] then [] else lines[0] + EOL + TextOf(lines[1..])
  }

  /** The text ends with its only line feed. */
  predicate IsLine(s: string) { s != [] && s[|s| - 1] == '\n' && '\n' !in s[..|s| - 1] }

  lemma {:induction false} LineThen(line: string, tail: string)
    requires IsLine(line)
    ensures FirstLine(line + tail) == line && Rest(line + tail) == tail
  {
    if |line| > 1 {
      assert (line + tail)[1..] == line[1..] + tail;
      assert line[1..][..|line| - 2] == line[1..|line| - 1];
      LineThen(line[1..], tail);
    }
  }

  lemma CleanLine(s: string)
    requires IsClean(s)
    ensures IsLine(s + EOL) && TrimRight(s + EOL, EOL) == s
  {
    Trimmed(s, EOL, EOL);
    assert (s + EOL)[..|s + EOL| - 1] == s + "\r";
  }

  lemma StuffedLine(line: string)
    requires IsClean(line)
    ensures IsClean(Stuffed(line)) && Stuffed(line) != "."
    ensures Unstuffed(Stuffed(line) + EOL) == line + EOL
  {
    var stuffed := Stuffed(line) + EOL;
    if StartsWith(line, ".") {
      assert line[0] == '.' && stuffed[..2] == "..";
      assert stuffed[1..] == line + EOL;
    } else if line == [] {
      assert stuffed[0] == '\r';
    } else {
      assert line[..1] == [line[0]] && stuffed[0] == line[0] && line[0] != '.';
    }
  }

  /** Whatever lines a client sends after DATA, stuffed and with the terminator, the sink reads those
      lines, and stops right after the terminator. */
  lemma {:induction false} TransferReadsBack(lines: seq<string>, tail: string)
    requires forall i | 0 <= i < |lines| :: IsClean(lines[i])
    ensures ReadData(Transfer(lines) + tail) == (TextOf(lines), tail)
  {
    if lines == [] {
      CleanLine(".");
      LineThen("." + EOL, tail);
    } else {
      var (line, rest) := (Stuffed(lines[0]) + EOL, Transfer(lines[1..]));
      StuffedLine(lines[0]);
      CleanLine(Stuffed(lines[0]));
      LineThen(line, rest + tail);
      TransferReadsBack(lines[1..], tail);
      assert line + rest + tail == line + (rest + tail);
    }
  }

  // --- A client's session -----------------------------------------------------------------------

  datatype Mail = Mail(sender: string, recipients: seq<string>, lines: seq<string>)

  /** The command lines a client writes. */
  datatype Client = Client(from: string -> string, to: string -> string, data: string, quit: string)

  ghost predicate Understands(parse: Grammar, client: Client) {
    && (forall a | IsClean(a) :: IsLine(client.from(a)) && parse(client.from(a)) == Other)
    && (forall a | IsClean(a) :: IsLine(client.to(a)) && parse(client.to(a)) == Rcpt(a))
    && IsLine(client.data) && parse(client.data) == Data
    && IsLine(client.quit) && parse(client.quit) == Quit
  }

  predicate IsSendable(mail: Mail) {
    && IsClean(mail.sender)
    && (forall i | 0 <= i < |mail.recipients| :: IsClean(mail.recipients[i]))
    && forall i | 0 <= i < |mail.lines| :: IsClean(mail.lines[i])
  }

  function Addressing(client: Client, recipients: seq<string>): string {
    if recipients == [] then [] else client.to(recipients[0]) + Addressing(client, recipients[1..])
  }

  function Session(client: Client, mails: seq<Mail>): string {
    if mails == [] then client.quit
    else
      client.from(mails[0].sender) + (Addressing(client, mails[0].recipients)
        + (client.data + (Transfer(mails[0].lines) + Session(client, mails[1..]))))
  }

  function Named(recipients: seq<string>): seq<Heard> {
    if recipients == [] then [] else [Heard(Rcpt(recipients[0]), "")] + Named(recipients[1..])
  }

  lemma LineIsHeard(parse: Grammar, line: string, tail: string, upgrades: seq<string>)
    requires IsLine(line) && (parse(line).Rcpt? || parse(line).Rset? || parse(line).Other?)
    ensures Conversation(parse, line + tail, upgrades) == [Heard(parse(line), "")] + Conversation(parse, tail, upgrades)
  {
    LineThen(line, tail);
  }

  lemma DataIsHeard(parse: Grammar, line: string, lines: seq<string>, tail: string, upgrades: seq<string>)
    requires IsLine(line) && parse(line) == Data && forall i | 0 <= i < |lines| :: IsClean(lines[i])
    ensures Conversation(parse, line + (Transfer(lines) + tail), upgrades)
         == [Heard(Data, TextOf(lines))] + Conversation(parse, tail, upgrades)
  {
    LineThen(line, Transfer(lines) + tail);
    TransferReadsBack(lines, tail);
  }

  lemma Grouping<T>(a: seq<T>, b: seq<T>, c: seq<T>)
    ensures a + b + c == a + (b + c)
  {
  }

  lemma {:induction false} AddressingIsHeard(parse: Grammar, client: Client, recipients: seq<string>, tail: string, upgrades: seq<string>)
    requires Understands(parse, client) && forall i | 0 <= i < |recipients| :: IsClean(recipients[i])
    ensures Conversation(parse, Addressing(client, recipients) + tail, upgrades) == Named(recipients) + Conversation(parse, tail, upgrades)
  {
    if recipients == [] {
      assert [] + tail == tail;
      assert [] + Conversation(parse, tail, upgrades) == Conversation(parse, tail, upgrades);
    } else {
      var (first, others) := (recipients[0], recipients[1..]);
      assert IsClean(first);
      var (line, rest) := (client.to(first), Addressing(client, others));
      AddressingIsHeard(parse, client, others, tail, upgrades);
      Grouping(line, rest, tail);
      LineIsHeard(parse, line, rest + tail, upgrades);
      Grouping([Heard(Rcpt(first), "")], Named(others), Conversation(parse, tail, upgrades));
    }
  }

  lemma {:induction false} NamedAreSince(log: seq<Heard>, recipients: seq<string>)
    ensures RecipientsSince(log + Named(recipients)) == RecipientsSince(log) + recipients
    ensures Letters(log + Named(recipients)) == Letters(log)
    decreases |recipients|
  {
    if recipients == [] {
      assert log + [] == log;
    } else {
      var heard := Heard(Rcpt(recipients[0]), "");
      LogGrows(log, heard);
      NamedAreSince(log + [heard], recipients[1..]);
      Grouping(log, [heard], Named(recipients[1..]));
      Grouping(RecipientsSince(log), [recipients[0]], recipients[1..]);
      assert [recipients[0]] + recipients[1..] == recipients;
    }
  }

  function Sent(mails: seq<Mail>): seq<Letter> {
    seq(|mails|, i requires 0 <= i < |mails| => Letter(mails[i].recipients, TextOf(mails[i].lines)))
  }

  /** The log of one mail. */
  function MailLog(mail: Mail): seq<Heard> {
    [Heard(Other, "")] + (Named(mail.recipients) + [Heard(Data, TextOf(mail.lines))])
  }

  lemma MailIsHeard(parse: Grammar, client: Client, mail: Mail, tail: string, upgrades: seq<string>)
    requires Understands(parse, client) && IsSendable(mail)
    ensures
      var text := client.from(mail.sender) + (Addressing(client, mail.recipients) + (client.data + (Transfer(mail.lines) + tail)));
      Conversation(parse, text, upgrades) == MailLog(mail) + Conversation(parse, tail, upgrades)
  {
    var b := client.data + (Transfer(mail.lines) + tail);
    LineIsHeard(parse, client.from(mail.sender), Addressing(client, mail.recipients) + b, upgrades);
    AddressingIsHeard(parse, client, mail.recipients, b, upgrades);
    DataIsHeard(parse, client.data, mail.lines, tail, upgrades);
    var (x, y, z) := (Named(mail.recipients), [Heard(Data, TextOf(mail.lines))], Conversation(parse, tail, upgrades));
    Grouping(x, y, z);
    Grouping([Heard(Other, "")], x + y, z);
  }

  lemma MailLeavesOneLetter(log: seq<Heard>, mail: Mail)
    requires RecipientsSince(log) == []
    ensures RecipientsSince(log + MailLog(mail)) == []
    ensures Letters(log + MailLog(mail)) == Letters(log) + [Letter(mail.recipients, TextOf(mail.lines))]
  {
    var (other, data) := (Heard(Other, ""), Heard(Data, TextOf(mail.lines)));
    LogGrows(log, other);
    NamedAreSince(log + [other], mail.recipients);
    LogGrows(log + [other] + Named(mail.recipients), data);
    Grouping(log + [other], Named(mail.recipients), [data]);
    Grouping(log, [other], Named(mail.recipients) + [data]);
    assert [] + mail.recipients == mail.recipients;
  }

  lemma QuitLeavesNothing(parse: Grammar, line: string, upgrades: seq<string>, log: seq<Heard>)
    requires IsLine(line) && parse(line) == Quit
    ensures Letters(log + Conversation(parse, line, upgrades)) == Letters(log)
  {
    assert line + [] == line;
    LineThen(line, []);
    assert Conversation(parse, line, upgrades) == [Heard(Quit, "")];
    LogGrows(log, Heard(Quit, ""));
  }

  lemma SentOneMore(mails: seq<Mail>)
    requires mails != []
    ensures Sent(mails) == [Letter(mails[0].recipients, TextOf(mails[0].lines))] + Sent(mails[1..])
  {
  }

  lemma {:induction false} SessionLeaves(parse: Grammar, client: Client, mails: seq<Mail>, upgrades: seq<string>, log: seq<Heard>)
    requires Understands(parse, client) && RecipientsSince(log) == []
    requires forall i | 0 <= i < |mails| :: IsSendable(mails[i])
    ensures Letters(log + Conversation(parse, Session(client, mails), upgrades)) == Letters(log) + Sent(mails)
    decreases |mails|
  {
    if mails == [] {
      QuitLeavesNothing(parse, client.quit, upgrades, log);
    } else {
      var (mail, rest) := (mails[0], mails[1..]);
      MailIsHeard(parse, client, mail, Session(client, rest), upgrades);
      MailLeavesOneLetter(log, mail);
      SessionLeaves(parse, client, rest, upgrades, log + MailLog(mail));
      Grouping(log, MailLog(mail), Conversation(parse, Session(client, rest), upgrades));
      SentOneMore(mails);
      Grouping(Letters(log), [Letter(mail.recipients, TextOf(mail.lines))], Sent(rest));
    }
  }

  // --- The commands a client writes --------------------------------------------------------------

  lemma BareLine(line: string)
    requires line != [] && !IsSpace(line[0]) && !IsSpace(line[|line| - 1])
    ensures Strip(line + EOL) == line
  {
    var s := line + EOL;
    assert LStrip(s) == s;
    RStripForm(s);
    assert s[|line| - 1] == line[|line| - 1];
    assert forall i | |line| <= i < |s| :: s[i] == EOL[i - |line|];
  }

  /** Reading a command word and its address in angle brackets. */
  lemma BracketedAddress(word: string, a: string)
    requires word != [] && !IsSpace(word[0]) && ':' !in word
    ensures
      var line := word + ":" + ("<" + a + ">");
      Strip(line + EOL) == line && StripAngles(Strip(After(line, ':'))) == a && word <= line
  {
    var value := "<" + a + ">";
    BareLine(word + ":" + value);
    Partitioned(word, ':', value);
    BareAngles(value);
    assert value[1..|value| - 1] == a;
  }

  lemma BareAngles(value: string)
    requires value != [] && !IsSpace(value[0]) && !IsSpace(value[|value| - 1])
    ensures Strip(value) == value
  {
  }

  lemma UpperPrefix(s: string, p: string)
    requires p <= s
    ensures Upper(p) <= Upper(s)
  {
  }

  function AddressLine(word: string, a: string): string { word + ":" + ("<" + a + ">") + EOL }

  lemma AddressLineIsLine(word: string, a: string)
    requires IsClean(word) && IsClean(a)
    ensures IsLine(AddressLine(word, a))
  {
    CleanLine(word + ":" + ("<" + a + ">"));
  }

  lemma RcptIsUnderstood(a: string)
    ensures Parse(AddressLine("RCPT TO", a)) == Rcpt(a)
  {
    BracketedAddress("RCPT TO", a);
    var line := "RCPT TO" + ":" + ("<" + a + ">");
    UpperPrefix(line, "RCPT TO");
    assert Upper("RCPT TO") == "RCPT TO";
    assert Upper(line)[0] == 'R';
  }

  lemma MailFromIsUnderstood(a: string)
    ensures Parse(AddressLine("MAIL FROM", a)) == Other
  {
    BracketedAddress("MAIL FROM", a);
    var line := "MAIL FROM" + ":" + ("<" + a + ">");
    UpperPrefix(line, "MAIL FROM");
    assert Upper("MAIL FROM") == "MAIL FROM";
    assert Upper(line)[0] == 'M';
  }

  lemma WordInAnyCase(line: string, word: string)
    requires word != [] && 'A' <= word[0] <= 'Z' && 'A' <= word[|word| - 1] <= 'Z' && Upper(line) == word
    ensures Strip(line + EOL) == line
  {
    assert Upper(line)[0] == UpperChar(line[0]) && Upper(line)[|line| - 1] == UpperChar(line[|line| - 1]);
    BareLine(line);
  }

  /** The command words, in any capitalization. */
  lemma WordsAreUnderstood(line: string)
    ensures Upper(line) == "DATA" ==> Parse(line + EOL) == Data
    ensures Upper(line) == "RSET" ==> Parse(line + EOL) == Rset
    ensures Upper(line) == "QUIT" ==> Parse(line + EOL) == Quit
    ensures Upper(line) == "STARTTLS" ==> Parse(line + EOL) == StartTls
  {
    if Upper(line) == "DATA" {
      WordInAnyCase(line, "DATA");
      assert "DATA"[0] == 'D';
    } else if Upper(line) == "RSET" {
      WordInAnyCase(line, "RSET");
      assert "RSET"[0] == 'R' && "RSET"[1] == 'S';
    } else if Upper(line) == "QUIT" {
      WordInAnyCase(line, "QUIT");
      assert "QUIT"[0] == 'Q';
    } else if Upper(line) == "STARTTLS" {
      WordInAnyCase(line, "STARTTLS");
      assert "STARTTLS"[0] == 'S';
    }
  }

  const CLIENT := Client(
    a => AddressLine("MAIL FROM", a),
    a => AddressLine("RCPT TO", a),
    "DATA" + EOL,
    "QUIT" + EOL)

  lemma ClientIsUnderstood()
    ensures Understands(SMTP, CLIENT)
  {
    forall a | IsClean(a)
      ensures IsLine(CLIENT.from(a)) && SMTP(CLIENT.from(a)) == Other
      ensures IsLine(CLIENT.to(a)) && SMTP(CLIENT.to(a)) == Rcpt(a)
    {
      AddressLineIsLine("MAIL FROM", a);
      AddressLineIsLine("RCPT TO", a);
      MailFromIsUnderstood(a);
      RcptIsUnderstood(a);
    }
    CleanLine("DATA");
    CleanLine("QUIT");
    assert Upper("DATA") == "DATA" && Upper("QUIT") == "QUIT";
    WordsAreUnderstood("DATA");
    WordsAreUnderstood("QUIT");
  }

  /** A client sends any mails, one after another: each is captured with its own recipients, in their
      order, and its own text. */
  lemma SessionIsCaptured(mails: seq<Mail>, upgrades: seq<string>)
    requires forall i | 0 <= i < |mails| :: IsSendable(mails[i])
    ensures Letters(Conversation(SMTP, Session(CLIENT, mails), upgrades)) == Sent(mails)
  {
    ClientIsUnderstood();
    SessionLeaves(SMTP, CLIENT, mails, upgrades, []);
    WithoutFront(Conversation(SMTP, Session(CLIENT, mails), upgrades));
  }

  lemma WithoutFront(log: seq<Heard>)
    ensures [] + log == log
  {
  }
}
