/** URIs as the migration reads and writes them: the authority, its credentials, and stripping the password. */
module NamespaceUri {
  import opened Basics
  import opened Text
  import opened NamespaceMerge

  // --- The authority of a URI ------------------------------------------------------------------

  datatype Parts = Parts(scheme: string, netloc: string, path: string, query: string, fragment: string)

  /** The URL library: splitting, which may refuse, and putting together. */
  datatype UrlLibrary = UrlLibrary(
    split: string -> Option<Parts>,
    join: Parts -> string)

  /** What stands before and after the last `c`; all of it after, when there is none. */
  function BeforeLast(s: string, c: char): string {
    if s == [] then [] else if s[|s| - 1] == c then s[..|s| - 1] else BeforeLast(s[..|s| - 1], c)
  }

  function AfterLast(s: string, c: char): string {
    if s == [] || s[|s| - 1] == c then [] else AfterLast(s[..|s| - 1], c) + [s[|s| - 1]]
  }

  /** User and password stand before the last at sign, with a colon between them. */
  function Username(netloc: string): Option<string> {
    if '@' in netloc then Some(Before(BeforeLast(netloc, '@'), ':')) else None
  }

  function Password(netloc: string): Option<string> {
    if '@' in netloc && ':' in BeforeLast(netloc, '@') then Some(After(BeforeLast(netloc, '@'), ':')) else None
  }

  /** Host and port stand after it; a host in brackets holds colons. */
  function HostAndPort(netloc: string): (string, string) {
    var host := AfterLast(netloc, '@');
    if '[' in host then
      var bracketed := After(host, '[');
      (Before(bracketed, ']'), After(After(bracketed, ']'), ':'))
    else (Before(host, ':'), After(host, ':'))
  }

  /** In lower case, but for a zone behind a percent sign. */
  function LowerHost(host: string): string {
    if '%' in host then Lower(Before(host, '%')) + "%" + After(host, '%') else Lower(host)
  }

  function Hostname(netloc: string): string { LowerHost(HostAndPort(netloc).0) }

  /** The port of an authority; reading a malformed one raises an error. */
  datatype Port = NoPort | PortNumber(n: nat) | BadPort

  function PortOf(netloc: string): Port {
    var port := HostAndPort(netloc).1;
    if port == "" then NoPort
    else if AllDigits(port) && DigitsValue(port) <= 65535 then PortNumber(DigitsValue(port))
    else BadPort
  }

  predicate Truthy(s: Option<string>) { s.Some? && s.value != "" }

  /** The authority without its password. */
  function StrippedNetloc(netloc: string): Option<string> {
    match PortOf(netloc)
    case BadPort => None
    case port =>
      var host := if port.PortNumber? && port.n != 0 then Hostname(netloc) + ":" + Digits(port.n) else Hostname(netloc);
      Some(if Truthy(Username(netloc)) then Username(netloc).value + "@" + host else host)
  }

  predicate UriHasPassword(lib: UrlLibrary, uri: string) {
    lib.split(uri).Some? && Truthy(Password(lib.split(uri).value.netloc))
  }

  function StripUri(lib: UrlLibrary, uri: string): Option<string> {
    if !UriHasPassword(lib, uri) then Some(uri)
    else
      var parts := lib.split(uri).value;
      match StrippedNetloc(parts.netloc)
      case None => None
      case Some(netloc) => Some(lib.join(parts.(netloc := netloc)))
  }

  function UriStripping(lib: UrlLibrary): Stripping {
    Stripping(uri => StripUri(lib, uri), uri => UriHasPassword(lib, uri))
  }

  /** What is asked of the library: the authority's characters stand in the URI in their order, so that a
      colon and an at sign behind it show; and a URI put together has the authority it was given, if it can
      be split again. */
  ghost predicate LibraryLaws(lib: UrlLibrary) {
    && (forall uri: string | lib.split(uri).Some? ::
          LooksLikeCredential(lib.split(uri).value.netloc) ==> LooksLikeCredential(uri))
    && (forall parts: Parts | lib.split(lib.join(parts)).Some? :: lib.split(lib.join(parts)).value.netloc == parts.netloc)
  }

  // --- Stripping takes the password away ---------------------------------------------------------

  lemma {:induction false} AroundTheLast(s: string, c: char)
    requires c in s
    ensures s == BeforeLast(s, c) + [c] + AfterLast(s, c)
  {
    if s[|s| - 1] != c {
      var front := s[..|s| - 1];
      assert s == front + [s[|s| - 1]];
      AroundTheLast(front, c);
    }
  }

  lemma {:induction false} NotAfterTheLast(s: string, c: char)
    ensures c !in AfterLast(s, c)
  {
    if s != [] && s[|s| - 1] != c {
      NotAfterTheLast(s[..|s| - 1], c);
    }
  }

  lemma {:induction false} LastIs(a: string, c: char, b: string)
    requires c !in b
    ensures BeforeLast(a + [c] + b, c) == a && AfterLast(a + [c] + b, c) == b
  {
    var s := a + [c] + b;
    if b == [] {
      assert s[..|s| - 1] == a;
    } else {
      assert s[..|s| - 1] == a + [c] + b[..|b| - 1];
      LastIs(a, c, b[..|b| - 1]);
      assert b[..|b| - 1] + [b[|b| - 1]] == b;
    }
  }

  lemma {:induction false} PartsAreWithin(s: string, c: char, d: char)
    requires d !in s
    ensures d !in Before(s, c) && d !in After(s, c)
  {
    if s != [] {
      PartsAreWithin(s[1..], c, d);
    }
  }

  lemma {:induction false} NotBeforeTheFirst(s: string, c: char)
    ensures c !in Before(s, c)
  {
    if s != [] && s[0] != c {
      NotBeforeTheFirst(s[1..], c);
    }
  }

  lemma LowerKeepsOut(s: string)
    requires '@' !in s
    ensures '@' !in Lower(s)
  {
    forall i | 0 <= i < |s| ensures Lower(s)[i] != '@' {
      assert s[i] in s;
    }
  }

  lemma HostHasNoAt(netloc: string)
    ensures '@' !in HostAndPort(netloc).0 && '@' !in Hostname(netloc)
  {
    var host := AfterLast(netloc, '@');
    NotAfterTheLast(netloc, '@');
    PartsAreWithin(host, '[', '@');
    PartsAreWithin(host, ':', '@');
    PartsAreWithin(After(host, '['), ']', '@');
    var name := HostAndPort(netloc).0;
    PartsAreWithin(name, '%', '@');
    LowerKeepsOut(name);
    LowerKeepsOut(Before(name, '%'));
  }

  lemma DigitsHaveNoAt(n: nat)
    ensures '@' !in Digits(n)
  {
    DigitsRead(n);
  }

  /** An authority of a user without a colon, and a host without an at sign, has no password. */
  lemma NoPasswordLeft(user: string, host: string)
    requires ':' !in user && '@' !in host
    ensures Password(user + "@" + host) == None && Password(host) == None
  {
    LastIs(user, '@', host);
    assert user + ['@'] + host == user + "@" + host;
  }

  lemma StrippedNetlocHasNoPassword(netloc: string)
    requires StrippedNetloc(netloc).Some?
    ensures Password(StrippedNetloc(netloc).value) == None
  {
    HostHasNoAt(netloc);
    var port := PortOf(netloc);
    var host := if port.PortNumber? && port.n != 0 then Hostname(netloc) + ":" + Digits(port.n) else Hostname(netloc);
    if port.PortNumber? {
      DigitsHaveNoAt(port.n);
    }
    NotBeforeTheFirst(BeforeLast(netloc, '@'), ':');
    NoPasswordLeft(if Truthy(Username(netloc)) then Username(netloc).value else "", host);
  }

  lemma PasswordShows(netloc: string)
    requires Truthy(Password(netloc))
    ensures LooksLikeCredential(netloc)
  {
    AroundTheLast(netloc, '@');
    var info := BeforeLast(netloc, '@');
    var i :| 0 <= i < |info| && info[i] == ':';
    assert netloc[i] == ':' && netloc[|info|] == '@';
  }

  /** The stripping of the migration is lawful: a password shows, and a stripped URI has none. */
  lemma UriStrippingIsLawful(lib: UrlLibrary)
    requires LibraryLaws(lib)
    ensures Lawful(UriStripping(lib))
  {
    var stripping := UriStripping(lib);
    forall uri: string
      ensures HasPassword(stripping, uri) ==> LooksLikeCredential(uri)
      ensures HasPassword(stripping, uri) && NamespaceMerge.Strip(stripping, uri).Some? ==> !HasPassword(stripping, NamespaceMerge.Strip(stripping, uri).value)
      ensures !HasPassword(stripping, uri) ==> NamespaceMerge.Strip(stripping, uri) == Some(uri)
    {
      if UriHasPassword(lib, uri) {
        var parts := lib.split(uri).value;
        PasswordShows(parts.netloc);
        if StrippedNetloc(parts.netloc).Some? {
          StrippedNetlocHasNoPassword(parts.netloc);
        }
      }
    }
  }

  // --- What the stripped authority says -----------------------------------------------------------

  lemma {:induction false} NoneIsLast(s: string, c: char)
    requires c !in s
    ensures AfterLast(s, c) == s
  {
    if s != [] {
      NoneIsLast(s[..|s| - 1], c);
    }
  }

  lemma {:induction false} AroundTheFirst(s: string, c: char)
    requires c in s
    ensures s == Before(s, c) + [c] + After(s, c)
  {
    if s[0] != c {
      AroundTheFirst(s[1..], c);
      assert s == [s[0]] + s[1..];
    }
  }

  lemma {:induction false} NoneIsBefore(s: string, c: char)
    requires c !in s
    ensures Before(s, c) == s && After(s, c) == []
  {
    if s != [] {
      NoneIsBefore(s[1..], c);
    }
  }

  function Count(s: string, c: char): nat {
    if s == [] then 0 else (if s[0] == c then 1 else 0) + Count(s[1..], c)
  }

  lemma {:induction false} CountOfConcat(a: string, b: string, c: char)
    ensures Count(a + b, c) == Count(a, c) + Count(b, c)
  {
    if a == [] {
      assert a + b == b;
    } else {
      assert (a + b)[1..] == a[1..] + b;
      CountOfConcat(a[1..], b, c);
    }
  }

  lemma {:induction false} CountOfNone(s: string, c: char)
    ensures c !in s <==> Count(s, c) == 0
  {
    if s != [] {
      CountOfNone(s[1..], c);
    }
  }

  /** A character that is no letter. */
  predicate IsSign(c: char) { !('A' <= c <= 'Z') && !('a' <= c <= 'z') }

  lemma {:induction false} LowerKeepsSigns(s: string, c: char)
    requires IsSign(c)
    ensures Count(Lower(s), c) == Count(s, c)
  {
    if s != [] {
      LowerKeepsSigns(s[1..], c);
      assert Lower(s)[1..] == Lower(s[1..]);
    }
  }

  lemma LowerIsStable(s: string)
    ensures Lower(Lower(s)) == Lower(s)
  {
  }

  lemma LowerHostKeepsSigns(host: string, c: char)
    requires IsSign(c)
    ensures Count(LowerHost(host), c) == Count(host, c)
    ensures c in LowerHost(host) <==> c in host
  {
    if '%' in host {
      var (name, zone) := (Before(host, '%'), After(host, '%'));
      AroundTheFirst(host, '%');
      LowerKeepsSigns(name, c);
      CountOfConcat(Lower(name) + "%", zone, c);
      CountOfConcat(Lower(name), "%", c);
      CountOfConcat(name + "%", zone, c);
      CountOfConcat(name, "%", c);
    } else {
      LowerKeepsSigns(host, c);
    }
    CountOfNone(LowerHost(host), c);
    CountOfNone(host, c);
  }

  lemma LowerHostIsStable(host: string)
    ensures LowerHost(LowerHost(host)) == LowerHost(host)
  {
    LowerHostKeepsSigns(host, '%');
    LowerIsStable(host);
    if '%' in host {
      var (name, zone) := (Before(host, '%'), After(host, '%'));
      NotBeforeTheFirst(host, '%');
      LowerKeepsSigns(name, '%');
      CountOfNone(name, '%');
      CountOfNone(Lower(name), '%');
      LowerIsStable(name);
      Partitioned(Lower(name), '%', zone);
    }
  }

  /** An authority put together of a user and a host, or of a host alone. */
  function Authority(user: Option<string>, host: string): string {
    if user.Some? then user.value + "@" + host else host
  }

  lemma AuthorityReads(user: Option<string>, host: string)
    requires (user.Some? ==> ':' !in user.value) && '@' !in host
    ensures AfterLast(Authority(user, host), '@') == host && Username(Authority(user, host)) == user
  {
    match user
    case None =>
      NoneIsLast(host, '@');
    case Some(name) =>
      LastIs(name, '@', host);
      assert name + ['@'] + host == Authority(user, host);
      NoneIsBefore(name, ':');
      assert Authority(user, host)[|name|] == '@';
  }

  /** A host and a port, or no port, as they are written. */
  function Endpoint(host: string, port: nat): string {
    if port == 0 then host else host + ":" + Digits(port)
  }

  lemma EndpointReads(netloc: string, host: string, port: nat)
    requires AfterLast(netloc, '@') == Endpoint(host, port) && port <= 65535
    requires ':' !in host && '[' !in host
    ensures HostAndPort(netloc).0 == host
    ensures PortOf(netloc) == if port == 0 then NoPort else PortNumber(port)
  {
    if port == 0 {
      NoneIsBefore(host, ':');
    } else {
      DigitsRead(port);
      Partitioned(host, ':', Digits(port));
      assert '[' !in Endpoint(host, port);
    }
  }

  lemma EndpointCount(host: string, port: nat)
    ensures Count(Endpoint(host, port), '[') == Count(host, '[')
  {
    if port > 0 {
      DigitsRead(port);
      CountOfConcat(host + ":", Digits(port), '[');
      CountOfConcat(host, ":", '[');
      CountOfNone(Digits(port), '[');
    }
  }

  lemma BracketsAreLost(text: string)
    requires '[' in text
    ensures Count(Before(After(text, '['), ']'), '[') < Count(text, '[')
  {
    var rest := After(text, '[');
    AroundTheFirst(text, '[');
    CountOfConcat(Before(text, '[') + "[", rest, '[');
    CountOfConcat(Before(text, '['), "[", '[');
    if ']' in rest {
      AroundTheFirst(rest, ']');
      CountOfConcat(Before(rest, ']') + "]", After(rest, ']'), '[');
      CountOfConcat(Before(rest, ']'), "]", '[');
    } else {
      NoneIsBefore(rest, ']');
    }
  }

  /** A host that holds a colon or a bracket is not read back without its brackets. */
  lemma EndpointLosesTheHost(netloc: string, host: string, port: nat)
    requires AfterLast(netloc, '@') == Endpoint(host, port) && (':' in host || '[' in host)
    ensures Hostname(netloc) != host
  {
    var text := Endpoint(host, port);
    EndpointCount(host, port);
    CountOfNone(host, '[');
    CountOfNone(text, '[');
    LowerHostKeepsSigns(HostAndPort(netloc).0, '[');
    LowerHostKeepsSigns(HostAndPort(netloc).0, ':');
    if '[' in host {
      BracketsAreLost(text);
    } else {
      NotBeforeTheFirst(text, ':');
    }
  }

  /** The user, host and port that stripping keeps; a port 0 goes, and so does an empty user. */
  function KeptUser(netloc: string): Option<string> {
    if Truthy(Username(netloc)) then Username(netloc) else None
  }

  function KeptPort(netloc: string): Port {
    if PortOf(netloc) == PortNumber(0) then NoPort else PortOf(netloc)
  }

  lemma StrippedForm(netloc: string)
    requires StrippedNetloc(netloc).Some?
    ensures
      var port := if KeptPort(netloc).PortNumber? then KeptPort(netloc).n else 0;
      && StrippedNetloc(netloc).value == Authority(KeptUser(netloc), Endpoint(Hostname(netloc), port))
      && port <= 65535
      && '@' !in Endpoint(Hostname(netloc), port)
      && (KeptUser(netloc).Some? ==> ':' !in KeptUser(netloc).value)
  {
    HostHasNoAt(netloc);
    NotBeforeTheFirst(BeforeLast(netloc, '@'), ':');
    if PortOf(netloc).PortNumber? {
      DigitsHaveNoAt(PortOf(netloc).n);
    }
  }

  /** The stripped authority has the user, and it has the host and the port exactly when the host holds no
      colon and no bracket: the brackets around an IPv6 address are not written again. */
  lemma StrippedNetlocReads(netloc: string)
    requires StrippedNetloc(netloc).Some?
    ensures Username(StrippedNetloc(netloc).value) == KeptUser(netloc)
    ensures
      var plain := ':' !in Hostname(netloc) && '[' !in Hostname(netloc);
      && (Hostname(StrippedNetloc(netloc).value) == Hostname(netloc) <==> plain)
      && (plain ==> PortOf(StrippedNetloc(netloc).value) == KeptPort(netloc))
  {
    var (netloc', host) := (StrippedNetloc(netloc).value, Hostname(netloc));
    var port := if KeptPort(netloc).PortNumber? then KeptPort(netloc).n else 0;
    StrippedForm(netloc);
    AuthorityReads(KeptUser(netloc), Endpoint(host, port));
    if ':' in host || '[' in host {
      EndpointLosesTheHost(netloc', host, port);
    } else {
      EndpointReads(netloc', host, port);
      LowerHostIsStable(HostAndPort(netloc).0);
    }
  }

  /** A host that is not written in brackets is such a host. */
  lemma HostWithoutBracketsIsPlain(netloc: string)
    requires '[' !in AfterLast(netloc, '@')
    ensures ':' !in Hostname(netloc) && '[' !in Hostname(netloc)
  {
    var host := AfterLast(netloc, '@');
    NotBeforeTheFirst(host, ':');
    PartsAreWithin(host, ':', '[');
    LowerHostKeepsSigns(Before(host, ':'), ':');
    LowerHostKeepsSigns(Before(host, ':'), '[');
  }

  /** So users, hosts and ports of authorities without brackets stay as they were. */
  lemma UserHostAndPortStay(netloc: string)
    requires '[' !in AfterLast(netloc, '@') && StrippedNetloc(netloc).Some?
    ensures Hostname(StrippedNetloc(netloc).value) == Hostname(netloc)
    ensures Username(netloc).Some? && Username(netloc).value != "" ==> Username(StrippedNetloc(netloc).value) == Username(netloc)
    ensures PortOf(netloc) != PortNumber(0) ==> PortOf(StrippedNetloc(netloc).value) == PortOf(netloc)
  {
    HostWithoutBracketsIsPlain(netloc);
    StrippedNetlocReads(netloc);
  }

  /** Nothing but the authority of a URI changes, where the library reads what it wrote. */
  lemma OnlyTheAuthorityChanges(lib: UrlLibrary, uri: string)
    requires UriHasPassword(lib, uri) && StripUri(lib, uri).Some?
    requires forall netloc ::
      lib.split(lib.join(lib.split(uri).value.(netloc := netloc))) == Some(lib.split(uri).value.(netloc := netloc))
    ensures lib.split(StripUri(lib, uri).value).Some?
    ensures
      var (parts, stripped) := (lib.split(uri).value, lib.split(StripUri(lib, uri).value).value);
      && stripped.scheme == parts.scheme && stripped.path == parts.path
      && stripped.query == parts.query && stripped.fragment == parts.fragment
      && StrippedNetloc(parts.netloc) == Some(stripped.netloc)
  {
  }

  // --- An instance ----------------------------------------------------------------------------

  lemma PlainHost(netloc: string, host: string)
    requires AfterLast(netloc, '@') == host && ':' !in host && '[' !in host && '%' !in host
    ensures Hostname(netloc) == Lower(host) && PortOf(netloc) == NoPort
  {
    Partitioned(host, ':', []);
  }

  lemma Credentials(netloc: string, user: string, password: string)
    requires '@' in netloc && BeforeLast(netloc, '@') == user + ":" + password && ':' !in user
    ensures Username(netloc) == Some(user) && Password(netloc) == Some(password)
  {
    Partitioned(user, ':', password);
    assert (user + ":" + password)[|user|] == ':';
  }

  /** The password goes, whatever it holds; the user stays, and a plain host is written in lower case. */
  lemma PlainAuthority(user: string, password: string, host: string)
    requires user != "" && ':' !in user && '@' !in host && ':' !in host && '[' !in host && '%' !in host
    ensures
      var netloc := user + ":" + password + "@" + host;
      Password(netloc) == Some(password) && StrippedNetloc(netloc) == Some(user + "@" + Lower(host))
  {
    var netloc := user + ":" + password + "@" + host;
    LastIs(user + ":" + password, '@', host);
    assert netloc == user + ":" + password + ['@'] + host && netloc[|user + ":" + password|] == '@';
    Credentials(netloc, user, password);
    PlainHost(netloc, host);
  }

  /** With a port: it stays, written without leading zeros. */
  lemma AuthorityWithPort(user: string, password: string, host: string, port: string)
    requires user != "" && ':' !in user && '@' !in host && ':' !in host && '[' !in host && '%' !in host
    requires IsNumeral(port) && 0 < DigitsValue(port) <= 65535
    ensures StrippedNetloc(user + ":" + password + "@" + (host + ":" + port))
         == Some(user + "@" + (Lower(host) + ":" + Digits(DigitsValue(port))))
  {
    var end := host + ":" + port;
    var netloc := user + ":" + password + "@" + end;
    assert '@' !in port && '[' !in port;
    LastIs(user + ":" + password, '@', end);
    assert netloc == user + ":" + password + ['@'] + end && netloc[|user + ":" + password|] == '@';
    Credentials(netloc, user, password);
    Partitioned(host, ':', port);
  }

  lemma BracketedHost(netloc: string, address: string)
    requires AfterLast(netloc, '@') == "[" + address + "]"
    requires ']' !in address && '%' !in address
    ensures Hostname(netloc) == Lower(address) && PortOf(netloc) == NoPort
  {
    var end := "[" + address + "]";
    assert end == [] + ['['] + (address + "]") && end[0] == '[';
    Partitioned([], '[', address + "]");
    assert address + "]" == address + [']'] + [];
    Partitioned(address, ']', []);
  }

  /** An address in brackets loses them, and is not read back. */
  lemma BracketedAddressIsLost(netloc: string, user: string, password: string, address: string)
    requires netloc == user + ":" + password + "@" + ("[" + address + "]")
    requires user != "" && ':' !in user && ':' in address
    requires '@' !in address && '[' !in address && ']' !in address && '%' !in address
    ensures Hostname(netloc) == Lower(address)
    ensures StrippedNetloc(netloc) == Some(user + "@" + Lower(address))
    ensures Hostname(user + "@" + Lower(address)) != Lower(address)
  {
    var end := "[" + address + "]";
    assert '@' !in end;
    LastIs(user + ":" + password, '@', end);
    assert netloc == user + ":" + password + ['@'] + end && netloc[|user + ":" + password|] == '@';
    Credentials(netloc, user, password);
    BracketedHost(netloc, address);
    LowerKeepsSigns(address, ':');
    CountOfNone(address, ':');
    CountOfNone(Lower(address), ':');
    StrippedNetlocReads(netloc);
  }

  /** A library for URIs that are nothing but an authority. */
  const BARE: UrlLibrary := UrlLibrary(uri => Some(Parts("", uri, "", "", "")), (parts: Parts) => parts.netloc)

  /** It obeys the laws, and passwords are stripped. */
  lemma BareLibraryStrips(user: string, password: string, host: string)
    requires user != "" && ':' !in user && '@' !in host && ':' !in host && '[' !in host && '%' !in host && password != ""
    ensures LibraryLaws(BARE)
    ensures
      var uri := user + ":" + password + "@" + host;
      UriHasPassword(BARE, uri) && StripUri(BARE, uri) == Some(user + "@" + Lower(host))
  {
    PlainAuthority(user, password, host);
  }
}
