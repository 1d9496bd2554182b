/**
 Parsing a server URL into an address, a port and whether plain http is used; the authority part of section 3.2
 of RFC 3986 as far as the program supports it.
 */
module WebpaUrl {
  import opened Text
  import opened Wrappers

  const UINT_RANGE := 0x1_0000_0000
  const PORT_BUFLEN := 8

  // ---------- numbers ----------

  predicate AllDigits(s: string) {
    forall i :: 0 <= i < |s| ==> IsDigit(s[i])
  }

  /** The decimal value of a digit string, unbounded. */
  function Value(s: string): nat
    requires AllDigits(s)
  {
    if s == "" then 0 else 10 * Value(s[..|s| - 1]) + Digit(s[|s| - 1])
  }

  /** What the program computes: the value modulo 2^32, or (unsigned) -1 for text that is not a number. */
  function NumArg(arg: string): nat {
    if arg == "" || !AllDigits(arg) then UINT_RANGE - 1 else Value(arg) % UINT_RANGE
  }

  method ParseNumArg(arg: string) returns (n: nat)
    ensures n == NumArg(arg)
  {
    if arg == "" {
      return UINT_RANGE - 1;
    }
    n := 0;
    var i := 0;
    while i < |arg|
      invariant i <= |arg| && AllDigits(arg[..i]) && n == Value(arg[..i]) % UINT_RANGE
    {
      if arg[i] < '0' || arg[i] > '9' {
        assert !IsDigit(arg[i]);
        return UINT_RANGE - 1;
      }
      assert arg[..i + 1][..i] == arg[..i];
      var d := (arg[i] - '0') as nat;
      WrapStep(Value(arg[..i]), d);
      n := (n * 10 + d) % UINT_RANGE;
      i := i + 1;
    }
    assert arg[..i] == arg;
  }

  /** Wrapping at every digit is wrapping once. */
  lemma WrapStep(v: nat, d: nat)
    ensures (v % UINT_RANGE * 10 + d) % UINT_RANGE == (10 * v + d) % UINT_RANGE
  {
    var q := v / UINT_RANGE;
    assert v == q * UINT_RANGE + v % UINT_RANGE;
    assert 10 * v + d == (10 * q) * UINT_RANGE + (v % UINT_RANGE * 10 + d);
    ModAddMultiple(v % UINT_RANGE * 10 + d, 10 * q);
  }

  lemma {:induction false} ModAddMultiple(x: nat, k: nat)
    ensures (k * UINT_RANGE + x) % UINT_RANGE == x % UINT_RANGE
  {
    if k > 0 {
      ModAddMultiple(x, k - 1);
      assert k * UINT_RANGE + x == (k - 1) * UINT_RANGE + x + UINT_RANGE;
    }
  }

  // ---------- strings ----------

  function UpTo(s: string, c: char): string {
    s[..IndexOf(s, c)]
  }

  // ---------- the parser ----------

  /** The three parts of an accepted form: plain http or not, the address, and the text of the port. */
  datatype Parts = BadUrl | Parts(http: bool, addr: string, portField: string)

  function DefaultPort(http: bool): string {
    if http then "80" else "443"
  }

  /** Drops one '/' at the end. */
  function TrimSlash(s: string): string {
    if s != "" && s[|s| - 1] == '/' then s[..|s| - 1] else s
  }

  function PortAfterBracket(http: bool, rest: string): string {
    var colon := IndexOf(rest, ':');
    if colon == |rest| then DefaultPort(http) else UpTo(rest[colon + 1..], '/')
  }

  /** Splits what follows the scheme. An opening bracket anywhere makes the first character be dropped. */
  function SplitServer(http: bool, s: string): Parts {
    if '[' in s then
      var t := s[1..];
      var close := IndexOf(t, ']');
      if close == |t| then BadUrl
      else
        Parts(http, t[..close], PortAfterBracket(http, t[close + 1..]))
    else if ']' in s then BadUrl
    else
      var colon := IndexOf(s, ':');
      if colon == |s| then Parts(http, UpTo(s, '/'), DefaultPort(http))
      else Parts(http, s[..colon], UpTo(s[colon + 1..], '/'))
  }

  function SplitUrl(url: string): Parts {
    if "https://" <= url then SplitServer(false, TrimSlash(url[8..]))
    else if "http://" <= url then SplitServer(true, TrimSlash(url[7..]))
    else BadUrl
  }

  datatype Server = Server(insecure: bool, addr: string, port: nat)

  /** The port buffer holds at most seven characters. */
  function PortBuf(field: string): string {
    if |field| < PORT_BUFLEN then field else field[..PORT_BUFLEN - 1]
  }

  /** The server a URL names, or none when it is not accepted. */
  function ServerOf(url: string): Option<Server> {
    FromParts(SplitUrl(url))
  }

  function FromParts(parts: Parts): Option<Server> {
    if parts.BadUrl? then None
    else
      var port := NumArg(PortBuf(parts.portField));
      if port == UINT_RANGE - 1 || port == 0 || port > 65535 then None
      else Some(Server(parts.http, parts.addr, port))
  }

  /** The parser in the program's form: an address that stays NULL until everything has been accepted. */
  method ParseWebpaUrl(url: string) returns (allowInsecure: int, addr: Option<string>, port: nat)
    ensures ServerOf(url).None? ==> allowInsecure == -1 && addr == None
    ensures ServerOf(url).Some? ==>
      addr == Some(ServerOf(url).value.addr) && port == ServerOf(url).value.port &&
      allowInsecure == if ServerOf(url).value.insecure then 1 else 0
  {
    allowInsecure, addr, port := -1, None, 0;
    var parts := SplitUrl(url);
    if parts.BadUrl? {
      return;
    }
    var portVal := ParseNumArg(PortBuf(parts.portField));
    if portVal == UINT_RANGE - 1 {
      return;
    }
    if portVal == 0 || portVal > 65535 {
      return;
    }
    addr, port := Some(parts.addr), portVal;
    allowInsecure := if parts.http then 1 else 0;
  }

  // ---------- the port number ----------

  lemma {:induction false} ValueBound(s: string, bound: nat)
    requires AllDigits(s) && bound == Pow10(|s|)
    ensures Value(s) < bound
  {
    if s != "" {
      ValueBound(s[..|s| - 1], Pow10(|s| - 1));
    }
  }

  function Pow10(n: nat): (p: nat)
    ensures p >= 1
  {
    if n == 0 then 1 else 10 * Pow10(n - 1)
  }

  lemma {:induction false} Pow10Grows(m: nat, n: nat)
    requires m <= n
    ensures Pow10(m) <= Pow10(n)
  {
    if m < n {
      Pow10Grows(m, n - 1);
    }
  }

  lemma {:induction false} ValueOfPrefix(s: string, k: nat)
    requires AllDigits(s) && k <= |s|
    ensures Value(s[..k]) <= Value(s) && (k < |s| ==> 10 * Value(s[..k]) <= Value(s))
  {
    if k == |s| {
      assert s[..k] == s;
    } else {
      var front := s[..|s| - 1];
      assert front[..k] == s[..k];
      ValueOfPrefix(front, k);
    }
  }

  /** Seven digits do not reach 2^32, so the accumulation never wraps. */
  lemma PortBufDoesNotWrap(field: string)
    requires AllDigits(PortBuf(field))
    ensures Value(PortBuf(field)) < UINT_RANGE - 1
  {
    var buf := PortBuf(field);
    ValueBound(buf, Pow10(|buf|));
    Pow10Grows(|buf|, 7);
    assert Pow10(7) == 10 * Pow10(6) && Pow10(6) == 10 * Pow10(5) && Pow10(5) == 10 * Pow10(4);
    assert Pow10(4) == 10 * Pow10(3) && Pow10(3) == 10 * Pow10(2) && Pow10(2) == 10 * Pow10(1) && Pow10(1) == 10;
  }

  lemma PortBufValue(field: string)
    requires NumArg(PortBuf(field)) <= 65535
    ensures AllDigits(PortBuf(field)) && NumArg(PortBuf(field)) == Value(PortBuf(field))
  {
    if AllDigits(PortBuf(field)) {
      PortBufDoesNotWrap(field);
    }
  }

  lemma PortIsExact(field: string)
    requires AllDigits(field) && AllDigits(PortBuf(field)) && Value(PortBuf(field)) >= 1
    ensures Value(PortBuf(field)) == Value(field) <==> |field| <= 7
  {
    var k := |PortBuf(field)|;
    assert field[..k] == PortBuf(field);
    ValueOfPrefix(field, k);
  }

  /**
   An accepted port is in 1..65535 and is the value of the first seven characters. It is the number written exactly
   when at most seven characters are: 00000808 is taken for port 80, and 0008080x for port 8080.
   */
  lemma AcceptedPort(url: string)
    ensures ServerOf(url).Some? ==>
              var port, field := ServerOf(url).value.port, SplitUrl(url).portField;
              1 <= port <= 65535 && AllDigits(PortBuf(field)) && port == Value(PortBuf(field)) &&
              (AllDigits(field) && port == Value(field) <==> |field| <= 7)
  {
    if ServerOf(url).None? {
      return;
    }
    var field := SplitUrl(url).portField;
    PortBufValue(field);
    if AllDigits(field) {
      PortIsExact(field);
    }
  }

  // ---------- which URLs are refused ----------

  /** What follows the scheme, without a '/' at the end. */
  function Authority(url: string): Option<string> {
    if "https://" <= url then Some(TrimSlash(url[8..]))
    else if "http://" <= url then Some(TrimSlash(url[7..]))
    else None
  }

  /** An opening bracket needs a closing one after the first character, and no closing one comes alone. */
  predicate BracketsOk(s: string) {
    if '[' in s then ']' in s[1..] else ']' !in s
  }

  /** The first seven characters are the digits of a number from 1 to 65535. */
  predicate PortOk(field: string) {
    PortBuf(field) != "" && AllDigits(PortBuf(field)) && 1 <= Value(PortBuf(field)) <= 65535
  }

  lemma PortOkIff(parts: Parts)
    requires !parts.BadUrl?
    ensures FromParts(parts).Some? <==> PortOk(parts.portField)
  {
    if AllDigits(PortBuf(parts.portField)) {
      PortBufDoesNotWrap(parts.portField);
    }
  }

  /** A URL is refused exactly for its scheme, its brackets or its port. */
  lemma RefusedIff(url: string)
    ensures ServerOf(url).None? <==>
            Authority(url).None? || !BracketsOk(Authority(url).value) || !PortOk(SplitUrl(url).portField)
  {
    if Authority(url).Some? {
      var s := Authority(url).value;
      assert '[' in s ==> (']' in s[1..] <==> IndexOf(s[1..], ']') < |s[1..]|);
      assert SplitUrl(url).BadUrl? <==> !BracketsOk(s);
    }
    if !SplitUrl(url).BadUrl? {
      PortOkIff(SplitUrl(url));
    }
  }

  /** `part` stands at the beginning of `s`, up to the first `stop` or to the end. */
  predicate EndsAt(part: string, s: string, stop: char) {
    part <= s && stop !in part && (part == s || s[|part|] == stop)
  }

  /** The text of the port: behind the first colon, up to a slash, or the default when there is no colon. */
  ghost predicate IsPortOf(field: string, s: string, http: bool) {
    if ':' in s then exists front :: EndsAt(front, s, ':') && |front| < |s| && EndsAt(field, s[|front| + 1..], '/')
    else field == DefaultPort(http)
  }

  lemma UpToEnds(s: string, c: char)
    ensures EndsAt(UpTo(s, c), s, c)
    ensures c in s <==> IndexOf(s, c) < |s|
  {
    var k := IndexOf(s, c);
    if k == |s| {
      assert s[..k] == s;
    }
  }

  lemma PortParts(s: string, http: bool)
    ensures IsPortOf(PortAfterBracket(http, s), s, http)
  {
    UpToEnds(s, ':');
    if ':' in s {
      assert EndsAt(UpTo(s, ':'), s, ':') && |UpTo(s, ':')| < |s|;
      UpToEnds(s[IndexOf(s, ':') + 1..], '/');
    }
  }

  /** Behind the first character, the address ends at the closing bracket and the port is behind that. */
  ghost predicate IsBracketed(p: Parts, t: string)
    requires p.Parts?
  {
    EndsAt(p.addr, t, ']') && |p.addr| < |t| && IsPortOf(p.portField, t[|p.addr| + 1..], p.http)
  }

  /** The parts of what follows the scheme. */
  ghost predicate IsSplit(p: Parts, s: string)
    requires p.Parts?
  {
    if '[' in s then IsBracketed(p, s[1..])
    else EndsAt(p.addr, s, if ':' in s then ':' else '/') && IsPortOf(p.portField, s, p.http)
  }

  function BracketSplit(http: bool, t: string): Parts
    requires ']' in t
  {
    UpToEnds(t, ']');
    Parts(http, UpTo(t, ']'), PortAfterBracket(http, t[IndexOf(t, ']') + 1..]))
  }

  lemma BracketParts(http: bool, t: string)
    requires ']' in t
    ensures IsBracketed(BracketSplit(http, t), t)
  {
    UpToEnds(t, ']');
    PortParts(t[IndexOf(t, ']') + 1..], http);
  }

  lemma SplitBracket(http: bool, s: string)
    requires '[' in s && !SplitServer(http, s).BadUrl?
    ensures ']' in s[1..] && SplitServer(http, s) == BracketSplit(http, s[1..])
  {
    UpToEnds(s[1..], ']');
  }

  lemma PlainParts(http: bool, s: string)
    requires '[' !in s && ']' !in s
    ensures SplitServer(http, s) == Parts(http, UpTo(s, if ':' in s then ':' else '/'), PortAfterBracket(http, s))
    ensures IsSplit(SplitServer(http, s), s)
  {
    UpToEnds(s, ':');
    UpToEnds(s, '/');
    PortParts(s, http);
  }

  lemma SplitServerParts(http: bool, s: string)
    requires !SplitServer(http, s).BadUrl?
    ensures SplitServer(http, s).http == http && IsSplit(SplitServer(http, s), s)
  {
    if '[' in s {
      SplitBracket(http, s);
      BracketParts(http, s[1..]);
    } else {
      PlainParts(http, s);
    }
  }

  lemma SplitIsServer(url: string)
    requires Authority(url).Some?
    ensures SplitUrl(url) == SplitServer("http://" <= url, Authority(url).value)
  {
    assert "http://"[4] == ':' && "https://"[4] == 's';
  }

  /**
   What an accepted URL is split into. With an opening bracket anywhere the first character goes, the address ends at
   the closing bracket, and the port is behind that; otherwise the address ends at the first colon, or else at a slash.
   */
  lemma PartsOfAccepted(url: string)
    requires Authority(url).Some? && !SplitUrl(url).BadUrl?
    ensures SplitUrl(url).http == ("http://" <= url) && IsSplit(SplitUrl(url), Authority(url).value)
  {
    SplitIsServer(url);
    SplitServerParts("http://" <= url, Authority(url).value);
  }

  // ---------- round trip ----------

  lemma ValueSnoc(front: string, d: nat)
    requires AllDigits(front) && d < 10
    ensures AllDigits(front + [DigitChar(d)]) && Value(front + [DigitChar(d)]) == 10 * Value(front) + d
  {
    assert (front + [DigitChar(d)])[..|front|] == front;
  }

  function Dec(n: nat): (s: string)
    ensures AllDigits(s) && s != "" && Value(s) == n
  {
    var front := if n < 10 then "" else Dec(n / 10);
    ValueSnoc(front, n % 10);
    front + [DigitChar(n % 10)]
  }

  lemma {:induction false} DecLength(n: nat, k: nat)
    requires k >= 1 && n < Pow10(k)
    ensures |Dec(n)| <= k
  {
    if n >= 10 {
      assert k > 1 by {
        assert Pow10(1) == 10 * Pow10(0);
      }
      DecLength(n / 10, k - 1);
    }
  }

  datatype Url = Url(http: bool, host: string, bracketed: bool, port: Option<nat>, path: string)

  predicate NoBrackets(s: string) {
    '[' !in s && ']' !in s
  }

  /** The URLs the program supports: an IPv6 literal goes in brackets, a default port needs a path without ':'. */
  predicate Supported(u: Url) {
    NoBrackets(u.host) && PathOk(u.path) &&
    (!u.bracketed ==> ':' !in u.host && '/' !in u.host) &&
    (u.port.Some? ==> 1 <= u.port.value <= 65535) &&
    (u.port.None? ==> ':' !in u.path)
  }

  function PrintHost(u: Url): string {
    if u.bracketed then "[" + u.host + "]" else u.host
  }

  function PrintPort(u: Url): string {
    if u.port.Some? then ":" + Dec(u.port.value) else ""
  }

  function Print(u: Url): string {
    (if u.http then "http://" else "https://") + (PrintHost(u) + PrintPort(u) + u.path)
  }

  lemma TrimPath(u: Url)
    requires Supported(u)
    ensures TrimSlash(PrintHost(u) + PrintPort(u) + u.path) == PrintHost(u) + PrintPort(u) + TrimSlash(u.path)
  {
    var front := PrintHost(u) + PrintPort(u);
    if u.path != "" {
      assert (front + u.path)[..|front + u.path| - 1] == front + u.path[..|u.path| - 1];
    } else if front != "" {
      assert front + u.path == front;
      if u.port.Some? {
        assert front[|front| - 1] == Dec(u.port.value)[|Dec(u.port.value)| - 1];
      } else if !u.bracketed {
        assert front == u.host && front[|front| - 1] in u.host;
      }
    } else {
      assert front + u.path == "";
    }
  }

  predicate PathOk(path: string) {
    NoBrackets(path) && (path == "" || path[0] == '/')
  }

  lemma CutAtPath(front: string, path: string)
    requires '/' !in front && PathOk(path)
    ensures UpTo(front + path, '/') == front
  {
    var s := front + path;
    if path == "" {
      assert s == front;
      IndexNone(s, '/');
    } else {
      assert s[..|front|] == front;
      IndexIs(s, '/', |front|);
    }
  }

  lemma SplitPlainPort(http: bool, host: string, digits: string, path: string)
    requires NoBrackets(host) && ':' !in host && AllDigits(digits) && PathOk(path)
    ensures SplitServer(http, host + ":" + digits + path) == Parts(http, host, digits)
  {
    var s := host + ":" + digits + path;
    assert '[' !in digits && ']' !in digits && '/' !in digits;
    assert '[' !in s && ']' !in s;
    assert s[..|host|] == host && s[|host| + 1..] == digits + path;
    IndexIs(s, ':', |host|);
    CutAtPath(digits, path);
  }

  lemma SplitPlainDefault(http: bool, host: string, path: string)
    requires NoBrackets(host) && ':' !in host && '/' !in host && PathOk(path) && ':' !in path
    ensures SplitServer(http, host + path) == Parts(http, host, DefaultPort(http))
  {
    var s := host + path;
    assert '[' !in s && ']' !in s && ':' !in s;
    IndexNone(s, ':');
    CutAtPath(host, path);
  }

  /** With brackets: the literal ends at ']', and the rest decides the port. */
  lemma SplitBrackets(http: bool, host: string, rest: string)
    requires NoBrackets(host)
    ensures SplitServer(http, "[" + host + "]" + rest) == Parts(http, host, PortAfterBracket(http, rest))
  {
    var s := "[" + host + "]" + rest;
    var t := s[1..];
    assert s[0] == '[';
    assert t[..|host|] == host && t[|host|] == ']' && t[|host| + 1..] == rest;
    IndexIs(t, ']', |host|);
  }

  lemma PortPrinted(http: bool, digits: string, path: string)
    requires AllDigits(digits) && PathOk(path)
    ensures PortAfterBracket(http, ":" + digits + path) == digits
  {
    var rest := ":" + digits + path;
    assert rest[0] == ':' && rest[..0] == "";
    IndexIs(rest, ':', 0);
    assert rest[1..] == digits + path;
    NoSlash(digits);
    CutAtPath(digits, path);
  }

  lemma NoSlash(digits: string)
    requires AllDigits(digits)
    ensures '/' !in digits
  {
  }

  /** The port as it was printed, or the default. */
  function PortText(u: Url): string {
    if u.port.Some? then Dec(u.port.value) else DefaultPort(u.http)
  }

  lemma SplitPrinted(u: Url, path: string)
    requires Supported(u) && PathOk(path) && (u.port.None? ==> ':' !in path)
    ensures SplitServer(u.http, PrintHost(u) + PrintPort(u) + path) == Parts(u.http, u.host, PortText(u))
  {
    var s := PrintHost(u) + PrintPort(u) + path;
    if u.port.Some? {
      var digits := Dec(u.port.value);
      if u.bracketed {
        assert s == "[" + u.host + "]" + (":" + digits + path);
        SplitBrackets(u.http, u.host, ":" + digits + path);
        PortPrinted(u.http, digits, path);
      } else {
        assert s == u.host + ":" + digits + path;
        SplitPlainPort(u.http, u.host, digits, path);
      }
    } else {
      assert s == PrintHost(u) + path;
      if u.bracketed {
        SplitBrackets(u.http, u.host, path);
        IndexNone(path, ':');
      } else {
        SplitPlainDefault(u.http, u.host, path);
      }
    }
  }

  lemma DefaultPortValue(http: bool)
    ensures AllDigits(DefaultPort(http)) && Value(DefaultPort(http)) == if http then 80 else 443
  {
    var d := DefaultPort(http);
    if http {
      assert Value(d[..1]) == 10 * Value(d[..1][..0]) + 8;
    } else {
      assert Value(d[..2][..1]) == 10 * Value(d[..2][..1][..0]) + 4;
      assert Value(d[..2]) == 10 * Value(d[..2][..1]) + 4;
    }
  }

  lemma SplitUrlOfPrint(u: Url)
    requires Supported(u)
    ensures SplitUrl(Print(u)) == Parts(u.http, u.host, PortText(u))
  {
    var url, server := Print(u), PrintHost(u) + PrintPort(u) + u.path;
    if u.http {
      assert url[4] == ':' && "https://"[4] == 's';
      assert url[7..] == server;
    } else {
      assert url[8..] == server;
    }
    TrimPath(u);
    SplitPrinted(u, TrimSlash(u.path));
  }

  /** The port text is short enough for the buffer and reads as the port. */
  lemma PortTextValue(u: Url)
    requires Supported(u)
    ensures PortBuf(PortText(u)) == PortText(u) && PortText(u) != "" && AllDigits(PortText(u))
    ensures Value(PortText(u)) == if u.port.Some? then u.port.value else if u.http then 80 else 443
  {
    if u.port.Some? {
      assert Pow10(5) == 10 * Pow10(4) && Pow10(4) == 10 * Pow10(3) && Pow10(3) == 10 * Pow10(2);
      assert Pow10(2) == 10 * Pow10(1) && Pow10(1) == 10;
      DecLength(u.port.value, 5);
    } else {
      DefaultPortValue(u.http);
    }
  }

  lemma ServerOfParts(http: bool, addr: string, text: string)
    requires PortBuf(text) == text && text != "" && AllDigits(text) && 1 <= Value(text) <= 65535
    ensures FromParts(Parts(http, addr, text)) == Some(Server(http, addr, Value(text)))
  {
    assert NumArg(text) == Value(text);
  }

  /** Printing a supported URL and parsing it gives back the security flag, the host and the port. */
  lemma RoundTrip(u: Url)
    requires Supported(u)
    ensures ServerOf(Print(u)) ==
            Some(Server(u.http, u.host, if u.port.Some? then u.port.value else if u.http then 80 else 443))
  {
    SplitUrlOfPrint(u);
    PortTextValue(u);
    ServerOfParts(u.http, u.host, PortText(u));
  }

  // ---------- a port that is cut ----------

  lemma CutPortValue()
    ensures AllDigits("0000080") && Value("0000080") == 80
  {
    var s := "0000080";
    var k := 0;
    while k < 5
      invariant k <= 5 && Value(s[..k]) == 0
    {
      assert s[..k + 1][..k] == s[..k] && s[..k + 1][k] == '0';
      k := k + 1;
    }
    assert s[..6][..5] == s[..5] && s[..6][5] == '8';
    assert Value(s[..6]) == 8;
    assert s[..7][..6] == s[..6] && s[..7][6] == '0' && s[..7] == s;
  }

  lemma CutPortDigits()
    ensures AllDigits("00000808") && Value("00000808") == 808 && PortBuf("00000808") == "0000080"
  {
    var digits := "00000808";
    assert digits[..7] == "0000080" && digits[7] == '8';
    CutPortValue();
    assert digits[..|digits| - 1] == "0000080";
  }

  lemma CutPortServer()
    ensures FromParts(Parts(true, "h", "00000808")) == Some(Server(true, "h", 80))
  {
    CutPortDigits();
    CutPortValue();
    assert NumArg("0000080") == 80;
  }

  lemma SplitHttp(server: string)
    ensures SplitUrl("http://" + server) == SplitServer(true, TrimSlash(server))
  {
    var url := "http://" + server;
    assert url[7..] == server && url[4] == ':' && "https://"[4] == 's';
  }

  lemma NoTrim(front: string, digits: string)
    requires AllDigits(digits) && digits != ""
    ensures TrimSlash(front + digits) == front + digits
  {
    assert IsDigit(digits[|digits| - 1]);
  }

  lemma SplitDigits(host: string, digits: string)
    requires NoBrackets(host) && ':' !in host && AllDigits(digits) && digits != ""
    ensures SplitServer(true, TrimSlash(host + ":" + digits)) == Parts(true, host, digits)
  {
    NoTrim(host + ":", digits);
    assert host + ":" + digits + "" == host + ":" + digits;
    SplitPlainPort(true, host, digits, "");
  }

  /** Port 808 written with eight digits is accepted as port 80. */
  lemma CutPortExample()
    ensures ServerOf("http://" + ("h" + ":" + "00000808")) == Some(Server(true, "h", 80))
    ensures AllDigits("00000808") && Value("00000808") == 808
  {
    CutPortDigits();
    SplitDigits("h", "00000808");
    SplitHttp("h" + ":" + "00000808");
    CutPortServer();
  }
}
