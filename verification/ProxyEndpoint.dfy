/**
 * The endpoint grammar [user[:pass]@]host:port, whose separators are resolved by
 * position: the last '@', the first ':' of the userinfo, brackets around a host that
 * holds ':'.
 */
module ProxyEndpoint {
  import opened Basics

  const CREDENTIAL_MAX := 255
  const PORT_TEXT_MAX := 5

  datatype Proxy = Proxy(host: string, port: nat, username: Option<string>, password: Option<string>)

  // ------------------------------------------------------------ string_view's searches

  function Find(s: string, c: char): (r: Option<nat>)
    ensures r.Some? ==> r.value < |s| && s[r.value] == c && c !in s[..r.value]
    ensures r.None? ==> c !in s
  {
    if s == "" then None
    else if s[0] == c then Some(0)
    else
      match Find(s[1..], c)
      case None => None
      case Some(i) => assert s[..i + 1] == [s[0]] + s[1..][..i]; Some(i + 1)
  }

  function RFind(s: string, c: char): (r: Option<nat>)
    ensures r.Some? ==> r.value < |s| && s[r.value] == c && c !in s[r.value + 1..]
    ensures r.None? ==> c !in s
  {
    if s == "" then None
    else
      var n := |s| - 1;
      if s[n] == c then Some(n)
      else
        assert s == s[..n] + [s[n]];
        match RFind(s[..n], c)
        case None => None
        case Some(i) => assert s[i + 1..] == s[..n][i + 1..] + [s[n]]; Some(i)
  }

  lemma {:induction false} FindSplits(a: string, c: char, b: string)
    requires c !in a
    ensures Find(a + [c] + b, c) == Some(|a|)
  {
    if a == "" {
      assert (a + [c] + b)[0] == c;
    } else {
      FindSplits(a[1..], c, b);
      assert (a + [c] + b)[0] == a[0] && (a + [c] + b)[1..] == a[1..] + [c] + b;
    }
  }

  lemma {:induction false} RFindSplits(a: string, c: char, b: string)
    requires c !in b
    ensures RFind(a + [c] + b, c) == Some(|a|)
  {
    var s, n := a + [c] + b, |a| + |b|;
    if b == "" {
      assert s[n] == c;
    } else {
      RFindSplits(a, c, b[..|b| - 1]);
      assert s[n] == b[|b| - 1] && s[..n] == a + [c] + b[..|b| - 1];
    }
  }

  // ------------------------------------------------------------ the pieces

  predicate IsDigit(c: char) { '0' <= c <= '9' }

  function DigitValue(c: char): nat
    requires IsDigit(c)
  {
    c as int - '0' as int
  }

  /** The number a run of digits spells. */
  function Digits(text: string): nat
    requires forall i :: 0 <= i < |text| ==> IsDigit(text[i])
  {
    if text == "" then 0 else Digits(text[..|text| - 1]) * 10 + DigitValue(text[|text| - 1])
  }

  predicate IsPort(text: string) {
    && 0 < |text| <= PORT_TEXT_MAX
    && (forall i :: 0 <= i < |text| ==> IsDigit(text[i]))
    && 0 < Digits(text) <= 65535
  }

  predicate IsHost(host: string) { host != "" && '[' !in host && ']' !in host }

  /** Host and port text of what follows the userinfo. */
  function SplitAuthority(authority: string): Option<(string, string)> {
    if authority != "" && authority[0] == '[' then
      match Find(authority, ']')
      case None => None
      case Some(close) =>
        var tail := authority[close + 1..];
        if tail == "" || tail[0] != ':' then None else Some((authority[1..close], tail[1..]))
    else
      match RFind(authority, ':')
      case None => None
      case Some(colon) => Some((authority[..colon], authority[colon + 1..]))
  }

  /** Username and password of a userinfo: none without a name, refused when either is too long to send. */
  function SplitUserinfo(userinfo: string): Option<(Option<string>, Option<string>)> {
    var colon := Find(userinfo, ':');
    var name := if colon.Some? then userinfo[..colon.value] else userinfo;
    var pass := if colon.Some? then userinfo[colon.value + 1..] else "";
    if |name| > CREDENTIAL_MAX || |pass| > CREDENTIAL_MAX then None
    else if name == "" then Some((None, None))
    else Some((Some(name), if pass == "" then None else Some(pass)))
  }

  /** The endpoint a userinfo and an authority make together. */
  function Assemble(userinfo: string, authority: string): Option<Proxy> {
    match SplitAuthority(authority)
    case None => None
    case Some((host, text)) =>
      if !IsHost(host) || !IsPort(text) then None
      else
        match SplitUserinfo(userinfo)
        case None => None
        case Some((username, password)) => Some(Proxy(host, Digits(text), username, password))
  }

  /** Everything in front of the last '@', which is nothing when there is none. */
  function UserinfoOf(url: string): Option<string> {
    match RFind(url, '@')
    case None => None
    case Some(at) => Some(url[..at])
  }

  function AuthorityOf(url: string): string {
    match RFind(url, '@')
    case None => url
    case Some(at) => url[at + 1..]
  }

  function OrEmpty(text: Option<string>): string { if text.Some? then text.value else "" }

  function Parse(url: string): Option<Proxy> {
    Assemble(OrEmpty(UserinfoOf(url)), AuthorityOf(url))
  }

  /** userinfo '@' authority, or just the authority. */
  function Joined(userinfo: Option<string>, authority: string): string {
    (if userinfo.Some? then userinfo.value + "@" else "") + authority
  }

  /** Splitting at the last '@' and joining are inverse, as long as the authority holds none. */
  lemma JoinedSplits(url: string, userinfo: Option<string>, authority: string)
    ensures url == Joined(userinfo, authority) && '@' !in authority
       <==> UserinfoOf(url) == userinfo && AuthorityOf(url) == authority
  {
    if url == Joined(userinfo, authority) && '@' !in authority && userinfo.Some? {
      assert url == userinfo.value + "@" + authority;
      RFindSplits(userinfo.value, '@', authority);
    }
    if RFind(url, '@').Some? {
      var at := RFind(url, '@').value;
      assert url == url[..at] + url[at..at + 1] + url[at + 1..];
    }
  }

  /** The port accumulated digit by digit, or None for anything that is not one. */
  method ParsePort(text: string) returns (r: Option<nat>)
    ensures r == if IsPort(text) then Some(Digits(text)) else None
  {
    if text == "" || |text| > PORT_TEXT_MAX {
      return None;
    }
    var port, i := 0, 0;
    while i < |text|
      invariant 0 <= i <= |text|
      invariant forall k :: 0 <= k < i ==> IsDigit(text[k])
      invariant port == Digits(text[..i])
    {
      if text[i] < '0' || text[i] > '9' {
        return None;
      }
      port := port * 10 + (text[i] as int - '0' as int);
      assert text[..i + 1][..i] == text[..i];
      i := i + 1;
    }
    assert text[..i] == text;
    if port == 0 || port > 65535 {
      return None;
    }
    return Some(port);
  }

  /** Where the host ends and the port begins: structurally, never by escaping. */
  method FindAuthority(authority: string) returns (r: Option<(string, string)>)
    ensures r == SplitAuthority(authority)
  {
    if authority != "" && authority[0] == '[' {
      var close := Find(authority, ']');
      if close.None? {
        return None;
      }
      var tail := authority[close.value + 1..];
      if tail == "" || tail[0] != ':' {
        return None;
      }
      return Some((authority[1..close.value], tail[1..]));
    }
    var colon := RFind(authority, ':');
    if colon.None? {
      return None;
    }
    return Some((authority[..colon.value], authority[colon.value + 1..]));
  }

  method ParseProxyUrl(url: string) returns (r: Option<Proxy>)
    ensures r == Parse(url)
  {
    hide SplitAuthority, IsPort;
    var userinfo, authority := "", url;
    var at := RFind(url, '@');
    if at.Some? {
      userinfo, authority := url[..at.value], url[at.value + 1..];
    }
    var split := FindAuthority(authority);
    if split.None? {
      return None;
    }
    var (host, portText) := split.value;
    if host == "" || '[' in host || ']' in host {
      return None;
    }
    var port := ParsePort(portText);
    if port.None? {
      return None;
    }
    if userinfo == "" {
      return Some(Proxy(host, port.value, None, None));
    }
    var colon := Find(userinfo, ':');
    var name := if colon.Some? then userinfo[..colon.value] else userinfo;
    var password := if colon.Some? then userinfo[colon.value + 1..] else "";
    if |name| > CREDENTIAL_MAX || |password| > CREDENTIAL_MAX {
      return None;
    }
    if name == "" {
      return Some(Proxy(host, port.value, None, None));
    }
    return Some(Proxy(host, port.value, Some(name), if password == "" then None else Some(password)));
  }

  // ------------------------------------------------------------ the grammar

  /** One way to spell an endpoint: an optional userinfo, brackets or not, and the port's digits. */
  datatype Spelling = Spelling(userinfo: Option<string>, bracketed: bool, portText: string)

  function Authority(e: Proxy, sp: Spelling): string {
    (if sp.bracketed then "[" + e.host + "]" else e.host) + ":" + sp.portText
  }

  function Spelled(e: Proxy, sp: Spelling): string {
    Joined(sp.userinfo, Authority(e, sp))
  }

  /** The spelling states exactly this endpoint. */
  predicate States(sp: Spelling, e: Proxy) {
    && IsHost(e.host) && '@' !in e.host
    && IsPort(sp.portText) && Digits(sp.portText) == e.port
    && SplitUserinfo(OrEmpty(sp.userinfo)) == Some((e.username, e.password))
  }

  lemma PortTextIsPlain(text: string)
    requires IsPort(text)
    ensures '@' !in text && ':' !in text && ']' !in text && '[' !in text
  {
  }

  lemma BracketedSplits(host: string, portText: string)
    requires ']' !in host
    ensures SplitAuthority("[" + host + "]" + ":" + portText) == Some((host, portText))
  {
    var authority := "[" + host + "]" + ":" + portText;
    assert authority == ("[" + host) + "]" + (":" + portText);
    FindSplits("[" + host, ']', ":" + portText);
    assert authority[1..|host| + 1] == host;
    assert authority[|host| + 2..] == ":" + portText;
  }

  lemma PlainSplits(host: string, portText: string)
    requires IsHost(host) && ':' !in portText
    ensures SplitAuthority(host + ":" + portText) == Some((host, portText))
  {
    var authority := host + ":" + portText;
    RFindSplits(host, ':', portText);
    assert authority[0] == host[0] && authority[0] in host;
    assert authority[..|host|] == host && authority[|host| + 1..] == portText;
  }

  lemma AuthoritySplits(e: Proxy, sp: Spelling)
    requires States(sp, e)
    ensures SplitAuthority(Authority(e, sp)) == Some((e.host, sp.portText))
  {
    PortTextIsPlain(sp.portText);
    if sp.bracketed {
      BracketedSplits(e.host, sp.portText);
    } else {
      PlainSplits(e.host, sp.portText);
    }
  }

  /** Every spelling of an endpoint is parsed back to it. */
  lemma SpellingsParse(e: Proxy, sp: Spelling)
    requires States(sp, e)
    ensures Parse(Spelled(e, sp)) == Some(e)
  {
    PortTextIsPlain(sp.portText);
    AuthoritySplits(e, sp);
    assert '@' !in Authority(e, sp);
    hide SplitAuthority, SplitUserinfo, UserinfoOf, AuthorityOf, Joined;
    JoinedSplits(Spelled(e, sp), sp.userinfo, Authority(e, sp));
  }

  /** A username and a password as a userinfo holds them: nothing without a name, no empty password. */
  function Login(name: string, pass: string): (Option<string>, Option<string>) {
    if name == "" then (None, None) else (Some(name), if pass == "" then None else Some(pass))
  }

  /**
   * Every userinfo is a name, or a name, the first ':' and a password: it states those,
   * exactly when neither is over 255 octets, and a password without a name is dropped.
   */
  lemma UserinfoStates(userinfo: string, name: string, pass: string)
    requires ':' !in name
    requires userinfo == name + ":" + pass || (userinfo == name && pass == "")
    ensures SplitUserinfo(userinfo) == if |name| > 255 || |pass| > 255 then None else Some(Login(name, pass))
  {
    if userinfo == name + ":" + pass {
      FindSplits(name, ':', pass);
      assert userinfo[..|name|] == name && userinfo[|name| + 1..] == pass;
    } else {
      assert Find(userinfo, ':').None?;
    }
  }

  /** What was split off an authority spells it. */
  lemma AuthorityIsSpelled(authority: string) returns (bracketed: bool)
    requires SplitAuthority(authority).Some?
    ensures var (host, text) := SplitAuthority(authority).value;
            authority == (if bracketed then "[" + host + "]" else host) + ":" + text
  {
    bracketed := authority != "" && authority[0] == '[';
    if bracketed {
      var close := Find(authority, ']').value;
      assert authority == authority[..1] + authority[1..close] + authority[close..close + 1] + authority[close + 1..];
    } else {
      var colon := RFind(authority, ':').value;
      assert authority == authority[..colon] + authority[colon..colon + 1] + authority[colon + 1..];
    }
  }

  /** Everything accepted is a spelling of what it parsed to. */
  lemma AcceptedIsASpelling(url: string) returns (sp: Spelling)
    requires Parse(url).Some?
    ensures States(sp, Parse(url).value) && url == Spelled(Parse(url).value, sp)
  {
    hide SplitAuthority, SplitUserinfo, UserinfoOf, AuthorityOf, Joined;
    var authority := AuthorityOf(url);
    var bracketed := AuthorityIsSpelled(authority);
    sp := Spelling(UserinfoOf(url), bracketed, SplitAuthority(authority).value.1);
    var e := Parse(url).value;
    assert authority == Authority(e, sp);
    JoinedSplits(url, sp.userinfo, authority);
    assert '@' !in e.host by {
      assert forall c :: c in e.host ==> c in authority;
    }
  }

  /** The parser accepts exactly the spellings of the grammar, each as the one endpoint it states. */
  lemma ParsesExactlyTheGrammar(url: string, e: Proxy)
    ensures Parse(url) == Some(e) <==> exists sp :: States(sp, e) && url == Spelled(e, sp)
  {
    if Parse(url) == Some(e) {
      var sp := AcceptedIsASpelling(url);
    }
    if sp :| States(sp, e) && url == Spelled(e, sp) {
      SpellingsParse(e, sp);
    }
  }

  // ------------------------------------------------------------ the canonical printer

  /** Decimal digits, no leading zero. */
  function Decimal(n: nat): (text: string)
    ensures text != "" && forall i :: 0 <= i < |text| ==> IsDigit(text[i])
    ensures Digits(text) == n
    decreases n
  {
    var last := ['0' + (n % 10) as char];
    if n < 10 then
      assert last[..0] == "";
      last
    else
      var front := Decimal(n / 10);
      assert (front + last)[..|front|] == front;
      front + last
  }

  function Zeros(k: nat): (text: string)
    ensures |text| == k && forall i :: 0 <= i < k ==> text[i] == '0'
  {
    seq(k, _ => '0')
  }

  /** One more digit behind a number. */
  lemma DecimalAppends(v: nat, c: char)
    requires IsDigit(c)
    ensures Decimal(v * 10 + DigitValue(c)) == (if v == 0 then "" else Decimal(v)) + [c]
  {
    var n := v * 10 + DigitValue(c);
    assert n % 10 == DigitValue(c) && n / 10 == v;
    assert '0' + (n % 10) as char == c;
  }

  /** Digits spell their number after any leading zeros. */
  lemma {:induction false} DigitsAfterZeros(text: string) returns (zeros: nat)
    requires text != "" && forall i :: 0 <= i < |text| ==> IsDigit(text[i])
    ensures text == Zeros(zeros) + Decimal(Digits(text))
  {
    hide Decimal;
    var n := |text| - 1;
    var front, c := text[..n], text[n];
    DecimalAppends(Digits(front), c);
    if n == 0 {
      zeros := 0;
      assert Digits(front) == 0 && text == Zeros(0) + [c];
    } else {
      zeros := DigitsAfterZeros(front);
      if Digits(front) == 0 {
        DecimalAppends(0, '0');
        assert front == Zeros(zeros) + "0" == Zeros(zeros + 1);
        zeros := zeros + 1;
        assert text == Zeros(zeros) + [c];
      } else {
        assert text == Zeros(zeros) + (Decimal(Digits(front)) + [c]);
      }
    }
  }

  lemma {:induction false} ZerosAreFree(zeros: nat, n: nat)
    ensures var text := Zeros(zeros) + Decimal(n);
            (forall i :: 0 <= i < |text| ==> IsDigit(text[i])) && Digits(text) == n
    decreases n
  {
    var text := Zeros(zeros) + Decimal(n);
    var front := text[..|text| - 1];
    if n < 10 {
      assert front == Zeros(zeros);
      ZerosAreNothing(zeros);
    } else {
      ZerosAreFree(zeros, n / 10);
      assert front == Zeros(zeros) + Decimal(n / 10);
    }
  }

  lemma {:induction false} ZerosAreNothing(zeros: nat)
    ensures Digits(Zeros(zeros)) == 0
  {
    if zeros > 0 {
      ZerosAreNothing(zeros - 1);
      assert Zeros(zeros)[..zeros - 1] == Zeros(zeros - 1);
    }
  }

  /** The port texts are exactly the decimal spellings of 1 to 65535, padded with zeros to at most five digits. */
  lemma PortTextExactlyWhen(text: string)
    ensures IsPort(text) <==>
              exists n: nat, zeros: nat :: 1 <= n <= 65535 && |text| <= 5 && text == Zeros(zeros) + Decimal(n)
  {
    if IsPort(text) {
      var zeros := DigitsAfterZeros(text);
      assert 1 <= Digits(text) <= 65535;
    }
    if n: nat, zeros: nat :| 1 <= n <= 65535 && |text| <= 5 && text == Zeros(zeros) + Decimal(n) {
      ZerosAreFree(zeros, n);
    }
  }

  function Pow10(k: nat): nat { if k == 0 then 1 else 10 * Pow10(k - 1) }

  lemma {:induction false} DecimalIsShort(n: nat, k: nat)
    requires k > 0 && n < Pow10(k)
    ensures |Decimal(n)| <= k
  {
    if n >= 10 {
      assert k > 1 ==> n / 10 < Pow10(k - 1);
      assert k > 1 by { assert Pow10(1) == 10 * Pow10(0); }
      DecimalIsShort(n / 10, k - 1);
    }
  }

  /** Exactly the endpoints the grammar can carry. */
  predicate WellFormed(e: Proxy) {
    && e.host != "" && '@' !in e.host && '[' !in e.host && ']' !in e.host
    && 1 <= e.port <= 65535
    && (e.username.Some? ==> e.username.value != "" && ':' !in e.username.value && |e.username.value| <= 255)
    && (e.password.Some? ==> e.username.Some? && e.password.value != "" && |e.password.value| <= 255)
  }

  function PrintedUserinfo(e: Proxy): Option<string> {
    match (e.username, e.password)
    case (None, _) => None
    case (Some(name), None) => Some(name)
    case (Some(name), Some(pass)) => Some(name + ":" + pass)
  }

  /** Brackets around hosts that hold ':', credentials only when there are any. */
  function Print(e: Proxy): string {
    Spelled(e, Spelling(PrintedUserinfo(e), ':' in e.host, Decimal(e.port)))
  }

  lemma PrintedStates(e: Proxy)
    requires WellFormed(e)
    ensures States(Spelling(PrintedUserinfo(e), ':' in e.host, Decimal(e.port)), e)
  {
    assert Pow10(5) == 10 * (10 * (10 * (10 * (10 * Pow10(0)))));
    DecimalIsShort(e.port, PORT_TEXT_MAX);
    if e.password.Some? {
      var name, pass := e.username.value, e.password.value;
      FindSplits(name, ':', pass);
      assert (name + ":" + pass)[..|name|] == name && (name + ":" + pass)[|name| + 1..] == pass;
    }
  }

  /** The exact inverse: printing a well-formed endpoint and parsing it gives it back. */
  lemma PrintThenParse(e: Proxy)
    requires WellFormed(e)
    ensures Parse(Print(e)) == Some(e)
  {
    PrintedStates(e);
    SpellingsParse(e, Spelling(PrintedUserinfo(e), ':' in e.host, Decimal(e.port)));
  }

  lemma StatedIsWellFormed(sp: Spelling, e: Proxy)
    requires States(sp, e)
    ensures WellFormed(e)
  {
  }

  /** Every accepted string is a well-formed endpoint, and every well-formed endpoint is accepted in some spelling. */
  lemma AcceptedExactlyWhenWellFormed(e: Proxy)
    ensures (exists url :: Parse(url) == Some(e)) <==> WellFormed(e)
  {
    hide Parse, States, Spelled, Print;
    if url :| Parse(url) == Some(e) {
      var sp := AcceptedIsASpelling(url);
      StatedIsWellFormed(sp, e);
    }
    if WellFormed(e) {
      PrintThenParse(e);
    }
  }
}
