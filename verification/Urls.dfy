/** URLs as net/url takes them apart, and what becomes of the parts when a URL is put together from them
    without escaping and parsed again. Text is a sequence of bytes. */
module Urls {
  import opened Wrappers

  /** What a parse finds in a URL: the scheme in lower case, what stands for the rest of it where no '/'
      follows the scheme, the user, the host without port and brackets, the decoded path, which is empty or
      starts with '/' where there is a scheme, the query and the decoded fragment. */
  datatype Url = Url(scheme: string, rest: string, user: Option<string>, hostname: string, port: string, path: string,
                     query: Option<string>, fragment: string)

  predicate IsHex(c: char) {
    '0' <= c <= '9' || 'a' <= c <= 'f' || 'A' <= c <= 'F'
  }

  function Unhex(c: char): (d: nat)
    requires IsHex(c)
    ensures d < 16
  {
    if c <= '9' then c as int - '0' as int
    else if c >= 'a' then c as int - 'a' as int + 10
    else c as int - 'A' as int + 10
  }

  /** The characters a host may hold unescaped. */
  predicate FreeInHost(c: char) {
    'a' <= c <= 'z' || 'A' <= c <= 'Z' || '0' <= c <= '9' || c in "-_.~!$&'()*+,;=:[]<>\""
  }

  predicate IsControl(c: char) {
    c < ' ' || c as int == 127
  }

  /** The parts of a URL differ in what they may hold and in what may be escaped in them. */
  datatype Part = InPath | InHost | InZone

  predicate MayStand(part: Part, c: char) {
    part == InPath || c as int >= 128 || FreeInHost(c)
  }

  predicate MayBeEscaped(part: Part, h: char, l: char)
    requires IsHex(h) && IsHex(l)
  {
    match part
    case InPath => true
    case InHost => Unhex(h) >= 8 || (h == '2' && l == '5')
    case InZone => (h == '2' && (l == '5' || l == '0')) || FreeInHost((16 * Unhex(h) + Unhex(l)) as char)
  }

  /** The unescape of net/url; none stands for its error. */
  function Unescaped(part: Part, s: string): Option<string> {
    if s == "" then Some("")
    else if s[0] == '%' then
      if |s| < 3 || !IsHex(s[1]) || !IsHex(s[2]) || !MayBeEscaped(part, s[1], s[2]) then None
      else
        match Unescaped(part, s[3..])
        case None => None
        case Some(rest) => Some([(16 * Unhex(s[1]) + Unhex(s[2])) as char] + rest)
    else if !MayStand(part, s[0]) then None
    else
      match Unescaped(part, s[1..])
      case None => None
      case Some(rest) => Some([s[0]] + rest)
  }

  /** The text before the first c. */
  function UpTo(s: string, c: char): (r: string)
    ensures r <= s
  {
    if s == "" || s[0] == c then "" else [s[0]] + UpTo(s[1..], c)
  }

  predicate HasControl(s: string) {
    exists i :: 0 <= i < |s| && IsControl(s[i])
  }

  /** A fragment is cut off and must be well escaped, a query is cut off, and the rest is unescaped. */
  datatype PathParts = PathParts(path: string, query: Option<string>, fragment: string)

  function RereadPath(path: string): Option<PathParts> {
    var front := UpTo(path, '#');
    var plain := UpTo(front, '?');
    var query := if plain == front then None else Some(front[|plain| + 1..]);
    var fragment := if front == path then Some("") else Unescaped(InPath, path[|front| + 1..]);
    match (Unescaped(InPath, plain), fragment)
    case (Some(p), Some(f)) => if HasControl(front) then None else Some(PathParts(p, query, f))
    case _ => None
  }

  /** Where the zone of an address starts. */
  function ZoneStart(host: string): (i: nat)
    ensures i <= |host|
  {
    if host == "" || "%25" <= host then 0 else 1 + ZoneStart(host[1..])
  }

  /** The host is followed by ':' and the port when it is read again; brackets are taken off. */
  function RereadHost(host: string): Option<string> {
    if host == "" || host[0] != '[' then Unescaped(InHost, host)
    else if host[|host| - 1] != ']' then None
    else
      var inner := host[1..|host| - 1];
      var zone := ZoneStart(inner);
      match (Unescaped(InHost, inner[..zone]), Unescaped(InZone, inner[zone..]))
      case (Some(address), Some(name)) => Some(address + name)
      case _ => None
  }

  /** Parsing "scheme://host:port" with the path behind it. */
  function Reread(scheme: string, hostname: string, port: string, path: string): Option<Url> {
    if scheme == "" then None
    else
      match (RereadHost(hostname), RereadPath(path))
      case (Some(host), Some(p)) => Some(Url(scheme, "", None, host, port, p.path, p.query, p.fragment))
      case _ => None
  }

  // ---------------------------------------------------------------- what survives

  predicate HostSurvives(host: string) {
    && (host == "" || host[0] != '[')
    && '%' !in host && AllMayStand(InHost, host)
  }

  predicate PathSurvives(path: string) {
    '#' !in path && '?' !in path && '%' !in path && !HasControl(path)
  }

  lemma {:induction false} UnescapedIsShorter(part: Part, s: string)
    ensures Unescaped(part, s).Some? ==> |Unescaped(part, s).value| <= |s| - if '%' in s then 1 else 0
  {
    if s == "" {
    } else if s[0] == '%' {
      if |s| >= 3 { UnescapedIsShorter(part, s[3..]); }
    } else {
      UnescapedIsShorter(part, s[1..]);
    }
  }

  predicate AllMayStand(part: Part, s: string) {
    forall i :: 0 <= i < |s| ==> MayStand(part, s[i])
  }

  lemma AllMayStandFirst(part: Part, s: string)
    requires s != ""
    ensures AllMayStand(part, s) <==> MayStand(part, s[0]) && AllMayStand(part, s[1..])
  {
    if MayStand(part, s[0]) && AllMayStand(part, s[1..]) {
      forall i | 0 <= i < |s| ensures MayStand(part, s[i]) {
        if i > 0 { assert s[i] == s[1..][i - 1]; }
      }
    }
  }

  lemma {:induction false} UnescapedPlain(part: Part, s: string)
    requires '%' !in s
    ensures Unescaped(part, s) == if AllMayStand(part, s) then Some(s) else None
  {
    if s == "" {
    } else {
      UnescapedPlain(part, s[1..]);
      AllMayStandFirst(part, s);
      assert s == [s[0]] + s[1..];
    }
  }

  lemma {:induction false} UpToIsAll(s: string, c: char)
    ensures UpTo(s, c) == s <==> c !in s
  {
    if s == "" {
    } else {
      UpToIsAll(s[1..], c);
      assert s == [s[0]] + s[1..];
    }
  }

  lemma PathSurvivesIff(path: string)
    ensures PathSurvives(path) ==> RereadPath(path) == Some(PathParts(path, None, ""))
    ensures RereadPath(path).Some? && RereadPath(path).value.path == path ==> PathSurvives(path)
  {
    var front := UpTo(path, '#');
    var plain := UpTo(front, '?');
    UpToIsAll(path, '#');
    UpToIsAll(front, '?');
    UnescapedIsShorter(InPath, plain);
    if PathSurvives(path) {
      UnescapedPlain(InPath, path);
    }
  }

  lemma HostSurvivesIff(host: string)
    ensures RereadHost(host) == Some(host) <==> HostSurvives(host)
  {
    if host != "" && host[0] == '[' {
      if host[|host| - 1] == ']' {
        var inner := host[1..|host| - 1];
        UnescapedIsShorter(InHost, inner[..ZoneStart(inner)]);
        UnescapedIsShorter(InZone, inner[ZoneStart(inner)..]);
      }
    } else {
      UnescapedIsShorter(InHost, host);
      if '%' !in host { UnescapedPlain(InHost, host); }
    }
  }

  predicate Survives(url: Url) {
    && url.scheme != "" && HostSurvives(url.hostname) && PathSurvives(url.path)
    && url.rest == "" && url.user == None && url.query == None && url.fragment == ""
  }

  /** A URL is read again as it was exactly when it has a scheme, nothing but host, port and path, and
      nothing in these means more unescaped than it did. */
  lemma SurvivesIff(url: Url)
    ensures Reread(url.scheme, url.hostname, url.port, url.path) == Some(url) <==> Survives(url)
  {
    HostSurvivesIff(url.hostname);
    PathSurvivesIff(url.path);
  }

  // ---------------------------------------------------------------- what the second parse makes of the rest

  lemma {:induction false} UpToIsFirstPiece(a: string, c: char, b: string)
    requires c !in a
    ensures UpTo(a + [c] + b, c) == a
  {
    if a == "" {
      assert a + [c] + b == [c] + b;
    } else {
      assert (a + [c] + b)[1..] == a[1..] + [c] + b;
      UpToIsFirstPiece(a[1..], c, b);
      assert a == [a[0]] + a[1..];
    }
  }

  function HexDigit(d: nat, upper: bool): (c: char)
    requires d < 16
    ensures IsHex(c)
  {
    if upper then "0123456789ABCDEF"[d] else "0123456789abcdef"[d]
  }

  /** Percent-encoding of every byte, with upper- or lower-case digits. */
  function Escaped(s: string, upper: bool): string
    requires forall i :: 0 <= i < |s| ==> s[i] as int < 256
  {
    if s == "" then ""
    else ['%', HexDigit(s[0] as int / 16, upper), HexDigit(s[0] as int % 16, upper)] + Escaped(s[1..], upper)
  }

  lemma UnhexDigit(d: nat, upper: bool)
    requires d < 16
    ensures Unhex(HexDigit(d, upper)) == d
  {
  }

  lemma EscapedFirst(c: char, rest: string, upper: bool)
    requires c as int < 256 && forall i :: 0 <= i < |rest| ==> rest[i] as int < 256
    ensures Escaped([c] + rest, upper) ==
            ['%', HexDigit(c as int / 16, upper), HexDigit(c as int % 16, upper)] + Escaped(rest, upper)
  {
    assert ([c] + rest)[1..] == rest;
  }

  lemma UnescapedFirst(h: char, l: char, c: char, escaped: string)
    requires IsHex(h) && IsHex(l) && c as int == 16 * Unhex(h) + Unhex(l)
    ensures Unescaped(InPath, ['%', h, l] + escaped) ==
            match Unescaped(InPath, escaped) case None => None case Some(rest) => Some([c] + rest)
  {
    assert (['%', h, l] + escaped)[3..] == escaped;
  }

  /** Unescaping undoes escaping, whatever the bytes. */
  lemma {:induction false} UnescapeEscaped(s: string, upper: bool)
    requires forall i :: 0 <= i < |s| ==> s[i] as int < 256
    ensures Unescaped(InPath, Escaped(s, upper)) == Some(s)
  {
    if s == "" {
    } else {
      var n := s[0] as int;
      assert s == [s[0]] + s[1..];
      EscapedFirst(s[0], s[1..], upper);
      UnhexDigit(n / 16, upper);
      UnhexDigit(n % 16, upper);
      UnescapedFirst(HexDigit(n / 16, upper), HexDigit(n % 16, upper), s[0], Escaped(s[1..], upper));
      UnescapeEscaped(s[1..], upper);
    }
  }

  /** A path with a query and a fragment in it comes apart at its first '#' and the first '?' before that;
      nothing is lost where there is nothing to unescape. */
  lemma PathComesApart(path: string, query: string, fragment: string)
    requires '#' !in path && '?' !in path && '%' !in path && '#' !in query && '%' !in fragment
    requires !HasControl(path + "?" + query)
    ensures RereadPath(path + "?" + query + "#" + fragment) == Some(PathParts(path, Some(query), fragment))
  {
    var front := path + "?" + query;
    UpToIsFirstPiece(front, '#', fragment);
    UpToIsFirstPiece(path, '?', query);
    UnescapedPlain(InPath, path);
    UnescapedPlain(InPath, fragment);
    assert (front + "#" + fragment)[|front| + 1..] == fragment;
    assert front[|path| + 1..] == query;
  }

  /** Brackets around an address are taken off. */
  lemma BracketsComeOff(address: string)
    requires '%' !in address && AllMayStand(InHost, address)
    ensures RereadHost("[" + address + "]") == Some(address)
  {
    var host := "[" + address + "]";
    assert host[1..|host| - 1] == address;
    NoZone(address);
    UnescapedPlain(InHost, address);
    assert address[..|address|] == address && address[|address|..] == "";
    assert address + "" == address;
  }

  lemma {:induction false} NoZone(address: string)
    requires '%' !in address
    ensures ZoneStart(address) == |address|
  {
    if address == "" {
    } else {
      assert address[0] != '%';
      NoZone(address[1..]);
    }
  }
}
