/**
 * The ad blocker: a set of blocked host suffixes, a list of URL substrings,
 * the blocklist line format that fills them, and the allow/block decision
 * for one network request.
 */
module AdBlock {
  import opened Wrappers
  import Strings

  // ----- Trim -----

  /** The characters Trim removes: space, tab, carriage return, line feed. */
  predicate IsTrimSpace(c: char) {
    c == ' ' || c == '\t' || c == '\r' || c == '\n'
  }

  predicate AllTrimSpace(s: string) {
    forall i :: 0 <= i < |s| ==> IsTrimSpace(s[i])
  }

  /** The index of the first character that is not a Trim space, or |s|. */
  function TrimStart(s: string): (k: nat)
    ensures k <= |s|
    ensures forall i :: 0 <= i < k ==> IsTrimSpace(s[i])
    ensures k < |s| ==> !IsTrimSpace(s[k])
  {
    if s == [] || !IsTrimSpace(s[0]) then 0 else 1 + TrimStart(s[1..])
  }

  /** One past the last character that is not a Trim space, or 0. */
  function TrimEnd(s: string): (k: nat)
    ensures k <= |s|
    ensures forall i :: k <= i < |s| ==> IsTrimSpace(s[i])
    ensures k > 0 ==> !IsTrimSpace(s[k - 1])
  {
    if s == [] || !IsTrimSpace(s[|s| - 1]) then |s| else TrimEnd(s[..|s| - 1])
  }

  /** s without its leading and trailing Trim spaces; "" when it has nothing else. */
  function Trim(s: string): (r: string)
    ensures |r| <= |s|
    ensures r == [] <==> AllTrimSpace(s)
    ensures r != [] ==> !IsTrimSpace(r[0]) && !IsTrimSpace(r[|r| - 1])
  {
    var start := TrimStart(s);
    if start == |s| then []
    else
      var end := TrimEnd(s);
      assert !IsTrimSpace(s[start]);
      s[start..end]
  }

  /** The Trim spaces removed are exactly a leading and a trailing run: s is spaces, r, spaces. */
  lemma TrimIsInfix(s: string)
    requires !AllTrimSpace(s)
    ensures var start, end := TrimStart(s), TrimEnd(s);
      start < end && Trim(s) == s[start..end] &&
      AllTrimSpace(s[..start]) && AllTrimSpace(s[end..])
  {
    var start, end := TrimStart(s), TrimEnd(s);
    var w :| 0 <= w < |s| && !IsTrimSpace(s[w]);
    assert start <= w < end;
    forall i | 0 <= i < start
      ensures IsTrimSpace(s[..start][i])
    {
      assert s[..start][i] == s[i];
    }
    forall i | 0 <= i < |s| - end
      ensures IsTrimSpace(s[end..][i])
    {
      assert s[end..][i] == s[end + i];
    }
  }

  /** A string that has no Trim space at either end is its own Trim. */
  lemma TrimOfTrimmed(s: string)
    requires s != [] ==> !IsTrimSpace(s[0]) && !IsTrimSpace(s[|s| - 1])
    ensures Trim(s) == s
  {
    if s != [] {
      assert TrimStart(s) == 0;
      assert TrimEnd(s) == |s|;
    }
  }

  /** Trimming twice is trimming once. */
  lemma TrimIdempotent(s: string)
    ensures Trim(Trim(s)) == Trim(s)
  {
    TrimOfTrimmed(Trim(s));
  }

  // ----- ToLower -----

  predicate IsUpper(c: char) {
    'A' <= c <= 'Z'
  }

  /** `tolower` in the C locale: A-Z to a-z, every other character unchanged. */
  function LowerChar(c: char): (d: char)
    ensures !IsUpper(d)
    ensures IsUpper(c) ==> d as int == c as int + 32
    ensures !IsUpper(c) ==> d == c
  {
    if IsUpper(c) then (c as int + 32) as char else c
  }

  function ToLower(s: string): (r: string)
    ensures |r| == |s|
    ensures forall i :: 0 <= i < |s| ==> r[i] == LowerChar(s[i])
  {
    if s == [] then [] else [LowerChar(s[0])] + ToLower(s[1..])
  }

  predicate IsLowerCase(s: string) {
    forall i :: 0 <= i < |s| ==> !IsUpper(s[i])
  }

  /** Lower-casing leaves no capital letter, keeps a lower-case string as it is, and so is idempotent. */
  lemma ToLowerProperties(s: string)
    ensures IsLowerCase(ToLower(s))
    ensures IsLowerCase(s) ==> ToLower(s) == s
    ensures ToLower(ToLower(s)) == ToLower(s)
  {
    assert IsLowerCase(ToLower(s));
  }

  /** Lower-casing maps Trim spaces to themselves, so it commutes with Trim. */
  lemma ToLowerKeepsTrim(s: string)
    ensures Trim(ToLower(s)) == ToLower(Trim(s))
  {
    TrimStartLower(s);
    TrimEndLower(s);
    var start := TrimStart(s);
    if start < |s| {
      var end := TrimEnd(s);
      assert !IsTrimSpace(s[start]);
      ToLowerSlice(s, start, end);
    }
  }

  lemma ToLowerSlice(s: string, a: nat, b: nat)
    requires a <= b <= |s|
    ensures ToLower(s[a..b]) == ToLower(s)[a..b]
  {
    var t, r := s[a..b], ToLower(s)[a..b];
    forall i | 0 <= i < |t|
      ensures r[i] == LowerChar(t[i])
    {
      assert r[i] == ToLower(s)[a + i];
    }
    PointwiseIsToLower(t, r);
  }

  /** Any string that lower-cases another character by character is its ToLower. */
  lemma PointwiseIsToLower(t: string, r: string)
    requires |r| == |t| && forall i :: 0 <= i < |t| ==> r[i] == LowerChar(t[i])
    ensures r == ToLower(t)
  {
  }

  lemma {:induction false} TrimStartLower(s: string)
    ensures TrimStart(ToLower(s)) == TrimStart(s)
  {
    if s != [] {
      assert ToLower(s)[1..] == ToLower(s[1..]);
      TrimStartLower(s[1..]);
    }
  }

  lemma {:induction false} TrimEndLower(s: string)
    ensures TrimEnd(ToLower(s)) == TrimEnd(s)
  {
    if s != [] {
      assert ToLower(s)[..|s| - 1] == ToLower(s[..|s| - 1]);
      TrimEndLower(s[..|s| - 1]);
    }
  }

  // ----- Host rules -----

  /**
   * `ends_with_dot_or_exact`: the host is the rule, or ends with the rule
   * right after a '.'.
   */
  predicate HostMatches(host: string, rule: string): (b: bool)
    ensures b ==> |rule| <= |host| && host[|host| - |rule|..] == rule
    ensures |host| <= |rule| ==> (b <==> host == rule)
  {
    host == rule ||
    (|host| > |rule| && host[|host| - |rule|..] == rule && host[|host| - |rule| - 1] == '.')
  }

  /** Every subdomain of the rule matches it. */
  lemma SubdomainMatches(prefix: string, rule: string)
    ensures HostMatches(prefix + "." + rule, rule)
  {
    var host := prefix + "." + rule;
    assert host[|host| - |rule|..] == rule;
    assert host[|host| - |rule| - 1] == '.';
  }

  /** A match is the rule itself or a subdomain of it: something, a '.', then the rule. */
  lemma MatchIsSubdomainOrExact(host: string, rule: string)
    requires HostMatches(host, rule)
    ensures host == rule || host == host[..|host| - |rule| - 1] + "." + rule
  {
    if host != rule {
      var k := |host| - |rule| - 1;
      assert host == host[..k] + [host[k]] + host[k + 1..];
    }
  }

  /** A host that only ends with the rule's letters does not match: "badexample.com" against "example.com". */
  lemma NoMatchWithoutDot(prefix: string, rule: string)
    requires prefix != [] && prefix[|prefix| - 1] != '.'
    ensures !HostMatches(prefix + rule, rule)
  {
    var host := prefix + rule;
    assert host[|host| - |rule| - 1] == prefix[|prefix| - 1];
  }

  /** A rule left empty by stripping its dots matches every host that ends with '.'. */
  lemma EmptyRuleMatchesTrailingDot(host: string)
    requires host != [] && host[|host| - 1] == '.'
    ensures HostMatches(host, "")
  {
  }

  function StripLeadingDots(s: string): (r: string)
    ensures r == [] || r[0] != '.'
    ensures |r| <= |s| && s[|s| - |r|..] == r
    ensures forall i :: 0 <= i < |s| - |r| ==> s[i] == '.'
  {
    if s != [] && s[0] == '.' then StripLeadingDots(s[1..]) else s
  }

  /** The host rule AddBlockedHost stores for its input: trimmed, lower-cased, without leading dots; none if it trims to "". */
  function NormalizedHost(raw: string): (h: Option<string>)
    ensures h.Some? ==> IsHostRule(h.value)
    ensures h.None? <==> AllTrimSpace(raw)
  {
    var lowered := ToLower(Trim(raw));
    ToLowerProperties(Trim(raw));
    if lowered == [] then None else Some(StripLeadingDots(lowered))
  }

  lemma NormalizedHostIs(raw: string, lowered: string)
    requires lowered == ToLower(Trim(raw))
    ensures NormalizedHost(raw) == if lowered == [] then None else Some(StripLeadingDots(lowered))
  {
  }

  /** The substring rule AddURLSubstring stores: trimmed and lower-cased; none if it trims to "". */
  function NormalizedNeedle(raw: string): (n: Option<string>)
    ensures n.Some? ==> IsNeedleRule(n.value)
    ensures n.None? <==> AllTrimSpace(raw)
  {
    var lowered := ToLower(Trim(raw));
    ToLowerProperties(Trim(raw));
    ToLowerKeepsTrim(Trim(raw));
    TrimIdempotent(raw);
    if lowered == [] then None else Some(lowered)
  }

  lemma NormalizedNeedleIs(raw: string, lowered: string)
    requires lowered == ToLower(Trim(raw))
    ensures NormalizedNeedle(raw) == if lowered == [] then None else Some(lowered)
  {
  }

  /** The emptiness test comes before the dots are stripped, so a rule of only dots is stored as "". */
  lemma OnlyDotsGiveEmptyRule(raw: string)
    requires raw != [] && forall i :: 0 <= i < |raw| ==> raw[i] == '.'
    ensures NormalizedHost(raw) == Some("")
  {
    TrimOfTrimmed(raw);
    ToLowerProperties(raw);
    assert IsLowerCase(raw);
  }

  // ----- Substring rules -----

  predicate OccursAt(hay: string, needle: string, i: nat) {
    i + |needle| <= |hay| && hay[i..i + |needle|] == needle
  }

  /** `hay.find(needle) != npos`. */
  function Contains(hay: string, needle: string): (b: bool)
    ensures needle <= hay ==> b
    ensures b ==> |needle| <= |hay|
  {
    needle <= hay || (hay != [] && Contains(hay[1..], needle))
  }

  /** Contains holds exactly when the needle occurs at some position. */
  lemma {:induction false} ContainsIff(hay: string, needle: string)
    ensures Contains(hay, needle) <==> exists i: nat :: OccursAt(hay, needle, i)
  {
    if needle <= hay {
      assert OccursAt(hay, needle, 0);
    } else if hay == [] {
      assert needle != [];
    } else {
      ContainsIff(hay[1..], needle);
      if exists i: nat :: OccursAt(hay[1..], needle, i) {
        var i: nat :| OccursAt(hay[1..], needle, i);
        OccursShift(hay, needle, i);
      }
      if exists i: nat :: OccursAt(hay, needle, i) {
        var i: nat :| OccursAt(hay, needle, i);
        assert i != 0;
        OccursShift(hay, needle, i - 1);
      }
    }
  }

  /** An occurrence in the tail is an occurrence one place further in the whole. */
  lemma OccursShift(hay: string, needle: string, i: nat)
    requires hay != []
    ensures OccursAt(hay[1..], needle, i) <==> OccursAt(hay, needle, i + 1)
  {
    if i + 1 + |needle| <= |hay| {
      assert hay[1..][i..i + |needle|] == hay[i + 1..i + 1 + |needle|];
    }
  }

  // ----- The request decision -----

  predicate HostBlocked(rules: set<string>, host: string) {
    exists rule :: rule in rules && HostMatches(host, rule)
  }

  predicate UrlBlocked(needles: seq<string>, url: string) {
    exists i :: 0 <= i < |needles| && Contains(url, needles[i])
  }

  predicate IsAlwaysAllowedProtocol(protocol: string) {
    protocol == "file" || protocol == "data" || protocol == "about"
  }

  /** Whether a request goes ahead: never blocked for file, data and about; otherwise blocked by a host or URL rule on the lower-cased text. */
  predicate Allowed(rules: set<string>, needles: seq<string>, protocol: string, host: string, url: string): (b: bool)
    ensures IsAlwaysAllowedProtocol(protocol) ==> b
    ensures rules == {} && needles == [] ==> b
  {
    var h, u := ToLower(Strings.CString(host)), ToLower(Strings.CString(url));
    IsAlwaysAllowedProtocol(protocol) ||
    !((h != [] && HostBlocked(rules, h)) || (u != [] && UrlBlocked(needles, u)))
  }

  /** The host test is case-insensitive: hosts that differ only in case get the same answer. */
  lemma HostCaseInsensitive(rules: set<string>, needles: seq<string>, protocol: string, host: string, other: string, url: string)
    requires ToLower(host) == ToLower(other)
    ensures Allowed(rules, needles, protocol, host, url) == Allowed(rules, needles, protocol, other, url)
  {
    LowerCString(host);
    LowerCString(other);
  }

  /** Lower-casing keeps NUL where it is, so it commutes with the C string cut. */
  lemma {:induction false} LowerCString(s: string)
    ensures ToLower(Strings.CString(s)) == Strings.CString(ToLower(s))
  {
    if s != [] && s[0] != '\0' {
      assert ToLower(s)[1..] == ToLower(s[1..]);
      LowerCString(s[1..]);
    }
  }

  /** A rule for a domain blocks every subdomain request, unless the protocol is always allowed. */
  lemma RuleBlocksSubdomain(rules: set<string>, needles: seq<string>, protocol: string, prefix: string, rule: string, url: string)
    requires rule in rules && IsLowerCase(rule)
    requires '\0' !in prefix && '\0' !in rule
    requires !IsAlwaysAllowedProtocol(protocol)
    ensures !Allowed(rules, needles, protocol, prefix + "." + rule, url)
  {
    var host := prefix + "." + rule;
    var lowered := ToLower(prefix) + "." + rule;
    assert '\0' !in host;
    Strings.NoNulIsCString(host);
    forall i | 0 <= i < |host|
      ensures lowered[i] == LowerChar(host[i])
    {
      if i > |prefix| {
        assert host[i] == rule[i - |prefix| - 1] == lowered[i];
      }
    }
    PointwiseIsToLower(host, lowered);
    SubdomainMatches(ToLower(prefix), rule);
  }

  // ----- Blocklist lines -----

  /** What one blocklist line contributes: nothing, a host rule or a URL substring rule (before normalisation). */
  datatype LineRule = Skip | HostLine(host: string) | SubstringLine(needle: string)

  /** The whitespace `>>` skips between tokens (C locale `isspace`). */
  predicate IsStreamSpace(c: char) {
    c == ' ' || c == '\t' || c == '\n' || c == '\U{0B}' || c == '\U{0C}' || c == '\r'
  }

  /** The first index at or after i that is not stream whitespace, or |s|. */
  function SkipSpaces(s: string, i: nat): (k: nat)
    requires i <= |s|
    ensures i <= k <= |s|
    ensures forall j :: i <= j < k ==> IsStreamSpace(s[j])
    ensures k < |s| ==> !IsStreamSpace(s[k])
    decreases |s| - i
  {
    if i == |s| || !IsStreamSpace(s[i]) then i else SkipSpaces(s, i + 1)
  }

  /** The first index at or after i that is stream whitespace, or |s|. */
  function TokenEnd(s: string, i: nat): (k: nat)
    requires i <= |s|
    ensures i <= k <= |s|
    ensures forall j :: i <= j < k ==> !IsStreamSpace(s[j])
    ensures k < |s| ==> IsStreamSpace(s[k])
    decreases |s| - i
  {
    if i == |s| || IsStreamSpace(s[i]) then i else TokenEnd(s, i + 1)
  }

  /** The whitespace-separated token starting at or after i, and where it ends; none if only whitespace is left. */
  function NextToken(s: string, i: nat): (t: Option<(string, nat)>)
    requires i <= |s|
    ensures t.Some? ==> t.value.0 != [] && i < t.value.1 <= |s|
    ensures t.Some? ==> forall j :: 0 <= j < |t.value.0| ==> !IsStreamSpace(t.value.0[j])
  {
    var a := SkipSpaces(s, i);
    if a == |s| then None
    else
      var b := TokenEnd(s, a);
      Some((s[a..b], b))
  }

  /** The text before the first '^', or all of it. */
  function UpToHat(s: string): (r: string)
    ensures r <= s && '^' !in r
  {
    if s == [] || s[0] == '^' then [] else [s[0]] + UpToHat(s[1..])
  }

  /** The hosts-file reading of a line: a first token with a '.' or equal to "::1", followed by a second token. */
  function HostsFileHost(t: string): (h: Option<string>)
    ensures h.Some? ==> h.value != [] && !HasStreamSpace(h.value)
  {
    match NextToken(t, 0)
    case None => None
    case Some((tok1, end1)) =>
      if '.' in tok1 || tok1 == "::1" then
        match NextToken(t, end1)
        case None => None
        case Some((tok2, _)) => Some(tok2)
      else None
  }

  /** How one line of the blocklist is read, after trimming. */
  function ClassifyLine(line: string): (r: LineRule)
    ensures r.HostLine? ==> r.host != []
    ensures r.SubstringLine? ==> r.needle == Trim(line) && r.needle != []
  {
    var t := Trim(line);
    if t == [] || t[0] == '#' then Skip
    else if |t| >= 2 && t[..2] == "||" then
      var dom := Trim(UpToHat(t[2..]));
      if dom == [] then Skip else HostLine(dom)
    else match HostsFileHost(t)
      case Some(h) => HostLine(h)
      case None =>
        if '.' in t && ' ' !in t then HostLine(t) else SubstringLine(t)
  }

  /** Blank lines and comments add nothing. */
  lemma BlankAndCommentLinesSkipped(line: string)
    requires Trim(line) == [] || Trim(line)[0] == '#'
    ensures ClassifyLine(line) == Skip
  {
  }

  /** A line "||dom^..." is the host rule dom (trimmed), whatever follows the first '^'. */
  lemma AdblockDomainRule(line: string, dom: string, rest: string)
    requires Trim(line) == "||" + dom + rest
    requires rest == [] || rest[0] == '^'
    requires '^' !in dom && Trim(dom) != []
    ensures ClassifyLine(line) == HostLine(Trim(dom))
  {
    var t := Trim(line);
    SplitConcat("||", dom + rest);
    assert t == "||" + (dom + rest);
    UpToHatPrefix(dom, rest);
    DomainBranch(line);
  }

  /** The two parts of a concatenation are its slices at the seam. */
  lemma SplitConcat(a: string, b: string)
    ensures (a + b)[..|a|] == a && (a + b)[|a|..] == b
  {
  }

  /** The "||" branch of ClassifyLine. */
  lemma DomainBranch(line: string)
    requires |Trim(line)| >= 2 && Trim(line)[..2] == "||"
    ensures var dom := Trim(UpToHat(Trim(line)[2..]));
      ClassifyLine(line) == if dom == [] then Skip else HostLine(dom)
  {
    assert Trim(line)[0] == '|';
  }

  lemma {:induction false} UpToHatPrefix(dom: string, rest: string)
    requires '^' !in dom
    requires rest == [] || rest[0] == '^'
    ensures UpToHat(dom + rest) == dom
  {
    if dom == [] {
      assert dom + rest == rest;
    } else {
      assert (dom + rest)[1..] == dom[1..] + rest;
      UpToHatPrefix(dom[1..], rest);
    }
  }

  /** A hosts-file line "ip host ..." is the host rule for host; the address and anything after host are ignored. */
  lemma HostsFileLine(line: string, ip: string, gap: string, host: string, tail: string)
    requires Trim(line) == ip + gap + host + tail
    requires ip != [] && ('.' in ip || ip == "::1") && !HasStreamSpace(ip)
    requires gap != [] && forall j :: 0 <= j < |gap| ==> IsStreamSpace(gap[j])
    requires host != [] && !HasStreamSpace(host)
    requires tail == [] || IsStreamSpace(tail[0])
    requires ip[0] != '#' && !("||" <= Trim(line))
    ensures ClassifyLine(line) == HostLine(host)
  {
    var t := Trim(line);
    HostsFileHostOf(t, ip, gap, host, tail);
    assert t != [] && t[0] == ip[0];
    if |t| >= 2 {
      assert t[..2] != "||" by { assert !("||" <= t); }
    }
  }

  /** The first two tokens of "ip gap host tail" are ip and host. */
  lemma HostsFileHostOf(t: string, ip: string, gap: string, host: string, tail: string)
    requires t == ip + gap + host + tail
    requires ip != [] && ('.' in ip || ip == "::1") && !HasStreamSpace(ip)
    requires gap != [] && forall j :: 0 <= j < |gap| ==> IsStreamSpace(gap[j])
    requires host != [] && !HasStreamSpace(host)
    requires tail == [] || IsStreamSpace(tail[0])
    ensures HostsFileHost(t) == Some(host)
  {
    var hostEnd := |ip| + |gap| + |host|;
    assert t[0] == ip[0];
    assert SkipSpaces(t, 0) == 0;
    TokenEndAt(t, 0, |ip|);
    assert t[..|ip|] == ip;
    SkipSpacesAt(t, |ip|, |ip| + |gap|);
    if hostEnd < |t| {
      assert t[hostEnd] == tail[0];
    }
    TokenEndAt(t, |ip| + |gap|, hostEnd);
    assert t[|ip| + |gap|..hostEnd] == host;
  }

  predicate HasStreamSpace(s: string) {
    exists j :: 0 <= j < |s| && IsStreamSpace(s[j])
  }

  lemma TokenEndAt(s: string, i: nat, k: nat)
    requires i <= k <= |s|
    requires forall j :: i <= j < k ==> !IsStreamSpace(s[j])
    requires k < |s| ==> IsStreamSpace(s[k])
    ensures TokenEnd(s, i) == k
    decreases k - i
  {
    if i < k {
      TokenEndAt(s, i + 1, k);
    }
  }

  lemma SkipSpacesAt(s: string, i: nat, k: nat)
    requires i <= k <= |s|
    requires forall j :: i <= j < k ==> IsStreamSpace(s[j])
    requires k < |s| ==> !IsStreamSpace(s[k])
    ensures SkipSpaces(s, i) == k
    decreases k - i
  {
    if i < k {
      SkipSpacesAt(s, i + 1, k);
    }
  }

  /**
   * A line that is not a comment, an "||" rule or a hosts-file line is a host
   * rule when it has a '.' and no space; this is how "*ads.js" is read.
   */
  lemma PlainDomainLine(line: string)
    requires var t := Trim(line);
      t != [] && t[0] != '#' && !("||" <= t) && HostsFileHost(t).None? && '.' in t && ' ' !in t
    ensures ClassifyLine(line) == HostLine(Trim(line))
  {
    var t := Trim(line);
    if |t| >= 2 {
      assert t[..2] != "||" by { assert !("||" <= t); }
    }
  }

  /** The documented substring example "*ads.js" is read as a host rule, since it has a '.' and no space. */
  lemma AdsJsIsHostRule(line: string)
    requires line == "*ads.js"
    ensures ClassifyLine(line) == HostLine(line)
  {
    TrimOfTrimmed(line);
    var first := NextToken(line, 0);
    assert SkipSpaces(line, 0) == 0;
    TokenEndAt(line, 0, |line|);
    assert first == Some((line, |line|));
    assert NextToken(line, |line|) == None;
    assert line[4] == '.';
    PlainDomainLine(line);
  }

  /** What remains is a URL substring rule: the trimmed line. */
  lemma FallbackSubstringLine(line: string)
    requires var t := Trim(line);
      t != [] && t[0] != '#' && !("||" <= t) && HostsFileHost(t).None? && !('.' in t && ' ' !in t)
    ensures ClassifyLine(line) == SubstringLine(Trim(line))
  {
    var t := Trim(line);
    if |t| >= 2 {
      assert t[..2] != "||" by { assert !("||" <= t); }
    }
  }

  // ----- Rule containers as values -----

  /** The host rules after AddBlockedHost(raw). */
  function HostsAfter(hosts: set<string>, raw: string): (r: set<string>)
    ensures hosts <= r
    ensures AllTrimSpace(raw) ==> r == hosts
    ensures !AllTrimSpace(raw) ==> NormalizedHost(raw).value in r && r - hosts <= {NormalizedHost(raw).value}
  {
    match NormalizedHost(raw)
    case None => hosts
    case Some(h) => hosts + {h}
  }

  /** The substring rules after AddURLSubstring(raw). */
  function NeedlesAfter(needles: seq<string>, raw: string): (r: seq<string>)
    ensures needles <= r
    ensures |r| == |needles| + (if AllTrimSpace(raw) then 0 else 1)
    ensures !AllTrimSpace(raw) ==> r[|needles|] == NormalizedNeedle(raw).value
  {
    match NormalizedNeedle(raw)
    case None => needles
    case Some(n) => needles + [n]
  }

  /** Adding the same host twice stores it once. */
  lemma HostsAfterIdempotent(hosts: set<string>, raw: string)
    ensures HostsAfter(HostsAfter(hosts, raw), raw) == HostsAfter(hosts, raw)
  {
  }

  /** Substring rules keep their order and their duplicates. */
  lemma NeedlesKeepDuplicates(needles: seq<string>, raw: string)
    requires !AllTrimSpace(raw)
    ensures var twice := NeedlesAfter(NeedlesAfter(needles, raw), raw);
      |twice| == |needles| + 2 && twice[..|needles|] == needles && twice[|needles|] == twice[|needles| + 1]
  {
  }

  /** The rules a sequence of lines leaves, starting from the given containers. */
  function ApplyLines(hosts: set<string>, needles: seq<string>, lines: seq<string>): (r: (set<string>, seq<string>))
    ensures hosts <= r.0 && needles <= r.1
    ensures |r.1| <= |needles| + |lines|
    decreases |lines|
  {
    if lines == [] then (hosts, needles)
    else
      var (h, n) := ApplyLines(hosts, needles, lines[..|lines| - 1]);
      match ClassifyLine(lines[|lines| - 1])
      case Skip => (h, n)
      case HostLine(raw) => (HostsAfter(h, raw), n)
      case SubstringLine(raw) => (h, NeedlesAfter(n, raw))
  }

  /** Every rule a load produces is normalised: hosts lower-case without a leading '.', substrings non-empty, lower-case and trimmed. */
  lemma {:induction false} ApplyLinesNormalized(hosts: set<string>, needles: seq<string>, lines: seq<string>)
    requires HostRulesNormalized(hosts) && NeedlesNormalized(needles)
    ensures var (h, n) := ApplyLines(hosts, needles, lines);
      HostRulesNormalized(h) && NeedlesNormalized(n)
    decreases |lines|
  {
    if lines != [] {
      ApplyLinesNormalized(hosts, needles, lines[..|lines| - 1]);
      var (h, n) := ApplyLines(hosts, needles, lines[..|lines| - 1]);
      match ClassifyLine(lines[|lines| - 1])
      case Skip =>
      case HostLine(raw) => HostsAfterNormalized(h, raw);
      case SubstringLine(raw) => NeedlesAfterNormalized(n, raw);
    }
  }

  /** Adding a host keeps every stored host normalised. */
  lemma HostsAfterNormalized(hosts: set<string>, raw: string)
    requires HostRulesNormalized(hosts)
    ensures HostRulesNormalized(HostsAfter(hosts, raw))
  {
    match NormalizedHost(raw)
    case None =>
    case Some(h) =>
      forall x | x in hosts + {h}
        ensures IsHostRule(x)
      {
        if x != h {
          assert x in hosts;
        }
      }
  }

  lemma NeedlesAfterNormalized(needles: seq<string>, raw: string)
    requires NeedlesNormalized(needles)
    ensures NeedlesNormalized(NeedlesAfter(needles, raw))
  {
    match NormalizedNeedle(raw)
    case None =>
    case Some(n) =>
      var after := needles + [n];
      forall i | 0 <= i < |after|
        ensures IsNeedleRule(after[i])
      {
        if i < |needles| {
          assert after[i] == needles[i];
        }
      }
  }

  /** A stored host rule: lower-case, and not starting with '.'. */
  predicate IsHostRule(h: string) {
    IsLowerCase(h) && (h == [] || h[0] != '.')
  }

  /** A stored substring rule: non-empty, lower-case and trimmed. */
  predicate IsNeedleRule(n: string) {
    n != [] && IsLowerCase(n) && Trim(n) == n
  }

  predicate HostRulesNormalized(hosts: set<string>) {
    forall h :: h in hosts ==> IsHostRule(h)
  }

  predicate NeedlesNormalized(needles: seq<string>) {
    forall i :: 0 <= i < |needles| ==> IsNeedleRule(needles[i])
  }

  // ----- The blocker -----

  class AdBlocker {
    /** Host suffixes, lower-case. */
    var blockedHosts: set<string>
    /** URL substrings, lower-case, in the order they were added. */
    var urlSubstrings: seq<string>
    /** The runtime switch; the request decision does not read it. */
    var enabled: bool

    ghost predicate Valid()
      reads this
    {
      HostRulesNormalized(blockedHosts) && NeedlesNormalized(urlSubstrings)
    }

    constructor ()
      ensures Valid()
      ensures blockedHosts == {} && urlSubstrings == [] && enabled
    {
      blockedHosts := {};
      urlSubstrings := [];
      enabled := true;
    }

    method SetEnabled(b: bool)
      modifies this
      ensures enabled == b
      ensures blockedHosts == old(blockedHosts) && urlSubstrings == old(urlSubstrings)
    {
      enabled := b;
    }

    method Enabled() returns (b: bool)
      ensures b == enabled
    {
      b := enabled;
    }

    /** Empties both rule containers. */
    method Clear()
      modifies this
      ensures Valid()
      ensures blockedHosts == {} && urlSubstrings == [] && enabled == old(enabled)
    {
      blockedHosts := {};
      urlSubstrings := [];
    }

    /** Trims and lower-cases the rule, ignores it if empty, strips its leading dots and stores it. */
    method AddBlockedHost(raw: string)
      requires Valid()
      modifies this
      ensures Valid()
      ensures blockedHosts == HostsAfter(old(blockedHosts), raw)
      ensures urlSubstrings == old(urlSubstrings) && enabled == old(enabled)
    {
      var h := NormalizeHostRule(raw);
      if h.None? {
        return;
      }
      blockedHosts := blockedHosts + {h.value};
    }

    /** The trim, lower-case, empty test and leading-dot loop of AddBlockedHost. */
    static method NormalizeHostRule(raw: string) returns (h: Option<string>)
      ensures h == NormalizedHost(raw)
    {
      var lowered := ToLower(Trim(raw));
      NormalizedHostIs(raw, lowered);
      if lowered == [] {
        return None;
      }
      var stripped := EraseLeadingDots(lowered);
      return Some(stripped);
    }

    /** The loop of AddBlockedHost that erases the first character while it is a '.'. */
    static method EraseLeadingDots(s: string) returns (h: string)
      ensures h == StripLeadingDots(s)
    {
      h := s;
      while h != [] && h[0] == '.'
        invariant StripLeadingDots(h) == StripLeadingDots(s)
        decreases |h|
      {
        h := h[1..];
      }
    }

    /** Trims and lower-cases the rule, ignores it if empty, and appends it. */
    method AddURLSubstring(raw: string)
      requires Valid()
      modifies this
      ensures Valid()
      ensures urlSubstrings == NeedlesAfter(old(urlSubstrings), raw)
      ensures blockedHosts == old(blockedHosts) && enabled == old(enabled)
    {
      NeedlesAfterNormalized(urlSubstrings, raw);
      var n := ToLower(Trim(raw));
      NormalizedNeedleIs(raw, n);
      if n == [] {
        return;
      }
      urlSubstrings := urlSubstrings + [n];
    }

    /** Scans the host rules until one matches. */
    method IsBlockedHost(host: string) returns (blocked: bool)
      ensures blocked == HostBlocked(blockedHosts, host)
    {
      var pending := blockedHosts;
      while pending != {}
        invariant pending <= blockedHosts
        invariant forall rule :: rule in blockedHosts && rule !in pending ==> !HostMatches(host, rule)
        decreases |pending|
      {
        var rule :| rule in pending;
        if HostMatches(host, rule) {
          return true;
        }
        pending := pending - {rule};
      }
      return false;
    }

    /** Scans the substring rules in order until one occurs in the URL. */
    method IsBlockedURL(url: string) returns (blocked: bool)
      ensures blocked == UrlBlocked(urlSubstrings, url)
    {
      for i := 0 to |urlSubstrings|
        invariant forall j :: 0 <= j < i ==> !Contains(url, urlSubstrings[j])
      {
        if Contains(url, urlSubstrings[i]) {
          return true;
        }
      }
      return false;
    }

    /** The decision for one request: true lets it through. */
    method OnNetworkRequest(protocol: string, host: string, url: string) returns (allow: bool)
      ensures allow == Allowed(blockedHosts, urlSubstrings, protocol, host, url)
    {
      if protocol == "file" || protocol == "data" || protocol == "about" {
        return true;
      }
      var h := ToLower(Strings.CString(host));
      var u := ToLower(Strings.CString(url));
      if h != [] {
        var byHost := IsBlockedHost(h);
        if byHost {
          return false;
        }
      }
      if u != [] {
        var byUrl := IsBlockedURL(u);
        if byUrl {
          return false;
        }
      }
      return true;
    }

    /**
     * Replaces the rules with those of the lines of a blocklist file;
     * `fileOpens` says whether the file could be opened. When it cannot,
     * nothing changes and the result is false.
     */
    method LoadDefaultBlocklist(fileOpens: bool, lines: seq<string>) returns (loaded: bool)
      requires Valid()
      modifies this
      ensures Valid()
      ensures loaded == fileOpens
      ensures !fileOpens ==> blockedHosts == old(blockedHosts) && urlSubstrings == old(urlSubstrings)
      ensures fileOpens ==> (blockedHosts, urlSubstrings) == ApplyLines({}, [], lines)
      ensures enabled == old(enabled)
    {
      if !fileOpens {
        return false;
      }
      blockedHosts := {};
      urlSubstrings := [];
      for i := 0 to |lines|
        invariant Valid()
        invariant (blockedHosts, urlSubstrings) == ApplyLines({}, [], lines[..i])
        invariant enabled == old(enabled)
      {
        assert lines[..i + 1][..i] == lines[..i];
        var rule := ClassifyLine(lines[i]);
        match rule {
          case Skip =>
          case HostLine(h) => AddBlockedHost(h);
          case SubstringLine(n) => AddURLSubstring(n);
        }
      }
      assert lines[..|lines|] == lines;
      return true;
    }
  }
}
