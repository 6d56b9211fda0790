/**
 The DNS host name of an endpoint URL (section 3.2 of RFC 3986) and the check
 that it lies under a pinned domain.
 */
module EndpointUrl {
  import opened Sequences

  const HTTPS := "https://"
  const HTTP := "http://"

  predicate IsDigit(c: char) {
    '0' <= c <= '9'
  }

  predicate IsLabelChar(c: char) {
    IsDigit(c) || 'a' <= c <= 'z' || 'A' <= c <= 'Z' || c == '-'
  }

  predicate EndsAuthority(c: char) {
    c == '/' || c == '?' || c == '#'
  }

  /** Everything before the first character that ends an authority. */
  function Authority(s: string): (r: string)
    ensures r <= s
    ensures forall k :: 0 <= k < |r| ==> !EndsAuthority(r[k])
    ensures |r| < |s| ==> EndsAuthority(s[|r|])
  {
    if s == "" || EndsAuthority(s[0]) then "" else [s[0]] + Authority(s[1..])
  }

  /** The position of the last `c`, or the length when there is none. */
  function LastIndex(s: string, c: char): (r: nat)
    ensures r <= |s|
    ensures r < |s| ==> s[r] == c && forall k :: r < k < |s| ==> s[k] != c
    ensures r == |s| ==> c !in s
  {
    if s == "" then 0
    else if s[|s| - 1] == c then |s| - 1
    else
      var r := LastIndex(s[..|s| - 1], c);
      assert s == s[..|s| - 1] + [s[|s| - 1]];
      if r == |s| - 1 then |s| else r
  }

  /** The parts of `s` between the dots; one empty part for the empty string. */
  function Labels(s: string): (r: seq<string>)
    ensures r != []
  {
    if s == "" then [""]
    else if s[0] == '.' then [""] + Labels(s[1..])
    else
      var rest := Labels(s[1..]);
      [[s[0]] + rest[0]] + rest[1..]
  }

  predicate IsLabel(l: string) {
    l != "" && forall k :: 0 <= k < |l| ==> IsLabelChar(l[k])
  }

  predicate AllDigits(s: string) {
    forall k :: 0 <= k < |s| ==> IsDigit(s[k])
  }

  function Last(labels: seq<string>): string
    requires labels != []
  {
    labels[|labels| - 1]
  }

  function StripScheme(url: string): Option<string> {
    if HTTPS <= url then Some(url[|HTTPS|..])
    else if HTTP <= url then Some(url[|HTTP|..])
    else None
  }

  /** The authority without its numeric port; `None` for a malformed port. */
  function WithoutPort(authority: string): Option<string> {
    var colon := LastIndex(authority, ':');
    if colon == |authority| then Some(authority)
    else
      var port := authority[colon + 1..];
      if port != "" && AllDigits(port) then Some(authority[..colon]) else None
  }

  predicate IsDnsName(host: string) {
    && (forall k :: 0 <= k < |Labels(host)| ==> IsLabel(Labels(host)[k]))
    && !AllDigits(Last(Labels(host)))
  }

  function Host(url: string): Option<string> {
    match StripScheme(url)
    case None => None
    case Some(rest) =>
      var authority := Authority(rest);
      if '@' in authority then None
      else match WithoutPort(authority)
        case None => None
        case Some(host) => if IsDnsName(host) then Some(host) else None
  }

  // ----- what the host is

  predicate IsPort(p: string) {
    p == "" || (|p| > 1 && p[0] == ':' && AllDigits(p[1..]))
  }

  predicate IsRest(r: string) {
    r == "" || r[0] == '/' || r[0] == '?' || r[0] == '#'
  }

  /** A URL taken apart. */
  datatype Parts = Parts(scheme: string, host: string, port: string, rest: string) {
    function Text(): string {
      scheme + (host + port + rest)
    }

    /** A scheme, a dotted name, an optional numeric port and a rest that is
        empty or opens a path, a query or a fragment. */
    predicate Valid() {
      (scheme == HTTPS || scheme == HTTP) && IsDnsName(host) && IsPort(port) && IsRest(rest)
    }
  }

  ghost predicate Decomposes(url: string, host: string) {
    exists p: Parts :: p.Valid() && p.host == host && url == p.Text()
  }

  /** Every character of a dotted name is a label character or a dot. */
  lemma {:induction false} NameChars(s: string)
    requires forall k :: 0 <= k < |Labels(s)| ==> IsLabel(Labels(s)[k])
    ensures forall k :: 0 <= k < |s| ==> IsLabelChar(s[k]) || s[k] == '.'
  {
    LabelChars(s);
  }

  lemma {:induction false} LabelChars(s: string)
    requires forall k, c :: 0 <= k < |Labels(s)| && 0 <= c < |Labels(s)[k]| ==> IsLabelChar(Labels(s)[k][c])
    ensures forall k :: 0 <= k < |s| ==> IsLabelChar(s[k]) || s[k] == '.'
  {
    if s == "" {
    } else {
      var rest := Labels(s[1..]);
      if s[0] == '.' {
        assert forall k :: 0 <= k < |rest| ==> Labels(s)[k + 1] == rest[k];
      } else {
        assert Labels(s)[0][0] == s[0];
        forall k, c | 0 <= k < |rest| && 0 <= c < |rest[k]| ensures IsLabelChar(rest[k][c]) {
          if k == 0 {
            assert Labels(s)[0][c + 1] == rest[0][c];
          } else {
            assert Labels(s)[k] == rest[k];
          }
        }
      }
      LabelChars(s[1..]);
    }
  }

  lemma {:induction false} AuthorityOf(a: string, rest: string)
    requires (forall k :: 0 <= k < |a| ==> !EndsAuthority(a[k])) && IsRest(rest)
    ensures Authority(a + rest) == a
  {
    if a == "" {
      assert a + rest == rest;
    } else {
      AuthorityOf(a[1..], rest);
      assert (a + rest)[1..] == a[1..] + rest;
      assert a == [a[0]] + a[1..];
    }
  }

  lemma PortIsStripped(host: string, port: string)
    requires IsDnsName(host) && IsPort(port)
    ensures WithoutPort(host + port) == Some(host)
    ensures '@' !in host + port && forall k :: 0 <= k < |host + port| ==> !EndsAuthority((host + port)[k])
  {
    NameChars(host);
    PortChars(port);
    hide IsDnsName, LastIndex, AllDigits;
    var a := host + port;
    forall k | 0 <= k < |a| ensures a[k] != '@' && !EndsAuthority(a[k]) && (a[k] == ':' <==> k == |host|) {
      assert a[k] == if k < |host| then host[k] else port[k - |host|];
    }
    if port == "" {
      assert a == host;
    } else {
      assert a[|host|] == ':';
      assert a[|host| + 1..] == port[1..] && a[..|host|] == host;
    }
  }

  lemma PortChars(port: string)
    requires IsPort(port)
    ensures port != "" ==> port[0] == ':' && port[1..] != "" && AllDigits(port[1..])
    ensures forall k :: 1 <= k < |port| ==> IsDigit(port[k])
  {
    assert forall k :: 1 <= k < |port| ==> port[k] == port[1..][k - 1];
  }

  lemma SchemeIsStripped(scheme: string, rest: string)
    requires scheme == HTTPS || scheme == HTTP
    ensures StripScheme(scheme + rest) == Some(rest)
  {
    var url := scheme + rest;
    assert url[|scheme|..] == rest;
    assert scheme == HTTP ==> url[4] == ':';
  }

  lemma DecomposedHostIsFound(p: Parts)
    requires p.Valid()
    ensures Host(p.Text()) == Some(p.host)
  {
    var authority := p.host + p.port;
    PortIsStripped(p.host, p.port);
    AuthorityOf(authority, p.rest);
    SchemeIsStripped(p.scheme, authority + p.rest);
    hide Host, IsDnsName, StripScheme, Authority, WithoutPort, IsPort, IsRest;
    HostSteps(p.Text(), authority + p.rest, authority, p.host);
  }

  lemma HostSteps(url: string, rest: string, authority: string, host: string)
    requires StripScheme(url) == Some(rest) && Authority(rest) == authority && '@' !in authority
    requires WithoutPort(authority) == Some(host) && IsDnsName(host)
    ensures Host(url) == Some(host)
  {
    hide StripScheme, Authority, WithoutPort, IsDnsName;
  }

  lemma PortIsFound(authority: string) returns (port: string)
    requires WithoutPort(authority).Some?
    ensures IsPort(port) && authority == WithoutPort(authority).value + port
  {
    var colon := LastIndex(authority, ':');
    port := authority[colon..];
    if colon < |authority| {
      assert port[1..] == authority[colon + 1..];
    }
  }

  lemma SchemeIsFound(url: string) returns (scheme: string)
    requires StripScheme(url).Some?
    ensures (scheme == HTTPS || scheme == HTTP) && url == scheme + StripScheme(url).value
  {
    scheme := if HTTPS <= url then HTTPS else HTTP;
  }

  lemma AuthorityIsFound(s: string) returns (rest: string)
    ensures IsRest(rest) && s == Authority(s) + rest
  {
    rest := s[|Authority(s)|..];
  }

  lemma FoundHostDecomposes(url: string)
    requires Host(url).Some?
    ensures Decomposes(url, Host(url).value)
  {
    hide IsDnsName, WithoutPort, IsPort, StripScheme, Authority, IsRest;
    var scheme := SchemeIsFound(url);
    var after := StripScheme(url).value;
    var rest := AuthorityIsFound(after);
    var port := PortIsFound(Authority(after));
    var p := Parts(scheme, Host(url).value, port, rest);
    assert p.Valid() && url == p.Text();
  }

  /** `Host` answers exactly the host of a decomposition. */
  lemma HostIsTheDecomposition(url: string, host: string)
    ensures Host(url) == Some(host) <==> Decomposes(url, host)
  {
    if Host(url) == Some(host) {
      FoundHostDecomposes(url);
    }
    if Decomposes(url, host) {
      var p: Parts :| p.Valid() && p.host == host && url == p.Text();
      DecomposedHostIsFound(p);
    }
  }

  /** A text is taken apart in one way only: scheme, host, port and rest are
      all fixed by it. */
  lemma DecompositionIsUnique(p: Parts, q: Parts)
    requires p.Valid() && q.Valid() && p.Text() == q.Text()
    ensures p == q
  {
    var a, b := p.host + p.port, q.host + q.port;
    PortIsStripped(p.host, p.port);
    PortIsStripped(q.host, q.port);
    AuthorityOf(a, p.rest);
    AuthorityOf(b, q.rest);
    SchemeIsStripped(p.scheme, a + p.rest);
    SchemeIsStripped(q.scheme, b + q.rest);
    hide IsDnsName, IsPort, IsRest, StripScheme, Authority, WithoutPort;
    CancelBack(p.scheme, q.scheme, a + p.rest);
    CancelFront(a, p.rest, q.rest);
    CancelFront(p.host, p.port, q.port);
  }

  lemma CancelFront(a: string, b: string, c: string)
    requires a + b == a + c
    ensures b == c
  {
    assert b == (a + b)[|a|..];
  }

  lemma CancelBack(a: string, b: string, tail: string)
    requires a + tail == b + tail
    ensures a == b
  {
    assert a == (a + tail)[..|a|];
  }

  // ----- what a dotted name is, character by character

  predicate IsNameChar(c: char) {
    'a' <= c <= 'z' || 'A' <= c <= 'Z' || '0' <= c <= '9' || c == '-' || c == '.'
  }

  /** Letters, digits, hyphens and dots; no dot at either end or next to another; and
      something that is not a digit behind the last dot. */
  ghost predicate IsDottedName(s: string) {
    s != "" && s[0] != '.' && DotsSeparate(s) && exists k: nat :: LastsUndigited(s, k)
  }

  predicate DotsSeparate(s: string) {
    forall k :: 0 <= k < |s| ==> FitsName(s, k)
  }

  /** A character of a name, and if it is a dot then another character follows. */
  predicate FitsName(s: string, k: nat)
    requires k < |s|
  {
    IsNameChar(s[k]) && (s[k] == '.' ==> k + 1 < |s| && s[k + 1] != '.')
  }

  /** A character that is not a digit, with no dot from there on. */
  predicate LastsUndigited(s: string, k: nat) {
    k < |s| && !('0' <= s[k] <= '9') && forall j :: k <= j < |s| ==> s[j] != '.'
  }

  predicate HoldsLabelChars(l: string) {
    forall k :: 0 <= k < |l| ==> IsLabelChar(l[k])
  }

  predicate AreLabels(labels: seq<string>) {
    forall k :: 0 <= k < |labels| ==> IsLabel(labels[k])
  }

  /** All labels are good but that the first may be empty. */
  predicate GoodBehindTheFirst(s: string) {
    HoldsLabelChars(Labels(s)[0]) && AreLabels(Labels(s)[1..])
  }

  predicate AllGood(s: string) {
    AreLabels(Labels(s))
  }

  lemma FirstLabel(s: string)
    ensures Labels(s)[0] == "" <==> s == "" || s[0] == '.'
  {}

  lemma OneMoreChar(c: char, l: string)
    ensures HoldsLabelChars([c] + l) <==> IsLabelChar(c) && HoldsLabelChars(l)
  {
    hide IsLabelChar;
    var more := [c] + l;
    assert more[0] == c && forall k :: 0 <= k < |l| ==> more[k + 1] == l[k];
  }

  lemma OneMoreLabel(l: string, labels: seq<string>)
    ensures AreLabels([l] + labels) <==> IsLabel(l) && AreLabels(labels)
  {
    hide IsLabel;
    var more := [l] + labels;
    assert more[0] == l && forall k :: 0 <= k < |labels| ==> more[k + 1] == labels[k];
  }

  lemma GoodStep(s: string)
    requires s != ""
    ensures GoodBehindTheFirst(s)
            <==> if s[0] == '.' then AllGood(s[1..]) else IsLabelChar(s[0]) && GoodBehindTheFirst(s[1..])
  {
    LabelsStep(s);
    hide Labels, IsLabelChar, AreLabels;
    var rest := Labels(s[1..]);
    if s[0] == '.' {
      assert ([""] + rest)[1..] == rest;
    } else {
      OneMoreChar(s[0], rest[0]);
      assert ([[s[0]] + rest[0]] + rest[1..])[1..] == rest[1..];
    }
  }

  lemma AllGoodMeans(s: string)
    ensures AllGood(s) <==> s != "" && s[0] != '.' && GoodBehindTheFirst(s)
  {
    FirstLabel(s);
    hide Labels, AreLabels, IsLabelChar;
    var labels := Labels(s);
    HeadAndTail(labels);
    OneMoreLabel(labels[0], labels[1..]);
  }

  lemma FitsShift(s: string, k: nat)
    requires k + 1 < |s|
    ensures FitsName(s, k + 1) <==> FitsName(s[1..], k)
  {
    hide IsNameChar;
  }

  lemma DotsStep(s: string)
    requires s != ""
    ensures DotsSeparate(s) <==> FitsName(s, 0) && DotsSeparate(s[1..])
  {
    hide FitsName;
    if DotsSeparate(s) {
      forall k | 0 <= k < |s[1..]| ensures FitsName(s[1..], k) {
        FitsShift(s, k);
      }
    }
    if FitsName(s, 0) && DotsSeparate(s[1..]) {
      forall k | 0 <= k < |s| ensures FitsName(s, k) {
        if k > 0 {
          FitsShift(s, k - 1);
        }
      }
    }
  }

  lemma {:induction false} GoodMeansDotsSeparate(s: string)
    ensures GoodBehindTheFirst(s) <==> DotsSeparate(s)
  {
    if s == "" {
    } else {
      hide GoodBehindTheFirst, DotsSeparate, AllGood, Labels;
      GoodMeansDotsSeparate(s[1..]);
      GoodStep(s);
      AllGoodMeans(s[1..]);
      DotsStep(s);
    }
  }

  lemma {:induction false} NoDotsOneLabel(s: string)
    ensures |Labels(s)| == 1 <==> '.' !in s
    ensures '.' !in s ==> Labels(s) == [s]
  {
    if s == "" {
    } else {
      NoDotsOneLabel(s[1..]);
      LabelsStep(s);
      hide Labels;
      HeadAndTail(s);
      assert '.' in s <==> s[0] == '.' || '.' in s[1..];
    }
  }

  lemma LastLabelStep(s: string)
    requires s != ""
    ensures Last(Labels(s)) == if '.' in s then Last(Labels(s[1..])) else s
  {
    LabelsStep(s);
    NoDotsOneLabel(s);
    NoDotsOneLabel(s[1..]);
    hide Labels;
  }

  lemma {:induction false} LastLabelMeans(s: string)
    ensures !AllDigits(Last(Labels(s))) <==> exists k: nat :: LastsUndigited(s, k)
  {
    if '.' !in s {
      NoDotsOneLabel(s);
      hide Labels;
      if !AllDigits(s) {
        var k :| 0 <= k < |s| && !IsDigit(s[k]);
        assert LastsUndigited(s, k);
      }
      if k: nat :| LastsUndigited(s, k) {
        assert !IsDigit(s[k]);
      }
    } else {
      LastLabelMeans(s[1..]);
      LastLabelStep(s);
      hide Labels, AllDigits;
      if k: nat :| LastsUndigited(s, k) {
        assert k > 0;
        assert LastsUndigited(s[1..], k - 1);
      }
      if k: nat :| LastsUndigited(s[1..], k) {
        assert LastsUndigited(s, k + 1);
      }
    }
  }

  /** A host is a dotted name, told without splitting it. */
  lemma DnsNameMeans(host: string)
    ensures IsDnsName(host) <==> IsDottedName(host)
  {
    assert IsDnsName(host) <==> AllGood(host) && !AllDigits(Last(Labels(host)));
    hide Labels, AllDigits, DotsSeparate, GoodBehindTheFirst;
    AllGoodMeans(host);
    GoodMeansDotsSeparate(host);
    LastLabelMeans(host);
  }

  // ----- the pinned domain

  function LowerChar(c: char): char {
    if 'A' <= c <= 'Z' then c - 'A' + 'a' else c
  }

  function Lower(s: string): (r: string)
    ensures |r| == |s| && forall k :: 0 <= k < |s| ==> r[k] == LowerChar(s[k])
  {
    seq(|s|, k requires 0 <= k < |s| => LowerChar(s[k]))
  }

  predicate EndsWith(s: string, suffix: string) {
    |suffix| <= |s| && s[|s| - |suffix|..] == suffix
  }

  /** Accepts the domain itself, or a host that ends in it after a dot. */
  predicate RequireDomain(url: string, domain: string) {
    match Host(url)
    case None => false
    case Some(h) =>
      var host, pinned := Lower(h), Lower(domain);
      || host == pinned
      || (EndsWith(host, pinned) && EndsWith(host[..|host| - |pinned|], "."))
  }

  predicate HasLabelSuffix(labels: seq<string>, suffix: seq<string>) {
    |suffix| <= |labels| && labels[|labels| - |suffix|..] == suffix
  }

  function Joined(labels: seq<string>): string
    requires labels != []
  {
    if |labels| == 1 then labels[0] else labels[0] + "." + Joined(labels[1..])
  }

  /** The labels hold no dot and joined by dots they give the name back, which
      fixes them. */
  lemma {:induction false} JoinUndoesSplit(s: string)
    ensures Joined(Labels(s)) == s
    ensures forall k :: 0 <= k < |Labels(s)| ==> '.' !in Labels(s)[k]
  {
    if s == "" {
    } else {
      JoinUndoesSplit(s[1..]);
      var rest, all := Labels(s[1..]), Labels(s);
      if s[0] == '.' {
        assert all[1..] == rest;
      } else {
        assert all[1..] == rest[1..];
      }
      assert s == [s[0]] + s[1..];
    }
  }

  lemma {:induction false} LabelsOfConcat(a: string, b: string)
    ensures Labels(a + "." + b) == Labels(a) + Labels(b)
  {
    hide Labels;
    var s := a + "." + b;
    LabelsStep(s);
    LabelsStep(a);
    if a == "" {
      assert s[1..] == b;
    } else {
      LabelsOfConcat(a[1..], b);
      assert s[1..] == a[1..] + "." + b;
      ConcatAfterHead(a[0], Labels(a[1..]), Labels(b));
    }
  }

  /** The labels of a name from those of the name without its first character. */
  function Grown(c: char, rest: seq<string>): seq<string>
    requires rest != []
  {
    if c == '.' then [""] + rest else [[c] + rest[0]] + rest[1..]
  }

  lemma LabelsStep(s: string)
    ensures Labels(s) == if s == "" then [""] else Grown(s[0], Labels(s[1..]))
  {}

  lemma ConcatAfterHead(c: char, a: seq<string>, b: seq<string>)
    requires a != []
    ensures Grown(c, a + b) == Grown(c, a) + b
  {
    assert (a + b)[1..] == a[1..] + b;
  }

  lemma {:induction false} JoinConcat(a: seq<string>, b: seq<string>)
    requires a != [] && b != []
    ensures Joined(a + b) == Joined(a) + "." + Joined(b)
  {
    if |a| == 1 {
      assert (a + b)[1..] == b;
    } else {
      JoinConcat(a[1..], b);
      assert (a + b)[1..] == a[1..] + b;
    }
  }

  lemma SplitAt(s: string, k: nat)
    requires k < |s|
    ensures s == s[..k] + [s[k]] + s[k + 1..]
  {}

  lemma SuffixGivesLabels(host: string, domain: string)
    requires EndsWith(host, domain) && EndsWith(host[..|host| - |domain|], ".")
    ensures HasLabelSuffix(Labels(host), Labels(domain))
  {
    hide *;
    DotBeforeSuffix(host, domain);
    var a := host[..|host| - |domain| - 1];
    LabelsOfConcat(a, domain);
    ConcatHasSuffix(Labels(a), Labels(domain));
  }

  lemma DotBeforeSuffix(host: string, domain: string)
    requires EndsWith(host, domain) && EndsWith(host[..|host| - |domain|], ".")
    ensures |domain| < |host| && host == host[..|host| - |domain| - 1] + "." + domain
  {
    var n := |host| - |domain|;
    assert host[..n][n - 1..][0] == '.';
    SplitAt(host, n - 1);
    assert [host[n - 1]] == ".";
  }

  lemma ConcatHasSuffix(a: seq<string>, b: seq<string>)
    ensures HasLabelSuffix(a + b, b)
  {}

  lemma LabelsGiveSuffix(host: string, domain: string)
    requires HasLabelSuffix(Labels(host), Labels(domain)) && host != domain
    ensures EndsWith(host, domain) && EndsWith(host[..|host| - |domain|], ".")
  {
    JoinUndoesSplit(host);
    JoinUndoesSplit(domain);
    hide Labels, Joined, EndsWith;
    var labels, suffix := Labels(host), Labels(domain);
    var n := |labels| - |suffix|;
    assert labels == labels[..n] + suffix;
    assert n == 0 ==> labels == suffix;
    JoinConcat(labels[..n], suffix);
    EndsAfterDot(Joined(labels[..n]), domain);
  }

  lemma EndsAfterDot(front: string, domain: string)
    ensures var host := front + "." + domain;
            EndsWith(host, domain) && EndsWith(host[..|host| - |domain|], ".")
  {
    var host := front + "." + domain;
    assert host[|host| - |domain|..] == domain;
    assert host[..|host| - |domain|] == front + ".";
  }

  /** Being a name or ending in it after a dot is having its labels as a
      suffix. */
  lemma SuffixMeansLabels(host: string, domain: string)
    ensures HasLabelSuffix(Labels(host), Labels(domain))
            <==> host == domain || (EndsWith(host, domain) && EndsWith(host[..|host| - |domain|], "."))
  {
    hide Labels;
    if EndsWith(host, domain) && EndsWith(host[..|host| - |domain|], ".") {
      SuffixGivesLabels(host, domain);
    }
    if HasLabelSuffix(Labels(host), Labels(domain)) && host != domain {
      LabelsGiveSuffix(host, domain);
    }
  }

  /** The check accepts exactly the hosts whose labels end in the labels of the
      domain, compared without case. */
  lemma DomainIsALabelSuffix(url: string, domain: string)
    ensures RequireDomain(url, domain)
            <==> Host(url).Some? && HasLabelSuffix(Labels(Lower(Host(url).value)), Labels(Lower(domain)))
  {
    hide Host, Labels, Lower, HasLabelSuffix;
    if Host(url).Some? {
      SuffixMeansLabels(Lower(Host(url).value), Lower(domain));
    }
  }

  /** The same character, or the same letter of A to Z in the other case. */
  predicate SameLetter(c: char, d: char) {
    || c == d
    || ('A' <= c <= 'Z' && 'a' <= d <= 'z' && c - 'A' == d - 'a')
    || ('a' <= c <= 'z' && 'A' <= d <= 'Z' && c - 'a' == d - 'A')
  }

  /** Two names are compared as equal exactly when they differ in the case of letters
      only. */
  lemma LowerIgnoresCaseOnly(a: string, b: string)
    ensures Lower(a) == Lower(b) <==> |a| == |b| && forall k :: 0 <= k < |a| ==> SameLetter(a[k], b[k])
  {
    if Lower(a) == Lower(b) {
      assert |Lower(a)| == |Lower(b)|;
      forall k | 0 <= k < |a| ensures SameLetter(a[k], b[k]) {
        assert Lower(a)[k] == Lower(b)[k];
        LettersCompare(a[k], b[k]);
      }
    }
    if |a| == |b| && forall k :: 0 <= k < |a| ==> SameLetter(a[k], b[k]) {
      forall k | 0 <= k < |a| ensures Lower(a)[k] == Lower(b)[k] {
        LettersCompare(a[k], b[k]);
      }
    }
  }

  lemma LettersCompare(c: char, d: char)
    ensures LowerChar(c) == LowerChar(d) <==> SameLetter(c, d)
  {}

  /** Lowering a name lowers each of its labels, so the comparison is one label
      against one label. */
  lemma {:induction false} LowerKeepsLabels(s: string)
    ensures |Labels(Lower(s))| == |Labels(s)|
    ensures forall k :: 0 <= k < |Labels(s)| ==> Labels(Lower(s))[k] == Lower(Labels(s)[k])
  {
    hide Labels;
    LabelsStep(s);
    LabelsStep(Lower(s));
    assert Lower("") == "";
    if s == "" {
    } else {
      LowerKeepsLabels(s[1..]);
      assert Lower(s)[1..] == Lower(s[1..]);
      LowerAfterHead(s[0], Labels(s[1..]), Labels(Lower(s[1..])));
    }
  }

  lemma LowerAfterHead(c: char, rest: seq<string>, lowered: seq<string>)
    requires rest != [] && |lowered| == |rest|
    requires forall k :: 0 <= k < |rest| ==> lowered[k] == Lower(rest[k])
    ensures var a, b := Grown(c, rest), Grown(LowerChar(c), lowered);
            |a| == |b| && forall k :: 0 <= k < |a| ==> b[k] == Lower(a[k])
  {
    assert Lower("") == "";
    assert Lower([c] + rest[0]) == [LowerChar(c)] + Lower(rest[0]);
  }
}
