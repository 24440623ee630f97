/**
  The pure helpers of the shortener: the syntactic URL check `IsUrl` and the
  base-62 encoder of identifiers.

  Character classes are ASCII: `IsWordChar`, `IsDigit` and `IsSpace` give the
  ASCII members of Python's `\w`, `\d` and `\s`; non-ASCII letters, digits and
  white space are not recognised.
*/
module Utils {
  import opened Wrappers

  // ---------------------------------------------------------------------------
  // Character classes
  // ---------------------------------------------------------------------------

  /** `\w` restricted to ASCII: letters, digits and underscore. */
  predicate IsWordChar(c: char) {
    ('a' <= c <= 'z') || ('A' <= c <= 'Z') || ('0' <= c <= '9') || c == '_'
  }

  /** `\d` restricted to ASCII. */
  predicate IsDigit(c: char) {
    '0' <= c <= '9'
  }

  /** `\s` restricted to ASCII: space, \t \n \v \f \r and the separators 0x1C-0x1F. */
  predicate IsSpace(c: char) {
    c == ' ' || (9 <= c as int <= 13) || (28 <= c as int <= 31)
  }

  predicate NoSpace(s: string) {
    forall i :: 0 <= i < |s| ==> !IsSpace(s[i])
  }

  // ---------------------------------------------------------------------------
  // URL check
  //
  // `IsUrl` is written as explicit string functions. Beside each one stands a
  // ghost predicate that states what the corresponding regular expression
  // matches (as `re.match`, anchored at the start, with `$` matching at the end
  // or just before a final '\n'), and a lemma that the two agree.
  // ---------------------------------------------------------------------------

  /** Python's `$` without MULTILINE: position `e` is the end, or just before a final '\n'. */
  predicate AtEnd(s: string, e: nat) {
    e == |s| || (e + 1 == |s| && s[e] == '\n')
  }

  /** Length of the longest prefix of word characters. */
  function WordRun(s: string): (n: nat)
    ensures n <= |s|
    ensures forall i :: 0 <= i < n ==> IsWordChar(s[i])
    ensures n < |s| ==> !IsWordChar(s[n])
  {
    if |s| > 0 && IsWordChar(s[0]) then 1 + WordRun(s[1..]) else 0
  }

  /**
    The text after the optional `word+ ':'` scheme and the mandatory "//".
    As ':' and '/' are not word characters, the split is unique.
  */
  function AfterSlashes(s: string): Option<string>
  {
    var w := WordRun(s);
    if w > 0 then
      (if |s| >= w + 3 && s[w..w + 3] == "://" then Some(s[w + 3..]) else None)
    else if |s| >= 2 && s[..2] == "//" then Some(s[2..])
    else None
  }

  /** `rest` less one final '\n', as `$` may match just before it. */
  function StripFinalNewline(rest: string): (body: string)
    ensures rest == body || rest == body + "\n"
  {
    if |rest| > 0 && rest[|rest| - 1] == '\n' then rest[..|rest| - 1] else rest
  }

  /**
    Group 1 of `^(?:\w+:)?//(\S+)$`: the rest after the slashes, less one final
    '\n', provided it is non-empty and free of white space.
  */
  function ProtocolGroup(s: string): (g: Option<string>)
    ensures g.Some? ==> |g.value| > 0 && NoSpace(g.value)
  {
    match AfterSlashes(s)
    case None => None
    case Some(rest) =>
      var body := StripFinalNewline(rest);
      if |body| > 0 && NoSpace(body) then Some(body) else None
  }

  /** `(?:\w+:)?//` matches the whole of `t`. */
  ghost predicate SchemeAndSlashes(t: string) {
    t == "//" ||
    (|t| >= 4 && t[|t| - 3..] == "://" && forall i :: 0 <= i < |t| - 3 ==> IsWordChar(t[i]))
  }

  /** `^(?:\w+:)?//(\S+)$` matches `s` with `g` as its group 1. */
  ghost predicate ProtocolRegexMatches(s: string, g: string) {
    exists p: nat, e: nat ::
      p <= e <= |s| && SchemeAndSlashes(s[..p]) && s[p..e] == g &&
      |g| > 0 && NoSpace(g) && AtEnd(s, e)
  }

  /** The scheme prefix the regular expression consumes is the one `AfterSlashes` skips. */
  lemma SchemeAndSlashesIsUnique(s: string, p: nat)
    requires p <= |s| && SchemeAndSlashes(s[..p])
    ensures AfterSlashes(s) == Some(s[p..])
  {
    var w := WordRun(s);
    if s[..p] == "//" {
      assert s[0] == s[..p][0];
      assert w == 0 && p == 2;
    } else {
      assert s[p - 3] == s[..p][|s[..p]| - 3];
      assert forall i :: 0 <= i < p - 3 ==> IsWordChar(s[i]) by {
        forall i | 0 <= i < p - 3 ensures IsWordChar(s[i]) { assert s[..p][i] == s[i]; }
      }
      assert w == p - 3;
      assert s[w..w + 3] == s[..p][|s[..p]| - 3..];
    }
  }

  /** Where `AfterSlashes` finds a rest, the text before it is a scheme and "//". */
  lemma AfterSlashesIsScheme(s: string)
    requires AfterSlashes(s).Some?
    ensures var p := if WordRun(s) > 0 then WordRun(s) + 3 else 2;
      p <= |s| && SchemeAndSlashes(s[..p]) && AfterSlashes(s) == Some(s[p..])
  {
    var w := WordRun(s);
    if w > 0 {
      var p := w + 3;
      assert s[..p][p - 3..] == s[w..w + 3];
      forall i | 0 <= i < p - 3 ensures IsWordChar(s[..p][i]) { assert s[..p][i] == s[i]; }
    }
  }

  /** The stripped body starts at `p`, and `$` matches where it ends. */
  lemma StripFinalNewlineMatch(s: string, p: nat, g: string)
    requires p <= |s| && g == StripFinalNewline(s[p..])
    ensures p + |g| <= |s| && s[p..p + |g|] == g && AtEnd(s, p + |g|)
  {
    var rest := s[p..];
    if rest == g + "\n" {
      assert rest[..|g|] == g;
      assert rest[|g|] == '\n';
    }
  }

  /** What `ProtocolGroup` finds, the regular expression matches as group 1. */
  lemma ProtocolGroupIsSound(s: string)
    requires ProtocolGroup(s).Some?
    ensures ProtocolRegexMatches(s, ProtocolGroup(s).value)
  {
    var g := ProtocolGroup(s).value;
    AfterSlashesIsScheme(s);
    var p := if WordRun(s) > 0 then WordRun(s) + 3 else 2;
    assert g == StripFinalNewline(s[p..]);
    StripFinalNewlineMatch(s, p, g);
    var e := p + |g|;
    assert s[p..e] == g && AtEnd(s, e) && SchemeAndSlashes(s[..p]);
  }

  /** When the regular expression matches, `ProtocolGroup` finds the same group. */
  lemma ProtocolGroupIsComplete(s: string, g: string)
    requires ProtocolRegexMatches(s, g)
    ensures ProtocolGroup(s) == Some(g)
  {
    var p: nat, e: nat :| p <= e <= |s| && SchemeAndSlashes(s[..p]) && s[p..e] == g &&
      |g| > 0 && NoSpace(g) && AtEnd(s, e);
    SchemeAndSlashesIsUnique(s, p);
    var rest := s[p..];
    if e == |s| {
      assert rest == g;
      assert !IsSpace(g[|g| - 1]);
      assert StripFinalNewline(rest) == g;
    } else {
      assert rest[..|rest| - 1] == g;
      assert StripFinalNewline(rest) == g;
    }
  }

  /** The explicit split finds group 1 exactly when the regular expression matches. */
  lemma ProtocolGroupIsRegexGroup(s: string, g: string)
    ensures ProtocolGroup(s) == Some(g) <==> ProtocolRegexMatches(s, g)
  {
    if ProtocolGroup(s) == Some(g) {
      ProtocolGroupIsSound(s);
    }
    if ProtocolRegexMatches(s, g) {
      ProtocolGroupIsComplete(s, g);
    }
  }

  /** The character class `[:?\d]`: colon, question mark or digit. */
  predicate InPortClass(c: char) {
    c == ':' || c == '?' || IsDigit(c)
  }

  predicate AllPortClass(t: string) {
    forall i :: 0 <= i < |t| ==> InPortClass(t[i])
  }

  /** Length of the longest prefix drawn from `[:?\d]`. */
  function PortRun(s: string): (n: nat)
    ensures n <= |s|
    ensures forall i :: 0 <= i < n ==> InPortClass(s[i])
    ensures n < |s| ==> !InPortClass(s[n])
  {
    if |s| > 0 && InPortClass(s[0]) then 1 + PortRun(s[1..]) else 0
  }

  /** `(?:[^:?\d]\S*)?` matches the whole of `t`. */
  ghost predicate LocalhostTail(t: string) {
    t == [] || (!InPortClass(t[0]) && NoSpace(t[1..]))
  }

  /** `^localhost[:?\d]*(?:[^:?\d]\S*)?$` matches `g`. */
  ghost predicate LocalhostRegexMatches(g: string) {
    |g| >= 9 && g[..9] == "localhost" &&
    exists k: nat, e: nat ::
      9 <= k <= e <= |g| && AllPortClass(g[9..k]) && LocalhostTail(g[k..e]) && AtEnd(g, e)
  }

  predicate StartsWithLocalhost(g: string) {
    |g| >= 9 && g[..9] == "localhost"
  }

  /**
    On white-space-free text the localhost pattern accepts exactly the strings
    that start with "localhost": `[:?\d]` is a character class, not a port.
  */
  lemma LocalhostRegexIsPrefix(g: string)
    requires NoSpace(g)
    ensures LocalhostRegexMatches(g) <==> StartsWithLocalhost(g)
  {
    if StartsWithLocalhost(g) {
      var k := 9 + PortRun(g[9..]);
      assert AllPortClass(g[9..k]) by {
        forall i | 0 <= i < k - 9 ensures InPortClass(g[9..k][i]) { assert g[9..k][i] == g[9..][i]; }
      }
      var e := |g|;
      if k < e {
        assert g[k..e][0] == g[9..][PortRun(g[9..])];
        assert NoSpace(g[k..e][1..]) by {
          forall i | 0 <= i < |g[k..e][1..]| ensures !IsSpace(g[k..e][1..][i]) {
            assert g[k..e][1..][i] == g[k + 1 + i];
          }
        }
      }
      assert LocalhostTail(g[k..e]);
      assert AtEnd(g, e);
    }
  }

  predicate NoSpaceNoDot(t: string) {
    forall i :: 0 <= i < |t| ==> !IsSpace(t[i]) && t[i] != '.'
  }

  /** `^[^\s.]+\.\S{2,}$` matches `g`; `d` is the position of the dot. */
  ghost predicate DomainRegexMatches(g: string) {
    exists d: nat, e: nat ::
      1 <= d && d + 3 <= e <= |g| && NoSpaceNoDot(g[..d]) && g[d] == '.' &&
      NoSpace(g[d + 1..e]) && AtEnd(g, e)
  }

  /** Index of the first '.', or `|s|` when there is none. */
  function FirstDot(s: string): (d: nat)
    ensures d <= |s|
    ensures forall i :: 0 <= i < d ==> s[i] != '.'
    ensures d < |s| ==> s[d] == '.'
  {
    if |s| == 0 then 0 else if s[0] == '.' then 0 else 1 + FirstDot(s[1..])
  }

  /** A '.' with none before it is the first one. */
  lemma {:induction false} FirstDotAt(s: string, d: nat)
    requires d < |s| && s[d] == '.' && forall i :: 0 <= i < d ==> s[i] != '.'
    ensures FirstDot(s) == d
  {
    if d > 0 {
      FirstDotAt(s[1..], d - 1);
    }
  }

  /** The first '.' is not at the start and at least two characters follow it. */
  predicate HasDomainTail(g: string) {
    var d := FirstDot(g);
    1 <= d && d + 3 <= |g|
  }

  /** On white-space-free text the domain pattern is exactly `HasDomainTail`. */
  lemma DomainRegexIsFirstDot(g: string)
    requires NoSpace(g)
    ensures DomainRegexMatches(g) <==> HasDomainTail(g)
  {
    var first := FirstDot(g);
    if DomainRegexMatches(g) {
      var d: nat, e: nat :| 1 <= d && d + 3 <= e <= |g| && NoSpaceNoDot(g[..d]) && g[d] == '.' &&
        NoSpace(g[d + 1..e]) && AtEnd(g, e);
      assert forall i :: 0 <= i < d ==> g[i] != '.' by {
        forall i | 0 <= i < d ensures g[i] != '.' { assert g[..d][i] == g[i]; }
      }
      assert first == d;
    }
    if HasDomainTail(g) {
      assert NoSpaceNoDot(g[..first]);
      assert NoSpace(g[first + 1..|g|]);
      assert AtEnd(g, |g|);
    }
  }

  /**
    `is_url`: the optional scheme and "//" must be followed by a white-space-free
    rest that starts with "localhost" or has a domain-like dot. The emptiness
    test mirrors the source's and never fires: group 1 is never empty.
  */
  predicate IsUrl(url: string) {
    match ProtocolGroup(url)
    case None => false
    case Some(g) => |g| > 0 && (StartsWithLocalhost(g) || HasDomainTail(g))
  }

  /** `IsUrl` holds exactly when the three regular expressions accept as the source combines them. */
  lemma IsUrlIsRegexCheck(url: string)
    ensures IsUrl(url) <==>
      exists g :: ProtocolRegexMatches(url, g) && (LocalhostRegexMatches(g) || DomainRegexMatches(g))
  {
    if IsUrl(url) {
      var g := ProtocolGroup(url).value;
      ProtocolGroupIsRegexGroup(url, g);
      LocalhostRegexIsPrefix(g);
      DomainRegexIsFirstDot(g);
    }
    if exists g :: ProtocolRegexMatches(url, g) && (LocalhostRegexMatches(g) || DomainRegexMatches(g)) {
      var g :| ProtocolRegexMatches(url, g) && (LocalhostRegexMatches(g) || DomainRegexMatches(g));
      ProtocolGroupIsRegexGroup(url, g);
      LocalhostRegexIsPrefix(g);
      DomainRegexIsFirstDot(g);
    }
  }

  /** A valid URL is never empty, so the handlers' truthiness tests see it as present. */
  lemma IsUrlNonEmpty(url: string)
    requires IsUrl(url)
    ensures |url| >= 3
  {
  }

  /**
    Once the scheme prefix and group 1 are known, `IsUrl` is decided by the
    localhost and domain tests on the group alone.
  */
  lemma IsUrlOfParts(url: string, p: nat, g: string)
    requires p <= |url| && SchemeAndSlashes(url[..p])
    requires url[p..] == g || url[p..] == g + "\n"
    requires |g| > 0 && NoSpace(g)
    ensures IsUrl(url) <==> StartsWithLocalhost(g) || HasDomainTail(g)
  {
    var e := p + |g|;
    assert url[p..e] == g;
    assert AtEnd(url, e);
    ProtocolGroupIsComplete(url, g);
  }

  // Concrete inputs. Each is a parameter fixed by the requires so that the
  // verifier does not evaluate the string literal eagerly.

  /**
    Every `scheme://host.tld`, and the same with one final '\n', passes when
    the scheme is a word, the host has neither white space nor a dot and the
    top-level part has two or more characters and no white space.
  */
  lemma AcceptsSchemeHostTld(scheme: string, host: string, tld: string, newline: bool)
    requires |scheme| > 0 && forall i :: 0 <= i < |scheme| ==> IsWordChar(scheme[i])
    requires |host| > 0 && NoSpaceNoDot(host)
    requires |tld| >= 2 && NoSpace(tld)
    ensures IsUrl(scheme + "://" + host + "." + tld + (if newline then "\n" else ""))
  {
    var url := scheme + "://" + host + "." + tld + (if newline then "\n" else "");
    var p := |scheme| + 3;
    var g := host + "." + tld;
    assert url == (scheme + "://") + g + (if newline then "\n" else "");
    assert url[..p] == scheme + "://";
    assert SchemeAndSlashes(url[..p]) by {
      assert url[..p][p - 3..] == "://";
      forall i | 0 <= i < p - 3 ensures IsWordChar(url[..p][i]) { assert url[..p][i] == scheme[i]; }
    }
    assert NoSpace(g) by {
      forall i | 0 <= i < |g| ensures !IsSpace(g[i]) {
        if i < |host| { assert g[i] == host[i]; }
        else if i > |host| { assert g[i] == tld[i - |host| - 1]; }
      }
    }
    assert url[p..] == g + (if newline then "\n" else "");
    FirstDotAt(g, |host|);
    IsUrlOfParts(url, p, g);
  }

  lemma AcceptsHttpsDomain(url: string)
    requires url == "https://example.com"
    ensures IsUrl(url)
  {
    var scheme, host, tld := "https", "example", "com";
    assert url == scheme + "://" + host + "." + tld + "";
    assert NoSpaceNoDot(host) by {
      forall i | 0 <= i < |host| ensures !IsSpace(host[i]) && host[i] != '.' { }
    }
    AcceptsSchemeHostTld(scheme, host, tld, false);
  }

  /** Every `scheme://localhost…` with a white-space-free rest passes. */
  lemma AcceptsSchemeLocalhost(scheme: string, rest: string)
    requires |scheme| > 0 && forall i :: 0 <= i < |scheme| ==> IsWordChar(scheme[i])
    requires NoSpace(rest)
    ensures IsUrl(scheme + "://" + "localhost" + rest)
  {
    var url := scheme + "://" + "localhost" + rest;
    var p := |scheme| + 3;
    var g := "localhost" + rest;
    assert url == (scheme + "://") + g;
    assert url[..p] == scheme + "://";
    assert SchemeAndSlashes(url[..p]) by {
      assert url[..p][p - 3..] == "://";
      forall i | 0 <= i < p - 3 ensures IsWordChar(url[..p][i]) { assert url[..p][i] == scheme[i]; }
    }
    assert NoSpace(g) by {
      forall i | 0 <= i < |g| ensures !IsSpace(g[i]) {
        if i >= 9 { assert g[i] == rest[i - 9]; }
      }
    }
    assert url[p..] == g;
    assert g[..9] == "localhost";
    IsUrlOfParts(url, p, g);
  }

  lemma AcceptsLocalhostWithPort(url: string)
    requires url == "ftp://localhost:8080/x"
    ensures IsUrl(url)
  {
    var scheme, rest := "ftp", ":8080/x";
    assert url == scheme + "://" + "localhost" + rest;
    assert NoSpace(rest) by {
      forall i | 0 <= i < |rest| ensures !IsSpace(rest[i]) { }
    }
    AcceptsSchemeLocalhost(scheme, rest);
  }

  /** The scheme is optional; "//" alone is enough. */
  lemma AcceptsWithoutScheme(url: string)
    requires url == "//x.com"
    ensures IsUrl(url)
  {
    assert url[..2] == "//";
    var g := url[2..];
    IsUrlOfParts(url, 2, g);
    assert g[1] == '.' && g[0] != '.';
    assert FirstDot(g) == 1;
  }

  /** Any host that merely starts with "localhost" passes. */
  lemma AcceptsLocalhostPrefix(url: string)
    requires url == "http://localhostevil"
    ensures IsUrl(url)
  {
    var scheme, rest := "http", "evil";
    assert url == scheme + "://" + "localhost" + rest;
    assert NoSpace(rest) by {
      forall i | 0 <= i < |rest| ensures !IsSpace(rest[i]) { }
    }
    AcceptsSchemeLocalhost(scheme, rest);
  }


  /** `$` also matches before a final '\n', so one trailing newline is tolerated. */
  lemma AcceptsTrailingNewline(url: string)
    requires url == "http://example.com\n"
    ensures IsUrl(url)
  {
    var scheme, host, tld := "http", "example", "com";
    assert url == scheme + "://" + host + "." + tld + "\n";
    assert NoSpaceNoDot(host) by {
      forall i | 0 <= i < |host| ensures !IsSpace(host[i]) && host[i] != '.' { }
    }
    AcceptsSchemeHostTld(scheme, host, tld, true);
  }

  /** Neither localhost nor a dot. */
  lemma RejectsBareHost(url: string)
    requires url == "http://a"
    ensures !IsUrl(url)
  {
    assert url[..7][4..] == "://";
    IsUrlOfParts(url, 7, url[7..]);
    assert FirstDot(url[7..]) == 1;
  }

  /** The dot may not come first. */
  lemma RejectsLeadingDot(url: string)
    requires url == "http://.com"
    ensures !IsUrl(url)
  {
    assert url[..7][4..] == "://";
    IsUrlOfParts(url, 7, url[7..]);
    assert url[7..][0] == '.';
  }

  /** At least two characters must follow the dot. */
  lemma RejectsShortTail(url: string)
    requires url == "http://a.b"
    ensures !IsUrl(url)
  {
    assert url[..7][4..] == "://";
    var g := url[7..];
    IsUrlOfParts(url, 7, g);
    assert g[1] == '.' && g[0] != '.';
    assert FirstDot(g) == 1;
  }

  /** White space after "//" rejects. */
  lemma RejectsInnerSpace(url: string)
    requires url == "http://a b.com"
    ensures !IsUrl(url)
  {
    assert url[4] == ':' && forall i :: 0 <= i < 4 ==> IsWordChar(url[i]);
    assert WordRun(url) == 4 && url[4..7] == "://";
    assert AfterSlashes(url) == Some(url[7..]);
    assert IsSpace(url[7..][1]);
  }

  lemma RejectsPlainWords(url: string)
    requires url == "not a url"
    ensures !IsUrl(url)
  {
    assert url[3] == ' ' && forall i :: 0 <= i < 3 ==> IsWordChar(url[i]);
    assert WordRun(url) == 3 && url[3..6] != "://";
  }

  lemma RejectsNoDomain(url: string)
    requires url == "//nodomainhere"
    ensures !IsUrl(url)
  {
    var g := url[2..];
    assert SchemeAndSlashes(url[..2]) by { assert url[..2] == "//"; }
    assert NoSpaceNoDot(g) by {
      forall i | 0 <= i < |g| ensures !IsSpace(g[i]) && g[i] != '.' { assert g[i] == url[2 + i]; }
    }
    assert !StartsWithLocalhost(g) by { assert g[..9][0] == url[2] == 'n'; }
    assert !HasDomainTail(g) by { assert FirstDot(g) == |g|; }
    IsUrlOfParts(url, 2, g);
  }

  // ---------------------------------------------------------------------------
  // Base-62 encoding
  // ---------------------------------------------------------------------------

  /** The fixed digit alphabet: digits, then lower case, then upper case. */
  const Alphabet: string := "0123456789abcdefghijklmnopqrstuvwxyzABCDEFGHIJKLMNOPQRSTUVWXYZ"

  predicate IsBase62Char(c: char) {
    ('0' <= c <= '9') || ('a' <= c <= 'z') || ('A' <= c <= 'Z')
  }

  /** The alphabet index of a base-62 character, read off its ASCII range. */
  function DigitValue(c: char): (v: nat)
    requires IsBase62Char(c)
    ensures v < 62
  {
    if '0' <= c <= '9' then c as int - '0' as int
    else if 'a' <= c <= 'z' then 10 + (c as int - 'a' as int)
    else 36 + (c as int - 'A' as int)
  }

  /** The symbol of digit value `i`, read off the three ASCII ranges. */
  function DigitChar(i: nat): (c: char)
    requires i < 62
    ensures IsBase62Char(c) && DigitValue(c) == i
  {
    if i < 10 then ('0' as int + i) as char
    else if i < 36 then ('a' as int + (i - 10)) as char
    else ('A' as int + (i - 36)) as char
  }

  /** The first ten symbols are the decimal digits. */
  lemma AlphabetDecimal()
    ensures |Alphabet| == 62
    ensures forall i :: 0 <= i < 10 ==> Alphabet[i] == DigitChar(i)
  {
    var front := "0123456789abcdefghijklmnopqrstuvwxyz";
    var digits := "0123456789";
    assert Alphabet[..36] == front;
    assert front[..10] == digits;
    assert forall i :: 0 <= i < 10 ==> digits[i] == DigitChar(i);
    forall i | 0 <= i < 10 ensures Alphabet[i] == DigitChar(i) {
      assert Alphabet[i] == front[i] == digits[i];
    }
  }

  /** The next twenty-six are the lower-case letters. */
  lemma AlphabetLower()
    ensures forall i :: 10 <= i < 36 ==> Alphabet[i] == DigitChar(i)
  {
    var front := "0123456789abcdefghijklmnopqrstuvwxyz";
    assert Alphabet[..36] == front;
    assert forall i :: 10 <= i < 36 ==> front[i] == DigitChar(i);
    forall i | 10 <= i < 36 ensures Alphabet[i] == DigitChar(i) {
      assert Alphabet[i] == front[i];
    }
  }

  /** The last twenty-six are the upper-case letters. */
  lemma AlphabetUpper()
    ensures forall i :: 36 <= i < 62 ==> Alphabet[i] == DigitChar(i)
  {
    assert forall i :: 36 <= i < 62 ==> Alphabet[i] == DigitChar(i);
  }

  /** The alphabet has 62 symbols, and each one's index is its digit value. */
  lemma AlphabetDigits()
    ensures |Alphabet| == 62
    ensures forall i :: 0 <= i < 62 ==> Alphabet[i] == DigitChar(i)
    ensures forall i :: 0 <= i < 62 ==> IsBase62Char(Alphabet[i]) && DigitValue(Alphabet[i]) == i
  {
    AlphabetDecimal();
    AlphabetLower();
    AlphabetUpper();
  }

  /** The 62 symbols are pairwise distinct. */
  lemma AlphabetDistinct()
    ensures forall i, j :: 0 <= i < j < |Alphabet| ==> Alphabet[i] != Alphabet[j]
  {
    AlphabetDigits();
  }

  /** A character occurs in the alphabet exactly when it is an ASCII letter or digit. */
  lemma AlphabetMembers(c: char)
    ensures c in Alphabet <==> IsBase62Char(c)
  {
    AlphabetDigits();
    if IsBase62Char(c) {
      var k := DigitValue(c);
      assert DigitValue(Alphabet[k]) == k;
      assert Alphabet[k] == c;
    }
  }

  /** The symbol of a character's digit value is that character. */
  lemma DigitCharOfValue(c: char)
    requires IsBase62Char(c)
    ensures DigitChar(DigitValue(c)) == c
  {
  }

  /** The alphabet entry at index `i` is the symbol of digit value `i`. */
  lemma AlphabetAt(i: nat)
    requires i < 62
    ensures |Alphabet| == 62 && Alphabet[i] == DigitChar(i)
  {
    AlphabetDigits();
  }

  /** A string of symbols not starting with '0' has a positive value. */
  lemma DecodePositive(t: string)
    requires |t| >= 1 && AllBase62(t) && t[0] != '0'
    ensures DecodeBase62(t) > 0
  {
    DecodeZero(t);
  }

  predicate AllBase62(s: string) {
    forall i :: 0 <= i < |s| ==> IsBase62Char(s[i])
  }

  /**
    The base-62 encoding of `n`, most significant digit first. The symbol of
    digit value `k` is `DigitChar(k)`, which is `Alphabet[k]` (`AlphabetDigits`).
    Zero is the single symbol "0", never the empty string.
  */
  function Base62(n: nat): string
  {
    if n < 62 then [DigitChar(n)] else Base62(n / 62) + [DigitChar(n % 62)]
  }

  /** The value of a string of base-62 digits read most significant first. */
  function DecodeBase62(s: string): nat
    requires AllBase62(s)
  {
    if s == [] then 0 else DecodeBase62(s[..|s| - 1]) * 62 + DigitValue(s[|s| - 1])
  }

  /** The strings `Base62` produces: one symbol, or several without a leading '0'. */
  predicate IsCanonicalBase62(s: string) {
    |s| >= 1 && AllBase62(s) && (|s| == 1 || s[0] != '0')
  }

  /** Python's `reversed`, used to put the collected digits in order. */
  function Reversed(s: string): (r: string)
    ensures |r| == |s|
    ensures forall i :: 0 <= i < |s| ==> r[i] == s[|s| - 1 - i]
  {
    if s == [] then [] else [s[|s| - 1]] + Reversed(s[..|s| - 1])
  }

  lemma ReversedSnoc(s: string, c: char)
    ensures Reversed(s + [c]) == [c] + Reversed(s)
  {
    assert (s + [c])[..|s|] == s;
  }

  /**
    `encode_base62`: divide by 62 collecting remainders as alphabet indices,
    then reverse them. Python's `divmod` floors; for the non-negative values
    allowed here it agrees with Dafny's `/` and `%`. A negative input never
    reaches zero (see `NegativeQuotientsStayNegative`), so the source loops
    forever on it; hence `num >= 0`.
  */
  method EncodeBase62(num: int) returns (s: string)
    requires num >= 0
    ensures s == Base62(num)
  {
    if num == 0 {
      AlphabetAt(0);
      return [Alphabet[0]];
    }
    var n := num;
    var digits: string := [];
    while n != 0
      invariant 0 <= n <= num
      invariant n > 0 ==> Base62(num) == Base62(n) + Reversed(digits)
      invariant n == 0 ==> Base62(num) == Reversed(digits)
      decreases n
    {
      var rem := n % 62;
      AlphabetAt(rem);
      ReversedSnoc(digits, Alphabet[rem]);
      digits := digits + [Alphabet[rem]];
      n := n / 62;
    }
    s := Reversed(digits);
  }

  /** The value of `num` after `k` rounds of the loop's `num // 62`. */
  function FloorQuotient(num: int, k: nat): int
  {
    if k == 0 then num else FloorQuotient(num, k - 1) / 62
  }

  /** For negative input the loop's variable stays negative forever: the loop never ends. */
  lemma {:induction false} NegativeQuotientsStayNegative(num: int, k: nat)
    requires num < 0
    ensures FloorQuotient(num, k) < 0
  {
    if k > 0 {
      NegativeQuotientsStayNegative(num, k - 1);
    }
  }

  /** Zero encodes to "0", the alphabet's first symbol. */
  lemma Base62OfZero()
    ensures Base62(0) == [Alphabet[0]] == "0"
  {
    AlphabetDigits();
  }

  /** Every encoding is non-empty and uses alphabet symbols only. */
  lemma {:induction false} Base62Symbols(n: nat)
    ensures |Base62(n)| >= 1
    ensures AllBase62(Base62(n))
    ensures forall i :: 0 <= i < |Base62(n)| ==> Base62(n)[i] in Alphabet
  {
    AlphabetDigits();
    if n >= 62 {
      Base62Symbols(n / 62);
    }
    forall i | 0 <= i < |Base62(n)| ensures Base62(n)[i] in Alphabet {
      AlphabetMembers(Base62(n)[i]);
    }
  }

  /** Round trip: reading the digits back with base-62 place values gives `n`. */
  lemma {:induction false} Base62RoundTrip(n: nat)
    ensures AllBase62(Base62(n))
    ensures DecodeBase62(Base62(n)) == n
  {
    AlphabetDigits();
    Base62Symbols(n);
    if n >= 62 {
      Base62RoundTrip(n / 62);
      var s := Base62(n);
      assert s[..|s| - 1] == Base62(n / 62);
    } else {
      var s := Base62(n);
      assert s[..|s| - 1] == [];
    }
  }

  /** Distinct identifiers get distinct codes. */
  lemma Base62Injective(a: nat, b: nat)
    ensures Base62(a) == Base62(b) ==> a == b
  {
    Base62RoundTrip(a);
    Base62RoundTrip(b);
  }

  /** Every encoding is canonical: a positive value never starts with '0'. */
  lemma {:induction false} Base62IsCanonical(n: nat)
    ensures IsCanonicalBase62(Base62(n))
    ensures n > 0 ==> Base62(n)[0] != '0'
  {
    AlphabetDigits();
    Base62Symbols(n);
    if n >= 62 {
      Base62IsCanonical(n / 62);
    }
  }

  /** A string of digits that are all zero has value zero, and only those do. */
  lemma {:induction false} DecodeZero(s: string)
    requires AllBase62(s)
    ensures DecodeBase62(s) == 0 <==> forall i :: 0 <= i < |s| ==> s[i] == '0'
  {
    if s != [] {
      var t := s[..|s| - 1];
      DecodeZero(t);
      var last := s[|s| - 1];
      if DecodeBase62(s) == 0 {
        assert DigitValue(last) == 0;
        forall i | 0 <= i < |s| ensures s[i] == '0' {
          if i < |s| - 1 { assert s[i] == t[i]; }
        }
      } else {
        if DecodeBase62(t) == 0 {
          assert DigitValue(last) != 0;
          assert last != '0';
        } else {
          var j :| 0 <= j < |t| && t[j] != '0';
          assert s[j] == t[j];
        }
      }
    }
  }

  /** Appending symbol `c` to a positive value's code gives the code of `v * 62 + DigitValue(c)`. */
  lemma Base62Snoc(v: nat, c: char)
    requires v > 0 && IsBase62Char(c)
    ensures Base62(v * 62 + DigitValue(c)) == Base62(v) + [c]
  {
    var n := v * 62 + DigitValue(c);
    assert n / 62 == v && n % 62 == DigitValue(c);
    DigitCharOfValue(c);
  }

  /** A single symbol is the code of its own digit value. */
  lemma Base62OfDigit(c: char)
    requires IsBase62Char(c)
    ensures DecodeBase62([c]) == DigitValue(c)
    ensures Base62(DigitValue(c)) == [c]
  {
    assert [c][..0] == [];
    DigitCharOfValue(c);
  }

  /** Appending a symbol multiplies the value by 62 and adds the symbol's digit value. */
  lemma DecodeSnoc(t: string, c: char)
    requires AllBase62(t) && IsBase62Char(c)
    ensures AllBase62(t + [c]) && DecodeBase62(t + [c]) == DecodeBase62(t) * 62 + DigitValue(c)
  {
    var s := t + [c];
    assert AllBase62(s) by {
      forall i | 0 <= i < |s| ensures IsBase62Char(s[i]) { if i < |t| { assert s[i] == t[i]; } }
    }
    assert s[..|s| - 1] == t;
  }

  /** Appending a symbol to a string of positive value appends it to the code of that value. */
  lemma Base62OfDecodeSnoc(t: string, c: char)
    requires AllBase62(t) && DecodeBase62(t) > 0 && IsBase62Char(c)
    ensures AllBase62(t + [c]) && Base62(DecodeBase62(t + [c])) == Base62(DecodeBase62(t)) + [c]
  {
    DecodeSnoc(t, c);
    Base62Snoc(DecodeBase62(t), c);
  }

  /** Converse of the round trip: the canonical strings are exactly the encodings. */
  lemma {:induction false} Base62OfDecode(s: string)
    requires IsCanonicalBase62(s)
    ensures Base62(DecodeBase62(s)) == s
  {
    var c := s[|s| - 1];
    if |s| == 1 {
      assert s == [c];
      Base62OfDigit(c);
    } else {
      var t := s[..|s| - 1];
      assert s == t + [c];
      assert IsCanonicalBase62(t) by { assert t[0] == s[0]; }
      Base62OfDecode(t);
      DecodePositive(t);
      Base62OfDecodeSnoc(t, c);
    }
  }

  /** 62 to the power `k`. */
  function Pow62(k: nat): (p: nat)
    ensures p >= 1
  {
    if k == 0 then 1 else 62 * Pow62(k - 1)
  }

  /** A positive value's code has exactly as many symbols as it has base-62 digits. */
  lemma {:induction false} Base62Length(n: nat)
    requires n > 0
    ensures Pow62(|Base62(n)| - 1) <= n < Pow62(|Base62(n)|)
  {
    if n >= 62 {
      var q := n / 62;
      Base62Length(q);
      var L := |Base62(q)|;
      assert |Base62(n)| == L + 1;
      assert Pow62(L) == 62 * Pow62(L - 1);
      assert Pow62(L + 1) == 62 * Pow62(L);
      assert n == 62 * q + n % 62;
      assert q <= Pow62(L) - 1;
    }
  }
}
