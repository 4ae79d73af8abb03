// The redaction that keeps urnetwork: links out of the log (app/src/App/AuthLink.h): each link in a text is reduced
// to its scheme, its host and its length, and one reduced already is left as it is. Every character above 0x7F
// reads as '~' there, so a text of bytes and one of UTF-16 units are both texts of characters here.
module LinkRedaction {
  import opened LinkScan
  import opened Texts

  const COMMAND_LINE_ENDERS := {' ', '\t', '"'}
  const LOG_ENDERS := {' ', '\t', '"', '\r', '\n'}

  predicate IsPlain(c: char) {
    'A' <= c <= 'Z' || 'a' <= c <= 'z' || '0' <= c <= '9' || c == '.' || c == '_' || c == '+' || c == '-'
  }

  predicate IsPlainToken(token: string, max: nat) {
    |token| <= max && forall i | 0 <= i < |token| :: IsPlain(token[i])
  }

  predicate SeparatorAt(url: string, i: nat) {
    i + 3 <= |url| && url[i] == ':' && url[i + 1] == '/' && url[i + 2] == '/'
  }

  // The first "://" at or after `at`, or the end of the text.
  function FindSeparator(url: string, at: nat): (r: nat)
    requires at <= |url|
    ensures at <= r <= |url| && (r < |url| ==> SeparatorAt(url, r)) && forall i | at <= i < r :: !SeparatorAt(url, i)
    decreases |url| - at
  {
    if at == |url| || SeparatorAt(url, at) then at else FindSeparator(url, at + 1)
  }

  predicate StopsHost(c: char) {
    c == '/' || c == '?' || c == '#' || c == ':' || c == '@'
  }

  function HostEnd(url: string, at: nat): (r: nat)
    requires at <= |url|
    ensures at <= r <= |url| && (r < |url| ==> StopsHost(url[r])) && forall i | at <= i < r :: !StopsHost(url[i])
    decreases |url| - at
  {
    if at == |url| || StopsHost(url[at]) then at else HostEnd(url, at + 1)
  }

  // A host the log may show: a short plain token followed by a path, a query, a fragment or the end.
  function ShownHost(url: string, at: nat): (host: string)
    requires at <= |url|
    ensures host == "*" || IsPlainToken(host, 32)
  {
    var stop := HostEnd(url, at);
    var host := url[at..stop];
    if (stop == |url| || (url[stop] != ':' && url[stop] != '@')) && IsPlainToken(host, 32) then host else "*"
  }

  const OPENING := "[redacted "
  const CLOSING := " chars]"

  function Mark(n: nat): string {
    OPENING + Decimal(n) + CLOSING
  }

  predicate HasPlainScheme(url: string) {
    var e := FindSeparator(url, 0);
    0 < e < |url| && IsPlainToken(url[..e], 16)
  }

  // The scheme and the host of a link, when it has a plain scheme.
  function Echo(url: string): string {
    var e := FindSeparator(url, 0);
    if HasPlainScheme(url) then url[..e] + "://" + ShownHost(url, e + 3) else ""
  }

  function RedactUrl(url: string): string {
    (if Echo(url) == "" then "" else Echo(url) + " ") + Mark(|url|)
  }

  function Ascii(c: char): char {
    if c < 0x80 as char then c else '~'
  }

  function AsciiOnly(text: string): (r: string)
    ensures |r| == |text|
  {
    seq(|text|, i requires 0 <= i < |text| => Ascii(text[i]))
  }

  function DigitsEnd(text: string, at: nat): (r: nat)
    requires at <= |text|
    ensures at <= r <= |text| && (forall i | at <= i < r :: '0' <= text[i] <= '9')
    ensures r < |text| ==> !('0' <= text[r] <= '9')
    decreases |text| - at
  {
    if at < |text| && '0' <= text[at] <= '9' then DigitsEnd(text, at + 1) else at
  }

  // The first half of what RedactUrl writes.
  predicate IsEcho(link: string) {
    var e := FindSeparator(link, 0);
    0 < e < |link| && IsPlainToken(link[..e], 16) && (link[e + 3..] == "*" || IsPlainToken(link[e + 3..], 32))
  }

  const BEFORE := " " + OPENING

  // The text starts with the second half.
  predicate StartsWithMark(after: string) {
    BEFORE <= after &&
    var end := DigitsEnd(after, |BEFORE|);
    end > |BEFORE| && CLOSING <= after[end..]
  }

  predicate IsRedactedAlready(link: string, after: string) {
    IsEcho(link) && StartsWithMark(after)
  }

  const WINDOW := 40

  function Window(text: string): (w: string)
    ensures |w| == if |text| <= WINDOW then |text| else WINDOW
  {
    AsciiOnly(if |text| <= WINDOW then text else text[..WINDOW])
  }

  function Reduced(link: string, after: string): string {
    if IsRedactedAlready(AsciiOnly(link), Window(after)) then link else RedactUrl(AsciiOnly(link))
  }

  const SCHEME := "urnetwork:"

  const COMMAND_LINE_RULES: Rules := Rules(SCHEME, COMMAND_LINE_ENDERS, Reduced)
  const LOG_RULES: Rules := Rules(SCHEME, LOG_ENDERS, Reduced)

  // Rules that look for the app's links.
  ghost predicate ScansLinks(r: Rules) {
    r.scheme == SCHEME && (r.enders == COMMAND_LINE_ENDERS || r.enders == LOG_ENDERS)
  }

  // Rules that leave a link alone when it is reduced already.
  ghost predicate LeavesReduced(r: Rules) {
    forall link, after :: LeavesIt(r, link, after)
  }

  predicate LeavesIt(r: Rules, link: string, after: string) {
    IsRedactedAlready(AsciiOnly(link), Window(after)) ==> r.replace(link, after) == link
  }

  lemma RedactionIsUsable(r: Rules)
    requires ScansLinks(r)
    ensures Usable(r)
  {
    assert forall i | 0 <= i < |SCHEME| :: SCHEME[i] >= ':';
    assert forall c | c in r.enders :: c < ':';
  }

  function RedactCommandLine(line: string): string {
    RedactionIsUsable(COMMAND_LINE_RULES);
    ReplaceLinks(COMMAND_LINE_RULES, line)
  }

  function RedactLogText(text: string): string {
    RedactionIsUsable(LOG_RULES);
    ReplaceLinks(LOG_RULES, text)
  }

  // ---- the mark ----

  predicate AllDigits(s: string) {
    |s| > 0 && forall i | 0 <= i < |s| :: '0' <= s[i] <= '9'
  }

  // The second half of what RedactUrl writes, from its space on.
  function SpacedMark(digits: string): string {
    BEFORE + digits + CLOSING
  }

  lemma MarkRead(w: string, digits: string)
    requires AllDigits(digits) && SpacedMark(digits) <= w
    ensures StartsWithMark(w)
  {
    hide DigitsEnd;
    var m, end := SpacedMark(digits), |BEFORE| + |digits|;
    assert forall i | 0 <= i < |digits| :: w[|BEFORE| + i] == m[|BEFORE| + i] == digits[i];
    assert w[end] == m[end] == ' ';
    assert BEFORE == m[..|BEFORE|] == w[..|BEFORE|];
    assert DigitsEnd(w, |BEFORE|) == end;
    assert CLOSING == m[end..] == w[end..|m|] == w[end..][..|CLOSING|];
  }

  lemma MarkWritten(w: string) returns (digits: string)
    requires StartsWithMark(w)
    ensures AllDigits(digits) && SpacedMark(digits) <= w
  {
    var end := DigitsEnd(w, |BEFORE|);
    digits := w[|BEFORE|..end];
    assert w[..|BEFORE|] == BEFORE && w[end..][..|CLOSING|] == CLOSING;
    assert w == w[..|BEFORE|] + digits + w[end..];
  }

  // No character of the mark can start a link or stands for a character above 0x7F.
  lemma MarkIsPlain(digits: string)
    requires AllDigits(digits)
    ensures var m := SpacedMark(digits);
            |m| == 18 + |digits| && forall i | 0 <= i < |m| :: Lower(m[i]) != 'u' && m[i] != '~' && m[i] < 0x80 as char
  {
    var m := SpacedMark(digits);
    forall i | 0 <= i < |m| ensures Lower(m[i]) != 'u' && m[i] != '~' && m[i] < 0x80 as char {
      if i < |BEFORE| {
        assert m[i] == BEFORE[i];
      } else if i < |BEFORE| + |digits| {
        assert m[i] == digits[i - |BEFORE|];
      } else {
        assert m[i] == CLOSING[i - |BEFORE| - |digits|];
      }
    }
  }

  lemma WindowIsPrefix(text: string, m: string)
    ensures m <= Window(text) <==> m <= AsciiOnly(text) && |m| <= |Window(text)|
  {
    var w, a := Window(text), AsciiOnly(text);
    assert forall i | 0 <= i < |w| :: w[i] == a[i];
  }

  // A stretch none of whose characters is a u starts no link.
  lemma NoLinkWithoutU(r: Rules, text: string, i: nat)
    requires ScansLinks(r) && i < |text| && Lower(text[i]) != 'u'
    ensures !SchemeAt(r.scheme, text, i)
  {
    assert r.scheme[0] == 'u' && text[i + 0] == text[i];
  }

  // A mark after a link is kept.
  lemma MarkIsKept(r: Rules, rest: string, digits: string)
    requires ScansLinks(r) && Usable(r) && AllDigits(digits) && SpacedMark(digits) <= AsciiOnly(rest)
    ensures SpacedMark(digits) <= AsciiOnly(ReplaceLinks(r, rest))
  {
    hide Usable, SchemeAt, ReplaceFrom, SpacedMark;
    var m, a := SpacedMark(digits), AsciiOnly(rest);
    MarkIsPlain(digits);
    forall i | 0 <= i < |m| ensures !SchemeAt(r.scheme, rest, i) && rest[i] == m[i] {
      assert Ascii(rest[i]) == a[i] == m[i];
      NoLinkWithoutU(r, rest, i);
    }
    FoundLater(r.scheme, rest, |m|);
    SkipTo(r, rest, |m|);
    var b := AsciiOnly(ReplaceLinks(r, rest));
    assert forall i | 0 <= i < |m| :: b[i] == m[i];
  }

  // ---- what the log shows of a link ----

  function SchemeOf(url: string): string
    requires HasPlainScheme(url)
  {
    url[..FindSeparator(url, 0)]
  }

  // The host as it shows: a star stands for one that does not.
  function HostShown(url: string): string
    requires HasPlainScheme(url)
  {
    ShownHost(url, FindSeparator(url, 0) + 3)
  }

  // Two links of one scheme and one shown host, or both without a plain scheme.
  predicate ShowTheSame(a: string, b: string) {
    && (HasPlainScheme(a) <==> HasPlainScheme(b))
    && (HasPlainScheme(a) ==> SchemeOf(a) == SchemeOf(b) && HostShown(a) == HostShown(b))
  }

  lemma PlainHasNone(token: string, max: nat)
    requires IsPlainToken(token, max)
    ensures ' ' !in token && ':' !in token && (token != "" ==> token[0] != '[')
  {
  }

  lemma HostHasNoSpace(url: string)
    requires HasPlainScheme(url)
    ensures ' ' !in HostShown(url)
  {
    hide FindSeparator, ShownHost;
    if HostShown(url) != "*" {
      PlainHasNone(HostShown(url), 32);
    }
  }

  lemma EchoInParts(url: string)
    requires HasPlainScheme(url)
    ensures Echo(url) == SchemeOf(url) + ([':'] + ("//" + HostShown(url))) && SchemeOf(url) != ""
    ensures IsPlainToken(SchemeOf(url), 16)
  {
    hide FindSeparator, ShownHost, IsPlainToken;
    assert "://" == [':'] + "//";
  }

  lemma EchoHasNoSpace(url: string)
    ensures ' ' !in Echo(url) && (Echo(url) != "" ==> Echo(url)[0] != '[')
    ensures HasPlainScheme(url) ==>
              Echo(url) == SchemeOf(url) + ([':'] + ("//" + HostShown(url))) && ':' !in SchemeOf(url)
  {
    if HasPlainScheme(url) {
      EchoInParts(url);
      HostHasNoSpace(url);
      PlainHasNone(SchemeOf(url), 16);
      hide Echo, HasPlainScheme, SchemeOf, HostShown;
      assert ' ' !in [':'] + ("//" + HostShown(url));
    }
  }

  // Texts that continue in c agree before it when neither has a c there.
  lemma SameBefore(x: string, y: string, c: char, p: string, q: string)
    requires x + ([c] + p) == y + ([c] + q) && c !in x && c !in y
    ensures x == y && p == q
  {
    var s := x + ([c] + p);
    assert s[|x|] == c && s[|y|] == c;
    assert (forall i | 0 <= i < |x| :: s[i] == x[i]) && forall i | 0 <= i < |y| :: s[i] == y[i];
    assert x == s[..|x|] && y == s[..|y|] && p == s[|x| + 1..] && q == s[|y| + 1..];
  }

  lemma MarkInjective(m: nat, n: nat)
    requires Mark(m) == Mark(n)
    ensures m == n
  {
    var s, k := Mark(m), |OPENING|;
    assert s[k..|s| - |CLOSING|] == Decimal(m) && s[k..|s| - |CLOSING|] == Decimal(n);
    DecimalInjective(m, n);
  }

  lemma RedactedStarts(url: string)
    ensures RedactUrl(url) == if Echo(url) == "" then Mark(|url|) else Echo(url) + ([' '] + Mark(|url|))
    ensures RedactUrl(url) != "" && (RedactUrl(url)[0] == '[' <==> Echo(url) == "")
  {
    EchoHasNoSpace(url);
    hide Echo;
    assert Mark(|url|)[0] == OPENING[0];
    assert Echo(url) == "" ==> RedactUrl(url) == "" + Mark(|url|);
  }

  lemma EchoExactly(a: string, b: string)
    ensures Echo(a) == Echo(b) <==> ShowTheSame(a, b)
  {
    assert !HasPlainScheme(a) ==> Echo(a) == "";
    assert !HasPlainScheme(b) ==> Echo(b) == "";
    hide Echo, HasPlainScheme, SchemeOf, HostShown;
    EchoHasNoSpace(a);
    EchoHasNoSpace(b);
    if HasPlainScheme(a) && HasPlainScheme(b) && Echo(a) == Echo(b) {
      SameBefore(SchemeOf(a), SchemeOf(b), ':', "//" + HostShown(a), "//" + HostShown(b));
      assert ("//" + HostShown(a))[2..] == HostShown(a) && ("//" + HostShown(b))[2..] == HostShown(b);
    }
  }

  // What the log shows of a link is exactly its plain scheme with its shown host, if it has one, and its length: links
  // that differ in anything else read the same.
  lemma {:induction false} OnlySchemeHostAndLengthShow(a: string, b: string)
    ensures RedactUrl(a) == RedactUrl(b) <==> |a| == |b| && ShowTheSame(a, b)
  {
    hide Echo, Mark, ShowTheSame;
    EchoExactly(a, b);
    EchoHasNoSpace(a);
    EchoHasNoSpace(b);
    RedactedStarts(a);
    RedactedStarts(b);
    hide RedactUrl;
    if RedactUrl(a) == RedactUrl(b) {
      if Echo(a) != "" {
        SameBefore(Echo(a), Echo(b), ' ', Mark(|a|), Mark(|b|));
      }
      MarkInjective(|a|, |b|);
    }
  }

  // ---- the same over the text of a link ----

  predicate IsPlainScheme(scheme: string) {
    scheme != "" && IsPlainToken(scheme, 16)
  }

  // The text after "://" is a short plain host that nothing follows but a path, a query, a fragment or the end.
  predicate HasPlainHost(text: string, host: string) {
    IsPlainToken(host, 32) && host <= text && (host == text || text[|host|] in {'/', '?', '#'})
  }

  lemma SeparatorIs(scheme: string, after: string)
    requires IsPlainScheme(scheme)
    ensures var url := scheme + "://" + after;
            HasPlainScheme(url) && FindSeparator(url, 0) == |scheme| && SchemeOf(url) == scheme
            && url[|scheme| + 3..] == after
  {
    var url := scheme + "://" + after;
    PlainHasNone(scheme, 16);
    assert forall i | 0 <= i < |scheme| :: url[i] == scheme[i] != ':';
    assert SeparatorAt(url, |scheme|);
    assert url[..|scheme|] == scheme;
  }

  lemma PlainHostShows(url: string, at: nat, host: string)
    requires at <= |url| && HasPlainHost(url[at..], host)
    ensures ShownHost(url, at) == host
  {
    var after, stop := url[at..], at + |host|;
    assert forall i | 0 <= i < |host| :: url[at + i] == after[i] == host[i];
    assert host != after ==> url[stop] == after[|host|];
    assert url[at..stop] == host;
  }

  lemma OtherHostIsHidden(url: string, at: nat)
    requires at <= |url| && forall host :: !HasPlainHost(url[at..], host)
    ensures ShownHost(url, at) == "*"
  {
    hide HostEnd, IsPlainToken;
    var after, stop := url[at..], HostEnd(url, at);
    var host := url[at..stop];
    assert host == after[..stop - at] && host <= after;
    assert stop < |url| ==> after[|host|] == url[stop];
    assert stop == |url| ==> host == after;
    assert !HasPlainHost(after, host);
  }

  // What the log shows of scheme://text: the host when it is a short plain one that a path, a query, a fragment or the
  // end follows, and otherwise a star.
  lemma ShowsExactly(scheme: string, text: string)
    requires IsPlainScheme(scheme)
    ensures var url := scheme + "://" + text;
            forall host | HasPlainHost(text, host) :: RedactUrl(url) == scheme + "://" + host + " " + Mark(|url|)
    ensures var url := scheme + "://" + text;
            (forall host :: !HasPlainHost(text, host)) ==> RedactUrl(url) == scheme + "://" + "*" + " " + Mark(|url|)
  {
    hide Mark, HasPlainHost, ShownHost, FindSeparator;
    var url := scheme + "://" + text;
    SeparatorIs(scheme, text);
    forall host | HasPlainHost(text, host) ensures ShownHost(url, |scheme| + 3) == host {
      PlainHostShows(url, |scheme| + 3, host);
    }
    if forall host :: !HasPlainHost(text, host) {
      OtherHostIsHidden(url, |scheme| + 3);
    }
  }

  // A ':' or '@' before any path, query or fragment hides whatever it follows: a user, a password, a port.
  lemma UserIsHidden(scheme: string, before: string, c: char, after: string)
    requires IsPlainScheme(scheme) && (c == ':' || c == '@') && forall d | d in before :: d !in {'/', '?', '#'}
    ensures var url := scheme + "://" + (before + [c] + after);
            RedactUrl(url) == scheme + "://" + "*" + " " + Mark(|url|)
  {
    hide Mark, RedactUrl;
    var text := before + [c] + after;
    forall host ensures !HasPlainHost(text, host) {
      UserIsNoHost(before, c, after, host);
    }
    ShowsExactly(scheme, text);
  }

  lemma UserIsNoHost(before: string, c: char, after: string, host: string)
    requires (c == ':' || c == '@') && forall d | d in before :: d !in {'/', '?', '#'}
    ensures !HasPlainHost(before + [c] + after, host)
  {
    var text := before + [c] + after;
    if host <= text {
      assert text[|before|] == c;
      if |host| > |before| {
        assert host[|before|] == c;
      } else if |host| < |before| {
        assert text[|host|] == before[|host|] && before[|host|] in before;
      }
    }
  }

  // A link that is no plain scheme, "://" and a text shows its length alone.
  lemma NoSchemeShowsLength(url: string)
    requires forall scheme, text :: IsPlainScheme(scheme) ==> url != scheme + "://" + text
    ensures RedactUrl(url) == Mark(|url|)
  {
    if HasPlainScheme(url) {
      var e := FindSeparator(url, 0);
      assert url == url[..e] + "://" + url[e + 3..] && IsPlainScheme(url[..e]);
      assert false;
    }
    RedactedStarts(url);
  }

  // ---- what is left alone ----

  // A plain scheme, "://" and a short plain host or a star.
  predicate WritesEcho(link: string, scheme: string, host: string) {
    IsPlainScheme(scheme) && (host == "*" || IsPlainToken(host, 32)) && link == scheme + "://" + host
  }

  // A reduced link is those three.
  lemma IsEchoExactly(link: string)
    ensures IsEcho(link) <==> exists scheme, host :: WritesEcho(link, scheme, host)
  {
    hide FindSeparator, IsPlainToken;
    if IsEcho(link) {
      var e := FindSeparator(link, 0);
      assert link == link[..e] + "://" + link[e + 3..];
      assert WritesEcho(link, link[..e], link[e + 3..]);
    }
    forall scheme, host | WritesEcho(link, scheme, host) ensures IsEcho(link) {
      SeparatorIs(scheme, host);
    }
  }

  // ... and what follows it starts with a count in brackets, all of it within the window.
  lemma IsRedactedExactly(link: string, after: string)
    ensures IsRedactedAlready(link, Window(after)) <==>
            && IsEcho(link)
            && exists digits :: AllDigits(digits) && |SpacedMark(digits)| <= WINDOW
                                && " " + OPENING + digits + CLOSING <= AsciiOnly(after)
  {
    hide IsEcho, StartsWithMark, AllDigits, AsciiOnly, Window;
    if StartsWithMark(Window(after)) {
      var digits := MarkWritten(Window(after));
      WindowIsPrefix(after, SpacedMark(digits));
    }
    forall digits | AllDigits(digits) && |SpacedMark(digits)| <= WINDOW
                    && " " + OPENING + digits + CLOSING <= AsciiOnly(after) ensures StartsWithMark(Window(after)) {
      WindowIsPrefix(after, SpacedMark(digits));
      MarkRead(Window(after), digits);
    }
  }

  // ---- the count ----

  function Pow10(k: nat): nat {
    if k == 0 then 1 else 10 * Pow10(k - 1)
  }

  lemma {:induction false} DecimalFits(n: nat, k: nat)
    requires k > 0 && n < Pow10(k)
    ensures |Decimal(n)| <= k
  {
    if n >= 10 {
      DecimalFits(n / 10, k - 1);
    }
  }

  // A length the machine can hold has few enough digits for the window.
  lemma LengthFits(n: nat)
    requires n < 0x1_0000_0000_0000_0000
    ensures |Decimal(n)| <= 20
  {
    assert Pow10(5) == 100000;
    assert Pow10(10) == 100000 * 100000;
    assert Pow10(15) == 100000 * Pow10(10);
    assert Pow10(20) == 100000 * Pow10(15);
    DecimalFits(n, 20);
  }

  // ---- redacting twice ----

  // A link left as it is is left as it is again, whatever happened to the rest of the text.
  lemma AlreadyStays(r: Rules, link: string, rest: string)
    requires ScansLinks(r) && Usable(r) && StartsWithMark(Window(rest))
    ensures StartsWithMark(Window(ReplaceLinks(r, rest)))
  {
    hide Usable, ReplaceFrom, SpacedMark, StartsWithMark;
    var digits := MarkWritten(Window(rest));
    WindowIsPrefix(rest, SpacedMark(digits));
    MarkIsKept(r, rest, digits);
    WindowIsPrefix(ReplaceLinks(r, rest), SpacedMark(digits));
    MarkRead(Window(ReplaceLinks(r, rest)), digits);
  }

  lemma SchemeLetters(link: string)
    requires SchemeAt(SCHEME, link, 0)
    ensures |link| >= 10 && link[9] == ':' && forall i | 0 <= i < 9 :: IsPlain(link[i]) && Ascii(link[i]) == link[i]
  {
    assert |SCHEME| == 10;
    forall i | 0 <= i < 10 ensures Lower(link[i]) == SCHEME[i] {
      assert link[0 + i] == link[i];
    }
    assert SCHEME[9] == ':' && forall i | 0 <= i < 9 :: 'a' <= SCHEME[i] <= 'z';
  }

  lemma SeparatorFollowsScheme(link: string)
    requires SchemeAt(SCHEME, link, 0) && Echo(AsciiOnly(link)) != ""
    ensures FindSeparator(AsciiOnly(link), 0) == 9 && AsciiOnly(link)[..9] == link[..9]
  {
    var a := AsciiOnly(link);
    assert HasPlainScheme(a);
    SchemeLetters(link);
    hide SchemeAt, Echo;
    assert forall i | 0 <= i < 9 :: a[i] == link[i] != ':';
    var e := FindSeparator(a, 0);
    FirstColon(a, e);
  }

  // A plain scheme ends at the first ':'.
  lemma FirstColon(a: string, e: nat)
    requires |a| > 9 && a[9] == ':' && (forall i | 0 <= i < 9 :: a[i] != ':')
    requires e < |a| && a[e] == ':' && IsPlainToken(a[..e], 16)
    ensures e == 9
  {
    assert forall i | 0 <= i < e :: a[..e][i] == a[i] && IsPlain(a[i]);
  }

  // A plain scheme and a host, as RedactUrl shows them, read as a reduced link and hold no ender.
  lemma EchoReads(r: Rules, scheme: string, host: string)
    requires ScansLinks(r) && IsPlainToken(scheme, 16) && scheme != "" && (host == "*" || IsPlainToken(host, 32))
    ensures var echo := scheme + "://" + host;
            IsEcho(echo) && AsciiOnly(echo) == echo && forall i | 0 <= i < |echo| :: echo[i] !in r.enders
  {
    var echo := scheme + "://" + host;
    assert SeparatorAt(echo, |scheme|) && forall i | 0 <= i < |scheme| :: echo[i] == scheme[i] != ':';
    assert FindSeparator(echo, 0) == |scheme|;
    assert echo[..|scheme|] == scheme && echo[|scheme| + 3..] == host;
  }

  lemma EchoIsEcho(r: Rules, link: string)
    requires ScansLinks(r) && SchemeAt(SCHEME, link, 0) && Echo(AsciiOnly(link)) != ""
    ensures var echo := Echo(AsciiOnly(link));
            && |echo| >= 10 && echo[..10] == link[..10] && IsEcho(echo) && AsciiOnly(echo) == echo
            && forall i | 0 <= i < |echo| :: echo[i] !in r.enders
  {
    hide SchemeAt, IsEcho;
    SchemeLetters(link);
    SeparatorFollowsScheme(link);
    var host := ShownHost(AsciiOnly(link), 12);
    EchoReads(r, link[..9], host);
    assert link[..10] == link[..9] + [link[9]];
  }

  // Text that holds no u after a place where no link starts.
  lemma NoLinkThroughMark(r: Rules, before: string, digits: string, tail: string)
    requires ScansLinks(r) && Usable(r) && AllDigits(digits)
    requires forall i | 0 <= i < |before| :: !SchemeAt(r.scheme, before, i)
    ensures var m := SpacedMark(digits);
            && ReplaceLinks(r, m + tail) == m + ReplaceLinks(r, tail)
            && ReplaceLinks(r, before + m[1..] + tail) == before + m[1..] + ReplaceLinks(r, tail)
  {
    hide Usable, SchemeAt, ReplaceFrom, SpacedMark;
    var m := SpacedMark(digits);
    MarkIsPlain(digits);
    forall i | 0 <= i < |m| ensures !SchemeAt(r.scheme, m + tail, i) {
      NoLinkWithoutU(r, m + tail, i);
    }
    SkipPrefix(r, m, tail);
    var p := before + m[1..];
    forall i | 0 <= i < |p| ensures !SchemeAt(r.scheme, p + tail, i) {
      NoLinkBeforeBracket(r, before, digits, tail, i);
    }
    SkipPrefix(r, p, tail);
  }

  lemma NoLinkBeforeBracket(r: Rules, before: string, digits: string, tail: string, i: nat)
    requires ScansLinks(r) && Usable(r) && AllDigits(digits)
    requires forall k | 0 <= k < |before| :: !SchemeAt(r.scheme, before, k)
    requires i < |before| + |SpacedMark(digits)| - 1
    ensures !SchemeAt(r.scheme, before + SpacedMark(digits)[1..] + tail, i)
  {
    var m := SpacedMark(digits);
    MarkIsPlain(digits);
    var text := before + m[1..] + tail;
    if i < |before| {
      assert text == before + (m[1..] + tail) && text[|before|] == m[1] == '[';
      if i + |r.scheme| <= |before| {
        SchemeIsLocal(r.scheme, before, m[1..] + tail, i);
      } else {
        assert r.scheme[|before| - i] != '[' && text[i + (|before| - i)] == '[';
      }
    } else {
      assert text[i] == m[i - |before| + 1];
      NoLinkWithoutU(r, text, i);
    }
  }

  lemma MarkSpaced(n: nat)
    ensures SpacedMark(Decimal(n)) == " " + Mark(n) && SpacedMark(Decimal(n))[1..] == Mark(n) && AllDigits(Decimal(n))
  {
  }

  // Redaction keeps the ender a text starts with.
  lemma EnderIsKept(r: Rules, rest: string)
    requires ScansLinks(r) && Usable(r) && (rest == "" || rest[0] in r.enders)
    ensures var tail := ReplaceLinks(r, rest); (tail == "" <==> rest == "") && (rest != "" ==> tail[0] == rest[0])
  {
    hide Usable, SchemeAt, FindScheme, ReplaceFrom;
    if rest == "" {
      EmptyTail(r, rest);
    } else {
      if SchemeAt(r.scheme, rest, 0) {
        SchemeHasNoEnder(r, rest, 0);
        LinkIsLonger(r, rest, 0);
      }
      FoundLater(r.scheme, rest, 1);
      SkipTo(r, rest, 1);
    }
  }

  // A reduced link in front of a mark is left as it is.
  lemma ReducedStays(r: Rules, before: string, link: string, n: nat, tail: string)
    requires ScansLinks(r) && Usable(r) && LeavesReduced(r) && n < 0x1_0000_0000_0000_0000
    requires IsEcho(link) && AsciiOnly(link) == link && IsLink(r, before, link, " " + Mark(n) + tail)
    ensures ReplaceLinks(r, before + link + (" " + Mark(n)) + tail)
            == before + link + (" " + Mark(n)) + ReplaceLinks(r, tail)
  {
    hide Usable, SchemeAt, ReplaceFrom, IsEcho, IsLink, SpacedMark, Mark, StartsWithMark;
    var m := " " + Mark(n);
    MarkSpaced(n);
    LengthFits(n);
    MarkIsPlain(Decimal(n));
    var a := AsciiOnly(m + tail);
    assert m <= a by {
      assert forall i | 0 <= i < |m| :: a[i] == Ascii((m + tail)[i]) == m[i];
    }
    WindowIsPrefix(m + tail, m);
    MarkRead(Window(m + tail), Decimal(n));
    assert LeavesIt(r, link, m + tail) && r.replace(link, m + tail) == link;
    PeelLink(r, before, link, m + tail);
    NoLinkThroughMark(r, "", Decimal(n), tail);
    assert before + link + m + tail == before + link + (m + tail);
  }

  // The reduced link stands where the link stood.
  lemma EchoIsLink(r: Rules, before: string, link: string, rest: string, after: string)
    requires ScansLinks(r) && Usable(r) && IsLink(r, before, link, rest) && Echo(AsciiOnly(link)) != ""
    requires after != "" && after[0] == ' '
    ensures IsLink(r, before, Echo(AsciiOnly(link)), after)
  {
    hide Usable, SchemeAt, IsEcho, Echo, AsciiOnly;
    var echo := Echo(AsciiOnly(link));
    EchoIsEcho(r, link);
    SchemeLetters(link);
    var start := link[..10];
    assert link == start + link[10..] && echo == start + echo[10..] && |r.scheme| == 10;
    SchemeIsLocal(r.scheme, start, link[10..], 0);
    SchemeIsLocal(r.scheme, start, echo[10..], 0);
    forall i | 0 <= i < |before| ensures !SchemeAt(r.scheme, before + echo, i) {
      assert before + link == before + start + link[10..] && before + echo == before + start + echo[10..];
      SchemeIsLocal(r.scheme, before + start, link[10..], i);
      SchemeIsLocal(r.scheme, before + start, echo[10..], i);
    }
  }

  // No link starts in the text before a link.
  lemma NoneBefore(r: Rules, before: string, link: string, rest: string)
    requires IsLink(r, before, link, rest)
    ensures forall i | 0 <= i < |before| :: !SchemeAt(r.scheme, before, i)
  {
    forall i | 0 <= i < |before| ensures !SchemeAt(r.scheme, before, i) {
      if i + |r.scheme| <= |before| {
        SchemeIsLocal(r.scheme, before, link, i);
      }
    }
  }

  // One link: what it was replaced by is kept by a second pass over the text, when it had been reduced already, when
  // it has a host to show, and when it has none.
  lemma KeptStays(r: Rules, second: Rules, before: string, link: string, rest: string)
    requires ScansLinks(r) && Usable(r) && IsLink(r, before, link, rest)
    requires Usable(second) && second.scheme == r.scheme && second.enders == r.enders && LeavesReduced(second)
    requires IsRedactedAlready(AsciiOnly(link), Window(rest))
    ensures var tail := ReplaceLinks(r, rest);
            ReplaceLinks(second, before + link + tail) == before + link + ReplaceLinks(second, tail)
  {
    hide Usable, SchemeAt, ReplaceFrom, IsEcho, StartsWithMark;
    EnderIsKept(r, rest);
    AlreadyStays(r, link, rest);
    assert LeavesIt(second, link, ReplaceLinks(r, rest));
    PeelLink(second, before, link, ReplaceLinks(r, rest));
  }

  lemma LinkStartsWithScheme(r: Rules, before: string, link: string, rest: string)
    requires IsLink(r, before, link, rest)
    ensures SchemeAt(r.scheme, link, 0)
  {
  }

  lemma ShownStays(r: Rules, before: string, link: string, rest: string, tail: string)
    requires ScansLinks(r) && Usable(r) && LeavesReduced(r) && IsLink(r, before, link, rest)
    requires |link| < 0x1_0000_0000_0000_0000 && Echo(AsciiOnly(link)) != ""
    ensures ReplaceLinks(r, before + RedactUrl(AsciiOnly(link)) + tail)
            == before + RedactUrl(AsciiOnly(link)) + ReplaceLinks(r, tail)
  {
    hide Usable, LeavesReduced, SchemeAt, ReplaceFrom, IsEcho, IsLink, Echo, Mark;
    var echo, m := Echo(AsciiOnly(link)), " " + Mark(|link|);
    LinkStartsWithScheme(r, before, link, rest);
    EchoIsEcho(r, link);
    EchoIsLink(r, before, link, rest, m + tail);
    ReducedStays(r, before, echo, |link|, tail);
    assert before + RedactUrl(AsciiOnly(link)) == before + echo + m;
  }

  lemma HiddenStays(r: Rules, before: string, link: string, rest: string, tail: string)
    requires ScansLinks(r) && Usable(r) && IsLink(r, before, link, rest) && Echo(AsciiOnly(link)) == ""
    ensures ReplaceLinks(r, before + RedactUrl(AsciiOnly(link)) + tail)
            == before + RedactUrl(AsciiOnly(link)) + ReplaceLinks(r, tail)
  {
    hide Usable, SchemeAt, ReplaceFrom, Echo, Mark, SpacedMark;
    var n := |link|;
    NoneBefore(r, before, link, rest);
    MarkSpaced(n);
    NoLinkThroughMark(r, before, Decimal(n), tail);
    assert "" + Mark(n) == Mark(n);
  }

  lemma ReplacementStays(r: Rules, second: Rules, before: string, link: string, rest: string)
    requires ScansLinks(r) && Usable(r) && IsLink(r, before, link, rest) && |link| < 0x1_0000_0000_0000_0000
    requires Usable(second) && second.scheme == r.scheme && second.enders == r.enders && LeavesReduced(second)
    ensures var tail := ReplaceLinks(r, rest);
            ReplaceLinks(second, before + Reduced(link, rest) + tail)
            == before + Reduced(link, rest) + ReplaceLinks(second, tail)
  {
    hide Usable, LeavesReduced, SchemeAt, ReplaceFrom, IsRedactedAlready, IsLink, RedactUrl, Echo;
    SameLink(r, second, before, link, rest);
    if IsRedactedAlready(AsciiOnly(link), Window(rest)) {
      KeptStays(r, second, before, link, rest);
    } else if Echo(AsciiOnly(link)) == "" {
      HiddenStays(second, before, link, rest, ReplaceLinks(r, rest));
    } else {
      ShownStays(second, before, link, rest, ReplaceLinks(r, rest));
    }
  }

  lemma SameLink(r: Rules, second: Rules, before: string, link: string, rest: string)
    requires IsLink(r, before, link, rest) && second.scheme == r.scheme && second.enders == r.enders
    ensures IsLink(second, before, link, rest)
  {
  }

  // After the redaction any pass that leaves reduced links alone changes nothing.
  lemma {:induction false} RedactsOnce(r: Rules, second: Rules, text: string)
    requires ScansLinks(r) && Usable(r) && r.replace == Reduced && |text| < 0x1_0000_0000_0000_0000
    requires Usable(second) && second.scheme == r.scheme && second.enders == r.enders && LeavesReduced(second)
    ensures ReplaceLinks(second, ReplaceLinks(r, text)) == ReplaceLinks(r, text)
    decreases |text|
  {
    hide Usable, LeavesReduced, SchemeAt, FindScheme, ReplaceFrom, Reduced;
    if FindScheme(r.scheme, text, 0) == |text| {
      NoLinkKept(r, text);
      NoLinkKept(second, text);
    } else {
      var before, link, rest := FirstLink(r, text);
      PeelLink(r, before, link, rest);
      ReplacementStays(r, second, before, link, rest);
      RedactsOnce(r, second, rest);
      assert r.replace(link, rest) == Reduced(link, rest);
    }
  }

  // Every link left in a redacted log is a reduced one: whatever would be made of a link that is not, nothing is
  // found to make it of.
  lemma OnlyReducedLinksRemain(text: string, replace: (string, string) -> string)
    requires |text| < 0x1_0000_0000_0000_0000 && LeavesReduced(Rules(SCHEME, LOG_ENDERS, replace))
    ensures var second := Rules(SCHEME, LOG_ENDERS, replace);
            Usable(second) && ReplaceLinks(second, RedactLogText(text)) == RedactLogText(text)
  {
    RedactionIsUsable(LOG_RULES);
    RedactionIsUsable(Rules(SCHEME, LOG_ENDERS, replace));
    RedactsOnce(LOG_RULES, Rules(SCHEME, LOG_ENDERS, replace), text);
  }

  // A pass that blanks every link that is not reduced.
  function Blanked(link: string, after: string): string {
    if IsRedactedAlready(AsciiOnly(link), Window(after)) then link else " "
  }

  const BLANK_RULES: Rules := Rules(SCHEME, LOG_ENDERS, Blanked)

  // Every link of a log is a reduced one.
  ghost predicate AllReduced(text: string)
    decreases |text|
  {
    var found := FindScheme(SCHEME, text, 0);
    if found == |text| then true
    else
      RedactionIsUsable(BLANK_RULES);
      LinkIsLonger(BLANK_RULES, text, found);
      var end := LinkEnd(text, found, LOG_ENDERS);
      IsRedactedAlready(AsciiOnly(text[found..end]), Window(text[end..])) && AllReduced(text[end..])
  }

  lemma BlankShows(before: string, link: string, rest: string, kept: string, later: string)
    requires before + kept + later == before + link + rest && link != "" && link[0] != ' '
    requires kept == link || kept == " "
    ensures kept == link && later == rest
  {
    var text := before + link + rest;
    assert text[|before|] == link[0] && (before + kept + later)[|before|] == kept[0];
    assert text[|before + link|..] == rest && (before + kept + later)[|before + kept|..] == later;
  }

  lemma {:induction false} UnblankedIsReduced(text: string)
    requires Usable(BLANK_RULES) && ReplaceLinks(BLANK_RULES, text) == text
    ensures AllReduced(text)
    decreases |text|
  {
    var r := BLANK_RULES;
    hide Usable, FindScheme, LinkEnd, ReplaceFrom, IsRedactedAlready, SchemeAt;
    var found := FindScheme(r.scheme, text, 0);
    if found < |text| {
      var before, link, rest := FirstLink(r, text);
      LinkFound(r, before, link, rest);
      PeelLink(r, before, link, rest);
      assert found == |before| && text[found..|before + link|] == link && text[|before + link|..] == rest;
      BlankShows(before, link, rest, Blanked(link, rest), ReplaceLinks(r, rest));
      UnblankedIsReduced(rest);
    }
  }

  lemma BlankingLeavesReduced()
    ensures LeavesReduced(BLANK_RULES)
  {
    hide IsRedactedAlready;
    forall link, after ensures LeavesIt(BLANK_RULES, link, after) {
      assert BLANK_RULES.replace(link, after) == Blanked(link, after);
    }
  }

  // So nothing but schemes, hosts and lengths is left of any link in a redacted log.
  lemma LogHoldsOnlyReduced(text: string)
    requires |text| < 0x1_0000_0000_0000_0000
    ensures AllReduced(RedactLogText(text))
  {
    hide LeavesReduced, Usable, RedactLogText, AllReduced, ReplaceLinks, Blanked;
    BlankingLeavesReduced();
    OnlyReducedLinksRemain(text, Blanked);
    UnblankedIsReduced(RedactLogText(text));
  }

  // Redacting a log twice is redacting it once, for every text the machine can hold; and the same for a command
  // line.
  lemma RedactLogTextIsIdempotent(text: string)
    requires |text| < 0x1_0000_0000_0000_0000
    ensures RedactLogText(RedactLogText(text)) == RedactLogText(text)
  {
    RedactionIsUsable(LOG_RULES);
    RedactsOnce(LOG_RULES, LOG_RULES, text);
  }

  lemma RedactCommandLineIsIdempotent(line: string)
    requires |line| < 0x1_0000_0000_0000_0000
    ensures RedactCommandLine(RedactCommandLine(line)) == RedactCommandLine(line)
  {
    RedactionIsUsable(COMMAND_LINE_RULES);
    RedactsOnce(COMMAND_LINE_RULES, COMMAND_LINE_RULES, line);
  }

  // On a text without line breaks the two agree.
  lemma AgreeOnOneLine(line: string)
    requires '\r' !in line && '\n' !in line
    ensures RedactLogText(line) == RedactCommandLine(line)
  {
    RedactionIsUsable(LOG_RULES);
    RedactionIsUsable(COMMAND_LINE_RULES);
    SameReplacement(LOG_RULES, COMMAND_LINE_RULES, line, 0);
  }

  // ---- line by line ----

  // The mark never reaches over a line break.
  lemma BlindPastBreak(link: string, near: string, far: string)
    ensures BlindPast(LOG_RULES, '\n', link, near, far)
  {
    hide IsEcho, StartsWithMark, SpacedMark, Usable;
    var whole := near + ['\n'] + far;
    if StartsWithMark(Window(near)) {
      var digits := MarkWritten(Window(near));
      WindowIsPrefix(near, SpacedMark(digits));
      assert SpacedMark(digits) <= AsciiOnly(whole) by {
        assert forall i | 0 <= i < |near| :: AsciiOnly(whole)[i] == AsciiOnly(near)[i];
      }
      WindowIsPrefix(whole, SpacedMark(digits));
      MarkRead(Window(whole), digits);
    }
    if StartsWithMark(Window(whole)) {
      var digits := MarkWritten(Window(whole));
      MarkStaysOnLine(near, far, digits);
      WindowIsPrefix(near, SpacedMark(digits));
      MarkRead(Window(near), digits);
    }
  }

  lemma MarkStaysOnLine(near: string, far: string, digits: string)
    requires AllDigits(digits) && SpacedMark(digits) <= Window(near + ['\n'] + far)
    ensures SpacedMark(digits) <= AsciiOnly(near) && |SpacedMark(digits)| <= |Window(near)|
  {
    hide SpacedMark;
    var m, whole := SpacedMark(digits), near + ['\n'] + far;
    WindowIsPrefix(whole, m);
    NoBreakInMark(digits);
    assert AsciiOnly(whole)[|near|] == '\n';
    assert forall i | 0 <= i < |m| :: m[i] != '\n' && m[i] == AsciiOnly(whole)[i];
    assert forall i | 0 <= i < |m| :: AsciiOnly(near)[i] == AsciiOnly(whole)[i] == m[i];
  }

  lemma NoBreakInMark(digits: string)
    requires AllDigits(digits)
    ensures '\n' !in SpacedMark(digits)
  {
  }

  // The text of a log up to its next line break, that break, and the rest.
  function LineEnd(text: string, at: nat): (r: nat)
    requires at <= |text|
    ensures at <= r <= |text| && (r < |text| ==> text[r] == '\n') && '\n' !in text[at..r]
    decreases |text| - at
  {
    if at == |text| || text[at] == '\n' then at else LineEnd(text, at + 1)
  }

  lemma RedactsAcrossBreak(a: string, b: string)
    ensures RedactLogText(a + ['\n'] + b) == RedactLogText(a) + ['\n'] + RedactLogText(b)
  {
    RedactionIsUsable(LOG_RULES);
    forall link, near ensures BlindPast(LOG_RULES, '\n', link, near, b) {
      BlindPastBreak(link, near, b);
    }
    ReplacesAcrossSeam(LOG_RULES, a, '\n', b);
  }

  // A log copied out a line at a time, each redacted on its own and its break kept, is the log redacted whole.
  method CopyWithoutLinks(log: string) returns (copy: string)
    ensures copy == RedactLogText(log)
  {
    hide RedactLogText;
    copy := "";
    var at := 0;
    assert log[0..] == log;
    while at < |log|
      invariant 0 <= at <= |log| && RedactLogText(log) == copy + RedactLogText(log[at..])
    {
      var end := LineEnd(log, at);
      var line := RedactLine(log[at..end]);
      copy := copy + line;
      if end == |log| {
        assert log[at..] == log[at..end];
        return;
      }
      assert log[at..] == log[at..end] + ['\n'] + log[end + 1..];
      RedactsAcrossBreak(log[at..end], log[end + 1..]);
      copy := copy + ['\n'];
      at := end + 1;
    }
    NothingToRedact();
    assert log[at..] == "";
  }

  method RedactLine(line: string) returns (out: string)
    ensures out == RedactLogText(line)
  {
    RedactionIsUsable(LOG_RULES);
    out := RedactLinks(LOG_RULES, line);
  }

  lemma NothingToRedact()
    ensures RedactLogText("") == ""
  {
    RedactionIsUsable(LOG_RULES);
    EmptyTail(LOG_RULES, "");
  }
}
