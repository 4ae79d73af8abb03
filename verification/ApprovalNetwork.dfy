// The host an API url names (app/src/App/ApprovalNetwork.h): the scanner of the `api` value, and the second reading
// of its grammar (app/tools/approval-network-tests.cpp).
module ApprovalNetwork {
  import opened Options
  import opened Texts

  const MAX_CHARS := 200
  const MAX_LABEL_CHARS := 63
  const MAX_PORT := 65535
  const HTTPS_PORT := 443

  // ---- the scanner ----

  predicate IsLowerOrDigit(c: char) {
    'a' <= c <= 'z' || '0' <= c <= '9'
  }

  predicate IsAllDigits(text: string) {
    text != "" && forall i | 0 <= i < |text| :: '0' <= text[i] <= '9'
  }

  // 0x and any number of hex digits.
  predicate IsHexNumber(text: string) {
    |text| >= 2 && text[0] == '0' && text[1] == 'x' &&
    forall i | 2 <= i < |text| :: '0' <= text[i] <= '9' || 'a' <= text[i] <= 'f'
  }

  predicate IsLabel(text: string) {
    && 0 < |text| <= MAX_LABEL_CHARS && IsLowerOrDigit(text[0]) && IsLowerOrDigit(text[|text| - 1])
    && forall i | 0 <= i < |text| :: IsLowerOrDigit(text[i]) || text[i] == '-'
  }

  predicate AllLabels(labels: seq<string>) {
    forall i | 0 <= i < |labels| :: IsLabel(labels[i])
  }

  function Value(digits: string): nat
    requires forall i | 0 <= i < |digits| :: '0' <= digits[i] <= '9'
  {
    if digits == "" then 0 else 10 * Value(digits[..|digits| - 1]) + (digits[|digits| - 1] - '0') as nat
  }

  predicate IsPort(port: string) {
    IsAllDigits(port) && |port| <= 5 && port[0] != '0' && Value(port) <= MAX_PORT && Value(port) != HTTPS_PORT
  }

  // The labels between the dots.
  function Labels(name: string): (labels: seq<string>)
    ensures labels != []
    decreases |name|
  {
    var dot := Find(name, '.', 0);
    if dot == |name| then [name] else [name[..dot]] + Labels(name[dot + 1..])
  }

  predicate EndsInNumber(labels: seq<string>)
    requires labels != []
  {
    IsAllDigits(labels[|labels| - 1]) || IsHexNumber(labels[|labels| - 1])
  }

  predicate IsValid(host: string) {
    var colon := Find(host, ':', 0);
    var labels := Labels(host[..colon]);
    && 0 < |host| <= MAX_CHARS && (colon < |host| ==> IsPort(host[colon + 1..]))
    && AllLabels(labels) && |labels| >= 2 && !EndsInNumber(labels)
  }

  lemma FirstLabel(name: string, dot: nat)
    requires dot == Find(name, '.', 0)
    ensures Labels(name) == if dot == |name| then [name] else [name[..dot]] + Labels(name[dot + 1..])
  {
  }

  lemma LabelsFrom(name: string, start: nat)
    requires start <= |name|
    ensures var dot := Find(name, '.', start);
            Labels(name[start..])
            == if dot == |name| then [name[start..dot]] else [name[start..dot]] + Labels(name[dot + 1..])
  {
    hide Find, Labels;
    var dot, rest := Find(name, '.', start), name[start..];
    FindInRest(name, '.', start);
    FirstLabel(rest, dot - start);
    if dot < |name| {
      assert rest[..dot - start] == name[start..dot] && rest[dot - start + 1..] == name[dot + 1..];
    } else {
      assert rest == name[start..dot];
    }
  }

  // Past its first `read` labels, all of them labels, a name has the rest: as many more, ending in the same one.
  predicate SameLabels(labels: seq<string>, read: nat, rest: seq<string>)
    requires labels != [] && rest != []
  {
    |labels| == read + |rest| && labels[|labels| - 1] == rest[|rest| - 1] && (AllLabels(labels) <==> AllLabels(rest))
  }

  lemma FirstIsLabel(first: string, rest: seq<string>)
    ensures AllLabels([first] + rest) <==> IsLabel(first) && AllLabels(rest)
  {
    hide IsLabel;
    var labels := [first] + rest;
    assert labels[0] == first && forall i | 0 <= i < |rest| :: labels[i + 1] == rest[i];
  }

  lemma OneIsLabel(first: string)
    ensures AllLabels([first]) <==> IsLabel(first)
  {
    hide IsLabel;
    assert [first][0] == first;
  }

  lemma OneLabel(name: string, start: nat, read: nat)
    requires start <= |name| && SameLabels(Labels(name), read, Labels(name[start..]))
    ensures var dot := Find(name, '.', start);
            if dot == |name| then
              |Labels(name)| == read + 1 && Labels(name)[read] == name[start..dot]
              && (AllLabels(Labels(name)) <==> IsLabel(name[start..dot]))
            else if IsLabel(name[start..dot]) then SameLabels(Labels(name), read + 1, Labels(name[dot + 1..]))
            else !AllLabels(Labels(name))
  {
    hide Find, Labels, IsLabel, AllLabels;
    LabelsFrom(name, start);
    var dot := Find(name, '.', start);
    if dot == |name| {
      OneIsLabel(name[start..dot]);
    } else {
      FirstIsLabel(name[start..dot], Labels(name[dot + 1..]));
    }
  }

  method IsValidApiHost(host: string) returns (valid: bool)
    ensures valid <==> IsValid(host)
  {
    hide Find, Labels, IsLabel, AllLabels, IsPort, IsAllDigits, IsHexNumber;
    if host == "" || |host| > MAX_CHARS {
      return false;
    }
    var colon := Find(host, ':', 0);
    if colon < |host| && !IsPort(host[colon + 1..]) {
      return false;
    }
    var name := host[..colon];
    var labels, last, start := 0, "", 0;
    assert name[0..] == name;
    while true
      invariant 0 <= start <= |name| && SameLabels(Labels(name), labels, Labels(name[start..]))
      decreases |name| - start
    {
      var dot := Find(name, '.', start);
      last := name[start..dot];
      OneLabel(name, start, labels);
      if !IsLabel(last) {
        return false;
      }
      labels := labels + 1;
      if dot == |name| {
        break;
      }
      start := dot + 1;
    }
    return labels >= 2 && !IsAllDigits(last) && !IsHexNumber(last);
  }

  // ---- the grammar ----

  function Join(labels: seq<string>): string
    requires labels != []
  {
    if |labels| == 1 then labels[0] else labels[0] + "." + Join(labels[1..])
  }

  function Host(labels: seq<string>, port: Option<nat>): string
    requires labels != []
  {
    Join(labels) + if port.Some? then ":" + Decimal(port.value) else ""
  }

  predicate IsDigit(c: char) {
    c in {'0', '1', '2', '3', '4', '5', '6', '7', '8', '9'}
  }

  predicate IsHexDigit(c: char) {
    IsDigit(c) || c in {'a', 'b', 'c', 'd', 'e', 'f'}
  }

  predicate IsNameChar(c: char) {
    IsDigit(c) || c in {'a', 'b', 'c', 'd', 'e', 'f', 'g', 'h', 'i', 'j', 'k', 'l', 'm',
                        'n', 'o', 'p', 'q', 'r', 's', 't', 'u', 'v', 'w', 'x', 'y', 'z'}
  }

  // A letter or a digit, and if there is more, up to 61 of those and hyphens before another letter or digit.
  ghost predicate WritesLabel(text: string) {
    exists first, middle, last ::
      && IsNameChar(first) && IsNameChar(last)
      && |middle| <= 61 && (forall c | c in middle :: IsNameChar(c) || c == '-')
      && (text == [first] || text == [first] + middle + [last])
  }

  // Digits, or 0x and hex digits.
  ghost predicate WritesNumber(text: string) {
    || (text != "" && forall c | c in text :: IsDigit(c))
    || exists hex :: text == "0x" + hex && forall c | c in hex :: IsHexDigit(c)
  }

  // At least two labels, the last one no number; a port from 1 to 65535 that is not https' own.
  ghost predicate Allowed(labels: seq<string>, port: Option<nat>) {
    && |labels| >= 2 && (forall i | 0 <= i < |labels| :: WritesLabel(labels[i])) && !WritesNumber(labels[|labels| - 1])
    && (port.Some? ==> 1 <= port.value <= 65535 && port.value != 443)
  }

  ghost predicate IsApiHost(host: string) {
    |host| <= 200 && exists labels: seq<string>, port :: Allowed(labels, port) && host == Host(labels, port)
  }

  // ---- labels and numbers ----

  lemma NameChars(c: char)
    ensures IsNameChar(c) <==> IsLowerOrDigit(c)
    ensures IsDigit(c) <==> '0' <= c <= '9'
    ensures IsHexDigit(c) <==> '0' <= c <= '9' || 'a' <= c <= 'f'
  {
  }

  // The label test accepts exactly the grammar's labels.
  lemma LabelExactly(text: string)
    ensures IsLabel(text) <==> WritesLabel(text)
  {
    hide WritesLabel, IsLabel;
    if IsLabel(text) {
      LabelIsWritten(text);
    }
    if WritesLabel(text) {
      WrittenIsLabel(text);
    }
  }

  lemma LabelIsWritten(text: string)
    requires IsLabel(text)
    ensures WritesLabel(text)
  {
    hide IsNameChar, IsLowerOrDigit;
    var last := |text| - 1;
    forall i | 0 <= i < |text| ensures IsNameChar(text[i]) <==> IsLowerOrDigit(text[i]) {
      NameChars(text[i]);
    }
    if last == 0 {
      var none: string := [];
      assert text == [text[0]] && forall c | c in none :: IsNameChar(c) || c == '-';
    } else {
      var middle := text[1..last];
      assert text == [text[0]] + middle + [text[last]];
      assert forall c | c in middle :: IsNameChar(c) || c == '-';
    }
  }

  lemma WrittenIsLabel(text: string)
    requires WritesLabel(text)
    ensures IsLabel(text)
  {
    hide IsNameChar, IsLowerOrDigit;
    var first, middle, last :|
      && IsNameChar(first) && IsNameChar(last)
      && |middle| <= 61 && (forall c | c in middle :: IsNameChar(c) || c == '-')
      && (text == [first] || text == [first] + middle + [last]);
    NameChars(first);
    NameChars(last);
    forall i | 0 <= i < |text| ensures IsLowerOrDigit(text[i]) || text[i] == '-' {
      NameChars(text[i]);
      assert 0 < i < |text| - 1 ==> text[i] == middle[i - 1] && middle[i - 1] in middle;
    }
  }

  lemma DigitsExactly(text: string)
    ensures IsAllDigits(text) <==> text != "" && forall c | c in text :: IsDigit(c)
  {
    forall c ensures IsDigit(c) <==> '0' <= c <= '9' {
      NameChars(c);
    }
    hide IsDigit;
    assert forall i | 0 <= i < |text| :: text[i] in text;
  }

  lemma HexExactly(text: string)
    ensures IsHexNumber(text) <==> exists hex :: text == "0x" + hex && forall c | c in hex :: IsHexDigit(c)
  {
    forall c ensures IsHexDigit(c) <==> '0' <= c <= '9' || 'a' <= c <= 'f' {
      NameChars(c);
    }
    hide IsHexDigit;
    if IsHexNumber(text) {
      var hex := text[2..];
      assert text == "0x" + hex && forall c | c in hex :: IsHexDigit(c);
    }
    forall hex | text == "0x" + hex && forall c | c in hex :: IsHexDigit(c) ensures IsHexNumber(text) {
      assert forall i | 2 <= i < |text| :: text[i] == hex[i - 2] && hex[i - 2] in hex;
    }
  }

  lemma NumberExactly(labels: seq<string>)
    requires labels != []
    ensures EndsInNumber(labels) <==> WritesNumber(labels[|labels| - 1])
  {
    hide IsAllDigits, IsHexNumber, IsDigit, IsHexDigit;
    DigitsExactly(labels[|labels| - 1]);
    HexExactly(labels[|labels| - 1]);
  }

  lemma LabelsExactly(labels: seq<string>)
    ensures AllLabels(labels) <==> forall i | 0 <= i < |labels| :: WritesLabel(labels[i])
  {
    hide IsLabel, WritesLabel;
    forall i | 0 <= i < |labels| ensures IsLabel(labels[i]) <==> WritesLabel(labels[i]) {
      LabelExactly(labels[i]);
    }
  }

  // ---- ports ----

  lemma ValueAppend(front: string, c: char)
    requires (front == "" || IsAllDigits(front)) && '0' <= c <= '9'
    ensures Value(front + [c]) == 10 * Value(front) + (c - '0') as nat
  {
    assert (front + [c])[..|front|] == front;
  }

  lemma DecimalAppend(v: nat, d: nat)
    requires v > 0 && d < 10
    ensures Decimal(10 * v + d) == Decimal(v) + ['0' + d as char]
  {
  }

  lemma {:induction false} DecimalOfValue(port: string)
    requires IsAllDigits(port) && (port[0] != '0' || |port| == 1)
    ensures Decimal(Value(port)) == port && (port[0] != '0' ==> Value(port) > 0)
  {
    hide Value, Decimal;
    var last := |port| - 1;
    var front, c := port[..last], port[last];
    assert port == front + [c];
    ValueAppend(front, c);
    if last > 0 {
      DecimalOfValue(front);
      DecimalAppend(Value(front), (c - '0') as nat);
    } else {
      OneDigit(c);
    }
  }

  lemma OneDigit(c: char)
    requires '0' <= c <= '9'
    ensures Value("") == 0 && Decimal((c - '0') as nat) == [c]
  {
  }

  lemma {:induction false} ValueOfDecimal(n: nat)
    ensures IsAllDigits(Decimal(n)) && Value(Decimal(n)) == n && (n > 0 ==> Decimal(n)[0] != '0')
  {
    if n >= 10 {
      ValueOfDecimal(n / 10);
      assert Decimal(n)[..|Decimal(n)| - 1] == Decimal(n / 10);
    }
  }

  lemma DecimalIsShort(n: nat)
    requires n <= MAX_PORT
    ensures |Decimal(n)| <= 5
  {
    var a, b, c, d := n / 10, n / 100, n / 1000, n / 10000;
    assert d < 10 && b == a / 10 && c == b / 10 && d == c / 10;
    assert |Decimal(d)| == 1 && |Decimal(c)| <= 2 && |Decimal(b)| <= 3 && |Decimal(a)| <= 4;
  }

  lemma PortExactly(port: string)
    ensures IsPort(port) <==> exists n: nat :: 1 <= n <= MAX_PORT && n != HTTPS_PORT && port == Decimal(n)
  {
    if IsPort(port) {
      DecimalOfValue(port);
    }
    forall n: nat | 1 <= n <= MAX_PORT && n != HTTPS_PORT && port == Decimal(n) ensures IsPort(port) {
      ValueOfDecimal(n);
      DecimalIsShort(n);
    }
  }

  // ---- labels ----

  lemma FirstOfJoined(labels: seq<string>)
    requires labels != [] && '.' !in labels[0]
    ensures var name, first := Join(labels), |labels[0]|;
            && first <= |name| && Find(name, '.', 0) == first && name[..first] == labels[0]
            && if |labels| > 1 then first < |name| && name[first + 1..] == Join(labels[1..]) else name == labels[0]
  {
    hide Find;
    var name := Join(labels);
    assert forall i | 0 <= i < |labels[0]| :: name[i] == labels[0][i];
    assert |labels| > 1 ==> name[|labels[0]|] == '.';
  }

  lemma {:induction false} LabelsOfJoined(labels: seq<string>)
    requires labels != [] && forall i | 0 <= i < |labels| :: '.' !in labels[i]
    ensures Labels(Join(labels)) == labels
  {
    hide Find, Join, Labels;
    FirstOfJoined(labels);
    FirstLabel(Join(labels), |labels[0]|);
    if |labels| > 1 {
      LabelsOfJoined(labels[1..]);
      assert labels == [labels[0]] + labels[1..];
    } else {
      assert labels == [labels[0]];
    }
  }

  lemma {:induction false} JoinedLabels(name: string)
    ensures Join(Labels(name)) == name
    decreases |name|
  {
    hide Find;
    var dot := Find(name, '.', 0);
    if dot < |name| {
      JoinedLabels(name[dot + 1..]);
      assert Labels(name)[1..] == Labels(name[dot + 1..]);
      assert name == name[..dot] + "." + name[dot + 1..];
    }
  }

  lemma {:induction false} JoinHasNoColon(labels: seq<string>)
    requires labels != [] && AllLabels(labels)
    ensures ':' !in Join(labels) && Join(labels) != ""
  {
    if |labels| > 1 {
      JoinHasNoColon(labels[1..]);
    }
  }

  // The scanner accepts exactly the grammar's hosts.
  lemma ValidExactly(host: string)
    ensures IsValid(host) <==> IsApiHost(host)
  {
    if IsValid(host) {
      ValidIsWritten(host);
    }
    if IsApiHost(host) {
      var labels: seq<string>, port :| Allowed(labels, port) && host == Host(labels, port);
      WrittenIsValid(labels, port);
    }
  }

  lemma ValidIsWritten(host: string)
    requires IsValid(host)
    ensures IsApiHost(host)
  {
    hide Find, Labels, IsLabel, IsAllDigits, IsHexNumber, IsPort, Decimal, WritesLabel, WritesNumber, AllLabels;
    hide EndsInNumber;
    var colon := Find(host, ':', 0);
    var labels := Labels(host[..colon]);
    LabelsExactly(labels);
    NumberExactly(labels);
    JoinedLabels(host[..colon]);
    if colon == |host| {
      assert host == host[..colon] == Host(labels, None);
    } else {
      PortExactly(host[colon + 1..]);
      var n: nat :| 1 <= n <= MAX_PORT && n != HTTPS_PORT && host[colon + 1..] == Decimal(n);
      WithPort(host, colon, labels, n);
    }
  }

  lemma WithPort(host: string, colon: nat, labels: seq<string>, n: nat)
    requires labels != [] && colon < |host| && host[colon] == ':'
    requires host[..colon] == Join(labels) && host[colon + 1..] == Decimal(n)
    ensures host == Host(labels, Some(n))
  {
    hide Join, Decimal;
    assert host == host[..colon] + ([':'] + host[colon + 1..]);
  }

  lemma WrittenIsValid(labels: seq<string>, port: Option<nat>)
    requires Allowed(labels, port) && |Host(labels, port)| <= MAX_CHARS
    ensures IsValid(Host(labels, port))
  {
    hide Find, Labels, IsPort, IsAllDigits, IsHexNumber, Decimal, WritesLabel, WritesNumber, EndsInNumber;
    var host, name := Host(labels, port), Join(labels);
    LabelsExactly(labels);
    NumberExactly(labels);
    JoinHasNoColon(labels);
    forall i | 0 <= i < |labels| ensures '.' !in labels[i] {
      assert IsLabel(labels[i]);
    }
    LabelsOfJoined(labels);
    assert forall i | 0 <= i < |name| :: host[i] == name[i] != ':';
    assert port.Some? ==> host[|name|] == ':';
    assert Find(host, ':', 0) == |name| && host[..|name|] == name;
    if port.Some? {
      assert host[|name| + 1..] == Decimal(port.value);
      PortExactly(Decimal(port.value));
    }
  }

  // ---- the host an API url names ----

  const HTTPS := "https://"
  const OWN_PORT := ":443"

  function WithoutSlash(host: string): string {
    if host != "" && host[|host| - 1] == '/' then host[..|host| - 1] else host
  }

  predicate EndsIn(text: string, end: string) {
    |end| <= |text| && text[|text| - |end|..] == end
  }

  // https' own port taken away, when it is the port.
  function WithoutOwnPort(host: string): string {
    if |host| > |OWN_PORT| && EndsIn(host, OWN_PORT) && ':' !in host[..|host| - |OWN_PORT|]
    then host[..|host| - |OWN_PORT|] else host
  }

  // The host after the scheme.
  function Named(host: string): string {
    var name := WithoutOwnPort(WithoutSlash(host));
    if IsValid(name) then name else ""
  }

  function ApiHostOfUrl(apiUrl: string): string {
    var url := Folded(apiUrl);
    if HTTPS <= url then Named(url[|HTTPS|..]) else ""
  }

  // What it names is a host, or nothing.
  lemma NamesAHost(url: string)
    ensures ApiHostOfUrl(url) == "" || IsApiHost(ApiHostOfUrl(url))
  {
    ValidExactly(ApiHostOfUrl(url));
  }

  lemma OwnPortIsNoPort()
    ensures !IsPort("443")
  {
    assert "443"[..2] == "44" && "44"[..1] == "4" && "4"[..0] == "";
    assert Value("4") == 4 && Value("44") == 44 && Value("443") == 443;
  }

  lemma OwnPortIsInvalid(host: string)
    requires EndsIn(host, OWN_PORT)
    ensures !IsValid(host)
  {
    hide Find, Labels, IsLabel, IsHexNumber, Value;
    var colon, last := Find(host, ':', 0), |host| - 4;
    assert host[last] == host[last..][0] == ':';
    var port := host[colon + 1..];
    if colon < last {
      assert port[last - colon - 1] == host[last];
    } else {
      assert port == host[last..][1..] == "443";
      OwnPortIsNoPort();
    }
  }

  // Each character of a host is a small letter, a digit, a hyphen, a dot or a colon.
  predicate IsHostChar(c: char) {
    IsLowerOrDigit(c) || c == '-' || c == '.' || c == ':'
  }

  lemma {:induction false} JoinIsHostChars(labels: seq<string>)
    requires labels != [] && AllLabels(labels)
    ensures forall i | 0 <= i < |Join(labels)| :: IsHostChar(Join(labels)[i])
  {
    if |labels| > 1 {
      JoinIsHostChars(labels[1..]);
    }
    assert IsLabel(labels[0]);
  }

  lemma ValidIsHostChars(host: string)
    requires IsValid(host)
    ensures forall i | 0 <= i < |host| :: IsHostChar(host[i])
  {
    hide Find, Labels, IsLabel, IsHexNumber, Value;
    var colon := Find(host, ':', 0);
    var name, port := host[..colon], if colon < |host| then host[colon + 1..] else "";
    JoinedLabels(name);
    JoinIsHostChars(Labels(name));
    assert host == name + if colon < |host| then ":" + port else "";
  }

  // A url that is https:// and a host names that host.
  lemma NamesItsHost(host: string)
    requires IsApiHost(host)
    ensures ApiHostOfUrl(HTTPS + host) == host
  {
    hide IsValid, EndsIn, IsApiHost;
    ValidExactly(host);
    if EndsIn(host, OWN_PORT) {
      OwnPortIsInvalid(host);
    }
    ValidIsHostChars(host);
    var url := Folded(HTTPS + host);
    assert |HTTPS| == 8 && url[..8] == HTTPS && url[8..] == host;
    NotEmpty(host);
  }

  lemma NotEmpty(host: string)
    requires IsValid(host)
    ensures host != ""
  {
  }

  // Capitals make no difference.
  lemma CaseMakesNoDifference(a: string, b: string)
    requires |a| == |b| && forall i | 0 <= i < |a| :: Lower(a[i]) == Lower(b[i])
    ensures ApiHostOfUrl(a) == ApiHostOfUrl(b)
  {
    hide Named;
    assert Folded(a) == Folded(b);
  }

  lemma SlashIsInvalid(host: string)
    requires host != "" && host[|host| - 1] == '/'
    ensures !IsValid(host) && WithoutOwnPort(host) == host
  {
    hide IsValid, Find;
    if IsValid(host) {
      ValidIsHostChars(host);
    }
    assert |host| >= 4 ==> host[|host| - 4..][3] == '/';
  }

  lemma NothingNamed()
    ensures Named("") == ""
  {
  }

  // ---- every url that names a host ----

  // The folded text of a url that names h: h after https://, with https' own port written out if h has none, and at
  // most one slash after it.
  predicate Spells(text: string, h: string) {
    text == HTTPS + h || (':' !in h && text == HTTPS + h + OWN_PORT) || SlashSpells(text, h)
  }

  // ... of those that end in the slash.
  predicate SlashSpells(text: string, h: string) {
    text == HTTPS + h + "/" || (':' !in h && text == HTTPS + h + OWN_PORT + "/")
  }

  lemma SlashStripped(text: string, bare: string)
    requires bare == "" || bare[|bare| - 1] != '/'
    ensures WithoutSlash(text) == bare <==> text == bare || text == bare + "/"
  {
    assert text != "" ==> text == text[..|text| - 1] + [text[|text| - 1]];
    assert text == bare + "/" ==> text[..|text| - 1] == bare;
  }

  lemma OwnPortStripped(text: string, h: string)
    requires h != "" && !EndsIn(h, OWN_PORT)
    ensures WithoutOwnPort(text) == h <==> text == h || (':' !in h && text == h + OWN_PORT)
  {
    assert |text| > 4 && EndsIn(text, OWN_PORT) ==> text == text[..|text| - 4] + OWN_PORT;
    if text == h + OWN_PORT {
      assert text[..|text| - 4] == h && text[|text| - 4..] == OWN_PORT;
    }
  }

  lemma NamedExactly(rest: string, h: string)
    requires IsValid(h)
    ensures Named(rest) == h <==>
            rest == h || rest == h + "/" || (':' !in h && (rest == h + OWN_PORT || rest == h + OWN_PORT + "/"))
  {
    hide IsValid, EndsIn, WithoutSlash, WithoutOwnPort, IsHostChar;
    NotEmpty(h);
    HostEnds(h);
    OwnPortStripped(WithoutSlash(rest), h);
    SlashStripped(rest, h);
    SlashStripped(rest, h + OWN_PORT);
  }

  // A host ends neither in a slash nor in https' own port.
  lemma HostEnds(h: string)
    requires IsValid(h)
    ensures h != "" && h[|h| - 1] != '/' && !EndsIn(h, OWN_PORT)
  {
    hide IsValid, EndsIn;
    NotEmpty(h);
    ValidIsHostChars(h);
    if EndsIn(h, OWN_PORT) {
      OwnPortIsInvalid(h);
    }
  }

  // Exactly the urls that name a host: those that spell it, in capitals or not.
  lemma NamesExactly(url: string, h: string)
    ensures h != "" && ApiHostOfUrl(url) == h <==> IsApiHost(h) && Spells(Folded(url), h)
  {
    hide IsValid, IsApiHost, Named, Folded;
    ValidExactly(h);
    var text := Folded(url);
    if IsValid(h) {
      NotEmpty(h);
      if HTTPS <= text {
        NamedExactly(text[|HTTPS|..], h);
      }
    } else {
      NamesAHost(url);
    }
  }

  predicate EndsInSlash(text: string) {
    text != "" && text[|text| - 1] == '/'
  }

  // A second slash is one too many.
  lemma SecondSlash(url: string)
    ensures ApiHostOfUrl(url + "/") == if EndsInSlash(Folded(url)) then "" else ApiHostOfUrl(url)
  {
    hide IsValid, WithoutOwnPort;
    var u, v := Folded(url), Folded(url + "/");
    assert v == u + "/" && |HTTPS| == 8;
    NothingNamed();
    if HTTPS <= v {
      if |u| < 8 {
        assert v[8..] == "";
      } else {
        assert HTTPS <= u && v[8..] == u[8..] + "/" && WithoutSlash(v[8..]) == u[8..];
        if |u| > 8 && u[|u| - 1] == '/' {
          SlashIsInvalid(u[8..]);
        }
      }
    }
  }

  lemma SpelledWithSlash(url: string, h: string)
    ensures IsApiHost(h) && SlashSpells(Folded(url), h)
            <==> h != "" && h == ApiHostOfUrl(url) && EndsInSlash(Folded(url))
  {
    hide IsValid, IsApiHost, ApiHostOfUrl, Folded;
    NamesExactly(url, h);
    ValidExactly(h);
    if IsValid(h) {
      HostEnds(h);
    }
  }

  // One slash more makes no difference, exactly unless the url spells a host and has its one slash already.
  lemma {:induction false} TrailingSlashExactly(url: string)
    ensures ApiHostOfUrl(url + "/") == ApiHostOfUrl(url) <==> !exists h :: IsApiHost(h) && SlashSpells(Folded(url), h)
  {
    hide *;
    SecondSlash(url);
    SpelledWithSlash(url, ApiHostOfUrl(url));
    if h :| IsApiHost(h) && SlashSpells(Folded(url), h) {
      SpelledWithSlash(url, h);
    }
  }

  lemma ShortLabels()
    ensures IsLabel("a") && IsLabel("b") && !EndsInNumber(["a", "b"]) && Join(["a", "b"]) == "a.b"
  {
    assert ["a", "b"][1..] == ["b"];
  }

  lemma ShortHost()
    ensures IsApiHost("a.b")
  {
    var labels := ["a", "b"];
    ShortLabels();
    hide WritesLabel, WritesNumber, IsLabel, EndsInNumber, Join;
    LabelExactly("a");
    LabelExactly("b");
    NumberExactly(labels);
    assert forall i | 0 <= i < |labels| :: labels[i] == "a" || labels[i] == "b";
    assert Allowed(labels, None) && Host(labels, None) == "a.b" + "" == "a.b";
  }

  lemma ShortUrls()
    ensures Folded("https://a.b/") == "https://a.b/" && Folded("https://a.b") == "https://a.b"
  {
  }

  // As on https://a.b/, which names a.b with its one slash, and nothing with two.
  lemma TwoSlashesNameNothing()
    ensures ApiHostOfUrl("https://a.b") == ApiHostOfUrl("https://a.b/") == "a.b"
    ensures ApiHostOfUrl("https://a.b//") == ""
  {
    hide ApiHostOfUrl, IsApiHost, Folded;
    ShortHost();
    ShortUrls();
    NamesExactly("https://a.b", "a.b");
    NamesExactly("https://a.b/", "a.b");
    assert SlashSpells(Folded("https://a.b/"), "a.b");
    assert "https://a.b/" + "/" == "https://a.b//";
    SecondSlash("https://a.b/");
    SpelledWithSlash("https://a.b/", "a.b");
  }

  lemma OwnPortDropped(host: string)
    requires ':' !in host
    ensures WithoutOwnPort(host + OWN_PORT) == if host == "" then OWN_PORT else host
    ensures WithoutSlash(host + OWN_PORT) == host + OWN_PORT && WithoutOwnPort(host) == host
  {
    var spelled := host + OWN_PORT;
    assert |OWN_PORT| == 4 && spelled[|host|..] == OWN_PORT && spelled[..|host|] == host;
    assert spelled[|spelled| - 1] == OWN_PORT[3] == '3';
    assert |host| >= 4 ==> host[|host| - 4..][0] in host;
  }

  lemma OwnPortAlone()
    ensures !IsValid(OWN_PORT) && Named(OWN_PORT) == ""
  {
    assert Find(OWN_PORT, ':', 0) == 0 && OWN_PORT[..0] == "" && Labels("") == [""];
  }

  lemma FoldedParts(host: string)
    requires ':' !in host
    ensures var h := Folded(host);
            && ':' !in h && ApiHostOfUrl(HTTPS + host) == Named(h)
            && ApiHostOfUrl(HTTPS + host + OWN_PORT) == Named(h + OWN_PORT)
  {
    hide Named;
    var h := Folded(host);
    assert forall i | 0 <= i < |h| :: h[i] == Lower(host[i]) && host[i] != ':';
    FoldedIsFolded();
    FoldedAppend(HTTPS, host);
    FoldedAppend(HTTPS + host, OWN_PORT);
    assert HTTPS + h + OWN_PORT == HTTPS + (h + OWN_PORT);
  }

  lemma FoldedIsFolded()
    ensures Folded(HTTPS) == HTTPS && Folded(OWN_PORT) == OWN_PORT
  {
  }

  lemma FoldedAppend(a: string, b: string)
    ensures Folded(a + b) == Folded(a) + Folded(b)
  {
  }

  lemma OwnPortSpelled(h: string)
    requires ':' !in h
    ensures Named(h + OWN_PORT) == if EndsInSlash(h) then "" else Named(h)
  {
    hide IsValid, WithoutOwnPort;
    OwnPortDropped(h);
    OwnPortAlone();
    NothingNamed();
    if EndsInSlash(h) {
      SlashIsInvalid(h);
    }
  }

  lemma NamedWithSlash(rest: string, h: string)
    requires ':' !in rest
    ensures IsApiHost(h) && rest == h + "/" <==> h != "" && h == Named(rest) && EndsInSlash(rest)
  {
    hide IsValid, IsApiHost, WithoutSlash, WithoutOwnPort;
    ValidExactly(h);
    if IsValid(h) {
      NamedExactly(rest, h);
      HostEnds(h);
      assert OWN_PORT[0] == ':' && |OWN_PORT| == 4;
    }
  }

  // Spelling out https' own port after a name without a port makes no difference, exactly unless the name is a host
  // with a slash after it there.
  lemma {:induction false} OwnPortExactly(host: string)
    requires ':' !in host
    ensures ApiHostOfUrl(HTTPS + host + OWN_PORT) == ApiHostOfUrl(HTTPS + host)
            <==> !exists h :: IsApiHost(h) && Folded(host) == h + "/"
  {
    hide *;
    FoldedParts(host);
    var h := Folded(host);
    OwnPortSpelled(h);
    NamedWithSlash(h, Named(h));
    if n :| IsApiHost(n) && h == n + "/" {
      NamedWithSlash(h, n);
    }
  }
}
