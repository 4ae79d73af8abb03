// The links the page sends, as their printers write them (app/tools/auth-link-tests.cpp), and the theorem that the
// parser of app/src/App/AuthLink.h accepts exactly those and returns what was printed.
module AuthLinkForms {
  import opened Options
  import opened AuthLink
  import opened Texts

  function Written(p: Pair): string {
    p.key + "=" + p.value
  }

  function Join(pairs: seq<Pair>): string
    requires pairs != []
  {
    if |pairs| == 1 then Written(pairs[0]) else Written(pairs[0]) + "&" + Join(pairs[1..])
  }

  // The link of these pairs, in this order.
  function Print(slash: bool, pairs: seq<Pair>): string
    requires pairs != []
  {
    PREFIX + (if slash then "/" else "") + "?" + Join(pairs)
  }

  predicate WellFormed(p: Pair) {
    p.key != "" && '=' !in p.key && '&' !in p.key && '&' !in p.value
  }

  predicate AllWellFormed(pairs: seq<Pair>) {
    forall i | 0 <= i < |pairs| :: WellFormed(pairs[i])
  }

  // ---- splitting and joining ----

  lemma FirstIs(text: string, c: char, r: nat)
    requires r <= |text| && (r < |text| ==> text[r] == c) && forall i | 0 <= i < r :: text[i] != c
    ensures Find(text, c, 0) == r
  {
    hide Find;
  }

  lemma ReadWritten(p: Pair)
    requires WellFormed(p)
    ensures ReadPair(Written(p)) == Some(p) && '&' !in Written(p)
  {
    hide Find;
    var text := Written(p);
    assert forall i | 0 <= i < |p.key| :: text[i] == p.key[i];
    FirstIs(text, '=', |p.key|);
    assert text[..|p.key|] == p.key && text[|p.key| + 1..] == p.value;
  }

  lemma WrittenRead(part: string)
    requires ReadPair(part).Some? && '&' !in part
    ensures WellFormed(ReadPair(part).value) && Written(ReadPair(part).value) == part
  {
    hide Find;
    var eq := Find(part, '=', 0);
    assert part == part[..eq] + "=" + part[eq + 1..];
  }

  // What is printed is read back.
  lemma {:induction false} SplitJoined(pairs: seq<Pair>, done: nat)
    requires pairs != [] && AllWellFormed(pairs) && done + |pairs| <= MAX_PAIRS
    ensures Split(Join(pairs), done) == Ok(pairs)
    decreases |pairs|
  {
    hide Find, ReadPair, Written, WellFormed;
    var rest, first := Join(pairs), Written(pairs[0]);
    ReadWritten(pairs[0]);
    assert rest[..|first|] == first;
    assert forall i | 0 <= i < |first| :: rest[i] == first[i];
    FirstIs(rest, '&', |first|);
    if |pairs| == 1 {
      assert pairs == [pairs[0]];
    } else {
      assert rest[|first| + 1..] == Join(pairs[1..]);
      SplitJoined(pairs[1..], done + 1);
      assert pairs == [pairs[0]] + pairs[1..];
    }
  }

  // What is read was printed.
  lemma {:induction false} JoinSplit(rest: string, done: nat)
    requires Split(rest, done).Ok?
    ensures var pairs := Split(rest, done).value;
            pairs != [] && AllWellFormed(pairs) && done + |pairs| <= MAX_PAIRS && Join(pairs) == rest
    decreases |rest|
  {
    hide Find, ReadPair, Written, WellFormed;
    var amp := Find(rest, '&', 0);
    var part, pairs := rest[..amp], Split(rest, done).value;
    assert '&' !in part;
    WrittenRead(part);
    if amp < |rest| {
      var more := Split(rest[amp + 1..], done + 1).value;
      JoinSplit(rest[amp + 1..], done + 1);
      assert pairs[1..] == more;
      assert rest == part + "&" + rest[amp + 1..];
    } else {
      assert rest == part;
    }
  }

  // ---- the fields ----

  lemma KeysDiffer(a: Key, b: Key)
    requires KeyText(a) == KeyText(b)
    ensures a == b
  {
    assert |KeyText(StateKey)| == 5 && KeyText(StateKey)[0] == 's' && KeyText(ErrorKey)[0] == 'e';
  }

  lemma KeyOfText(key: Key)
    ensures KeyOf(KeyText(key)) == Some(key)
  {
    hide KeyText, KeyOf;
    assert KeyOf(KeyText(key)).Some?;
    KeysDiffer(KeyOf(KeyText(key)).value, key);
  }

  function One(f: Fields, key: Key): multiset<Pair> {
    var value := Get(f, key);
    if value.Some? then multiset{Pair(KeyText(key), value.value)} else multiset{}
  }

  // The pairs that set these fields, in no order.
  function PairsOf(f: Fields): multiset<Pair> {
    One(f, StateKey) + One(f, EpkKey) + One(f, NonceKey) + One(f, DataKey) + One(f, ErrorKey)
  }

  predicate Fit(pairs: seq<Pair>) {
    forall i | 0 <= i < |pairs| :: |pairs[i].value| <= MAX_VALUE
  }

  lemma OneGains(f: Fields, key: Key, value: string)
    requires Get(f, key).None?
    ensures var g, x := With(f, key, Some(value)), multiset{Pair(KeyText(key), value)};
            forall k :: One(g, k) == if k == key then One(f, k) + x else One(f, k)
  {
    hide KeyText;
  }

  // Setting a field adds its pair.
  lemma WithAddsPair(f: Fields, key: Key, value: string)
    requires Get(f, key).None?
    ensures PairsOf(With(f, key, Some(value))) == PairsOf(f) + multiset{Pair(KeyText(key), value)}
  {
    hide KeyText, One, Get, With;
    var x := multiset{Pair(KeyText(key), value)};
    OneGains(f, key, value);
  }

  lemma {:induction false} AssignedPairs(pairs: seq<Pair>)
    requires Assign(pairs).Ok?
    ensures multiset(pairs) == PairsOf(Assign(pairs).value) && Fit(pairs)
  {
    hide KeyText, KeyOf, With, Get, PairsOf;
    if pairs == [] {
      assert PairsOf(NO_FIELDS) == multiset{} by { NoPairs(); }
    } else {
      var last := |pairs| - 1;
      assert pairs == pairs[..last] + [pairs[last]];
      AssignedPairs(pairs[..last]);
      WithAddsPair(Assign(pairs[..last]).value, KeyOf(pairs[last].key).value, pairs[last].value);
    }
  }

  lemma NoPairs()
    ensures PairsOf(NO_FIELDS) == multiset{}
  {
  }

  // One of the pairs of a set of fields, and the fields without it.
  lemma WithoutPair(f: Fields, p: Pair) returns (key: Key, less: Fields)
    requires p in PairsOf(f)
    ensures p.key == KeyText(key) && Get(less, key).None? && With(less, key, Some(p.value)) == f
    ensures PairsOf(f) == PairsOf(less) + multiset{p}
  {
    hide KeyText;
    key := if p in One(f, StateKey) then StateKey else if p in One(f, EpkKey) then EpkKey
           else if p in One(f, NonceKey) then NonceKey else if p in One(f, DataKey) then DataKey else ErrorKey;
    assert p in One(f, key);
    less := With(f, key, None);
    WithAddsPair(less, key, p.value);
  }

  // Any order of the pairs sets the fields.
  lemma {:induction false} AssignsAnyOrder(pairs: seq<Pair>, f: Fields)
    requires multiset(pairs) == PairsOf(f) && Fit(pairs)
    ensures Assign(pairs) == Ok(f)
  {
    hide KeyText, KeyOf, With, Get, PairsOf;
    if pairs == [] {
      NoPairsNoFields(f);
    } else {
      var last := |pairs| - 1;
      var p := pairs[last];
      assert pairs == pairs[..last] + [p];
      assert multiset(pairs) == multiset(pairs[..last]) + multiset{p} && p in multiset(pairs);
      var key, less := WithoutPair(f, p);
      KeyOfText(key);
      assert multiset(pairs[..last]) == multiset(pairs) - multiset{p};
      AssignsAnyOrder(pairs[..last], less);
    }
  }

  lemma NoPairsNoFields(f: Fields)
    requires PairsOf(f) == multiset{}
    ensures f == NO_FIELDS
  {
    hide KeyText;
    forall key ensures Get(f, key).None? {
      assert One(f, key) <= PairsOf(f);
      assert Get(f, key).Some? ==> |One(f, key)| == 1;
    }
    assert f.state == Get(f, StateKey) && f.epk == Get(f, EpkKey) && f.nonce == Get(f, NonceKey);
    assert f.data == Get(f, DataKey) && f.error == Get(f, ErrorKey);
  }

  // ---- the query of a printed link ----

  predicate IsClean(c: char) {
    !IsControl(c) && c != '%' && c != '#' && c != '?'
  }

  predicate AllClean(text: string) {
    forall i | 0 <= i < |text| :: IsClean(text[i])
  }

  // A link whose pairs are clean is its pairs after the prefix, an optional '/' and the '?'.
  lemma QueryOfPrinted(url: string, slash: bool, query: string)
    requires |url| <= MAX_URL && url == PREFIX + (if slash then "/" else "") + "?" + query && AllClean(query)
    ensures Query(url) == Ok(query)
  {
    var head := PREFIX + (if slash then "/" else "") + "?";
    assert |PREFIX| == 16 && url == head + query && AllClean(PREFIX);
    forall i | 0 <= i < |url| ensures !IsControl(url[i]) && url[i] != '%' {
      if i >= |head| {
        assert url[i] == query[i - |head|] && IsClean(query[i - |head|]);
      } else if i < 16 {
        assert url[i] == PREFIX[i];
      }
    }
    var after := url[16..];
    assert after == (if slash then "/" else "") + "?" + query;
    var rest := if slash then after[1..] else after;
    assert rest == "?" + query && rest[1..] == query;
    assert '#' !in query && '?' !in query by {
      assert forall i | 0 <= i < |query| :: IsClean(query[i]);
    }
  }

  lemma PrintedOfQuery(url: string) returns (slash: bool)
    requires Query(url).Ok?
    ensures |url| <= MAX_URL && url == PREFIX + (if slash then "/" else "") + "?" + Query(url).value
  {
    hide HasControl, AfterHost;
    slash := AfterHostReads(url[|PREFIX|..]);
    assert url == PREFIX + url[|PREFIX|..];
  }

  lemma AfterHostReads(after: string) returns (slash: bool)
    requires AfterHost(after).Ok?
    ensures after == (if slash then "/" else "") + "?" + AfterHost(after).value
  {
    slash := after != "" && after[0] == '/';
    var rest := if slash then after[1..] else after;
    assert after == (if slash then "/" else "") + rest && rest == "?" + rest[1..];
  }

  lemma {:induction false} JoinIsClean(pairs: seq<Pair>)
    requires pairs != [] && forall i | 0 <= i < |pairs| :: AllClean(pairs[i].key) && AllClean(pairs[i].value)
    ensures AllClean(Join(pairs))
  {
    assert AllClean(Written(pairs[0]));
    if |pairs| > 1 {
      JoinIsClean(pairs[1..]);
    }
  }

  // ---- the theorem ----

  // Every value of these fields fits, and no character of it has a meaning in a link.
  ghost predicate Printable(f: Fields) {
    forall key | Get(f, key).Some? ::
      var value := Get(f, key).value; |value| <= MAX_VALUE && AllClean(value) && '&' !in value
  }

  // The link of these fields' pairs in some order.
  ghost predicate IsPrinted(url: string, f: Fields) {
    exists slash, pairs :: multiset(pairs) == PairsOf(f) && pairs != [] && url == Print(slash, pairs)
  }

  lemma KeysArePlain(key: Key)
    ensures AllClean(KeyText(key)) && KeyText(key) != "" && '=' !in KeyText(key) && '&' !in KeyText(key)
  {
  }

  lemma PairsArePlain(pairs: seq<Pair>, f: Fields)
    requires multiset(pairs) == PairsOf(f) && Printable(f)
    ensures AllWellFormed(pairs) && Fit(pairs) && |pairs| <= 5
    ensures forall i | 0 <= i < |pairs| :: AllClean(pairs[i].key) && AllClean(pairs[i].value)
  {
    hide KeyText, PairsOf, AllClean;
    assert |multiset(pairs)| == |pairs| && |PairsOf(f)| <= 5 by { AtMostFive(f); }
    forall i | 0 <= i < |pairs|
      ensures WellFormed(pairs[i]) && |pairs[i].value| <= MAX_VALUE
      ensures AllClean(pairs[i].key) && AllClean(pairs[i].value)
    {
      assert pairs[i] in multiset(pairs);
      var key, less := WithoutPair(f, pairs[i]);
      assert Get(f, key) == Some(pairs[i].value);
      KeysArePlain(key);
    }
  }

  lemma AtMostFive(f: Fields)
    ensures |PairsOf(f)| <= 5
  {
    hide KeyText;
    assert forall key :: |One(f, key)| <= 1;
  }

  // The parser reads a link's fields exactly when it is a printing of them.
  lemma FieldsExactly(url: string, f: Fields)
    requires Printable(f) && |url| <= MAX_URL
    ensures IsPrinted(url, f) <==>
            Query(url).Ok? && Split(Query(url).value, 0).Ok? && Assign(Split(Query(url).value, 0).value) == Ok(f)
            && Split(Query(url).value, 0).value != []
  {
    hide PairsOf, Printable, Query, Split, Assign, Join;
    if IsPrinted(url, f) {
      var slash, pairs :| multiset(pairs) == PairsOf(f) && pairs != [] && url == Print(slash, pairs);
      PairsArePlain(pairs, f);
      JoinIsClean(pairs);
      QueryOfPrinted(url, slash, Join(pairs));
      SplitJoined(pairs, 0);
      AssignsAnyOrder(pairs, f);
    }
    if Query(url).Ok? && Split(Query(url).value, 0).Ok? && Assign(Split(Query(url).value, 0).value) == Ok(f) {
      var pairs := Split(Query(url).value, 0).value;
      var slash := PrintedOfQuery(url);
      JoinSplit(Query(url).value, 0);
      AssignedPairs(pairs);
      assert url == Print(slash, pairs);
    }
  }

  function SealedFields(state: string, epk: string, nonce: string, data: string): Fields {
    Fields(Some(state), Some(epk), Some(nonce), Some(data), None)
  }

  function DeniedFields(state: string): Fields {
    Fields(Some(state), None, None, None, Some(DENIED_VALUE))
  }

  // The links the page sends for an approved sign-in: the four pairs in some order, with values in their alphabets
  // and lengths.
  ghost predicate IsSealedLink(url: string, state: string, epk: string, nonce: string, data: string) {
    && |url| <= MAX_URL && IsState(state) && IsBase58(epk, 64) && IsBase58(nonce, 64) && IsBase58(data, MAX_VALUE)
    && IsPrinted(url, SealedFields(state, epk, nonce, data))
  }

  // ...and for a cancelled one.
  ghost predicate IsDeniedLink(url: string, state: string) {
    |url| <= MAX_URL && IsState(state) && IsPrinted(url, DeniedFields(state))
  }

  lemma SealedIsPrintable(state: string, epk: string, nonce: string, data: string)
    requires IsState(state) && IsBase58(epk, 64) && IsBase58(nonce, 64) && IsBase58(data, MAX_VALUE)
    ensures Printable(SealedFields(state, epk, nonce, data))
  {
  }

  lemma DeniedIsPrintable(state: string)
    requires IsState(state)
    ensures Printable(DeniedFields(state))
  {
    assert |DENIED_VALUE| == 13 && AllClean(DENIED_VALUE) && '&' !in DENIED_VALUE;
  }

  lemma ParsedByFields(url: string)
    requires Parsed(url).kind != Invalid
    ensures |url| <= MAX_URL && Query(url).Ok? && Split(Query(url).value, 0).Ok?
    ensures var fields := Assign(Split(Query(url).value, 0).value); fields.Ok? && Judge(fields.value) == Parsed(url)
    ensures Split(Query(url).value, 0).value != []
  {
    hide Split, Assign, Join;
    var slash := PrintedOfQuery(url);
    JoinSplit(Query(url).value, 0);
  }

  // The parser answers Sealed for exactly the links of an approved sign-in, and returns the values printed.
  lemma SealedExactly(url: string, state: string, epk: string, nonce: string, data: string)
    ensures Parsed(url) == Return(Sealed, NoReject, state, epk, nonce, data)
            <==> IsSealedLink(url, state, epk, nonce, data)
  {
    hide Query, Split, Assign, IsPrinted, Printable, IsState, IsBase58;
    if Parsed(url) == Return(Sealed, NoReject, state, epk, nonce, data) {
      ParsedByFields(url);
      SealedIsPrintable(state, epk, nonce, data);
      FieldsExactly(url, SealedFields(state, epk, nonce, data));
    }
    if IsSealedLink(url, state, epk, nonce, data) {
      SealedIsPrintable(state, epk, nonce, data);
      FieldsExactly(url, SealedFields(state, epk, nonce, data));
    }
  }

  // The same for a cancelled one.
  lemma DeniedExactly(url: string, state: string)
    ensures Parsed(url) == Return(Denied, NoReject, state, "", "", "") <==> IsDeniedLink(url, state)
  {
    hide Query, Split, Assign, IsPrinted, Printable, IsState, IsBase58;
    if Parsed(url) == Return(Denied, NoReject, state, "", "", "") {
      ParsedByFields(url);
      DeniedIsPrintable(state);
      FieldsExactly(url, DeniedFields(state));
    }
    if IsDeniedLink(url, state) {
      DeniedIsPrintable(state);
      FieldsExactly(url, DeniedFields(state));
    }
  }

  // Everything else is Invalid, with a reason and no value; a denied link returns only its state.
  lemma RejectedCarriesNothing(url: string)
    ensures var r := Parsed(url);
            && (r.kind == Invalid <==> r.reject != NoReject)
            && (r.kind == Invalid ==> r.state == r.epk == r.nonce == r.data == "")
            && (r.kind == Denied ==> r.epk == r.nonce == r.data == "")
  {
    hide Query, Split, Assign;
    QueryReasons(url);
    if Query(url).Ok? {
      SplitReasons(Query(url).value, 0);
      if Split(Query(url).value, 0).Ok? {
        AssignReasons(Split(Query(url).value, 0).value);
      }
    }
  }

  lemma QueryReasons(url: string)
    ensures Query(url).Failed? ==> Query(url).reject != NoReject
  {
  }

  lemma {:induction false} SplitReasons(rest: string, done: nat)
    ensures Split(rest, done).Failed? ==> Split(rest, done).reject in {EmptyPair, TooLong}
    decreases |rest|
  {
    hide Find, ReadPair;
    var amp := Find(rest, '&', 0);
    if amp < |rest| {
      SplitReasons(rest[amp + 1..], done + 1);
    }
  }

  lemma {:induction false} AssignReasons(pairs: seq<Pair>)
    ensures Assign(pairs).Failed? ==> Assign(pairs).reject in {UnknownKey, Duplicate, TooLong}
  {
    if pairs != [] {
      AssignReasons(pairs[..|pairs| - 1]);
    }
  }

  // ---- the alphabets ----

  // Bitcoin's base58, and base64 for urls, spelt out.
  predicate InBase58(c: char) {
    || c in {'1', '2', '3', '4', '5', '6', '7', '8', '9'}
    || c in {'A', 'B', 'C', 'D', 'E', 'F', 'G', 'H', 'J', 'K', 'L', 'M'}
    || c in {'N', 'P', 'Q', 'R', 'S', 'T', 'U', 'V', 'W', 'X', 'Y', 'Z'}
    || c in {'a', 'b', 'c', 'd', 'e', 'f', 'g', 'h', 'i', 'j', 'k'}
    || c in {'m', 'n', 'o', 'p', 'q', 'r', 's', 't', 'u', 'v', 'w', 'x', 'y', 'z'}
  }

  predicate InBase64Url(c: char) {
    InBase58(c) || c in {'0', 'O', 'I', 'l', '-', '_'}
  }

  lemma AlphabetsExactly(c: char)
    ensures IsBase58Char(c) <==> InBase58(c)
    ensures IsBase64UrlChar(c) <==> InBase64Url(c)
  {
  }

  // ---- why a link is refused ----

  // Short enough, and every character a visible one of ASCII and no '%'.
  predicate Legible(url: string) {
    |url| <= 4096 && forall i | 0 <= i < |url| :: '!' <= url[i] <= '~' && url[i] != '%'
  }

  function Slash(slash: bool): string {
    if slash then "/" else ""
  }

  // Before its query a link is refused for its length, then a character no link holds, then another host, then an
  // escape.
  lemma ReasonBeforeHost(url: string)
    ensures |url| > 4096 ==> Parsed(url) == Fail(TooLong)
    ensures |url| <= 4096 && (exists c | c in url :: !('!' <= c <= '~')) ==> Parsed(url) == Fail(Control)
    ensures |url| <= 4096 && (forall c | c in url :: '!' <= c <= '~') && !("urnetwork://auth" <= url) ==>
              Parsed(url) == Fail(NotAuthHost)
    ensures |url| <= 4096 && (forall c | c in url :: '!' <= c <= '~') && "urnetwork://auth" <= url && '%' in url ==>
              Parsed(url) == Fail(UnexpectedEscape)
  {
    hide AfterHost, Split, Assign, Judge;
    assert (forall c | c in url :: '!' <= c <= '~') <==> !HasControl(url) by {
      assert forall i | 0 <= i < |url| :: url[i] in url;
    }
  }

  lemma LegibleReads(tail: string)
    requires Legible(PREFIX + tail)
    ensures Query(PREFIX + tail) == AfterHost(tail)
  {
    hide AfterHost;
    var url := PREFIX + tail;
    assert !HasControl(url) && '%' !in url && url[|PREFIX|..] == tail;
  }

  // After the host and at most one slash: nothing is an empty pair, a '#' or a second '?' a delimiter, more after the
  // slash a path, a port or a user an authority, and anything else another host.
  lemma ReasonAtHost(slash: bool, tail: string)
    requires Legible(PREFIX + (Slash(slash) + tail)) && (!slash ==> tail == "" || tail[0] != '/')
    ensures var r := Parsed(PREFIX + (Slash(slash) + tail));
            && (tail == "" ==> r == Fail(EmptyPair))
            && (tail != "" && tail[0] == '#' ==> r == Fail(Delimiter))
            && (tail != "" && tail[0] == '?' && ('#' in tail[1..] || '?' in tail[1..]) ==> r == Fail(Delimiter))
            && (tail != "" && tail[0] != '?' && tail[0] != '#' && slash ==> r == Fail(Path))
            && (tail != "" && !slash && (tail[0] == ':' || tail[0] == '@') ==> r == Fail(Authority))
            && (tail != "" && !slash && tail[0] !in {'?', '#', ':', '@'} ==> r == Fail(NotAuthHost))
  {
    hide Split, Assign, Judge, Query;
    LegibleReads(Slash(slash) + tail);
    assert slash ==> (Slash(slash) + tail)[1..] == tail;
    assert !slash ==> Slash(slash) + tail == tail;
  }

  lemma QueryIs(slash: bool, query: string)
    requires Legible(PREFIX + (Slash(slash) + "?" + query)) && '#' !in query && '?' !in query
    ensures Query(PREFIX + (Slash(slash) + "?" + query)) == Ok(query)
  {
    hide Query;
    var tail := Slash(slash) + "?" + query;
    LegibleReads(tail);
    assert ("?" + query)[1..] == query;
    assert slash ==> tail[1..] == "?" + query;
    assert !slash ==> tail == "?" + query;
  }

  // What these pairs are followed by.
  function After(pairs: seq<Pair>, more: string): string {
    if pairs == [] then more else Join(pairs) + "&" + more
  }

  lemma SplitFirst(p: Pair, more: string, done: nat)
    requires WellFormed(p) && done + 1 <= MAX_PAIRS
    ensures Split(Written(p) + ("&" + more), done) == Prepend([p], Split(more, done + 1))
  {
    hide Find, ReadPair, Written, WellFormed;
    var text, first := Written(p) + ("&" + more), Written(p);
    ReadWritten(p);
    assert forall i | 0 <= i < |first| :: text[i] == first[i];
    FirstIs(text, '&', |first|);
    assert text[..|first|] == first && text[|first| + 1..] == more;
  }

  lemma {:induction false} SplitAfter(pairs: seq<Pair>, more: string, done: nat)
    requires AllWellFormed(pairs) && done + |pairs| <= MAX_PAIRS
    ensures Split(After(pairs, more), done) == Prepend(pairs, Split(more, done + |pairs|))
    decreases |pairs|
  {
    if pairs == [] {
      hide Split;
      assert Split(more, done).Ok? ==> pairs + Split(more, done).value == Split(more, done).value;
    } else {
      hide Split, Written, WellFormed, Join, After, Prepend;
      AfterFirst(pairs, more);
      SplitFirst(pairs[0], After(pairs[1..], more), done);
      SplitAfter(pairs[1..], more, done + 1);
      PrependAssociates([pairs[0]], pairs[1..], Split(more, done + |pairs|));
      assert pairs == [pairs[0]] + pairs[1..];
    }
  }

  lemma AfterFirst(pairs: seq<Pair>, more: string)
    requires pairs != []
    ensures After(pairs, more) == Written(pairs[0]) + ("&" + After(pairs[1..], more))
  {
    hide Written;
    if |pairs| > 1 {
      var first, others := Written(pairs[0]), Join(pairs[1..]);
      assert Join(pairs) + "&" + more == first + "&" + others + "&" + more;
      assert first + "&" + others + "&" + more == first + ("&" + (others + "&" + more));
    }
  }

  lemma PrependAssociates(a: seq<Pair>, b: seq<Pair>, more: Result<seq<Pair>>)
    ensures Prepend(a, Prepend(b, more)) == Prepend(a + b, more)
  {
    assert more.Ok? ==> a + (b + more.value) == a + b + more.value;
  }

  // Among the pairs the first segment that is none is an empty pair, and a seventh pair is too many.
  lemma ReasonInPairs(slash: bool, pairs: seq<Pair>, part: string, rest: string)
    requires AllWellFormed(pairs) && |pairs| <= 6 && '&' !in part && (rest == "" || rest[0] == '&')
    requires var query := After(pairs, part + rest);
             Legible(PREFIX + (Slash(slash) + "?" + query)) && '#' !in query && '?' !in query
    ensures var r := Parsed(PREFIX + (Slash(slash) + "?" + After(pairs, part + rest)));
            && (part == "" || '=' !in part || part[0] == '=' ==> r == Fail(EmptyPair))
            && (|pairs| == 6 && part != "" && '=' in part && part[0] != '=' ==> r == Fail(TooLong))
  {
    hide Query, Assign, Judge, After;
    var more := part + rest;
    QueryIs(slash, After(pairs, more));
    SplitAfter(pairs, more, 0);
    SegmentReads(part, rest);
  }

  lemma SegmentReads(part: string, rest: string)
    requires '&' !in part && (rest == "" || rest[0] == '&')
    ensures var more := part + rest; Find(more, '&', 0) == |part| && more[..|part|] == part
    ensures ReadPair(part).None? <==> part == "" || '=' !in part || part[0] == '='
  {
    hide Find;
    var more := part + rest;
    assert forall i | 0 <= i < |part| :: more[i] == part[i];
    assert rest != "" ==> more[|part|] == rest[0];
    FirstIs(more, '&', |part|);
    var eq := Find(part, '=', 0);
    assert eq < |part| ==> part[eq] in part;
  }

  predicate IsKnown(key: string) {
    key in {"state", "epk", "n", "d", "error"}
  }

  // Known keys, each once, with values that fit.
  predicate AllGood(pairs: seq<Pair>) {
    && (forall i | 0 <= i < |pairs| :: IsKnown(pairs[i].key) && |pairs[i].value| <= 2048)
    && (forall i, j | 0 <= i < j < |pairs| :: pairs[i].key != pairs[j].key)
  }

  predicate Has(pairs: seq<Pair>, key: string) {
    exists i | 0 <= i < |pairs| :: pairs[i].key == key
  }

  lemma KnownExactly(text: string)
    ensures IsKnown(text) <==> KeyOf(text).Some?
  {
  }

  lemma GetExactly(pairs: seq<Pair>, f: Fields, key: Key, value: string)
    requires multiset(pairs) == PairsOf(f)
    ensures Get(f, key) == Some(value) <==> Pair(KeyText(key), value) in pairs
  {
    hide KeyText;
    var p := Pair(KeyText(key), value);
    assert p in pairs <==> p in multiset(pairs);
    if p in PairsOf(f) {
      var found := if p in One(f, StateKey) then StateKey else if p in One(f, EpkKey) then EpkKey
                   else if p in One(f, NonceKey) then NonceKey else if p in One(f, DataKey) then DataKey else ErrorKey;
      KeysDiffer(found, key);
    }
    if Get(f, key) == Some(value) {
      assert p in One(f, key);
    }
  }

  lemma HasExactly(pairs: seq<Pair>, f: Fields, key: Key)
    requires multiset(pairs) == PairsOf(f)
    ensures Get(f, key).Some? <==> Has(pairs, KeyText(key))
  {
    hide KeyText, PairsOf, Get;
    if Get(f, key).Some? {
      GetExactly(pairs, f, key, Get(f, key).value);
    }
    if i :| 0 <= i < |pairs| && pairs[i].key == KeyText(key) {
      GetExactly(pairs, f, key, pairs[i].value);
      assert pairs[i] == Pair(KeyText(key), pairs[i].value);
    }
  }

  lemma {:induction false} GoodAssigns(pairs: seq<Pair>)
    requires AllGood(pairs)
    ensures Assign(pairs).Ok? && multiset(pairs) == PairsOf(Assign(pairs).value)
  {
    hide KeyText, KeyOf, Get, With, PairsOf;
    if pairs != [] {
      var last := |pairs| - 1;
      var before, p := pairs[..last], pairs[last];
      GoodAssigns(before);
      KnownExactly(p.key);
      HasExactly(before, Assign(before).value, KeyOf(p.key).value);
    }
    AssignedPairs(pairs);
  }

  // The first pair that is not good is an unknown key, a key met before, or too long a value.
  lemma ReasonInFields(slash: bool, pairs: seq<Pair>, i: nat)
    requires AllWellFormed(pairs) && |pairs| <= 6 && i < |pairs| && AllGood(pairs[..i])
    requires Legible(PREFIX + (Slash(slash) + "?" + Join(pairs))) && '#' !in Join(pairs) && '?' !in Join(pairs)
    ensures var r := Parsed(PREFIX + (Slash(slash) + "?" + Join(pairs)));
            && (!IsKnown(pairs[i].key) ==> r == Fail(UnknownKey))
            && (Has(pairs[..i], pairs[i].key) ==> r == Fail(Duplicate))
            && (IsKnown(pairs[i].key) && !Has(pairs[..i], pairs[i].key) && |pairs[i].value| > 2048 ==>
                  r == Fail(TooLong))
  {
    hide Query, Judge, Join, Split, KeyText, KeyOf, Get, With, PairsOf;
    var before, p := pairs[..i], pairs[i];
    QueryIs(slash, Join(pairs));
    SplitJoined(pairs, 0);
    GoodAssigns(before);
    KnownExactly(p.key);
    if IsKnown(p.key) {
      HasExactly(before, Assign(before).value, KeyOf(p.key).value);
    }
    assert pairs[..i + 1][..i] == before;
    if Assign(pairs[..i + 1]).Failed? {
      AssignFails(pairs, i + 1);
    }
  }

  // The keys of an approved sign-in's link but its state, and of a cancelled one's.
  predicate HasSealedKeys(pairs: seq<Pair>) {
    Has(pairs, "epk") && Has(pairs, "n") && Has(pairs, "d") && !Has(pairs, "error")
  }

  predicate HasDeniedKeys(pairs: seq<Pair>) {
    Has(pairs, "error") && !Has(pairs, "epk") && !Has(pairs, "n") && !Has(pairs, "d")
  }

  predicate IsBadValue(p: Pair) {
    (p.key in {"epk", "n"} && !IsBase58(p.value, 64)) || (p.key == "d" && !IsBase58(p.value, 2048))
  }

  lemma FieldsOfPairs(pairs: seq<Pair>, f: Fields)
    requires multiset(pairs) == PairsOf(f)
    ensures Has(pairs, "state") <==> f.state.Some?
    ensures HasSealedKeys(pairs) <==> f.epk.Some? && f.nonce.Some? && f.data.Some? && f.error.None?
    ensures HasDeniedKeys(pairs) <==> f.error.Some? && f.epk.None? && f.nonce.None? && f.data.None?
  {
    hide PairsOf, Has;
    HasExactly(pairs, f, StateKey);
    HasExactly(pairs, f, EpkKey);
    HasExactly(pairs, f, NonceKey);
    HasExactly(pairs, f, DataKey);
    HasExactly(pairs, f, ErrorKey);
  }

  lemma ValuesOfPairs(pairs: seq<Pair>, f: Fields, p: Pair)
    requires multiset(pairs) == PairsOf(f)
    ensures p.key == "state" ==> (p in pairs <==> f.state == Some(p.value))
    ensures p.key == "epk" ==> (p in pairs <==> f.epk == Some(p.value))
    ensures p.key == "n" ==> (p in pairs <==> f.nonce == Some(p.value))
    ensures p.key == "d" ==> (p in pairs <==> f.data == Some(p.value))
    ensures p.key == "error" ==> (p in pairs <==> f.error == Some(p.value))
  {
    hide PairsOf;
    GetExactly(pairs, f, StateKey, p.value);
    GetExactly(pairs, f, EpkKey, p.value);
    GetExactly(pairs, f, NonceKey, p.value);
    GetExactly(pairs, f, DataKey, p.value);
    GetExactly(pairs, f, ErrorKey, p.value);
  }

  // The link's answer, with every pair good, is the judgement of its fields.
  lemma GoodIsJudged(slash: bool, pairs: seq<Pair>) returns (f: Fields)
    requires AllWellFormed(pairs) && 0 < |pairs| <= 6 && AllGood(pairs)
    requires Legible(PREFIX + (Slash(slash) + "?" + Join(pairs))) && '#' !in Join(pairs) && '?' !in Join(pairs)
    ensures multiset(pairs) == PairsOf(f) && Parsed(PREFIX + (Slash(slash) + "?" + Join(pairs))) == Judge(f)
  {
    hide Query, Join, Split, Assign, PairsOf, Judge;
    QueryIs(slash, Join(pairs));
    SplitJoined(pairs, 0);
    GoodAssigns(pairs);
    f := Assign(pairs).value;
  }

  // With every pair good: no state, or keys of neither shape, are mixed shapes; a state of another form is a bad state;
  // in an approved sign-in's shape a value outside its alphabet or length is a bad value, and in a cancelled one's any
  // error but the one is a bad error. The state is judged first.
  lemma ReasonInValues(slash: bool, pairs: seq<Pair>, state: string)
    requires AllWellFormed(pairs) && 0 < |pairs| <= 6 && AllGood(pairs)
    requires Legible(PREFIX + (Slash(slash) + "?" + Join(pairs))) && '#' !in Join(pairs) && '?' !in Join(pairs)
    ensures var r := Parsed(PREFIX + (Slash(slash) + "?" + Join(pairs)));
            if !Has(pairs, "state") then r == Fail(MixedShapes)
            else Pair("state", state) in pairs ==>
              && (!IsState(state) ==> r == Fail(BadState))
              && (IsState(state) && !HasSealedKeys(pairs) && !HasDeniedKeys(pairs) ==> r == Fail(MixedShapes))
              && (IsState(state) && HasDeniedKeys(pairs) && Pair("error", "access_denied") !in pairs ==>
                    r == Fail(BadError))
              && (IsState(state) && HasSealedKeys(pairs) && (exists p | p in pairs :: IsBadValue(p)) ==>
                    r == Fail(BadValue))
  {
    hide Parsed, Join, PairsOf, IsState, IsBase58, Has, HasSealedKeys, HasDeniedKeys;
    var f := GoodIsJudged(slash, pairs);
    FieldsOfPairs(pairs, f);
    ValuesOfPairs(pairs, f, Pair("state", state));
    ValuesOfPairs(pairs, f, Pair("error", "access_denied"));
    forall p | p in pairs && IsBadValue(p)
      ensures f.epk.Some? && f.nonce.Some? && f.data.Some? ==>
                !(IsBase58(f.epk.value, 64) && IsBase58(f.nonce.value, 64) && IsBase58(f.data.value, 2048))
    {
      ValuesOfPairs(pairs, f, p);
    }
  }

  // Routing: a link the parser accepts is one the app sends to it.
  predicate IsAuthHost(url: string) {
    && |url| >= |PREFIX| && (forall i | 0 <= i < |PREFIX| :: Lower(url[i]) == PREFIX[i])
    && (|url| == |PREFIX| || url[|PREFIX|] == '?' || url[|PREFIX|] == '/' || url[|PREFIX|] == '#')
  }

  // The app sends a legible link of this prefix to the parser exactly when the parser does not find another host in it.
  lemma RoutedExactly(url: string)
    requires Legible(url) && PREFIX <= url
    ensures IsAuthHost(url) <==> Parsed(url).reject != NotAuthHost && Parsed(url).reject != Authority
  {
    hide Split, Assign, Query, HasControl;
    var tail := url[|PREFIX|..];
    assert url == PREFIX + tail;
    LegibleReads(tail);
    assert forall i | 0 <= i < |PREFIX| :: url[i] == PREFIX[i] == Lower(PREFIX[i]);
    assert tail != "" ==> tail[0] == url[|PREFIX|];
    if AfterHost(tail).Ok? {
      SplitReasons(AfterHost(tail).value, 0);
      if Split(AfterHost(tail).value, 0).Ok? {
        AssignReasons(Split(AfterHost(tail).value, 0).value);
      }
    }
  }

  lemma AcceptedIsRouted(url: string)
    requires Parsed(url).kind != Invalid
    ensures IsAuthHost(url)
  {
    hide Split, Assign, HasControl, AfterHost, Judge;
    var slash := AfterHostReads(url[|PREFIX|..]);
    assert |PREFIX| == 16 && forall i | 0 <= i < 16 :: url[i] == PREFIX[i];
    assert url[16] == url[|PREFIX|..][0];
  }
}
