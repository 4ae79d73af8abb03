// The urnetwork://auth return, read strictly (app/src/App/AuthLink.h), against the printers of its two shapes
// (app/tools/auth-link-tests.cpp).
module AuthLink {
  import opened Options
  import opened Texts

  const PREFIX := "urnetwork://auth"
  const MAX_URL := 4096
  const MAX_VALUE := 2048
  const MAX_PAIRS := 6
  const STATE_CHARS := 43
  const DENIED_VALUE := "access_denied"

  datatype Kind = Invalid | Sealed | Denied

  datatype Reject =
    | NoReject | NotAuthHost | Path | Authority | Delimiter | TooLong | Control | UnexpectedEscape | EmptyPair
    | Duplicate | UnknownKey | MixedShapes | BadState | BadValue | BadError

  datatype Return = Return(kind: Kind, reject: Reject, state: string, epk: string, nonce: string, data: string)

  datatype Pair = Pair(key: string, value: string)

  datatype Result<T> = Ok(value: T) | Failed(reject: Reject)

  function Fail(why: Reject): Return {
    Return(Invalid, why, "", "", "", "")
  }

  // ---- alphabets ----

  predicate IsBase64UrlChar(c: char) {
    'A' <= c <= 'Z' || 'a' <= c <= 'z' || '0' <= c <= '9' || c == '-' || c == '_'
  }

  // Bitcoin's alphabet: no 0, O, I or l.
  predicate IsBase58Char(c: char) {
    '1' <= c <= '9' || ('A' <= c <= 'Z' && c != 'I' && c != 'O') || ('a' <= c <= 'z' && c != 'l')
  }

  predicate IsState(value: string) {
    |value| == STATE_CHARS && forall i | 0 <= i < |value| :: IsBase64UrlChar(value[i])
  }

  predicate IsBase58(value: string, max: nat) {
    0 < |value| <= max && forall i | 0 <= i < |value| :: IsBase58Char(value[i])
  }

  predicate IsControl(c: char) {
    c <= ' ' || c >= 0x7F as char
  }

  // ---- the pairs ----

  // One segment read as a pair; None when it has no '=' or no key.
  function ReadPair(part: string): Option<Pair> {
    var eq := Find(part, '=', 0);
    if eq == |part| || eq == 0 then None else Some(Pair(part[..eq], part[eq + 1..]))
  }

  // The pairs as written, after `done` of them.
  function Split(rest: string, done: nat): Result<seq<Pair>>
    decreases |rest|
  {
    var amp := Find(rest, '&', 0);
    var pair := ReadPair(rest[..amp]);
    if pair.None? then Failed(EmptyPair)
    else if done + 1 > MAX_PAIRS then Failed(TooLong)
    else if amp == |rest| then Ok([pair.value])
    else
      var more := Split(rest[amp + 1..], done + 1);
      if more.Failed? then more else Ok([pair.value] + more.value)
  }

  // ---- the fields ----

  datatype Fields = Fields(
    state: Option<string>, epk: Option<string>, nonce: Option<string>, data: Option<string>, error: Option<string>)

  const NO_FIELDS: Fields := Fields(None, None, None, None, None)

  datatype Key = StateKey | EpkKey | NonceKey | DataKey | ErrorKey

  function KeyText(key: Key): string {
    match key
    case StateKey => "state"
    case EpkKey => "epk"
    case NonceKey => "n"
    case DataKey => "d"
    case ErrorKey => "error"
  }

  function KeyOf(text: string): (key: Option<Key>)
    ensures key.Some? ==> KeyText(key.value) == text
    ensures key.None? ==> forall k :: KeyText(k) != text
  {
    if text == "state" then Some(StateKey)
    else if text == "epk" then Some(EpkKey)
    else if text == "n" then Some(NonceKey)
    else if text == "d" then Some(DataKey)
    else if text == "error" then Some(ErrorKey)
    else None
  }

  function Get(f: Fields, key: Key): Option<string> {
    match key
    case StateKey => f.state
    case EpkKey => f.epk
    case NonceKey => f.nonce
    case DataKey => f.data
    case ErrorKey => f.error
  }

  function With(f: Fields, key: Key, value: Option<string>): Fields {
    match key
    case StateKey => f.(state := value)
    case EpkKey => f.(epk := value)
    case NonceKey => f.(nonce := value)
    case DataKey => f.(data := value)
    case ErrorKey => f.(error := value)
  }

  function Put(f: Fields, p: Pair): Result<Fields> {
    var key := KeyOf(p.key);
    if key.None? then Failed(UnknownKey)
    else if Get(f, key.value).Some? then Failed(Duplicate)
    else if |p.value| > MAX_VALUE then Failed(TooLong)
    else Ok(With(f, key.value, Some(p.value)))
  }

  function Assign(pairs: seq<Pair>): Result<Fields> {
    if pairs == [] then Ok(NO_FIELDS)
    else
      var last := |pairs| - 1;
      var before := Assign(pairs[..last]);
      if before.Failed? then before else Put(before.value, pairs[last])
  }

  // ---- the link ----

  function Judge(f: Fields): Return {
    if f.state.None? then Fail(MixedShapes)
    else if !IsState(f.state.value) then Fail(BadState)
    else if f.epk.Some? && f.nonce.Some? && f.data.Some? && f.error.None? then
      if IsBase58(f.epk.value, 64) && IsBase58(f.nonce.value, 64) && IsBase58(f.data.value, MAX_VALUE)
      then Return(Sealed, NoReject, f.state.value, f.epk.value, f.nonce.value, f.data.value)
      else Fail(BadValue)
    else if f.error.Some? && f.epk.None? && f.nonce.None? && f.data.None? then
      if f.error.value == DENIED_VALUE then Return(Denied, NoReject, f.state.value, "", "", "") else Fail(BadError)
    else Fail(MixedShapes)
  }

  // The query after the host, at most one '/' between them.
  function AfterHost(after: string): Result<string> {
    var stripped := after != "" && after[0] == '/';
    var rest := if stripped then after[1..] else after;
    if rest == "" then Failed(EmptyPair)
    else if rest[0] != '?' then
      Failed(if rest[0] == '#' then Delimiter
             else if stripped || rest[0] == '/' then Path
             else if rest[0] == ':' || rest[0] == '@' then Authority
             else NotAuthHost)
    else if '#' in rest[1..] || '?' in rest[1..] then Failed(Delimiter)
    else Ok(rest[1..])
  }

  predicate HasControl(url: string) {
    exists i | 0 <= i < |url| :: IsControl(url[i])
  }

  // The query of a link, or why it has none.
  function Query(url: string): Result<string> {
    if |url| > MAX_URL then Failed(TooLong)
    else if HasControl(url) then Failed(Control)
    else if !(PREFIX <= url) then Failed(NotAuthHost)
    else if '%' in url then Failed(UnexpectedEscape)
    else AfterHost(url[|PREFIX|..])
  }

  function Parsed(url: string): Return {
    var query := Query(url);
    if query.Failed? then Fail(query.reject)
    else
      var pairs := Split(query.value, 0);
      if pairs.Failed? then Fail(pairs.reject)
      else
        var fields := Assign(pairs.value);
        if fields.Failed? then Fail(fields.reject) else Judge(fields.value)
  }

  function Prepend(read: seq<Pair>, more: Result<seq<Pair>>): Result<seq<Pair>> {
    if more.Failed? then more else Ok(read + more.value)
  }

  // The split from `start` on, after the pairs read so far.
  lemma SplitFrom(rest: string, start: nat, read: seq<Pair>)
    requires start <= |rest|
    ensures var amp := Find(rest, '&', start);
            var pair := ReadPair(rest[start..amp]);
            Prepend(read, Split(rest[start..], |read|))
            == if pair.None? then Failed(EmptyPair)
               else if |read| + 1 > MAX_PAIRS then Failed(TooLong)
               else if amp == |rest| then Ok(read + [pair.value])
               else Prepend(read + [pair.value], Split(rest[amp + 1..], |read + [pair.value]|))
  {
    hide Find, ReadPair;
    var amp, from := Find(rest, '&', start), rest[start..];
    FindInRest(rest, '&', start);
    assert from[..amp - start] == rest[start..amp];
    if amp < |rest| {
      assert from[amp - start + 1..] == rest[amp + 1..];
      var pair, more := ReadPair(rest[start..amp]), Split(rest[amp + 1..], |read| + 1);
      assert pair.Some? && more.Ok? ==> read + ([pair.value] + more.value) == (read + [pair.value]) + more.value;
    }
  }

  method SplitPairs(rest: string) returns (pairs: Result<seq<Pair>>)
    ensures pairs == Split(rest, 0)
  {
    hide Split, Find, ReadPair;
    var start := 0;
    var read: seq<Pair> := [];
    assert rest[0..] == rest && (Split(rest, 0).Ok? ==> read + Split(rest, 0).value == Split(rest, 0).value);
    while true
      invariant 0 <= start <= |rest| && Prepend(read, Split(rest[start..], |read|)) == Split(rest, 0)
      decreases |rest| - start
    {
      SplitFrom(rest, start, read);
      var amp := Find(rest, '&', start);
      var pair := ReadPair(rest[start..amp]);
      if pair.None? {
        return Failed(EmptyPair);
      }
      if |read| + 1 > MAX_PAIRS {
        return Failed(TooLong);
      }
      read := read + [pair.value];
      if amp == |rest| {
        return Ok(read);
      }
      start := amp + 1;
    }
  }

  method Parse(url: string) returns (r: Return)
    ensures r == Parsed(url)
  {
    var query := Query(url);
    if query.Failed? {
      return Fail(query.reject);
    }
    var pairs := SplitPairs(query.value);
    if pairs.Failed? {
      return Fail(pairs.reject);
    }
    var fields := NO_FIELDS;
    for i := 0 to |pairs.value|
      invariant Assign(pairs.value[..i]) == Ok(fields)
    {
      assert pairs.value[..i + 1][..i] == pairs.value[..i];
      var next := Put(fields, pairs.value[i]);
      if next.Failed? {
        AssignFails(pairs.value, i + 1);
        return Fail(next.reject);
      }
      fields := next.value;
    }
    assert pairs.value[..|pairs.value|] == pairs.value;
    return Judge(fields);
  }

  lemma {:induction false} AssignFails(pairs: seq<Pair>, n: nat)
    requires n <= |pairs| && Assign(pairs[..n]).Failed?
    ensures Assign(pairs) == Assign(pairs[..n])
    decreases |pairs| - n
  {
    if n < |pairs| {
      assert pairs[..n + 1][..n] == pairs[..n];
      AssignFails(pairs, n + 1);
    } else {
      assert pairs[..n] == pairs;
    }
  }
}
