// The packed payload of IOCTL_URST_SET_EXCLUDED_PATHS (app/driver/Ioctl.h): a little-endian UINT32 count, then
// for each path a UINT16 number of characters and that many UTF-16 units. The encoder is the client's side of
// the format; the decoder is the driver's parse loop.
module PackedPaths {
  import opened DriverSpec

  type Byte = b: int | 0 <= b < 0x100

  type Path = p: seq<Wchar> | |p| < 0x1_0000

  const HEADER_BYTES := 4

  function UnitBytes(w: Wchar): seq<Byte> {
    [w % 0x100, w / 0x100]
  }

  function TextBytes(p: seq<Wchar>): (b: seq<Byte>)
    ensures |b| == 2 * |p|
  {
    seq(2 * |p|, i requires 0 <= i < 2 * |p| => UnitBytes(p[i / 2])[i % 2])
  }

  function Frame(p: Path): (b: seq<Byte>)
    ensures |b| == 2 + 2 * |p|
  {
    UnitBytes(|p|) + TextBytes(p)
  }

  function Frames(ps: seq<Path>): seq<Byte> {
    if ps == [] then [] else Frame(ps[0]) + Frames(ps[1..])
  }

  function Encode(ps: seq<Path>): seq<Byte>
    requires |ps| < 0x1_0000_0000
  {
    UnitBytes(|ps| % 0x1_0000) + UnitBytes(|ps| / 0x1_0000) + Frames(ps)
  }

  function Unit(b: seq<Byte>, at: nat): Wchar
    requires at + 2 <= |b|
  {
    var low: int, high: int := b[at], b[at + 1];
    low + 0x100 * high
  }

  function Units(b: seq<Byte>, at: nat, count: nat): (p: seq<Wchar>)
    requires at + 2 * count <= |b|
    ensures |p| == count
  {
    seq(count, i requires 0 <= i < count => Unit(b, at + 2 * i))
  }

  // Whether a whole frame starts at `at`.
  predicate Framed(b: seq<Byte>, at: nat) {
    at + 2 <= |b| && at + 2 + 2 * Unit(b, at) <= |b|
  }

  // The parse from `at`. The pool grants or refuses each allocation: the first is the array, the next ones the
  // paths' buffers.
  function DecodeFrom(b: seq<Byte>, at: nat, count: nat, k: nat, granted: nat -> bool): (ps: seq<Path>)
    decreases |b| - at
  {
    if k >= count || !Framed(b, at) || !granted(k + 1) then []
    else [Units(b, at + 2, Unit(b, at))] + DecodeFrom(b, at + 2 + 2 * Unit(b, at), count, k + 1, granted)
  }

  // What the driver keeps of a parsed path: Length is a USHORT of the byte count.
  function Stored(p: Path): UnicodeString {
    CountedString(p, 2 * |p| % 0x1_0000)
  }

  function StoredAll(ps: seq<Path>): (r: seq<UnicodeString>)
    ensures |r| == |ps|
  {
    seq(|ps|, i requires 0 <= i < |ps| => Stored(ps[i]))
  }

  lemma StoredAllAppend(ps: seq<Path>, p: Path)
    ensures StoredAll(ps + [p]) == StoredAll(ps) + [Stored(p)]
  {
  }

  function Uint32(b: seq<Byte>): nat
    requires |b| >= 4
  {
    var low: int, high: int := Unit(b, 0), Unit(b, 2);
    low + 0x1_0000 * high
  }

  function Count(b: seq<Byte>): nat
    requires |b| >= HEADER_BYTES
  {
    Uint32(b)
  }

  function Decode(b: seq<Byte>, granted: nat -> bool): seq<Path>
    requires |b| >= HEADER_BYTES
  {
    DecodeFrom(b, HEADER_BYTES, Count(b), 0, granted)
  }

  const ALWAYS: nat -> bool := _ => true

  // ---- one frame ----

  lemma FrameRead(b: seq<Byte>, at: nat, p: Path)
    requires at <= |b| && Frame(p) <= b[at..]
    ensures Framed(b, at) && Unit(b, at) == |p| && Units(b, at + 2, |p|) == p
  {
    var f := Frame(p);
    assert forall i | 0 <= i < |f| :: b[at + i] == b[at..][i] == f[i];
    assert b[at] == f[0] && b[at + 1] == f[1];
    forall i | 0 <= i < |p| ensures Unit(b, at + 2 + 2 * i) == p[i] {
      assert b[at + (2 + 2 * i)] == f[2 + 2 * i] && b[at + (3 + 2 * i)] == f[3 + 2 * i];
    }
  }

  lemma FrameOfRead(b: seq<Byte>, at: nat)
    requires Framed(b, at)
    ensures Frame(Units(b, at + 2, Unit(b, at))) == b[at..at + 2 + 2 * Unit(b, at)]
  {
  }

  // ---- the longest framed prefix ----

  lemma DecodeOneFrame(b: seq<Byte>, at: nat, next: nat, count: nat, k: nat, ps: seq<Path>)
    requires at <= |b| && k < count && ps != [] && Frame(ps[0]) <= b[at..] && next == at + |Frame(ps[0])|
    requires ps[1..] <= DecodeFrom(b, next, count, k + 1, ALWAYS)
    ensures ps <= DecodeFrom(b, at, count, k, ALWAYS)
  {
    FrameRead(b, at, ps[0]);
  }

  lemma HeadFrame(b: seq<Byte>, at: nat, ps: seq<Path>) returns (next: nat)
    requires at <= |b| && ps != [] && Frames(ps) <= b[at..]
    ensures next == at + |Frame(ps[0])| <= |b| && Frame(ps[0]) <= b[at..] && Frames(ps[1..]) <= b[next..]
  {
    next := at + |Frame(ps[0])|;
    var f, tail, rest := Frame(ps[0]), Frames(ps[1..]), b[at..];
    assert Frames(ps) == f + tail;
    assert forall i | 0 <= i < |f| :: f[i] == (f + tail)[i];
    assert forall i | 0 <= i < |tail| :: tail[i] == (f + tail)[|f| + i] == rest[|f| + i];
  }

  lemma {:induction false} FramedListIsDecoded(b: seq<Byte>, at: nat, count: nat, k: nat, ps: seq<Path>)
    requires at <= |b| && k <= count && |ps| <= count - k && Frames(ps) <= b[at..]
    ensures ps <= DecodeFrom(b, at, count, k, ALWAYS)
    decreases |ps|
  {
    if ps != [] {
      var next := HeadFrame(b, at, ps);
      FramedListIsDecoded(b, next, count, k + 1, ps[1..]);
      DecodeOneFrame(b, at, next, count, k, ps);
    }
  }

  lemma {:induction false} DecodedListIsFramed(b: seq<Byte>, at: nat, count: nat, k: nat, ps: seq<Path>)
    requires at <= |b| && ps <= DecodeFrom(b, at, count, k, ALWAYS)
    ensures Frames(ps) <= b[at..]
    decreases |ps|
  {
    if ps != [] {
      var next := at + 2 + 2 * Unit(b, at);
      FrameOfRead(b, at);
      assert Frame(ps[0]) == b[at..next];
      DecodedListIsFramed(b, next, count, k + 1, ps[1..]);
      assert b[at..] == b[at..next] + b[next..];
    }
  }

  // With the pool never short, the parse returns the longest list, of at most the announced number of paths,
  // whose frames start the payload: a list's frames start it exactly when the list starts the result.
  lemma DecodesLongestFramedPrefix(b: seq<Byte>, ps: seq<Path>)
    requires |b| >= HEADER_BYTES && |ps| <= Count(b)
    ensures Frames(ps) <= b[HEADER_BYTES..] <==> ps <= Decode(b, ALWAYS)
  {
    if Frames(ps) <= b[HEADER_BYTES..] {
      FramedListIsDecoded(b, HEADER_BYTES, Count(b), 0, ps);
    }
    if ps <= Decode(b, ALWAYS) {
      DecodedListIsFramed(b, HEADER_BYTES, Count(b), 0, ps);
    }
  }

  // ---- the round trip ----

  lemma {:induction false} DecodesAtMostCount(b: seq<Byte>, at: nat, count: nat, k: nat, granted: nat -> bool)
    requires k <= count
    ensures |DecodeFrom(b, at, count, k, granted)| <= count - k
    decreases |b| - at
  {
    if k < count && Framed(b, at) && granted(k + 1) {
      DecodesAtMostCount(b, at + 2 + 2 * Unit(b, at), count, k + 1, granted);
    }
  }

  // Decoding what the client packed gives its list back, in order.
  lemma DecodeEncode(ps: seq<Path>)
    requires |ps| < 0x1_0000_0000
    ensures |Encode(ps)| >= HEADER_BYTES && Decode(Encode(ps), ALWAYS) == ps
  {
    var b := Encode(ps);
    assert Frames(ps) <= b[HEADER_BYTES..];
    DecodesLongestFramedPrefix(b, ps);
    DecodesAtMostCount(b, HEADER_BYTES, |ps|, 0, ALWAYS);
  }

  // The strings installed for a packed list read back as that list exactly when every path is shorter than
  // 32768 characters; a longer one has its Length cut to the low sixteen bits of its size in bytes.
  lemma StoredReadsBackExactly(ps: seq<Path>)
    ensures (forall i | 0 <= i < |ps| :: StoredAll(ps)[i].Text() == ps[i])
            <==> (forall i | 0 <= i < |ps| :: |ps[i]| < 0x8000)
  {
    forall i | 0 <= i < |ps| ensures StoredAll(ps)[i].Text() == ps[i] <==> |ps[i]| < 0x8000 {
      assert StoredAll(ps)[i] == Stored(ps[i]);
      assert |Stored(ps[i]).Text()| == |ps[i]| % 0x8000;
    }
  }

  // A path of 32768 characters installs as the empty string, which equals the empty image of any process.
  lemma LongPathInstallsEmpty(upcase: CaseTable, p: Path)
    requires |p| == 0x8000
    ensures Stored(p).Text() == [] && EqualIgnoringCase(upcase, CountedString([], 0), Stored(p))
  {
  }

  // A short pool only cuts the list: what is installed is always a prefix of what was framed.
  lemma {:induction false} ShortPoolKeepsPrefix(b: seq<Byte>, at: nat, count: nat, k: nat, granted: nat -> bool)
    ensures DecodeFrom(b, at, count, k, granted) <= DecodeFrom(b, at, count, k, ALWAYS)
    decreases |b| - at
  {
    if k < count && Framed(b, at) && granted(k + 1) {
      ShortPoolKeepsPrefix(b, at + 2 + 2 * Unit(b, at), count, k + 1, granted);
    }
  }
}
