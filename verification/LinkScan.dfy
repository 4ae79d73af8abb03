// Taking a text apart at its links and putting it together again with each link replaced, for any scheme, any
// characters that end a link and any replacement (RedactLinks of app/src/App/AuthLink.h).
module LinkScan {
  import opened Texts

  // What a link starts with (in lower case, matched without regard to case), what ends it, and what it becomes,
  // by the link and the text after it.
  datatype Rules = Rules(scheme: string, enders: set<char>, replace: (string, string) -> string)

  // No character of the scheme ends a link.
  ghost predicate Usable(r: Rules) {
    r.scheme != "" && forall c :: Lower(c) in r.scheme ==> c !in r.enders
  }

  predicate SchemeAt(scheme: string, text: string, i: nat) {
    i + |scheme| <= |text| && forall k | 0 <= k < |scheme| :: Lower(text[i + k]) == scheme[k]
  }

  // The first place at or after `at` where the scheme stands, or the end of the text.
  function FindScheme(scheme: string, text: string, at: nat): (r: nat)
    requires at <= |text|
    ensures at <= r <= |text| && (forall i | at <= i < r :: !SchemeAt(scheme, text, i))
    ensures r < |text| ==> SchemeAt(scheme, text, r)
    decreases |text| - at
  {
    if at == |text| || SchemeAt(scheme, text, at) then at else FindScheme(scheme, text, at + 1)
  }

  // Where a link that starts at `at` ends.
  function LinkEnd(text: string, at: nat, enders: set<char>): (r: nat)
    requires at <= |text|
    ensures at <= r <= |text| && (forall i | at <= i < r :: text[i] !in enders) && (r < |text| ==> text[r] in enders)
    decreases |text| - at
  {
    if at == |text| || text[at] in enders then at else LinkEnd(text, at + 1, enders)
  }

  lemma SchemeHasNoEnder(r: Rules, text: string, i: nat)
    requires Usable(r) && SchemeAt(r.scheme, text, i)
    ensures forall j | i <= j < i + |r.scheme| :: text[j] !in r.enders
  {
    forall j | i <= j < i + |r.scheme| ensures text[j] !in r.enders {
      assert Lower(text[i + (j - i)]) == r.scheme[j - i];
    }
  }

  lemma LinkIsLonger(r: Rules, text: string, found: nat)
    requires Usable(r) && SchemeAt(r.scheme, text, found)
    ensures found <= |text| && LinkEnd(text, found, r.enders) >= found + |r.scheme| > found
  {
    SchemeHasNoEnder(r, text, found);
  }

  // The text from `at` on, with its links replaced.
  function ReplaceFrom(r: Rules, text: string, at: nat): string
    requires at <= |text| && Usable(r)
    decreases |text| - at
  {
    var found := FindScheme(r.scheme, text, at);
    if found == |text| then text[at..]
    else
      var end := LinkEnd(text, found, r.enders);
      LinkIsLonger(r, text, found);
      text[at..found] + r.replace(text[found..end], text[end..]) + ReplaceFrom(r, text, end)
  }

  lemma ReplaceStep(r: Rules, text: string, at: nat, found: nat, end: nat)
    requires at <= |text| && Usable(r) && found == FindScheme(r.scheme, text, at)
    requires found < |text| ==> end == LinkEnd(text, found, r.enders)
    ensures found == |text| ==> ReplaceFrom(r, text, at) == text[at..]
    ensures found < |text| ==>
              && at <= found < end <= |text|
              && ReplaceFrom(r, text, at)
                 == text[at..found] + r.replace(text[found..end], text[end..]) + ReplaceFrom(r, text, end)
  {
    if found < |text| {
      LinkIsLonger(r, text, found);
    }
  }

  function ReplaceLinks(r: Rules, text: string): string
    requires Usable(r)
  {
    ReplaceFrom(r, text, 0)
  }

  method RedactLinks(r: Rules, text: string) returns (out: string)
    requires Usable(r)
    ensures out == ReplaceLinks(r, text)
  {
    hide Usable, SchemeAt, ReplaceFrom;
    out := [];
    var at := 0;
    while at < |text|
      invariant 0 <= at <= |text| && ReplaceLinks(r, text) == out + ReplaceFrom(r, text, at)
    {
      var found := FindScheme(r.scheme, text, at);
      if found == |text| {
        ReplaceStep(r, text, at, found, found);
        return out + text[at..];
      }
      var end := LinkEnd(text, found, r.enders);
      ReplaceStep(r, text, at, found, end);
      out := out + text[at..found] + r.replace(text[found..end], text[end..]);
      at := end;
    }
    EmptyTail(r, text);
  }

  lemma EmptyTail(r: Rules, text: string)
    requires Usable(r)
    ensures ReplaceFrom(r, text, |text|) == ""
  {
  }

  // ---- prefixes and links ----

  lemma SchemeShifts(scheme: string, p: string, t: string, i: nat)
    ensures SchemeAt(scheme, p + t, |p| + i) <==> SchemeAt(scheme, t, i)
  {
    assert forall j | 0 <= j < |t| :: (p + t)[|p| + j] == t[j];
  }

  lemma FindShifts(scheme: string, p: string, t: string, i: nat)
    requires i <= |t|
    ensures FindScheme(scheme, p + t, |p| + i) == |p| + FindScheme(scheme, t, i)
  {
    var a, b := FindScheme(scheme, p + t, |p| + i), FindScheme(scheme, t, i);
    SchemeShifts(scheme, p, t, a - |p|);
    SchemeShifts(scheme, p, t, b);
  }

  lemma EndShifts(p: string, t: string, i: nat, enders: set<char>)
    requires i <= |t|
    ensures LinkEnd(p + t, |p| + i, enders) == |p| + LinkEnd(t, i, enders)
  {
    var a, b := LinkEnd(p + t, |p| + i, enders) - |p|, LinkEnd(t, i, enders);
    assert forall j | 0 <= j < |t| :: (p + t)[|p| + j] == t[j];
  }

  lemma SliceShifts(p: string, t: string, i: nat, j: nat)
    requires i <= j <= |t|
    ensures (p + t)[|p| + i..|p| + j] == t[i..j] && (p + t)[|p| + j..] == t[j..]
  {
  }

  // What comes before the starting place makes no difference.
  lemma {:induction false} ReplaceShifts(r: Rules, p: string, t: string, i: nat)
    requires Usable(r) && i <= |t|
    ensures ReplaceFrom(r, p + t, |p| + i) == ReplaceFrom(r, t, i)
    decreases |t| - i
  {
    hide Usable, SchemeAt, FindScheme, ReplaceFrom, LinkEnd;
    var found := FindScheme(r.scheme, t, i);
    FindShifts(r.scheme, p, t, i);
    SliceShifts(p, t, i, found);
    if found < |t| {
      var end := LinkEnd(t, found, r.enders);
      EndShifts(p, t, found, r.enders);
      ReplaceStep(r, t, i, found, end);
      ReplaceStep(r, p + t, |p| + i, |p| + found, |p| + end);
      SliceShifts(p, t, found, end);
      ReplaceShifts(r, p, t, end);
    } else {
      ReplaceStep(r, t, i, found, found);
      ReplaceStep(r, p + t, |p| + i, |p| + found, |p| + found);
      SliceShifts(p, t, i, |t|);
    }
  }

  lemma FoundLater(scheme: string, text: string, k: nat)
    requires k <= |text| && forall i | 0 <= i < k :: !SchemeAt(scheme, text, i)
    ensures FindScheme(scheme, text, 0) == FindScheme(scheme, text, k)
  {
  }

  lemma JoinsAssociate(a: string, b: string, c: string, d: string)
    ensures (a + b) + c + d == a + (b + c + d)
  {
  }

  // A stretch in which no link starts is kept.
  lemma SkipTo(r: Rules, text: string, k: nat)
    requires Usable(r) && k <= |text| && FindScheme(r.scheme, text, 0) == FindScheme(r.scheme, text, k)
    ensures ReplaceFrom(r, text, 0) == text[..k] + ReplaceFrom(r, text, k)
  {
    hide Usable, SchemeAt, FindScheme, ReplaceFrom, LinkEnd;
    var found := FindScheme(r.scheme, text, 0);
    assert text[0..found] == text[..k] + text[k..found];
    if found < |text| {
      var end := LinkEnd(text, found, r.enders);
      ReplaceStep(r, text, 0, found, end);
      ReplaceStep(r, text, k, found, end);
      JoinsAssociate(text[..k], text[k..found], r.replace(text[found..end], text[end..]), ReplaceFrom(r, text, end));
    } else {
      ReplaceStep(r, text, 0, found, found);
      ReplaceStep(r, text, k, found, found);
      assert text[0..] == text[..k] + text[k..];
    }
  }

  lemma SkipPrefix(r: Rules, p: string, t: string)
    requires Usable(r) && forall i | 0 <= i < |p| :: !SchemeAt(r.scheme, p + t, i)
    ensures ReplaceLinks(r, p + t) == p + ReplaceLinks(r, t)
  {
    hide Usable, SchemeAt, ReplaceFrom;
    FoundLater(r.scheme, p + t, |p|);
    SkipTo(r, p + t, |p|);
    ReplaceShifts(r, p, t, 0);
    assert (p + t)[..|p|] == p;
  }

  // A link that starts where none does before it, and ends at an ender or the end of the text.
  ghost predicate IsLink(r: Rules, before: string, link: string, rest: string) {
    && SchemeAt(r.scheme, link, 0) && (forall i | 0 <= i < |before| :: !SchemeAt(r.scheme, before + link, i))
    && (forall i | 0 <= i < |link| :: link[i] !in r.enders) && (rest == "" || rest[0] in r.enders)
  }

  // Whether the scheme stands at a place depends on its own length of text only.
  lemma SchemeIsLocal(scheme: string, a: string, b: string, i: nat)
    requires i + |scheme| <= |a|
    ensures SchemeAt(scheme, a + b, i) <==> SchemeAt(scheme, a, i)
  {
    assert forall j | 0 <= j < |a| :: (a + b)[j] == a[j];
  }

  lemma LinkFound(r: Rules, before: string, link: string, rest: string)
    requires Usable(r) && IsLink(r, before, link, rest)
    ensures FindScheme(r.scheme, before + link + rest, 0) == |before|
    ensures LinkEnd(before + link + rest, |before|, r.enders) == |before + link| && link != ""
  {
    var text := before + link + rest;
    assert before + (link + rest) == text && |r.scheme| <= |link|;
    SchemeShifts(r.scheme, before, link + rest, 0);
    SchemeIsLocal(r.scheme, link, rest, 0);
    forall i | 0 <= i < |before| ensures !SchemeAt(r.scheme, text, i) {
      SchemeIsLocal(r.scheme, before + link, rest, i);
    }
    EndShifts(before, link + rest, 0, r.enders);
    LinkEndIs(link, rest, r.enders);
  }

  lemma PeelLink(r: Rules, before: string, link: string, rest: string)
    requires Usable(r) && IsLink(r, before, link, rest)
    ensures ReplaceLinks(r, before + link + rest) == before + r.replace(link, rest) + ReplaceLinks(r, rest)
  {
    hide Usable, SchemeAt, ReplaceFrom;
    var text := before + link + rest;
    LinkFound(r, before, link, rest);
    ReplaceStep(r, text, 0, |before|, |before + link|);
    assert text[0..|before|] == before && text[|before|..|before + link|] == link && text[|before + link|..] == rest;
    ReplaceShifts(r, before + link, rest, 0);
  }

  lemma LinkEndIs(link: string, rest: string, enders: set<char>)
    requires (forall i | 0 <= i < |link| :: link[i] !in enders) && (rest == "" || rest[0] in enders)
    ensures LinkEnd(link + rest, 0, enders) == |link|
  {
    var text := link + rest;
    assert forall i | 0 <= i < |link| :: text[i] == link[i];
    assert rest != "" ==> text[|link|] == rest[0];
  }

  lemma FirstLink(r: Rules, text: string) returns (before: string, link: string, rest: string)
    requires Usable(r) && FindScheme(r.scheme, text, 0) < |text|
    ensures text == before + link + rest && IsLink(r, before, link, rest) && |rest| < |text|
  {
    hide Usable, SchemeAt, FindScheme, ReplaceFrom, LinkEnd;
    var found := FindScheme(r.scheme, text, 0);
    var end := LinkEnd(text, found, r.enders);
    LinkIsLonger(r, text, found);
    before, link, rest := text[..found], text[found..end], text[end..];
    InThreeParts(text, found, end);
    SchemeShifts(r.scheme, before, link + rest, 0);
    SchemeIsLocal(r.scheme, link, rest, 0);
    forall i | 0 <= i < |before| ensures !SchemeAt(r.scheme, before + link, i) {
      SchemeIsLocal(r.scheme, before + link, rest, i);
    }
  }

  lemma InThreeParts(text: string, found: nat, end: nat)
    requires found <= end <= |text|
    ensures text == text[..found] + text[found..end] + text[end..]
    ensures text == text[..found] + (text[found..end] + text[end..])
  {
  }

  // A text without a link is kept.
  lemma NoLinkKept(r: Rules, text: string)
    requires Usable(r) && FindScheme(r.scheme, text, 0) == |text|
    ensures ReplaceLinks(r, text) == text
  {
  }

  // ---- seams ----

  // What a link becomes does not depend on what follows the next c.
  predicate BlindPast(r: Rules, c: char, link: string, near: string, far: string) {
    r.replace(link, near + [c] + far) == r.replace(link, near)
  }

  lemma NoLinkUpToSeam(r: Rules, a: string, c: char, b: string)
    requires Usable(r) && c in r.enders && forall i | 0 <= i < |a| :: !SchemeAt(r.scheme, a, i)
    ensures forall i | 0 <= i <= |a| :: !SchemeAt(r.scheme, a + [c] + b, i)
  {
    var text := a + [c] + b;
    forall i | 0 <= i <= |a| ensures !SchemeAt(r.scheme, text, i) {
      if SchemeAt(r.scheme, text, i) {
        assert text[|a|] == c;
        SchemeHasNoEnder(r, text, i);
        assert text == a + ([c] + b);
        SchemeIsLocal(r.scheme, a, [c] + b, i);
      }
    }
  }

  // Replacing the links of a text is replacing them on both sides of a character that ends links.
  lemma {:induction false} ReplacesAcrossSeam(r: Rules, a: string, c: char, b: string)
    requires Usable(r) && c in r.enders && forall link, near :: BlindPast(r, c, link, near, b)
    ensures ReplaceLinks(r, a + [c] + b) == ReplaceLinks(r, a) + [c] + ReplaceLinks(r, b)
    decreases |a|
  {
    hide Usable, SchemeAt, FindScheme, ReplaceFrom, LinkEnd;
    if FindScheme(r.scheme, a, 0) == |a| {
      NoLinkUpToSeam(r, a, c, b);
      SkipPrefix(r, a + [c], b);
      NoLinkKept(r, a);
    } else {
      var before, link, rest := FirstLink(r, a);
      var further := rest + [c] + b;
      assert a + [c] + b == before + link + further && further[0] in r.enders;
      PeelLink(r, before, link, rest);
      PeelLink(r, before, link, further);
      assert BlindPast(r, c, link, rest, b);
      ReplacesAcrossSeam(r, rest, c, b);
    }
  }

  // ---- two sets of enders ----

  lemma SameEnd(text: string, at: nat, one: set<char>, other: set<char>)
    requires at <= |text| && forall i | 0 <= i < |text| :: text[i] in one <==> text[i] in other
    ensures LinkEnd(text, at, one) == LinkEnd(text, at, other)
  {
  }

  // Enders a text does not tell apart give the same replacement.
  lemma {:induction false} SameReplacement(one: Rules, other: Rules, text: string, at: nat)
    requires Usable(one) && Usable(other) && one.scheme == other.scheme && one.replace == other.replace && at <= |text|
    requires forall i | 0 <= i < |text| :: text[i] in one.enders <==> text[i] in other.enders
    ensures ReplaceFrom(one, text, at) == ReplaceFrom(other, text, at)
    decreases |text| - at
  {
    hide Usable, SchemeAt, ReplaceFrom, LinkEnd;
    var found := FindScheme(one.scheme, text, at);
    if found < |text| {
      var end := LinkEnd(text, found, one.enders);
      SameEnd(text, found, one.enders, other.enders);
      ReplaceStep(one, text, at, found, end);
      ReplaceStep(other, text, at, found, end);
      SameReplacement(one, other, text, end);
    } else {
      ReplaceStep(one, text, at, found, found);
      ReplaceStep(other, text, at, found, found);
    }
  }
}
