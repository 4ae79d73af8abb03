// ASCII case folding, searching and decimals, shared by the grammars.
module Texts {
  function Lower(c: char): char {
    if 'A' <= c <= 'Z' then c - 'A' + 'a' else c
  }

  predicate IsSmallLetter(c: char) {
    c in {'a', 'b', 'c', 'd', 'e', 'f', 'g', 'h', 'i', 'j', 'k', 'l', 'm',
          'n', 'o', 'p', 'q', 'r', 's', 't', 'u', 'v', 'w', 'x', 'y', 'z'}
  }

  // A letter and its capital.
  predicate IsCapitalOf(c: char, small: char) {
    IsSmallLetter(small) && c as int + 32 == small as int
  }

  // Characters fold to the same exactly when they are the same but for the case of a letter of ASCII.
  lemma LowerExactly(c: char, d: char)
    ensures Lower(c) == Lower(d) <==> c == d || IsCapitalOf(c, d) || IsCapitalOf(d, c)
  {
  }

  function Folded(text: string): (r: string)
    ensures |r| == |text|
  {
    seq(|text|, i requires 0 <= i < |text| => Lower(text[i]))
  }

  function Digit(n: nat): char {
    '0' + (n % 10) as char
  }

  // A number written without a leading zero.
  function Decimal(n: nat): (s: string)
    ensures |s| > 0 && forall i | 0 <= i < |s| :: '0' <= s[i] <= '9'
  {
    if n < 10 then [Digit(n)] else Decimal(n / 10) + [Digit(n)]
  }

  lemma {:induction false} DecimalInjective(m: nat, n: nat)
    requires Decimal(m) == Decimal(n)
    ensures m == n
  {
    var s, t := Decimal(m), Decimal(n);
    if m >= 10 && n >= 10 {
      assert s[..|s| - 1] == Decimal(m / 10) && t[..|t| - 1] == Decimal(n / 10);
      assert s[|s| - 1] == Digit(m) && t[|t| - 1] == Digit(n);
      DecimalInjective(m / 10, n / 10);
    } else {
      assert s[0] == t[0] && |s| == |t|;
    }
  }

  // The first c at or after `at`, or the end of the text.
  function Find(text: string, c: char, at: nat): (r: nat)
    requires at <= |text|
    ensures at <= r <= |text| && (r < |text| ==> text[r] == c) && forall i | at <= i < r :: text[i] != c
    decreases |text| - at
  {
    if at == |text| || text[at] == c then at else Find(text, c, at + 1)
  }

  lemma FindInRest(rest: string, c: char, start: nat)
    requires start <= |rest|
    ensures Find(rest[start..], c, 0) == Find(rest, c, start) - start
  {
    hide Find;
    assert forall i | 0 <= i < |rest| - start :: rest[start..][i] == rest[start + i];
  }
}
