/** String helpers the source gets from the JavaScript runtime: upper-casing,
    substring search and the decimal rendering of a count inside a template
    string. */
module Text {

  /** Upper-case of one character. Only the ASCII letters a-z are mapped. */
  function UpperChar(ch: char): (r: char)
    ensures 'a' <= ch <= 'z' ==> r as int == ch as int - 32
    ensures !('a' <= ch <= 'z') ==> r == ch
    ensures !('a' <= r <= 'z')
  {
    if 'a' <= ch <= 'z' then (ch as int - 32) as char else ch
  }

  /** Upper-case of a string, character by character. */
  function Upper(s: string): (r: string)
    ensures |r| == |s|
    ensures forall i :: 0 <= i < |s| ==> r[i] == UpperChar(s[i])
  {
    seq(|s|, i requires 0 <= i < |s| => UpperChar(s[i]))
  }

  /** Upper-casing twice is upper-casing once. */
  lemma {:induction false} UpperIdempotent(s: string)
    ensures Upper(Upper(s)) == Upper(s)
  {
  }

  /** `pat` occurs in `s` starting at position `i`. */
  predicate OccursAt(s: string, pat: string, i: int)
  {
    0 <= i && i + |pat| <= |s| && s[i..i + |pat|] == pat
  }

  /** `pat` matches `s` at position `i` from its `j`-th character on. */
  predicate MatchesFrom(s: string, pat: string, i: nat, j: nat)
    requires i + |pat| <= |s|
    decreases |pat| - j
  {
    j >= |pat| || (s[i + j] == pat[j] && MatchesFrom(s, pat, i, j + 1))
  }

  /** Substring search from start position `i` rightwards. */
  predicate ContainsFrom(s: string, pat: string, i: nat)
    decreases |s| - i
  {
    if i + |pat| > |s| then false else MatchesFrom(s, pat, i, 0) || ContainsFrom(s, pat, i + 1)
  }

  /** `pat` is a substring of `s`. */
  predicate Contains(s: string, pat: string)
  {
    ContainsFrom(s, pat, 0)
  }

  lemma {:induction false} MatchesFromIff(s: string, pat: string, i: nat, j: nat)
    requires i + |pat| <= |s| && j <= |pat|
    ensures MatchesFrom(s, pat, i, j) <==> s[i + j..i + |pat|] == pat[j..]
    decreases |pat| - j
  {
    if j < |pat| {
      MatchesFromIff(s, pat, i, j + 1);
      assert s[i + j..i + |pat|] == [s[i + j]] + s[i + j + 1..i + |pat|];
      assert pat[j..] == [pat[j]] + pat[j + 1..];
    }
  }

  lemma {:induction false} ContainsFromIff(s: string, pat: string, i: nat)
    ensures ContainsFrom(s, pat, i) <==> exists k :: i <= k && OccursAt(s, pat, k)
    decreases |s| - i
  {
    if i + |pat| <= |s| {
      MatchesFromIff(s, pat, i, 0);
      assert pat[0..] == pat;
      ContainsFromIff(s, pat, i + 1);
      if MatchesFrom(s, pat, i, 0) {
        assert OccursAt(s, pat, i);
      } else if ContainsFrom(s, pat, i + 1) {
        var k :| i + 1 <= k && OccursAt(s, pat, k);
        assert i <= k;
      }
      if exists k :: i <= k && OccursAt(s, pat, k) {
        var k :| i <= k && OccursAt(s, pat, k);
        if k > i {
          assert i + 1 <= k && OccursAt(s, pat, k);
        } else {
          assert MatchesFrom(s, pat, i, 0);
        }
      }
    }
  }

  /** The search finds `pat` exactly when it occurs at some position. */
  lemma {:induction false} ContainsIffOccurs(s: string, pat: string)
    ensures Contains(s, pat) <==> exists i :: OccursAt(s, pat, i)
  {
    ContainsFromIff(s, pat, 0);
  }

  /** The decimal digit character for 0..9. */
  function DigitChar(d: nat): (ch: char)
    requires d < 10
    ensures '0' <= ch <= '9'
    ensures ch as int - '0' as int == d
  {
    ('0' as int + d) as char
  }

  /** Decimal rendering of a natural number, without leading zeros. */
  function ShowNat(n: nat): (s: string)
    ensures |s| > 0
    ensures forall i :: 0 <= i < |s| ==> '0' <= s[i] <= '9'
    ensures |s| > 1 ==> s[0] != '0'
  {
    if n < 10 then [DigitChar(n)] else ShowNat(n / 10) + [DigitChar(n % 10)]
  }

  /** Reads a string of decimal digits back as a number. */
  function ParseNat(s: string): nat
    requires forall i :: 0 <= i < |s| ==> '0' <= s[i] <= '9'
  {
    if |s| == 0 then 0
    else 10 * ParseNat(s[..|s| - 1]) + (s[|s| - 1] as int - '0' as int)
  }

  /** Reading back a rendered number gives the number. */
  lemma {:induction false} ParseShowNat(n: nat)
    ensures ParseNat(ShowNat(n)) == n
  {
    if n >= 10 {
      ParseShowNat(n / 10);
      var s := ShowNat(n);
      assert s[..|s| - 1] == ShowNat(n / 10);
    }
  }

  /** Distinct numbers render as distinct strings. */
  lemma {:induction false} ShowNatInjective(m: nat, n: nat)
    ensures ShowNat(m) == ShowNat(n) ==> m == n
  {
    ParseShowNat(m);
    ParseShowNat(n);
  }
}
