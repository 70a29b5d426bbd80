/** String helpers shared by the server and the client model. */
module Strings {

  /** `t` is a prefix of `s`. */
  predicate IsPrefix(t: string, s: string) {
    |t| <= |s| && s[..|t|] == t
  }

  /** `t` occurs somewhere in `s` (JavaScript's `s.includes(t)`). */
  predicate IsSubstring(t: string, s: string)
    decreases |s|
  {
    IsPrefix(t, s) || (s != [] && IsSubstring(t, s[1..]))
  }

  /** The pieces of a template literal joined in order. */
  function Concat(ps: seq<string>): (r: string)
    ensures ps != [] ==> IsPrefix(ps[0], r)
  {
    if ps == [] then "" else ps[0] + Concat(ps[1..])
  }

  /** Number of occurrences of `c` in `s`. */
  function Count(s: string, c: char): nat {
    if s == [] then 0 else (if s[0] == c then 1 else 0) + Count(s[1..], c)
  }

  /** `Array.prototype.filter(Boolean)` on strings: drops the empty (falsy) ones. */
  function NonEmpty(ss: seq<string>): (r: seq<string>)
    ensures |r| <= |ss|
    ensures forall i | 0 <= i < |r| :: r[i] != ""
  {
    if ss == [] then []
    else if ss[0] == "" then NonEmpty(ss[1..])
    else [ss[0]] + NonEmpty(ss[1..])
  }

  /** `Array.prototype.join(sep)`. */
  function Join(ss: seq<string>, sep: string): string {
    if ss == [] then ""
    else if |ss| == 1 then ss[0]
    else ss[0] + sep + Join(ss[1..], sep)
  }

  /** Decimal digits of a natural number, as JavaScript prints it in a template literal. */
  function NatToString(n: nat): (r: string)
    ensures r != []
    ensures forall i | 0 <= i < |r| :: '0' <= r[i] <= '9'
  {
    if n < 10 then [Digit(n)] else NatToString(n / 10) + [Digit(n % 10)]
  }

  function Digit(d: nat): (c: char)
    requires d < 10
    ensures '0' <= c <= '9'
  {
    ('0' as int + d) as char
  }

  lemma {:induction false} SubstringExtendLeft(t: string, a: string, s: string)
    requires IsSubstring(t, s)
    ensures IsSubstring(t, a + s)
    decreases |a|
  {
    if a == [] {
      assert a + s == s;
    } else {
      SubstringExtendLeft(t, a[1..], s);
      assert (a + s)[1..] == a[1..] + s;
    }
  }

  lemma {:induction false} PrefixIsSubstringExtended(t: string, s: string, b: string)
    requires IsPrefix(t, s)
    ensures IsPrefix(t, s + b)
  {
    assert (s + b)[..|t|] == s[..|t|];
  }

  lemma {:induction false} SubstringExtendRight(t: string, s: string, b: string)
    requires IsSubstring(t, s)
    ensures IsSubstring(t, s + b)
    decreases |s|
  {
    if IsPrefix(t, s) {
      PrefixIsSubstringExtended(t, s, b);
    } else {
      SubstringExtendRight(t, s[1..], b);
      assert (s + b)[1..] == s[1..] + b;
    }
  }

  /** Every piece of a concatenation occurs in it. */
  lemma {:induction false} PieceOfConcat(ps: seq<string>, i: nat)
    requires i < |ps|
    ensures IsSubstring(ps[i], Concat(ps))
  {
    if i == 0 {
      assert IsPrefix(ps[0], Concat(ps));
    } else {
      PieceOfConcat(ps[1..], i - 1);
      SubstringExtendLeft(ps[i], ps[0], Concat(ps[1..]));
    }
  }

  lemma {:induction false} SubstringOfPrefix(t: string, u: string, s: string)
    requires IsSubstring(t, u) && IsPrefix(u, s)
    ensures IsSubstring(t, s)
    decreases |u|
  {
    if IsPrefix(t, u) {
      assert s[..|t|] == u[..|t|];
    } else {
      assert u[1..] == s[1..][..|u| - 1];
      SubstringOfPrefix(t, u[1..], s[1..]);
    }
  }

  /** Occurring is transitive. */
  lemma {:induction false} SubstringTransitive(t: string, u: string, s: string)
    requires IsSubstring(t, u) && IsSubstring(u, s)
    ensures IsSubstring(t, s)
    decreases |s|
  {
    if IsPrefix(u, s) {
      SubstringOfPrefix(t, u, s);
    } else {
      SubstringTransitive(t, u, s[1..]);
    }
  }

  lemma EmptyIsSubstring(s: string)
    ensures IsSubstring("", s)
  {
    assert IsPrefix("", s);
  }
}
