/**
 * `normalizeNewlines`: one global `replace(/\r\n/g, "\n")`. The regular expression
 * is matched left to right; at each position either the pair CR LF is found (and
 * becomes LF, and matching resumes after it) or one character is copied. The
 * `(s || "")` guard maps only `""` to itself here: both call sites always
 * pass a string.
 */
module Newlines {
  import opened Strings

  const CR: char := '\r'
  const LF: char := '\n'

  /** Number of positions where CR is immediately followed by LF. */
  function CrLfCount(s: string): nat {
    if |s| < 2 then 0 else (if s[0] == CR && s[1] == LF then 1 else 0) + CrLfCount(s[1..])
  }

  /** Never longer than its input, and empty only for empty input; the exact counts are the lemmas below. */
  function Normalize(s: string): (r: string)
    ensures |r| <= |s|
    ensures r == [] <==> s == []
  {
    if s == [] then []
    else if |s| >= 2 && s[0] == CR && s[1] == LF then
      assert s[1..][1..] == s[2..];
      [LF] + Normalize(s[2..])
    else
      [s[0]] + Normalize(s[1..])
  }

  /** Text with no CR comes back unchanged. */
  lemma {:induction false} NoCrUnchanged(s: string)
    requires CR !in s
    ensures Normalize(s) == s
  {
    if s != [] {
      NoCrUnchanged(s[1..]);
    }
  }

  /** Windows line endings: every LF written as CR LF. */
  function ExpandLf(t: string): (r: string)
    ensures r == [] || r[0] != LF
  {
    if t == [] then [] else (if t[0] == LF then [CR, LF] else [t[0]]) + ExpandLf(t[1..])
  }

  /** Normalisation undoes `ExpandLf` exactly, lone CRs included. */
  lemma {:induction false} NormalizeExpandLf(t: string)
    ensures Normalize(ExpandLf(t)) == t
  {
    if t != [] {
      var rest := ExpandLf(t[1..]);
      NormalizeExpandLf(t[1..]);
      if t[0] == LF {
        assert ExpandLf(t) == [CR, LF] + rest;
        assert (([CR, LF] + rest)[2..]) == rest;
      } else {
        assert ExpandLf(t) == [t[0]] + rest;
        assert ([t[0]] + rest)[1..] == rest;
      }
    }
  }

  /** A CR LF pair at the front becomes one LF. */
  lemma NormalizePair(t: string)
    ensures Normalize([CR, LF] + t) == [LF] + Normalize(t)
  {
    assert ([CR, LF] + t)[2..] == t;
  }

  /** Any other character at the front is copied. */
  lemma NormalizeCopy(c: char, t: string)
    requires !(c == CR && t != [] && t[0] == LF)
    ensures Normalize([c] + t) == [c] + Normalize(t)
  {
    assert ([c] + t)[1..] == t;
  }

  /** One character fewer per CR LF pair. */
  lemma {:induction false} NormalizeLength(s: string)
    ensures |Normalize(s)| == |s| - CrLfCount(s)
  {
    if |s| >= 2 && s[0] == CR && s[1] == LF {
      NormalizeLength(s[2..]);
      NormalizePair(s[2..]);
      assert s == [CR, LF] + s[2..];
      assert s[1..][1..] == s[2..];
    } else if s != [] {
      NormalizeLength(s[1..]);
      NormalizeCopy(s[0], s[1..]);
      assert s == [s[0]] + s[1..];
    }
  }

  /** Every LF is kept. */
  lemma {:induction false} NormalizeKeepsLf(s: string)
    ensures Count(Normalize(s), LF) == Count(s, LF)
  {
    if |s| >= 2 && s[0] == CR && s[1] == LF {
      NormalizeKeepsLf(s[2..]);
      NormalizePair(s[2..]);
      assert s == [CR, LF] + s[2..];
      assert s[1..][1..] == s[2..];
      assert ([LF] + Normalize(s[2..]))[1..] == Normalize(s[2..]);
    } else if s != [] {
      NormalizeKeepsLf(s[1..]);
      NormalizeCopy(s[0], s[1..]);
      assert s == [s[0]] + s[1..];
      assert ([s[0]] + Normalize(s[1..]))[1..] == Normalize(s[1..]);
    }
  }

  /** Exactly the CR of each CR LF pair is dropped; lone CRs stay. */
  lemma {:induction false} NormalizeDropsPairedCr(s: string)
    ensures Count(Normalize(s), CR) == Count(s, CR) - CrLfCount(s)
  {
    if |s| >= 2 && s[0] == CR && s[1] == LF {
      NormalizeDropsPairedCr(s[2..]);
      NormalizePair(s[2..]);
      assert s == [CR, LF] + s[2..];
      assert s[1..][1..] == s[2..];
      assert ([LF] + Normalize(s[2..]))[1..] == Normalize(s[2..]);
    } else if s != [] {
      NormalizeDropsPairedCr(s[1..]);
      NormalizeCopy(s[0], s[1..]);
      assert s == [s[0]] + s[1..];
      assert ([s[0]] + Normalize(s[1..]))[1..] == Normalize(s[1..]);
    }
  }

  /** The replacement is local: text can be normalised piecewise at any cut that does not split a CR LF pair. */
  lemma {:induction false} NormalizeAppend(a: string, b: string)
    requires !(a != [] && a[|a| - 1] == CR && b != [] && b[0] == LF)
    ensures Normalize(a + b) == Normalize(a) + Normalize(b)
    decreases |a|, 1
  {
    if a == [] {
      assert a + b == b;
    } else if |a| >= 2 && a[0] == CR && a[1] == LF {
      NormalizeAppendPair(a[2..], b);
      assert a == [CR, LF] + a[2..];
    } else {
      NormalizeAppendCopy(a[0], a[1..], b);
      assert a == [a[0]] + a[1..];
    }
  }

  lemma {:induction false} NormalizeAppendPair(rest: string, b: string)
    requires !(rest != [] && rest[|rest| - 1] == CR && b != [] && b[0] == LF)
    ensures Normalize([CR, LF] + rest + b) == Normalize([CR, LF] + rest) + Normalize(b)
    decreases |rest| + 2, 0
  {
    calc {
      Normalize([CR, LF] + rest + b);
      { assert [CR, LF] + rest + b == [CR, LF] + (rest + b); }
      Normalize([CR, LF] + (rest + b));
      { NormalizePair(rest + b); }
      [LF] + Normalize(rest + b);
      { NormalizeAppend(rest, b); }
      [LF] + (Normalize(rest) + Normalize(b));
      ([LF] + Normalize(rest)) + Normalize(b);
      { NormalizePair(rest); }
      Normalize([CR, LF] + rest) + Normalize(b);
    }
  }

  lemma {:induction false} NormalizeAppendCopy(c: char, rest: string, b: string)
    requires !(c == CR && rest != [] && rest[0] == LF)
    requires !(([c] + rest)[|rest|] == CR && b != [] && b[0] == LF)
    ensures Normalize([c] + rest + b) == Normalize([c] + rest) + Normalize(b)
    decreases |rest| + 1, 0
  {
    if rest != [] {
      assert rest[|rest| - 1] == ([c] + rest)[|rest|];
    }
    calc {
      Normalize([c] + rest + b);
      { assert [c] + rest + b == [c] + (rest + b); }
      Normalize([c] + (rest + b));
      { NormalizeCopy(c, rest + b); }
      [c] + Normalize(rest + b);
      { NormalizeAppend(rest, b); }
      [c] + (Normalize(rest) + Normalize(b));
      ([c] + Normalize(rest)) + Normalize(b);
      { NormalizeCopy(c, rest); }
      Normalize([c] + rest) + Normalize(b);
    }
  }

  /** One pass does not remove every CR LF: "\r\r\n" becomes "\r\n" and only a second pass gives "\n". */
  lemma NotIdempotent()
    ensures Normalize("\r\r\n") == "\r\n"
    ensures Normalize(Normalize("\r\r\n")) == "\n"
  {
  }
}
