/** `Algorithms::rabinKarpSearch`: search with a rolling polynomial hash
    modulo `mod`. Hashes are mathematical integers and characters their
    (non-negative) codes, so every intermediate value the source computes
    stays in [0, mod) or is a product of two such values. */
module RabinKarp {
  import opened Searching

  // ---------------------------------------------------------------------
  // Remainders
  // ---------------------------------------------------------------------

  /** A product of non-negative numbers is non-negative. */
  lemma NonNegMul(a: int, b: int)
    requires a >= 0 && b >= 0
    ensures a * b >= 0
  {
  }

  /** The remainder is determined by any quotient-remainder split. */
  lemma ModUnique(x: int, m: int, q: int, r: int)
    requires m > 0 && 0 <= r < m && x == q * m + r
    ensures x % m == r
  {
    var q0, r0 := x / m, x % m;
    assert x == q0 * m + r0;
    var d := q - q0;
    assert d * m == r0 - r;
    if d > 0 {
      NonNegMul(d - 1, m);
    } else if d < 0 {
      NonNegMul(-d - 1, m);
    }
  }

  /** Adding a multiple of m keeps the remainder. */
  lemma ModShift(x: int, k: int, m: int)
    requires m > 0
    ensures (x + k * m) % m == x % m
  {
    var q, r := x / m, x % m;
    assert x == q * m + r;
    assert x + k * m == (q + k) * m + r;
    ModUnique(x + k * m, m, q + k, r);
  }

  /** Numbers with the same remainder keep it through b * x + c. */
  lemma ModMulAdd(x: int, y: int, b: int, c: int, m: int)
    requires m > 0 && x % m == y % m
    ensures (b * x + c) % m == (b * y + c) % m
  {
    var k := x / m - y / m;
    assert x == x / m * m + x % m && y == y / m * m + y % m;
    assert x == y + k * m;
    assert b * x + c == (b * y + c) + (b * k) * m;
    ModShift(b * y + c, b * k, m);
  }

  // ---------------------------------------------------------------------
  // The hash
  // ---------------------------------------------------------------------

  /** base to the power e. */
  ghost function Pow(base: int, e: nat): int
  {
    if e == 0 then 1 else base * Pow(base, e - 1)
  }

  /** The polynomial value of s in `base`, without reduction: s[0] is the
      leading digit. */
  ghost function Hash(s: string, base: int): int
  {
    if |s| == 0 then 0 else base * Hash(s[..|s| - 1], base) + s[|s| - 1] as int
  }

  /** One more character is one more digit. */
  lemma HashSnoc(s: string, k: int, base: int)
    requires 0 <= k < |s|
    ensures Hash(s[..k + 1], base) == base * Hash(s[..k], base) + s[k] as int
  {
    assert s[..k + 1][..k] == s[..k];
  }

  /** Shifting a number with leading digit c of weight p by one place. */
  lemma LeadArith(base: int, c: int, p: int, x: int, last: int)
    ensures base * (c * p + x) + last == c * (base * p) + (base * x + last)
  {
  }

  /** Splitting off the leading digit. */
  lemma {:induction false} HashLead(s: string, base: int)
    requires |s| >= 1
    ensures Hash(s, base) == s[0] as int * Pow(base, |s| - 1) + Hash(s[1..], base)
    decreases |s|
  {
    if |s| > 1 {
      var u, v := s[..|s| - 1], s[1..];
      var s0, last, p := s[0] as int, s[|s| - 1] as int, Pow(base, |s| - 2);
      HashLead(u, base);
      assert u[1..] == v[..|v| - 1] && v[|v| - 1] == s[|s| - 1];
      assert Hash(v, base) == base * Hash(u[1..], base) + last;
      assert Hash(s, base) == base * (s0 * p + Hash(u[1..], base)) + last;
      assert Pow(base, |s| - 1) == base * p;
      LeadArith(base, s0, p, Hash(u[1..], base), last);
    } else {
      assert s[1..] == [] && s[..0] == [];
    }
  }

  /** The arithmetic of the update: removing the leading digit c (with
      h congruent to its weight p) from the window hash t, shifting and adding
      the next character e. */
  lemma RollArith(whole: int, rest: int, c: int, p: int, h: int, t: int, base: int, e: int, mod: int)
    requires mod > 0 && whole == c * p + rest && t == whole % mod && h % mod == p % mod
    ensures (base * (t - c * h % mod + mod) + e) % mod == (base * rest + e) % mod
  {
    ModMulAdd(h, p, c, 0, mod);
    var cp := c * p;
    assert c * h % mod == cp % mod;
    var qw, qc := whole / mod, cp / mod;
    assert whole == qw * mod + t;
    assert cp == qc * mod + cp % mod;
    var d := t - c * h % mod + mod;
    var k := -qw + qc + 1;
    assert k * mod == -(qw * mod) + qc * mod + mod;
    assert d == rest + k * mod;
    ModShift(rest, k, mod);
    ModMulAdd(d, rest, base, e, mod);
  }

  /** Sliding the window one place: the source's update formula gives the
      hash of the next window. */
  lemma Roll(text: string, i: int, m: int, base: int, mod: int, t: int, h: int)
    requires mod > 0 && 0 <= i && m >= 1 && i + m < |text|
    requires t == Hash(text[i..i + m], base) % mod && h % mod == Pow(base, m - 1) % mod
    ensures (base * (t - text[i] as int * h % mod + mod) + text[i + m] as int) % mod
            == Hash(text[i + 1..i + m + 1], base) % mod
  {
    var w := text[i..i + m];
    var rest := Hash(text[i + 1..i + m], base);
    HashLead(w, base);
    assert w[1..] == text[i + 1..i + m];
    var next := text[i + 1..i + m + 1];
    assert next[..m - 1] == text[i + 1..i + m];
    HashSnoc(next, m - 1, base);
    assert next[..m] == next;
    RollArith(Hash(w, base), rest, text[i] as int, Pow(base, m - 1), h, t, base, text[i + m] as int, mod);
  }

  /** Equal windows have equal hashes: a hash mismatch rules a start out. */
  lemma MatchSameHash(text: string, pat: string, i: int, base: int)
    requires MatchAt(text, pat, i)
    ensures Hash(text[i..i + |pat|], base) == Hash(pat, base)
  {
    assert text[i..i + |pat|] == pat;
  }

  // ---------------------------------------------------------------------
  // The search
  // ---------------------------------------------------------------------

  /** The character-by-character check of `rabinKarpSearch`. */
  method WindowMatch(text: string, pat: string, i: int) returns (matched: bool)
    requires 0 <= i && i + |pat| <= |text|
    ensures matched <==> MatchAt(text, pat, i)
  {
    matched := true;
    for j := 0 to |pat|
      invariant matched <==> forall t :: 0 <= t < j ==> text[i + t] == pat[t]
    {
      if text[i + j] != pat[j] {
        matched := false;
        break;
      }
    }
  }

  /** Reducing as one goes: one more digit on a reduced prefix hash gives the
      reduced hash of the longer prefix. */
  lemma HashStep(s: string, i: int, v: int, base: int, mod: int)
    requires mod > 0 && 0 <= i < |s| && v == Hash(s[..i], base) % mod
    ensures (base * v + s[i] as int) % mod == Hash(s[..i + 1], base) % mod
  {
    var prefix, c := Hash(s[..i], base), s[i] as int;
    HashSnoc(s, i, base);
    ModUnique(v, mod, 0, v);
    ModMulAdd(v, prefix, base, c, mod);
    assert (base * v + c) % mod == (base * prefix + c) % mod;
  }

  /** The first loop of `rabinKarpSearch`: the weight base^(m - 1) of a
      window's leading digit, reduced. */
  method LeadWeight(base: int, mod: int, m: int) returns (h: int)
    requires mod > 0 && m >= 1
    ensures h % mod == Pow(base, m - 1) % mod
  {
    h := 1;
    for i := 0 to m - 1
      invariant h % mod == Pow(base, i) % mod
    {
      ModMulAdd(h, Pow(base, i), base, 0, mod);
      h := (h * base) % mod;
    }
  }

  /** The second loop of `rabinKarpSearch`: the reduced hashes of the
      pattern and of the first window of the text. */
  method FirstHashes(text: string, pat: string, base: int, mod: int) returns (p: int, t: int)
    requires mod > 0 && |pat| <= |text|
    ensures p == Hash(pat, base) % mod && t == Hash(text[0..|pat|], base) % mod
  {
    p, t := 0, 0;
    for i := 0 to |pat|
      invariant p == Hash(pat[..i], base) % mod && t == Hash(text[..i], base) % mod
    {
      HashStep(pat, i, p, base, mod);
      HashStep(text, i, t, base, mod);
      p := (base * p + pat[i] as int) % mod;
      t := (base * t + text[i] as int) % mod;
    }
    assert pat[..|pat|] == pat && text[..|pat|] == text[0..|pat|];
  }

  /** `rabinKarpSearch(text, pat, base, mod)`: the start of every occurrence
      of `pat` in `text`, ascending, exactly as `kmpSearch` reports them;
      nothing for an empty pattern. */
  method RabinKarpSearch(text: string, pat: string, base: int, mod: int) returns (res: seq<int>)
    requires mod > 0 && base >= 0
    ensures |pat| == 0 ==> res == []
    ensures |pat| > 0 ==> res == Matches(text, pat, |text|)
  {
    res := [];
    var n, m := |text|, |pat|;
    if m == 0 || m > n {
      if m > n {
        MatchesNone(text, pat, 0, n);
      }
      return;
    }
    var h := LeadWeight(base, mod, m);
    var p, t := FirstHashes(text, pat, base, mod);
    for i := 0 to n - m + 1
      invariant i <= n - m ==> t == Hash(text[i..i + m], base) % mod
      invariant res == Matches(text, pat, i)
    {
      if p == t {
        var matched := WindowMatch(text, pat, i);
        if matched {
          res := res + [i];
        }
      } else {
        assert !MatchAt(text, pat, i) by {
          if MatchAt(text, pat, i) {
            MatchSameHash(text, pat, i, base);
          }
        }
      }
      if i < n - m {
        Roll(text, i, m, base, mod, t, h);
        t := (base * (t - text[i] as int * h % mod + mod) + text[i + m] as int) % mod;
      }
    }
    MatchesNone(text, pat, n - m + 1, n);
  }
}
