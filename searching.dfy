/** `Algorithms::binarySearch`, `kmpPrefix` and `kmpSearch`. Strings are
    sequences of characters; the vectors they return are sequences. */
module Searching {
  import opened Sorting

  // ---------------------------------------------------------------------
  // Binary search
  // ---------------------------------------------------------------------

  /** `binarySearch(arr, target)`: an index holding `target`, or -1; on a
      sorted vector -1 means `target` does not occur. */
  method BinarySearch(arr: seq<int>, target: int) returns (index: int)
    ensures -1 <= index < |arr|
    ensures index != -1 ==> arr[index] == target
    ensures Sorted(arr) && index == -1 ==> target !in arr
  {
    var l, r := 0, |arr| - 1;
    while l <= r
      invariant 0 <= l <= r + 1 <= |arr|
      invariant Sorted(arr) ==> forall k :: 0 <= k < |arr| && arr[k] == target ==> l <= k <= r
      decreases r - l
    {
      var mid := l + (r - l) / 2;
      if arr[mid] == target {
        return mid;
      }
      if arr[mid] < target {
        l := mid + 1;
      } else {
        r := mid - 1;
      }
    }
    return -1;
  }

  // ---------------------------------------------------------------------
  // Occurrences of a pattern
  // ---------------------------------------------------------------------

  /** `pat` occurs in `text` starting at q. */
  ghost predicate MatchAt(text: string, pat: string, q: int)
  {
    0 <= q && q + |pat| <= |text| && forall t :: 0 <= t < |pat| ==> text[q + t] == pat[t]
  }

  /** The starts below n of occurrences of `pat` in `text`, ascending: what
      a search that tries every start in turn reports. */
  ghost function Matches(text: string, pat: string, n: nat): seq<int>
  {
    if n == 0 then []
    else Matches(text, pat, n - 1) + (if MatchAt(text, pat, n - 1) then [n - 1] else [])
  }

  /** `Matches` lists exactly the occurrence starts below n, each once and
      in ascending order. */
  lemma {:induction false} MatchesSpec(text: string, pat: string, n: nat)
    ensures forall q :: q in Matches(text, pat, n) <==> 0 <= q < n && MatchAt(text, pat, q)
    ensures forall x, y :: 0 <= x < y < |Matches(text, pat, n)| ==> Matches(text, pat, n)[x] < Matches(text, pat, n)[y]
  {
    if n > 0 {
      MatchesSpec(text, pat, n - 1);
      var m := Matches(text, pat, n - 1);
      if MatchAt(text, pat, n - 1) {
        var m' := m + [n - 1];
        forall x, y | 0 <= x < y < |m'| ensures m'[x] < m'[y] {
          if y == |m| {
            assert m[x] in m;
          }
        }
      }
    }
  }

  /** Starts in [lo, hi) that are no occurrence add nothing. */
  lemma {:induction false} MatchesNone(text: string, pat: string, lo: nat, hi: nat)
    requires lo <= hi && forall q :: lo <= q < hi ==> !MatchAt(text, pat, q)
    ensures Matches(text, pat, hi) == Matches(text, pat, lo)
    decreases hi - lo
  {
    if lo < hi {
      MatchesNone(text, pat, lo, hi - 1);
    }
  }

  // ---------------------------------------------------------------------
  // Borders and the prefix table
  // ---------------------------------------------------------------------

  /** k is a border of pat[..i]: its first k characters are also its last
      k. */
  ghost predicate Border(pat: string, i: int, k: int)
  {
    0 <= k <= i <= |pat| && forall t :: 0 <= t < k ==> pat[t] == pat[i - k + t]
  }

  /** k is the longest proper border of pat[..i], the entry `kmpPrefix`
      promises at index i - 1. */
  ghost predicate LongestBorder(pat: string, i: int, k: int)
  {
    0 <= k < i && Border(pat, i, k) && forall k' :: k < k' < i ==> !Border(pat, i, k')
  }

  /** A border of a border of pat[..i] is a border of pat[..i]. */
  lemma BorderOfBorder(pat: string, i: int, len: int, k: int)
    requires Border(pat, i, len) && Border(pat, len, k)
    ensures Border(pat, i, k)
  {
    forall t | 0 <= t < k ensures pat[t] == pat[i - k + t] {
      assert pat[t] == pat[len - k + t];
      assert pat[len - k + t] == pat[i - len + (len - k + t)];
    }
  }

  /** A shorter border of pat[..i] is a border of its longer border. */
  lemma ShorterBorder(pat: string, i: int, len: int, k: int)
    requires Border(pat, i, len) && Border(pat, i, k) && k <= len
    ensures Border(pat, len, k)
  {
    forall t | 0 <= t < k ensures pat[t] == pat[len - k + t] {
      assert pat[len - k + t] == pat[i - len + (len - k + t)];
    }
  }

  /** The borders of pat[..i + 1] of length b > 0 are the borders of
      pat[..i] of length b - 1 followed by a copy of pat[i]. */
  lemma BorderExtend(pat: string, i: int, b: int)
    requires 0 <= i < |pat| && 1 <= b <= i + 1
    ensures Border(pat, i + 1, b) <==> Border(pat, i, b - 1) && pat[b - 1] == pat[i]
  {
    if Border(pat, i, b - 1) && pat[b - 1] == pat[i] {
      forall t | 0 <= t < b ensures pat[t] == pat[i + 1 - b + t] {
        if t < b - 1 {
          assert pat[t] == pat[i - (b - 1) + t];
        }
      }
    }
    if Border(pat, i + 1, b) {
      assert pat[b - 1] == pat[i + 1 - b + (b - 1)];
      forall t | 0 <= t < b - 1 ensures pat[t] == pat[i - (b - 1) + t] {
        assert pat[t] == pat[i + 1 - b + t];
      }
    }
  }

  /** No border of pat[..i] longer than len extends by pat[i]. */
  ghost predicate NoLongerExtends(pat: string, i: int, len: int)
    requires 0 <= i < |pat|
  {
    forall k :: len < k < i && Border(pat, i, k) ==> pat[k] != pat[i]
  }

  /** The state of `kmpPrefix` when it works on index i with candidate len. */
  ghost predicate PrefixInv(pat: string, i: int, len: int)
  {
    0 <= len < i < |pat| && Border(pat, i, len) && NoLongerExtends(pat, i, len)
  }

  /** On `pat[i] == pat[len]` the longest proper border of pat[..i + 1] is
      len + 1. */
  lemma PrefixMatch(pat: string, i: int, len: int)
    requires PrefixInv(pat, i, len) && pat[i] == pat[len]
    ensures LongestBorder(pat, i + 1, len + 1)
  {
    BorderExtend(pat, i, len + 1);
    var next := i + 1;
    forall k' | len + 1 < k' < next ensures !Border(pat, next, k') {
      BorderExtend(pat, i, k');
    }
  }

  /** On a mismatch with len == 0 the longest proper border of pat[..i + 1]
      is empty. */
  lemma PrefixNone(pat: string, i: int)
    requires PrefixInv(pat, i, 0) && pat[i] != pat[0]
    ensures LongestBorder(pat, i + 1, 0)
  {
    var next := i + 1;
    forall k' | 0 < k' < next ensures !Border(pat, next, k') {
      BorderExtend(pat, i, k');
    }
  }

  /** On a mismatch with len > 0 the next candidate is the longest proper
      border of pat[..len]. */
  lemma PrefixFallback(pat: string, i: int, len: int, b: int)
    requires PrefixInv(pat, i, len) && len > 0 && pat[i] != pat[len] && LongestBorder(pat, len, b)
    ensures PrefixInv(pat, i, b)
  {
    BorderOfBorder(pat, i, len, b);
    forall k | b < k < i && Border(pat, i, k) ensures pat[k] != pat[i] {
      if k < len {
        ShorterBorder(pat, i, len, k);
      }
    }
  }

  /** When i moves on, the candidate is the longest proper border of
      pat[..i]. */
  lemma PrefixNext(pat: string, i: int, len: int)
    requires 0 < i < |pat| && LongestBorder(pat, i, len)
    ensures PrefixInv(pat, i, len)
  {
  }

  /** The first i entries of `lps` are those `kmpPrefix` promises. */
  ghost predicate PrefixTable(pat: string, lps: seq<int>, i: int)
  {
    |lps| == |pat| && forall k :: 0 <= k < i && k < |pat| ==> LongestBorder(pat, k + 1, lps[k])
  }

  /** Recording the entry for index i extends the table. */
  lemma TableExtend(pat: string, lps: seq<int>, i: int, v: int)
    requires PrefixTable(pat, lps, i) && 0 <= i < |pat| && LongestBorder(pat, i + 1, v)
    ensures PrefixTable(pat, lps[i := v], i + 1)
  {
  }

  /** `kmpPrefix(pat)`: entry k is the length of the longest proper border
      of pat[..k + 1]. */
  method KmpPrefix(pat: string) returns (lps: seq<int>)
    ensures |lps| == |pat|
    ensures forall k :: 0 <= k < |pat| ==> LongestBorder(pat, k + 1, lps[k])
  {
    lps := seq(|pat|, _ => 0);
    var i, len := 1, 0;
    while i < |pat|
      invariant 1 <= i && (i <= |pat| || |pat| == 0)
      invariant PrefixTable(pat, lps, i)
      invariant i < |pat| ==> PrefixInv(pat, i, len)
      decreases |pat| - i, len
    {
      if pat[i] == pat[len] {
        PrefixMatch(pat, i, len);
        TableExtend(pat, lps, i, len + 1);
        len := len + 1;
        lps := lps[i := len];
        i := i + 1;
        if i < |pat| {
          PrefixNext(pat, i, len);
        }
      } else if len > 0 {
        assert LongestBorder(pat, len, lps[len - 1]);
        PrefixFallback(pat, i, len, lps[len - 1]);
        len := lps[len - 1];
      } else {
        PrefixNone(pat, i);
        TableExtend(pat, lps, i, 0);
        lps := lps[i := 0];
        i := i + 1;
        if i < |pat| {
          PrefixNext(pat, i, len);
        }
      }
    }
  }

  // ---------------------------------------------------------------------
  // The search
  // ---------------------------------------------------------------------

  /** The last j characters of text[..i] are the first j of `pat`. */
  ghost predicate Suffix(text: string, pat: string, i: int, j: int)
  {
    0 <= j <= i <= |text| && j <= |pat| && forall t :: 0 <= t < j ==> text[i - j + t] == pat[t]
  }

  /** A start q with i - j <= q < i and a border-sized overlap: an occurrence
      there makes i - q a border of pat[..j]. */
  lemma OverlapBorder(text: string, pat: string, i: int, j: int, q: int)
    requires Suffix(text, pat, i, j) && i - j <= q < i && MatchAt(text, pat, q) && i - q <= j
    ensures Border(pat, j, i - q)
  {
    var k := i - q;
    forall t | 0 <= t < k ensures pat[t] == pat[j - k + t] {
      assert text[q + t] == pat[t];
      assert text[i - j + (j - k + t)] == pat[j - k + t];
    }
  }

  /** A whole occurrence ends at i: it is recorded, and the search goes on
      with the longest proper border b of `pat`, skipping no occurrence. */
  lemma SearchFound(text: string, pat: string, i: int, j: int, b: int)
    requires Suffix(text, pat, i, j) && j == |pat| > 0 && LongestBorder(pat, j, b)
    ensures Suffix(text, pat, i, b)
    ensures Matches(text, pat, i - b) == Matches(text, pat, i - j) + [i - j]
  {
    BorderOfSuffix(text, pat, i, j, b);
    assert MatchAt(text, pat, i - j);
    forall q | i - j + 1 <= q < i - b ensures !MatchAt(text, pat, q) {
      if MatchAt(text, pat, q) {
        OverlapBorder(text, pat, i, j, q);
      }
    }
    MatchesNone(text, pat, i - j + 1, i - b);
  }

  /** The suffix shrinks to a border of the matched prefix. */
  lemma BorderOfSuffix(text: string, pat: string, i: int, j: int, b: int)
    requires Suffix(text, pat, i, j) && Border(pat, j, b)
    ensures Suffix(text, pat, i, b)
  {
    forall t | 0 <= t < b ensures text[i - b + t] == pat[t] {
      assert text[i - j + (j - b + t)] == pat[j - b + t];
    }
  }

  /** text[i] mismatches pat[j] with j > 0: falling back to the longest
      proper border b of pat[..j] skips no occurrence. */
  lemma SearchFallback(text: string, pat: string, i: int, j: int, b: int)
    requires Suffix(text, pat, i, j) && 0 < j < |pat| && i < |text| && text[i] != pat[j]
    requires LongestBorder(pat, j, b)
    ensures Suffix(text, pat, i, b)
    ensures Matches(text, pat, i - b) == Matches(text, pat, i - j)
  {
    BorderOfSuffix(text, pat, i, j, b);
    forall q | i - j <= q < i - b ensures !MatchAt(text, pat, q) {
      if MatchAt(text, pat, q) {
        assert text[q + (i - q)] == pat[i - q];
        if i - q < j {
          OverlapBorder(text, pat, i, j, q);
        }
      }
    }
    MatchesNone(text, pat, i - j, i - b);
  }

  /** text[i] mismatches pat[0]: no occurrence starts at i. */
  lemma SearchSkip(text: string, pat: string, i: int)
    requires 0 <= i < |text| && |pat| > 0 && text[i] != pat[0]
    ensures Matches(text, pat, i + 1) == Matches(text, pat, i)
  {
    assert !MatchAt(text, pat, i);
  }

  /** At the end of the text, the starts not yet passed are too late for an
      occurrence. */
  lemma SearchEnd(text: string, pat: string, j: int)
    requires 0 <= j < |pat| && j <= |text|
    ensures Matches(text, pat, |text|) == Matches(text, pat, |text| - j)
  {
    MatchesNone(text, pat, |text| - j, |text|);
  }

  /** `kmpSearch(text, pat)`: the start of every occurrence of `pat` in
      `text`, ascending; nothing for an empty pattern. */
  method KmpSearch(text: string, pat: string) returns (res: seq<int>)
    ensures |pat| == 0 ==> res == []
    ensures |pat| > 0 ==> res == Matches(text, pat, |text|)
  {
    res := [];
    if |pat| == 0 {
      return;
    }
    var lps := KmpPrefix(pat);
    var i, j := 0, 0;
    while i < |text|
      invariant 0 <= j < |pat| && Suffix(text, pat, i, j)
      invariant res == Matches(text, pat, i - j)
      decreases 2 * |text| - 2 * i + j
    {
      if text[i] == pat[j] {
        i, j := i + 1, j + 1;
      }
      if j == |pat| {
        SearchFound(text, pat, i, j, lps[j - 1]);
        res := res + [i - j];
        j := lps[j - 1];
      } else if i < |text| && text[i] != pat[j] {
        if j > 0 {
          SearchFallback(text, pat, i, j, lps[j - 1]);
          j := lps[j - 1];
        } else {
          SearchSkip(text, pat, i);
          i := i + 1;
        }
      }
    }
    SearchEnd(text, pat, j);
  }
}
