/** The few Python `str` operations the assistant relies on: `strip()` with no
    argument, `lower()`, `sep.join(items)` and substring containment. */
module Text {

  /** Python's `str.isspace()` for one character: exactly the code points Python
      treats as whitespace, which is what `str.strip()` with no argument removes. */
  predicate IsSpace(c: char) {
    ('\t' <= c <= '\r') || ('\U{1C}' <= c <= ' ') || c == '\U{85}' || c == '\U{A0}'
    || c == '\U{1680}' || ('\U{2000}' <= c <= '\U{200A}') || c == '\U{2028}' || c == '\U{2029}'
    || c == '\U{202F}' || c == '\U{205F}' || c == '\U{3000}'
  }

  /** True when every character of `s` is whitespace. */
  predicate AllSpace(s: string) {
    forall i :: 0 <= i < |s| ==> IsSpace(s[i])
  }

  /** Where `s.lstrip()` would start reading from index `i` on: the first index
      at or after `i` that holds no whitespace, or `|s|`. */
  function SpanStart(s: string, i: nat): (n: nat)
    requires i <= |s|
    ensures i <= n <= |s|
    ensures forall j :: i <= j < n ==> IsSpace(s[j])
    ensures n < |s| ==> !IsSpace(s[n])
    decreases |s| - i
  {
    if i < |s| && IsSpace(s[i]) then SpanStart(s, i + 1) else i
  }

  /** Where `rstrip()` of `s[lo..j]` ends: the smallest index at or after `lo`
      such that only whitespace lies between it and `j`. */
  function SpanEnd(s: string, lo: nat, j: nat): (n: nat)
    requires lo <= j <= |s|
    ensures lo <= n <= j
    ensures forall k :: n <= k < j ==> IsSpace(s[k])
    ensures lo < n ==> !IsSpace(s[n - 1])
    decreases j - lo
  {
    if lo < j && IsSpace(s[j - 1]) then SpanEnd(s, lo, j - 1) else j
  }

  /** `lo..hi` delimits what `strip()` keeps of `s`: only whitespace lies outside,
      and the kept part neither starts nor ends with whitespace. */
  predicate StripBounds(s: string, lo: int, hi: int) {
    0 <= lo <= hi <= |s|
    && (forall i :: 0 <= i < lo ==> IsSpace(s[i]))
    && (forall i :: hi <= i < |s| ==> IsSpace(s[i]))
    && (lo < hi ==> !IsSpace(s[lo]) && !IsSpace(s[hi - 1]))
  }

  /** `s.strip()`: leading whitespace is skipped, then trailing whitespace of
      what is left. */
  function Strip(s: string): (r: string)
    ensures exists lo, hi :: StripBounds(s, lo, hi) && r == s[lo..hi]
  {
    var lo := SpanStart(s, 0);
    var hi := SpanEnd(s, lo, |s|);
    assert StripBounds(s, lo, hi);
    s[lo..hi]
  }

  /** What `strip()` keeps is determined by the bounds: any two readings agree. */
  lemma StripBoundsUnique(s: string, lo: int, hi: int, lo': int, hi': int)
    requires StripBounds(s, lo, hi) && StripBounds(s, lo', hi')
    ensures s[lo..hi] == s[lo'..hi']
  {
  }

  /** Any bounds that meet `StripBounds` delimit exactly what `strip()` keeps. */
  lemma StripOfBounds(s: string, lo: int, hi: int)
    requires StripBounds(s, lo, hi)
    ensures Strip(s) == s[lo..hi]
  {
    var r := Strip(s);
    var lo', hi' :| StripBounds(s, lo', hi') && r == s[lo'..hi'];
    StripBoundsUnique(s, lo', hi', lo, hi);
  }

  /** `strip()` gives the empty string exactly for whitespace-only input. */
  lemma StripEmptyIffBlank(s: string)
    ensures Strip(s) == [] <==> AllSpace(s)
  {
    var r := Strip(s);
    var lo, hi :| StripBounds(s, lo, hi) && r == s[lo..hi];
    if r == [] {
      forall i | 0 <= i < |s| ensures IsSpace(s[i]) {
        assert i < lo || hi <= i;
      }
    } else {
      assert !IsSpace(s[lo]);
    }
  }

  /** Stripping twice is stripping once. */
  lemma StripIdempotent(s: string)
    ensures Strip(Strip(s)) == Strip(s)
  {
    var t := Strip(s);
    var lo0, hi0 :| StripBounds(s, lo0, hi0) && t == s[lo0..hi0];
    if t != [] {
      assert t[0] == s[lo0] && t[|t| - 1] == s[hi0 - 1];
    }
    assert StripBounds(t, 0, |t|);
    StripOfBounds(t, 0, |t|);
    assert t[0..|t|] == t;
  }

  /** Whitespace around a word is exactly what `strip()` removes. */
  lemma StripSurrounded(a: string, w: string, b: string)
    requires AllSpace(a) && AllSpace(b)
    requires w != [] && !IsSpace(w[0]) && !IsSpace(w[|w| - 1])
    ensures Strip(a + w + b) == w
  {
    var s := a + w + b;
    assert s[|a|..|a| + |w|] == w;
    forall i | 0 <= i < |a| ensures IsSpace(s[i]) {
      assert s[i] == a[i];
    }
    forall i | |a| + |w| <= i < |s| ensures IsSpace(s[i]) {
      assert s[i] == b[i - |a| - |w|];
    }
    assert StripBounds(s, |a|, |a| + |w|);
    StripOfBounds(s, |a|, |a| + |w|);
  }

  /** `c.lower()` for ASCII letters; every other character is left as it is. */
  function LowerChar(c: char): (d: char)
    ensures 'A' <= c <= 'Z' ==> 'a' <= d <= 'z' && d as int - c as int == 32
    ensures !('A' <= c <= 'Z') ==> d == c
  {
    if 'A' <= c <= 'Z' then (c as int + 32) as char else c
  }

  /** `s.lower()`, restricted to ASCII case folding. */
  function Lower(s: string): (r: string)
    ensures |r| == |s|
    ensures forall i :: 0 <= i < |s| ==> r[i] == LowerChar(s[i])
    decreases |s|
  {
    if s == [] then [] else [LowerChar(s[0])] + Lower(s[1..])
  }

  /** `sep.join(items)`. */
  function Join(items: seq<string>, sep: string): (r: string)
    decreases |items|
  {
    if items == [] then []
    else if |items| == 1 then items[0]
    else items[0] + sep + Join(items[1..], sep)
  }

  /** Concatenation regroups freely. */
  lemma AppendAssoc<T>(a: seq<T>, b: seq<T>, c: seq<T>)
    ensures a + b + c == a + (b + c)
  {
  }

  /** `w` occurs in `t` starting at index `k`. */
  predicate OccursAt(t: string, w: string, k: int) {
    0 <= k && k + |w| <= |t| && t[k..k + |w|] == w
  }

  /** Python's `w in t` for strings. */
  predicate Contains(t: string, w: string) {
    exists k :: 0 <= k <= |t| && OccursAt(t, w, k)
  }

  /** An occurrence survives text added on either side. */
  lemma OccursInContext(a: string, t: string, b: string, w: string, k: int)
    requires OccursAt(t, w, k)
    ensures OccursAt(a + t + b, w, |a| + k)
  {
    assert (a + t + b)[|a| + k..|a| + k + |w|] == t[k..k + |w|];
  }

  /** Every item of a join appears, whole, in the joined string. */
  lemma {:induction false} JoinContainsItems(items: seq<string>, sep: string)
    ensures forall i :: 0 <= i < |items| ==> Contains(Join(items, sep), items[i])
    decreases |items|
  {
    if |items| == 1 {
      OccursInContext([], items[0], [], items[0], 0);
      assert [] + items[0] + [] == items[0];
    } else if |items| > 1 {
      var rest := Join(items[1..], sep);
      JoinContainsItems(items[1..], sep);
      forall i | 0 <= i < |items| ensures Contains(Join(items, sep), items[i]) {
        if i == 0 {
          OccursInContext([], items[0], sep + rest, items[0], 0);
          assert [] + items[0] + (sep + rest) == Join(items, sep);
        } else {
          assert items[1..][i - 1] == items[i];
          var k :| OccursAt(rest, items[i], k);
          OccursInContext(items[0] + sep, rest, [], items[i], k);
          assert items[0] + sep + rest + [] == Join(items, sep);
        }
      }
    }
  }
}
