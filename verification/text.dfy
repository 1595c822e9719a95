/** String helpers shared by the classifier and the output correlator:
    prefix/suffix/substring tests and the case-insensitive comparison used
    by `equalsIgnoreCase` and `toLowerCase().equals(...)`. */
module Text {

  /** A logical line: the contents of its cells, the row label first. */
  type Line = seq<string>

  /** A suffix of a sequence is its first element followed by the rest. */
  lemma SliceCons<T>(s: seq<T>, i: nat)
    requires i < |s|
    ensures s[i..] == [s[i]] + s[i + 1..]
  {
  }

  lemma ConcatTail<T>(a: seq<T>, b: seq<T>)
    ensures |a| > 0 ==> (a + b)[0] == a[0] && (a + b)[1..] == a[1..] + b
    ensures |a| == 0 ==> a + b == b
  {
  }

  /** Cutting a sequence around position `k`. */
  lemma SliceAround<T>(s: seq<T>, k: nat)
    requires k < |s|
    ensures s == s[..k] + ([s[k]] + s[k + 1..])
    ensures ([s[k]] + s[k + 1..])[0] == s[k] && ([s[k]] + s[k + 1..])[1..] == s[k + 1..]
  {
  }

  /** Appending one element and cutting it out again. */
  lemma AppendThenCut<T>(a: seq<T>, x: T)
    ensures (a + [x])[..|a|] + (a + [x])[|a| + 1..] == a
    ensures [x][1..] == []
  {
  }

  predicate StartsWith(s: string, prefix: string) {
    |prefix| <= |s| && s[..|prefix|] == prefix
  }

  predicate EndsWith(s: string, suffix: string) {
    |suffix| <= |s| && s[|s| - |suffix|..] == suffix
  }

  /** `s.contains(sub)`: `sub` occurs at some position of `s`. */
  predicate Contains(s: string, sub: string) {
    exists k :: 0 <= k <= |s| - |sub| && OccursAt(s, sub, k)
  }

  predicate OccursAt(s: string, sub: string, k: int) {
    0 <= k <= |s| - |sub| && s[k..k + |sub|] == sub
  }

  /** Lower-casing of one character; only the ASCII letters are folded. */
  function LowerChar(c: char): (r: char)
    ensures 'A' <= c <= 'Z' ==> r as int == c as int + 32
    ensures !('A' <= c <= 'Z') ==> r == c
    ensures !('A' <= r <= 'Z')
  {
    if 'A' <= c <= 'Z' then (c as int + 32) as char else c
  }

  function Lower(s: string): (r: string)
    ensures |r| == |s|
    ensures forall k :: 0 <= k < |s| ==> r[k] == LowerChar(s[k])
  {
    if |s| == 0 then [] else [LowerChar(s[0])] + Lower(s[1..])
  }

  /** Two strings are equal ignoring case when they agree position by
      position after folding. */
  predicate EqualsIgnoreCase(a: string, b: string) {
    |a| == |b| && forall k :: 0 <= k < |a| ==> LowerChar(a[k]) == LowerChar(b[k])
  }

  /** Comparing lower-cased copies, as the classifier does, is the same
      relation as `EqualsIgnoreCase`. */
  lemma LowerEqualsIffIgnoreCase(a: string, b: string)
    ensures Lower(a) == Lower(b) <==> EqualsIgnoreCase(a, b)
  {
    if Lower(a) == Lower(b) {
      assert |a| == |b|;
      forall k | 0 <= k < |a|
        ensures LowerChar(a[k]) == LowerChar(b[k])
      {
        assert Lower(a)[k] == Lower(b)[k];
      }
    }
    if EqualsIgnoreCase(a, b) {
      assert forall k :: 0 <= k < |a| ==> Lower(a)[k] == Lower(b)[k];
    }
  }
}
