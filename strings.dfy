/**
 Text primitives shared by the response parser and the description normaliser:
 JavaScript's whitespace class, substring search and `String.prototype.trim`.
 Strings are sequences of Unicode code points.
 */
module Strings {

  datatype Option<+T> = None | Some(value: T)

  /** The characters matched by `\s` in a JavaScript regular expression, which are
      also the ones `trim` removes: the ECMAScript WhiteSpace and LineTerminator
      code points (tab, line feed, vertical tab, form feed, carriage return, space,
      no-break space, the Unicode space separators, line and paragraph separators,
      and the byte order mark). */
  predicate IsSpace(c: char) {
    var n := c as int;
    (0x09 <= n <= 0x0D) || n == 0x20 || n == 0xA0 || n == 0x1680 || (0x2000 <= n <= 0x200A)
    || n == 0x2028 || n == 0x2029 || n == 0x202F || n == 0x205F || n == 0x3000 || n == 0xFEFF
  }

  /** Every character of `s` is whitespace. */
  predicate AllSpace(s: string) {
    forall i :: 0 <= i < |s| ==> IsSpace(s[i])
  }

  /** No whitespace at either end. */
  predicate IsTrimmed(s: string) {
    s == [] || (!IsSpace(s[0]) && !IsSpace(s[|s| - 1]))
  }

  /** `pat` occurs in `s` starting at index `i`. */
  predicate OccursAt(s: string, pat: string, i: nat) {
    i + |pat| <= |s| && forall k :: 0 <= k < |pat| ==> s[i + k] == pat[k]
  }

  /** `pat` occurs somewhere in `s`. */
  ghost predicate Contains(s: string, pat: string) {
    exists i: nat :: OccursAt(s, pat, i)
  }

  /** A slice equal to `pat` is an occurrence of it. */
  lemma SliceOccurs(s: string, pat: string, i: nat)
    requires i + |pat| <= |s| && s[i..i + |pat|] == pat
    ensures OccursAt(s, pat, i)
  {
    forall k | 0 <= k < |pat| ensures s[i + k] == pat[k] {
      assert s[i..i + |pat|][k] == s[i + k];
    }
  }

  /** An occurrence inside a slice is an occurrence in the whole string. */
  lemma OccursInSlice(s: string, a: nat, b: nat, pat: string, j: nat)
    requires a <= b <= |s|
    requires OccursAt(s[a..b], pat, j)
    ensures OccursAt(s, pat, a + j) && a + j + |pat| <= b
  {
    var t := s[a..b];
    forall k | 0 <= k < |pat| ensures s[a + j + k] == pat[k] {
      assert t[j + k] == s[a + j + k];
    }
  }

  /** `s.indexOf(pat, from)`: the first occurrence of `pat` at or after `from`. */
  function IndexOf(s: string, pat: string, from: nat): (r: Option<nat>)
    decreases |s| - from
    ensures r.Some? ==> from <= r.value && OccursAt(s, pat, r.value)
  {
    if from + |pat| > |s| then None
    else if OccursAt(s, pat, from) then Some(from)
    else IndexOf(s, pat, from + 1)
  }

  /** `IndexOf` skips no occurrence: there is none between `from` and the one it
      reports, nor any after `from` when it reports none. */
  lemma {:induction false} IndexOfNoneBefore(s: string, pat: string, from: nat, i: nat)
    requires from <= i
    requires IndexOf(s, pat, from).None? || i < IndexOf(s, pat, from).value
    decreases |s| - from
    ensures !OccursAt(s, pat, i)
  {
    if from + |pat| <= |s| && !OccursAt(s, pat, from) && from < i {
      IndexOfNoneBefore(s, pat, from + 1, i);
    }
  }

  /** An occurrence with none before it, after `from`, is the one `IndexOf` reports. */
  lemma {:induction false} IndexOfFirst(s: string, pat: string, from: nat, k: nat)
    requires from <= k && OccursAt(s, pat, k)
    requires forall i :: from <= i < k ==> !OccursAt(s, pat, i)
    decreases k - from
    ensures IndexOf(s, pat, from) == Some(k)
  {
    if from < k {
      IndexOfFirst(s, pat, from + 1, k);
    }
  }

  /** The first index at or after `from` that holds `ch`. */
  function FindChar(s: string, ch: char, from: nat): (r: Option<nat>)
    decreases |s| - from
    ensures r.Some? ==> from <= r.value < |s| && s[r.value] == ch
  {
    if from >= |s| then None
    else if s[from] == ch then Some(from)
    else FindChar(s, ch, from + 1)
  }

  /** `FindChar` skips no occurrence of `ch`. */
  lemma {:induction false} FindCharNoneBefore(s: string, ch: char, from: nat, i: nat)
    requires from <= i < |s|
    requires FindChar(s, ch, from).None? || i < FindChar(s, ch, from).value
    decreases |s| - from
    ensures s[i] != ch
  {
    if s[from] != ch && from < i {
      FindCharNoneBefore(s, ch, from + 1, i);
    }
  }

  /** A `ch` with none before it, after `from`, is the one `FindChar` reports. */
  lemma {:induction false} FindCharFirst(s: string, ch: char, from: nat, k: nat)
    requires from <= k < |s| && s[k] == ch
    requires forall i :: from <= i < k ==> s[i] != ch
    decreases k - from
    ensures FindChar(s, ch, from) == Some(k)
  {
    if from < k {
      FindCharFirst(s, ch, from + 1, k);
    }
  }

  /** The end of the run of whitespace that starts at `k` (the extent of a greedy `\s*`). */
  function SpaceEnd(s: string, k: nat): (w: nat)
    requires k <= |s|
    decreases |s| - k
    ensures k <= w <= |s|
    ensures w < |s| ==> !IsSpace(s[w])
  {
    if k < |s| && IsSpace(s[k]) then SpaceEnd(s, k + 1) else k
  }

  /** Everything `SpaceEnd` skips is whitespace. */
  lemma {:induction false} SpaceEndSkipsSpace(s: string, k: nat, i: nat)
    requires k <= i && k <= |s| && i < SpaceEnd(s, k)
    decreases |s| - k
    ensures IsSpace(s[i])
  {
    if k < i {
      SpaceEndSkipsSpace(s, k + 1, i);
    }
  }

  /** A whitespace run from `k` that stops at a non-space or at the end is what
      `SpaceEnd` measures. */
  lemma {:induction false} SpaceEndAt(s: string, k: nat, w: nat)
    requires k <= w <= |s|
    requires forall i :: k <= i < w ==> IsSpace(s[i])
    requires w < |s| ==> !IsSpace(s[w])
    decreases w - k
    ensures SpaceEnd(s, k) == w
  {
    if k < w {
      SpaceEndAt(s, k + 1, w);
    }
  }

  /** The start of the run of whitespace that ends at `k`, looking no further back than `lo`. */
  function SpaceStart(s: string, lo: nat, k: nat): (b: nat)
    requires lo <= k <= |s|
    decreases k - lo
    ensures lo <= b <= k
    ensures lo < b ==> !IsSpace(s[b - 1])
  {
    if lo < k && IsSpace(s[k - 1]) then SpaceStart(s, lo, k - 1) else k
  }

  /** Everything `SpaceStart` skips is whitespace. */
  lemma {:induction false} SpaceStartSkipsSpace(s: string, lo: nat, k: nat, i: nat)
    requires lo <= k <= |s| && SpaceStart(s, lo, k) <= i < k
    decreases k - lo
    ensures IsSpace(s[i])
  {
    if i < k - 1 {
      SpaceStartSkipsSpace(s, lo, k - 1, i);
    }
  }

  /** `String.prototype.trim`: whitespace removed from both ends. */
  function Trim(s: string): (r: string)
    ensures IsTrimmed(r) && |r| <= |s|
  {
    var a := SpaceEnd(s, 0);
    s[a..SpaceStart(s, a, |s|)]
  }

  /** `r` is `s` with whitespace removed from both ends: a slice `s[a..b]` with
      nothing but whitespace outside it and none at its own ends. */
  ghost predicate IsTrimOf(r: string, s: string) {
    IsTrimmed(r)
    && exists a, b :: 0 <= a <= b <= |s| && r == s[a..b]
         && AllSpace(s[..a]) && AllSpace(s[b..])
  }

  /** `Trim` removes exactly the whitespace at the two ends and keeps the rest. */
  lemma TrimIsTrimOf(s: string)
    ensures IsTrimOf(Trim(s), s)
  {
    var a := SpaceEnd(s, 0);
    var b := SpaceStart(s, a, |s|);
    forall i | 0 <= i < a ensures IsSpace(s[..a][i]) {
      SpaceEndSkipsSpace(s, 0, i);
    }
    forall i | 0 <= i < |s| - b ensures IsSpace(s[b..][i]) {
      SpaceStartSkipsSpace(s, a, |s|, b + i);
    }
  }

  /** Trimming leaves a trimmed string unchanged, and gives "" exactly for all-whitespace input. */
  lemma TrimFixesTrimmed(s: string)
    ensures IsTrimmed(s) ==> Trim(s) == s
    ensures Trim(s) == [] <==> AllSpace(s)
  {
    var a := SpaceEnd(s, 0);
    var b := SpaceStart(s, a, |s|);
    if IsTrimmed(s) && s != [] {
      assert a == 0;
      assert b == |s|;
      assert Trim(s) == s[0..|s|] == s;
    }
    if Trim(s) == [] {
      forall i | 0 <= i < |s| ensures IsSpace(s[i]) {
        if i < a {
          SpaceEndSkipsSpace(s, 0, i);
        } else {
          SpaceStartSkipsSpace(s, a, |s|, i);
        }
      }
    }
  }

  /** A character absent from `s` is absent from its trimmed form. */
  lemma TrimKeepsAbsentChar(s: string, ch: char)
    requires forall i :: 0 <= i < |s| ==> s[i] != ch
    ensures forall i :: 0 <= i < |Trim(s)| ==> Trim(s)[i] != ch
  {
    var a := SpaceEnd(s, 0);
    assert forall i :: 0 <= i < |Trim(s)| ==> Trim(s)[i] == s[a + i];
  }

  /** A pattern absent from `s` is absent from its trimmed form. */
  lemma TrimKeepsAbsentPattern(s: string, pat: string)
    requires !Contains(s, pat)
    ensures !Contains(Trim(s), pat)
  {
    var a := SpaceEnd(s, 0);
    var b := SpaceStart(s, a, |s|);
    if Contains(Trim(s), pat) {
      var j: nat :| OccursAt(Trim(s), pat, j);
      OccursInSlice(s, a, b, pat, j);
      assert false;
    }
  }
}
