/**
 The description normaliser: `formatItemDescription` turns the markdown-like text a
 language model writes about a garment ("- **Type of Clothing**: Shirt ...") into one
 plain line, and `extractItemSummary` pulls a short "<colour> <type>" label out of it.
 Each regular-expression replacement and match is written out as a scanner over the
 string.
 */
module ItemDescription {
  import opened Strings

  // ---------------------------------------------------------------------------
  // Normal forms

  /** `s` contains no `**`. */
  predicate NoDoubleStar(s: string) {
    forall i :: 0 <= i < |s| - 1 ==> !(s[i] == '*' && s[i + 1] == '*')
  }

  /** No two whitespace characters are adjacent in `s`. */
  predicate SingleSpaced(s: string) {
    forall i :: 0 <= i < |s| - 1 ==> !(IsSpace(s[i]) && IsSpace(s[i + 1]))
  }

  /** The only whitespace character in `s` is the plain space. */
  predicate OnlyPlainSpaces(s: string) {
    forall i :: 0 <= i < |s| ==> IsSpace(s[i]) ==> s[i] == ' '
  }

  /** What `formatItemDescription` produces: one trimmed line with single plain spaces
      and no bold markers. */
  predicate IsNormalised(s: string) {
    NoDoubleStar(s) && IsTrimmed(s) && SingleSpaced(s) && OnlyPlainSpaces(s)
  }

  // ---------------------------------------------------------------------------
  // `.replace(/\*\*([^*]+)\*\*:\s*/g, '')`

  /** The length of the `**label**:` marker (with the whitespace after it) at the start
      of `s`, if one is there. `[^*]+` can only stop at the first `*` after the opening
      `**`, so the label runs exactly up to it and must be followed by `**:`. */
  function MarkerLength(s: string): (n: Option<nat>)
    ensures n.Some? ==> 5 <= n.value <= |s|
  {
    if |s| < 2 || s[0] != '*' || s[1] != '*' then None
    else
      match FindChar(s, '*', 2)
      case None => None
      case Some(j) =>
        if j == 2 || j + 2 >= |s| || s[j + 1] != '*' || s[j + 2] != ':' then None
        else Some(SpaceEnd(s, j + 3))
  }

  /** Every `**label**:` marker removed, scanning left to right as a global replace does. */
  function StripLabels(s: string): string
    decreases |s|
  {
    if s == [] then []
    else
      match MarkerLength(s)
      case Some(n) => StripLabels(s[n..])
      case None => [s[0]] + StripLabels(s[1..])
  }

  /** The regular expression's own reading of a marker at the start of `s` ending at
      `n`: `**`, a non-empty label without `*` up to `j`, `**:`, and the whole whitespace
      run after it. */
  ghost predicate IsMarker(s: string, j: nat, n: nat) {
    2 < j && j + 3 <= n <= |s|
    && s[0] == '*' && s[1] == '*'
    && (forall i :: 2 <= i < j ==> s[i] != '*')
    && s[j] == '*' && s[j + 1] == '*' && s[j + 2] == ':'
    && (forall i :: j + 3 <= i < n ==> IsSpace(s[i]))
    && (n == |s| || !IsSpace(s[n]))
  }

  /** A length `MarkerLength` reports is that of a marker, whose label ends at the first
      `*` after the opening `**`. */
  lemma MarkerLengthSound(s: string)
    requires MarkerLength(s).Some?
    ensures FindChar(s, '*', 2).Some? && IsMarker(s, FindChar(s, '*', 2).value, MarkerLength(s).value)
  {
    var j := FindChar(s, '*', 2).value;
    var n := MarkerLength(s).value;
    forall i | 2 <= i < j ensures s[i] != '*' {
      FindCharNoneBefore(s, '*', 2, i);
    }
    forall i | j + 3 <= i < n ensures IsSpace(s[i]) {
      SpaceEndSkipsSpace(s, j + 3, i);
    }
  }

  /** Every marker at the start of `s` is found, with its whole length. */
  lemma MarkerLengthComplete(s: string, j: nat, n: nat)
    requires IsMarker(s, j, n)
    ensures MarkerLength(s) == Some(n)
  {
    FindCharFirst(s, '*', 2, j);
    SpaceEndAt(s, j + 3, n);
    MarkerLengthAt(s, j, n);
  }

  /** `MarkerLength` once the label's end `j` and the end `w` of the whitespace after
      `**:` are known. */
  lemma MarkerLengthAt(s: string, j: nat, w: nat)
    requires |s| >= 2 && s[0] == '*' && s[1] == '*'
    requires FindChar(s, '*', 2) == Some(j) && 2 < j && j + 2 < |s|
    requires s[j + 1] == '*' && s[j + 2] == ':' && SpaceEnd(s, j + 3) == w
    ensures MarkerLength(s) == Some(w)
  {
  }

  /** A marker `**label**:` whose label holds no `*`, and the whitespace after it, are
      removed entirely, label text included. */
  lemma StripLabelsRemovesMarker(name: string, ws: string, rest: string)
    requires name != [] && forall k :: 0 <= k < |name| ==> name[k] != '*'
    requires AllSpace(ws) && (rest == [] || !IsSpace(rest[0]))
    ensures StripLabels("**" + name + "**:" + ws + rest) == StripLabels(rest)
  {
    var s := "**" + name + "**:" + ws + rest;
    var j := 2 + |name|;
    var w := j + 3 + |ws|;
    assert s[..2] == "**" && s[2..j] == name && s[j..j + 3] == "**:";
    assert s[j + 3..w] == ws && s[w..] == rest;
    forall i | 2 <= i < j ensures s[i] != '*' {
      assert s[i] == s[2..j][i - 2];
    }
    FindCharFirst(s, '*', 2, j);
    forall i | j + 3 <= i < w ensures IsSpace(s[i]) {
      assert s[i] == s[j + 3..w][i - j - 3];
    }
    if w < |s| {
      assert s[w] == s[w..][0];
    }
    SpaceEndAt(s, j + 3, w);
    assert s[j + 1] == s[j..j + 3][1] && s[j + 2] == s[j..j + 3][2];
    MarkerLengthAt(s, j, w);
  }

  /** Text without `**` holds no marker and passes unchanged. */
  lemma {:induction false} StripLabelsKeepsPlainText(s: string)
    requires NoDoubleStar(s)
    ensures StripLabels(s) == s
  {
    if s != [] {
      StripLabelsKeepsPlainText(s[1..]);
    }
  }

  // ---------------------------------------------------------------------------
  // `.replace(/\*\*/g, '')`

  /** Every `**` removed, scanning left to right. */
  function StripBold(s: string): string
    decreases |s|
  {
    if |s| >= 2 && s[0] == '*' && s[1] == '*' then StripBold(s[2..])
    else if s == [] then []
    else [s[0]] + StripBold(s[1..])
  }

  /** A string that does not start with `**` keeps its first character. */
  lemma StripBoldHead(s: string)
    requires s != [] && !(|s| >= 2 && s[0] == '*' && s[1] == '*')
    ensures StripBold(s) == [s[0]] + StripBold(s[1..])
  {
  }

  /** No `**` survives: a `*` kept by the scan is never followed by another `*`. */
  lemma {:induction false} StripBoldLeavesNoDoubleStar(s: string)
    decreases |s|
    ensures NoDoubleStar(StripBold(s))
  {
    if |s| >= 2 && s[0] == '*' && s[1] == '*' {
      StripBoldLeavesNoDoubleStar(s[2..]);
    } else if s != [] {
      var tail := StripBold(s[1..]);
      StripBoldLeavesNoDoubleStar(s[1..]);
      if s[0] == '*' && tail != [] {
        StripBoldHead(s[1..]);
        assert tail[0] == s[1] && s[1] != '*';
      }
      var r := [s[0]] + tail;
      forall i | 0 <= i < |r| - 1 ensures !(r[i] == '*' && r[i + 1] == '*') {
        if i > 0 {
          assert r[i] == tail[i - 1] && r[i + 1] == tail[i];
        }
      }
    }
  }

  /** Text without `**` passes unchanged. */
  lemma {:induction false} StripBoldKeepsPlainText(s: string)
    requires NoDoubleStar(s)
    ensures StripBold(s) == s
  {
    if s != [] {
      StripBoldKeepsPlainText(s[1..]);
    }
  }

  // ---------------------------------------------------------------------------
  // `.replace(/\s+/g, ' ')`

  /** Every maximal run of whitespace replaced by one plain space. */
  function CollapseSpaces(s: string): string
    decreases |s|
  {
    if s == [] then []
    else if IsSpace(s[0]) then [' '] + CollapseSpaces(s[SpaceEnd(s, 0)..])
    else [s[0]] + CollapseSpaces(s[1..])
  }

  /** The collapsed text starts with whitespace exactly when the input does. */
  lemma CollapseSpacesHead(s: string)
    requires s != []
    ensures CollapseSpaces(s) != []
    ensures IsSpace(CollapseSpaces(s)[0]) <==> IsSpace(s[0])
    ensures !IsSpace(s[0]) ==> CollapseSpaces(s)[0] == s[0]
  {
  }

  /** After collapsing, whitespace comes only as single plain spaces. */
  lemma {:induction false} CollapseSpacesIsSingleSpaced(s: string)
    decreases |s|
    ensures SingleSpaced(CollapseSpaces(s)) && OnlyPlainSpaces(CollapseSpaces(s))
  {
    if s != [] {
      var n := if IsSpace(s[0]) then SpaceEnd(s, 0) else 1;
      var tail := CollapseSpaces(s[n..]);
      var r := CollapseSpaces(s);
      assert r == [r[0]] + tail;
      CollapseSpacesIsSingleSpaced(s[n..]);
      if IsSpace(s[0]) && tail != [] {
        CollapseSpacesHead(s[n..]);
        assert s[n..][0] == s[n];
      }
      forall i | 0 <= i < |r| - 1 ensures !(IsSpace(r[i]) && IsSpace(r[i + 1])) {
        if i > 0 {
          assert r[i] == tail[i - 1] && r[i + 1] == tail[i];
        } else if !IsSpace(s[0]) {
          assert r[0] == s[0];
        }
      }
      forall i | 0 <= i < |r| && IsSpace(r[i]) ensures r[i] == ' ' {
        if i > 0 {
          assert r[i] == tail[i - 1];
        }
      }
    }
  }

  /** Collapsing never creates a `**`: the characters it keeps are separated by what
      separated them before, or by a space. */
  lemma {:induction false} CollapseSpacesKeepsNoDoubleStar(s: string)
    requires NoDoubleStar(s)
    decreases |s|
    ensures NoDoubleStar(CollapseSpaces(s))
  {
    if s != [] {
      var n := if IsSpace(s[0]) then SpaceEnd(s, 0) else 1;
      var tail := CollapseSpaces(s[n..]);
      var r := CollapseSpaces(s);
      assert r == [r[0]] + tail;
      assert NoDoubleStar(s[n..]) by {
        forall i | 0 <= i < |s[n..]| - 1 ensures !(s[n..][i] == '*' && s[n..][i + 1] == '*') {
          assert s[n..][i] == s[n + i] && s[n..][i + 1] == s[n + i + 1];
        }
      }
      CollapseSpacesKeepsNoDoubleStar(s[n..]);
      if !IsSpace(s[0]) && s[0] == '*' && tail != [] {
        CollapseSpacesHead(s[1..]);
        assert s[1..][0] == s[1];
      }
      forall i | 0 <= i < |r| - 1 ensures !(r[i] == '*' && r[i + 1] == '*') {
        if i > 0 {
          assert r[i] == tail[i - 1] && r[i + 1] == tail[i];
        }
      }
    }
  }

  /** Text whose whitespace is already single plain spaces passes unchanged. */
  lemma {:induction false} CollapseSpacesKeepsSingleSpaced(s: string)
    requires SingleSpaced(s) && OnlyPlainSpaces(s)
    decreases |s|
    ensures CollapseSpaces(s) == s
  {
    if s != [] {
      if IsSpace(s[0]) {
        SpaceEndAt(s, 0, 1);
      }
      CollapseSpacesKeepsSingleSpaced(s[1..]);
    }
  }

  // ---------------------------------------------------------------------------
  // `formatItemDescription`

  /** `formatItemDescription(description)`: the four steps applied in order. */
  function FormatItemDescription(description: string): (r: string)
    ensures IsTrimmed(r)
  {
    Trim(CollapseSpaces(StripBold(StripLabels(description))))
  }

  /** A slice of a string with single plain spaces and no `**` keeps those properties. */
  lemma SliceKeepsNormalForm(s: string, a: nat, b: nat)
    requires a <= b <= |s|
    requires NoDoubleStar(s) && SingleSpaced(s) && OnlyPlainSpaces(s)
    ensures NoDoubleStar(s[a..b]) && SingleSpaced(s[a..b]) && OnlyPlainSpaces(s[a..b])
  {
    var t := s[a..b];
    assert forall i :: 0 <= i < |t| ==> t[i] == s[a + i];
  }

  /** The output holds no `**`, has no whitespace at either end, never has two
      whitespace characters in a row, and uses only the plain space. */
  lemma FormatIsNormalised(description: string)
    ensures IsNormalised(FormatItemDescription(description))
  {
    var b := StripBold(StripLabels(description));
    StripBoldLeavesNoDoubleStar(StripLabels(description));
    var c := CollapseSpaces(b);
    CollapseSpacesIsSingleSpaced(b);
    CollapseSpacesKeepsNoDoubleStar(b);
    var x := SpaceEnd(c, 0);
    SliceKeepsNormalForm(c, x, SpaceStart(c, x, |c|));
  }

  /** Normalised text is a fixed point of the formatter. */
  lemma FormatKeepsNormalised(s: string)
    requires IsNormalised(s)
    ensures FormatItemDescription(s) == s
  {
    StripLabelsKeepsPlainText(s);
    StripBoldKeepsPlainText(s);
    CollapseSpacesKeepsSingleSpaced(s);
    TrimFixesTrimmed(s);
  }

  /** Formatting twice is formatting once. */
  lemma FormatIdempotent(description: string)
    ensures FormatItemDescription(FormatItemDescription(description)) == FormatItemDescription(description)
  {
    FormatIsNormalised(description);
    FormatKeepsNormalised(FormatItemDescription(description));
  }
}
