/**
 `extractItemSummary`: a short "<colour> <type>" label taken from the fields
 `Type of Clothing**:` and `Color**:` of a garment description, with the first sentence
 of the formatted description as the fallback. Each `match` of a field expression is
 written out as a scanner, with the backtracking of `\s*([^-]+)` worked out by hand.
 */
module ItemSummary {
  import opened Strings
  import opened ItemDescription

  const TypeLabel := "Type of Clothing**:"
  const ColorLabel := "Color**:"

  /** A match of `<label>\s*([^-]+)`: the label starts at `at`, and the captured group
      is `s[start..end]`. */
  datatype FieldMatch = FieldMatch(at: nat, start: nat, end: nat)

  // ---------------------------------------------------------------------------
  // `<label>\s*([^-]+)` at one position

  /** The end of a greedy `[^-]+` run that starts at `w`: the first `-` at or after `w`,
      or the end of the string. */
  function DashEnd(s: string, w: nat): (e: nat)
    requires w <= |s|
    ensures w <= e <= |s|
    ensures e < |s| ==> s[e] == '-'
  {
    match FindChar(s, '-', w)
    case None => |s|
    case Some(e) => e
  }

  /** Nothing before `DashEnd` is a `-`. */
  lemma DashEndSkipsDash(s: string, w: nat, i: nat)
    requires w <= i < |s| && i < DashEnd(s, w)
    ensures s[i] != '-'
  {
    FindCharNoneBefore(s, '-', w, i);
  }

  /** The expression anchored at `p`. `\s*` first takes the whole whitespace run after
      the label; when no non-`-` character follows it, the engine gives back one
      whitespace character so that `[^-]+` can match it; with no whitespace to give
      back there is no match at `p`. */
  function FieldMatchAt(s: string, name: string, p: nat): (m: Option<FieldMatch>)
    ensures m.Some? ==> m.value.at == p && p + |name| <= m.value.start < m.value.end <= |s|
  {
    if !OccursAt(s, name, p) then None
    else
      var k := p + |name|;
      var w := SpaceEnd(s, k);
      if w < |s| && s[w] != '-' then Some(FieldMatch(p, w, DashEnd(s, w)))
      else if k < w then Some(FieldMatch(p, w - 1, w))
      else None
  }

  /** The regular expression's own reading of a match at `p` with the group at
      `s[j..e]`: the label, whitespace up to `j`, then a non-empty run without `-` that
      stops only at a `-` or at the end. */
  ghost predicate IsFieldMatch(s: string, name: string, p: nat, j: nat, e: nat) {
    OccursAt(s, name, p) && p + |name| <= j < e <= |s|
    && (forall i :: p + |name| <= i < j ==> IsSpace(s[i]))
    && (forall i :: j <= i < e ==> s[i] != '-')
    && (e == |s| || s[e] == '-')
  }

  /** What the scanner reports is a match of the expression. */
  lemma FieldMatchAtSound(s: string, name: string, p: nat)
    requires FieldMatchAt(s, name, p).Some?
    ensures var m := FieldMatchAt(s, name, p).value; IsFieldMatch(s, name, p, m.start, m.end)
  {
    var m := FieldMatchAt(s, name, p).value;
    var k := p + |name|;
    var w := SpaceEnd(s, k);
    forall i | k <= i < m.start ensures IsSpace(s[i]) {
      SpaceEndSkipsSpace(s, k, i);
    }
    if w < |s| && s[w] != '-' {
      forall i | m.start <= i < m.end ensures s[i] != '-' {
        DashEndSkipsDash(s, w, i);
      }
    } else {
      SpaceEndSkipsSpace(s, k, w - 1);
    }
  }

  /** Every match of the expression at `p` is found by the scanner, and the scanner's
      is the one the engine prefers: the longest whitespace run, and then the longest
      group. */
  lemma FieldMatchAtGreedy(s: string, name: string, p: nat, j: nat, e: nat)
    requires IsFieldMatch(s, name, p, j, e)
    ensures FieldMatchAt(s, name, p).Some?
    ensures j <= FieldMatchAt(s, name, p).value.start
    ensures j == FieldMatchAt(s, name, p).value.start ==> e == FieldMatchAt(s, name, p).value.end
  {
    var k := p + |name|;
    var w := SpaceEnd(s, k);
    assert j <= w;
    if w < |s| && s[w] != '-' && j == w && e < |s| {
      FindCharFirst(s, '-', w, e);
    }
  }

  // ---------------------------------------------------------------------------
  // `description.match(...)`: the leftmost match

  /** The leftmost match of the expression starting at or after `from`. */
  function FieldCaptureFrom(s: string, name: string, from: nat): (r: Option<FieldMatch>)
    decreases |s| - from
    ensures r.Some? ==> from <= r.value.at && FieldMatchAt(s, name, r.value.at) == r
  {
    if from > |s| then None
    else
      match FieldMatchAt(s, name, from)
      case Some(m) => Some(m)
      case None => FieldCaptureFrom(s, name, from + 1)
  }

  /** The scan skips no match: there is none before the one it reports, and none at
      all after `from` when it reports none. */
  lemma {:induction false} FieldCaptureNoneBefore(s: string, name: string, from: nat, i: nat)
    requires from <= i
    requires FieldCaptureFrom(s, name, from).None? || i < FieldCaptureFrom(s, name, from).value.at
    decreases |s| - from
    ensures FieldMatchAt(s, name, i).None?
  {
    if from <= |s| && FieldMatchAt(s, name, from).None? && from < i {
      FieldCaptureNoneBefore(s, name, from + 1, i);
    }
  }

  /** A match with none before it, after `from`, is the one the scan reports. */
  lemma {:induction false} FieldCaptureFirst(s: string, name: string, from: nat, p: nat)
    requires from <= p && FieldMatchAt(s, name, p).Some?
    requires forall i :: from <= i < p ==> FieldMatchAt(s, name, i).None?
    decreases p - from
    ensures FieldCaptureFrom(s, name, from) == FieldMatchAt(s, name, p)
  {
    if from < p {
      FieldCaptureFirst(s, name, from + 1, p);
    }
  }

  /** A label that does not occur gives no match. */
  lemma {:induction false} FieldCaptureAbsent(s: string, name: string, from: nat)
    requires forall i :: from <= i <= |s| ==> !OccursAt(s, name, i)
    decreases |s| - from
    ensures FieldCaptureFrom(s, name, from).None?
  {
    if from <= |s| {
      FieldCaptureAbsent(s, name, from + 1);
    }
  }

  /** `match[1].trim()` for the leftmost match of the field `name`, if there is one. */
  function FieldText(s: string, name: string): (r: Option<string>)
    ensures r.Some? ==> IsTrimmed(r.value)
  {
    match FieldCaptureFrom(s, name, 0)
    case None => None
    case Some(m) => Some(Trim(s[m.start..m.end]))
  }

  /** A field's text contains no `-`: the group stops at the first one. */
  lemma FieldTextHasNoDash(s: string, name: string)
    requires FieldText(s, name).Some?
    ensures forall i :: 0 <= i < |FieldText(s, name).value| ==> FieldText(s, name).value[i] != '-'
  {
    var m := FieldCaptureFrom(s, name, 0).value;
    FieldMatchAtSound(s, name, m.at);
    var g := s[m.start..m.end];
    assert forall i :: 0 <= i < |g| ==> g[i] == s[m.start + i];
    TrimKeepsAbsentChar(g, '-');
  }

  // ---------------------------------------------------------------------------
  // `toLowerCase` and `split('.')[0]`

  /** Lower-casing of one character, for the ASCII letters. */
  function LowerChar(c: char): (r: char)
    ensures !('A' <= r <= 'Z')
    ensures !('A' <= c <= 'Z') ==> r == c
  {
    if 'A' <= c <= 'Z' then (c as int + 32) as char else c
  }

  /** `toLowerCase`, character by character. */
  function Lower(s: string): (r: string)
    ensures |r| == |s|
    ensures forall i :: 0 <= i < |r| ==> !('A' <= r[i] <= 'Z')
  {
    seq(|s|, i requires 0 <= i < |s| => LowerChar(s[i]))
  }

  /** `t.split('.')[0]`: the text before the first `.`, or all of `t` when it has none. */
  function FirstSentence(t: string): (r: string)
  {
    match FindChar(t, '.', 0)
    case None => t
    case Some(i) => t[..i]
  }

  /** The first sentence is a prefix without `.`, ending where a `.` or the text ends. */
  lemma FirstSentenceIsPrefix(t: string)
    ensures |FirstSentence(t)| <= |t| && FirstSentence(t) == t[..|FirstSentence(t)|]
    ensures forall i :: 0 <= i < |FirstSentence(t)| ==> FirstSentence(t)[i] != '.'
    ensures |FirstSentence(t)| < |t| ==> t[|FirstSentence(t)|] == '.'
  {
    var r := FirstSentence(t);
    forall i | 0 <= i < |r| ensures r[i] != '.' {
      FindCharNoneBefore(t, '.', 0, i);
    }
  }

  // ---------------------------------------------------------------------------
  // `extractItemSummary`

  /** The text a field contributes: its trimmed group, or "" when it does not match. */
  function TextOf(text: Option<string>): string
  {
    match text case None => "" case Some(t) => t
  }

  /** The summary the two fields make before the fallback: the type text; then, when
      the colour field matched, the colour followed by the lower-cased type if the type
      text is non-empty, or the colour alone otherwise. */
  function CombineFields(typeText: Option<string>, colorText: Option<string>): (summary: string)
    ensures colorText.None? ==> summary == TextOf(typeText)
  {
    var typ := TextOf(typeText);
    match colorText
    case None => typ
    case Some(color) => if typ != "" then color + " " + Lower(typ) else color
  }

  /** `extractItemSummary(description)` as written: the fields' summary, or the first
      sentence of the formatted description when that is empty. */
  function ExtractItemSummary(description: string): (r: string)
    ensures r == "" ==> FirstSentence(FormatItemDescription(description)) == ""
  {
    var summary := CombineFields(FieldText(description, TypeLabel), FieldText(description, ColorLabel));
    if summary != "" then summary else FirstSentence(FormatItemDescription(description))
  }

  /** The three ways the fields combine. */
  lemma CombineFieldsCases(typeText: Option<string>, colorText: Option<string>)
    ensures TextOf(typeText) != "" && TextOf(colorText) != "" ==>
      CombineFields(typeText, colorText) == TextOf(colorText) + " " + Lower(TextOf(typeText))
    ensures TextOf(typeText) != "" && colorText.None? ==>
      CombineFields(typeText, colorText) == TextOf(typeText)
    ensures TextOf(typeText) == "" ==> CombineFields(typeText, colorText) == TextOf(colorText)
  {
  }

  /** Fields without `-` make a summary without `-`. */
  lemma CombineFieldsHasNoDash(typeText: Option<string>, colorText: Option<string>)
    requires forall i :: 0 <= i < |TextOf(typeText)| ==> TextOf(typeText)[i] != '-'
    requires forall i :: 0 <= i < |TextOf(colorText)| ==> TextOf(colorText)[i] != '-'
    ensures forall i :: 0 <= i < |CombineFields(typeText, colorText)| ==> CombineFields(typeText, colorText)[i] != '-'
  {
    var typ := TextOf(typeText);
    var color := TextOf(colorText);
    if typ != "" && colorText.Some? {
      var low := Lower(typ);
      var r := color + " " + low;
      forall i | 0 <= i < |r| ensures r[i] != '-' {
        if |color| + 1 <= i {
          assert r[i] == low[i - |color| - 1] == LowerChar(typ[i - |color| - 1]);
        } else if i < |color| {
          assert r[i] == color[i];
        }
      }
    }
  }

  /** A type with no colour text beside it, once the colour field has matched, is
      preceded by a space and lower-cased. */
  lemma CombineFieldsBlankColour(typeText: Option<string>)
    requires TextOf(typeText) != ""
    ensures CombineFields(typeText, Some("")) == " " + Lower(TextOf(typeText))
    ensures !IsTrimmed(CombineFields(typeText, Some("")))
  {
    assert (" " + Lower(TextOf(typeText)))[0] == ' ';
  }

  /** The text the type field contributes. */
  function TypeValue(description: string): (r: string)
    ensures IsTrimmed(r)
  {
    TextOf(FieldText(description, TypeLabel))
  }

  /** The text the colour field contributes. */
  function ColorValue(description: string): (r: string)
    ensures IsTrimmed(r)
  {
    TextOf(FieldText(description, ColorLabel))
  }

  /** Both fields non-empty: `"<colour> <lower-cased type>"`. Only the type matches:
      the type with its case unchanged. The type empty or unmatched: the colour alone,
      when that is non-empty. */
  lemma SummaryCases(description: string)
    ensures TypeValue(description) != "" && ColorValue(description) != "" ==>
      ExtractItemSummary(description) == ColorValue(description) + " " + Lower(TypeValue(description))
    ensures TypeValue(description) != "" && FieldText(description, ColorLabel).None? ==>
      ExtractItemSummary(description) == TypeValue(description)
    ensures TypeValue(description) == "" && ColorValue(description) != "" ==>
      ExtractItemSummary(description) == ColorValue(description)
  {
    var typeText := FieldText(description, TypeLabel);
    var colorText := FieldText(description, ColorLabel);
    CombineFieldsCases(typeText, colorText);
    if TypeValue(description) != "" && ColorValue(description) != "" {
      assert |CombineFields(typeText, colorText)| > 0;
    }
  }

  /** Neither field gives text: the formatted description up to its first `.`, which
      holds no `.` and no `**`. */
  lemma SummaryFallback(description: string)
    requires TypeValue(description) == "" && ColorValue(description) == ""
    ensures ExtractItemSummary(description) == FirstSentence(FormatItemDescription(description))
    ensures NoDoubleStar(ExtractItemSummary(description))
    ensures forall i :: 0 <= i < |ExtractItemSummary(description)| ==> ExtractItemSummary(description)[i] != '.'
  {
    CombineFieldsCases(FieldText(description, TypeLabel), FieldText(description, ColorLabel));
    var t := FormatItemDescription(description);
    FormatIsNormalised(description);
    FirstSentenceIsPrefix(t);
    SliceKeepsNormalForm(t, 0, |FirstSentence(t)|);
  }

  /** A summary built from the fields holds no `-`. */
  lemma SummaryFromFieldsHasNoDash(description: string)
    requires TypeValue(description) != "" || ColorValue(description) != ""
    ensures forall i :: 0 <= i < |ExtractItemSummary(description)| ==> ExtractItemSummary(description)[i] != '-'
  {
    var typeText := FieldText(description, TypeLabel);
    var colorText := FieldText(description, ColorLabel);
    if typeText.Some? {
      FieldTextHasNoDash(description, TypeLabel);
    }
    if colorText.Some? {
      FieldTextHasNoDash(description, ColorLabel);
    }
    CombineFieldsCases(typeText, colorText);
    CombineFieldsHasNoDash(typeText, colorText);
  }

  /** The input ".abc" has no fields and its first sentence is empty, so the summary of
      a non-empty description can be "". */
  lemma SummaryCanBeEmpty()
    ensures ExtractItemSummary(".abc") == ""
  {
    var d := ".abc";
    FieldCaptureAbsent(d, TypeLabel, 0);
    FieldCaptureAbsent(d, ColorLabel, 0);
    assert IsNormalised(d);
    FormatKeepsNormalised(d);
    assert FindChar(d, '.', 0) == Some(0);
  }

  // ---------------------------------------------------------------------------
  // A blank colour

  /** As written, a colour field that matches but trims to "" still takes the first
      branch: the summary becomes a space followed by the lower-cased type, which is
      not trimmed. */
  lemma BlankColourSpoilsSummary(description: string)
    requires TypeValue(description) != "" && FieldText(description, ColorLabel) == Some("")
    ensures ExtractItemSummary(description) == " " + Lower(TypeValue(description))
    ensures !IsTrimmed(ExtractItemSummary(description))
  {
    CombineFieldsBlankColour(FieldText(description, TypeLabel));
  }

  /** The colour field of the example below: a space before a `-`, given back by `\s*`. */
  lemma ExampleColour(d: string)
    requires d == "Color**: -Type of Clothing**:T"
    ensures FieldText(d, ColorLabel) == Some("")
  {
    assert d[0..8] == ColorLabel;
    SliceOccurs(d, ColorLabel, 0);
    assert SpaceEnd(d, 9) == 9;
    assert FieldMatchAt(d, ColorLabel, 0) == Some(FieldMatch(0, 8, 9));
    assert d[8..9] == " ";
    assert Trim(" ") == "";
  }

  /** The type field of the example below: "T", after ten characters with no `T`. */
  lemma ExampleType(d: string)
    requires d == "Color**: -Type of Clothing**:T"
    ensures FieldText(d, TypeLabel) == Some("T")
  {
    forall i | 0 <= i < 10 ensures FieldMatchAt(d, TypeLabel, i).None? {
      assert d[i] != TypeLabel[0];
      assert !OccursAt(d, TypeLabel, i);
    }
    assert d[10..29] == TypeLabel;
    SliceOccurs(d, TypeLabel, 10);
    assert FindChar(d, '-', 29) == None;
    assert FieldMatchAt(d, TypeLabel, 10) == Some(FieldMatch(10, 29, 30));
    FieldCaptureFirst(d, TypeLabel, 0, 10);
    assert d[29..30] == "T";
    assert Trim("T") == "T";
  }

  /** A concrete description on which this happens: the colour field is followed only
      by a space and a `-`, so its group is that space. The intended summary of the
      same description is the type, "T". */
  lemma BlankColourExample()
    ensures ExtractItemSummary("Color**: -Type of Clothing**:T") == " t"
    ensures IntendedItemSummary("Color**: -Type of Clothing**:T") == "T"
  {
    var d := "Color**: -Type of Clothing**:T";
    ExampleColour(d);
    ExampleType(d);
    CombineFieldsBlankColour(Some("T"));
    assert Lower("T") == "t";
  }

  /** The evidently intended combination: a colour contributes only when its text is
      non-empty. */
  function IntendedCombine(typ: string, color: string): (summary: string)
    ensures color == "" ==> summary == typ
    ensures typ == "" ==> summary == color
  {
    if color == "" then typ
    else if typ != "" then color + " " + Lower(typ)
    else color
  }

  /** Trimmed field texts make a trimmed summary. */
  lemma IntendedCombineIsTrimmed(typ: string, color: string)
    requires IsTrimmed(typ) && IsTrimmed(color)
    ensures IsTrimmed(IntendedCombine(typ, color))
  {
    if typ != "" && color != "" {
      var low := Lower(typ);
      var r := color + " " + low;
      assert r[|r| - 1] == low[|low| - 1] == LowerChar(typ[|typ| - 1]);
      assert r[0] == color[0];
    }
  }

  /** The evidently intended summary: as written, except that a blank colour leaves
      the type as it is. */
  function IntendedItemSummary(description: string): (r: string)
    ensures r == "" ==> FirstSentence(FormatItemDescription(description)) == ""
  {
    var summary := IntendedCombine(TypeValue(description), ColorValue(description));
    if summary != "" then summary else FirstSentence(FormatItemDescription(description))
  }

  /** With the correction, the type alone is returned unchanged whenever the colour
      gives no text, matched or not, and a summary built from the fields is trimmed. */
  lemma IntendedSummaryCases(description: string)
    ensures TypeValue(description) != "" && ColorValue(description) == ""
      ==> IntendedItemSummary(description) == TypeValue(description)
    ensures TypeValue(description) != "" || ColorValue(description) != ""
      ==> IsTrimmed(IntendedItemSummary(description))
  {
    IntendedCombineIsTrimmed(TypeValue(description), ColorValue(description));
  }

  /** The correction changes nothing except on a blank colour. */
  lemma IntendedAgreesElsewhere(description: string)
    requires FieldText(description, ColorLabel) != Some("")
    ensures IntendedItemSummary(description) == ExtractItemSummary(description)
  {
    CombineFieldsCases(FieldText(description, TypeLabel), FieldText(description, ColorLabel));
  }
}
