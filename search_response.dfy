/**
 The tagged-response parser: turns the text a language model returns for a
 wardrobe search into free-text suggestions, an ordered list of recommended
 wardrobe items (each resolved against the caller's wardrobe), and free-text
 missing-item advice. The envelope it reads is

   <suggestions> ... </suggestions>
   <recommended-item id="ID"> ... </recommended-item>   (any number)
   <missing-items> ... </missing-items>

 Each regular expression of the parser is written out as an explicit scanner.
 */
module SearchResponse {
  import opened Strings

  /** A wardrobe item as stored for the user; the parser only reads it. */
  datatype WardrobeItem = WardrobeItem(id: string, description: string, imageUrl: string)

  /** One `<recommended-item>` of the response, with the wardrobe item its id names, if any. */
  datatype RecommendedItem = RecommendedItem(id: string, usage: string, item: Option<WardrobeItem>)

  datatype ParsedSearchResponse =
    ParsedSearchResponse(suggestions: string, recommendedItems: seq<RecommendedItem>, missingItems: string)

  const SuggestionsOpen := "<suggestions>"
  const SuggestionsClose := "</suggestions>"
  const MissingItemsOpen := "<missing-items>"
  const MissingItemsClose := "</missing-items>"
  /** The fixed text of a recommended-item opening tag, up to the id. */
  const ItemOpen := "<recommended-item id=\""
  const ItemClose := "</recommended-item>"

  // ---------------------------------------------------------------------------
  // The id -> item lookup table

  /** `new Map(items.map(item => [item.id, item]))`: one key per distinct id; a later
      item replaces an earlier one with the same id. */
  function ItemMap(items: seq<WardrobeItem>): (m: map<string, WardrobeItem>)
    ensures forall id :: id in m <==> exists j :: 0 <= j < |items| && items[j].id == id
    ensures forall id :: id in m ==> m[id].id == id && m[id] in items
  {
    if items == [] then map[]
    else
      var last := items[|items| - 1];
      ItemMap(items[..|items| - 1])[last.id := last]
  }

  /** The lookup finds the LAST wardrobe item that carries the id. */
  lemma {:induction false} ItemMapLastWins(items: seq<WardrobeItem>, j: nat)
    requires j < |items|
    requires forall k :: j < k < |items| ==> items[k].id != items[j].id
    ensures items[j].id in ItemMap(items) && ItemMap(items)[items[j].id] == items[j]
  {
    if j < |items| - 1 {
      var init := items[..|items| - 1];
      assert init[j] == items[j];
      ItemMapLastWins(init, j);
    }
  }

  // ---------------------------------------------------------------------------
  // `<suggestions>` and `<missing-items>`: the first match of `<open>([\s\S]*?)<close>`

  /** Regular-expression reading of `<open>([\s\S]*?)<close>`: a match starts with
      `open` at `p` and its content ends at `c`, the first `close` at or after the end of
      the opening tag (the lazy `*?`). */
  ghost predicate IsSectionMatch(s: string, open: string, close: string, p: nat, c: nat) {
    OccursAt(s, open, p) && p + |open| <= c && OccursAt(s, close, c)
    && forall i :: p + |open| <= i < c ==> !OccursAt(s, close, i)
  }

  /** `s.match(...)`, capture group 1: the raw content of the first `open ... close`
      pair, if there is one. */
  function SectionMatch(s: string, open: string, close: string): (r: Option<string>)
    ensures r.Some? ==> |r.value| <= |s|
  {
    match IndexOf(s, open, 0)
    case None => None
    case Some(o) =>
      match IndexOf(s, close, o + |open|)
      case None => None
      case Some(c) => Some(s[o + |open|..c])
  }

  /** `match ? match[1].trim() : ""`. */
  function Section(s: string, open: string, close: string): (r: string)
    ensures IsTrimmed(r)
  {
    match SectionMatch(s, open, close)
    case None => ""
    case Some(content) => Trim(content)
  }

  /** An opening tag and the first closing tag after it form a match. */
  lemma FirstCloseMakesMatch(s: string, open: string, close: string, o: nat)
    requires OccursAt(s, open, o) && IndexOf(s, close, o + |open|).Some?
    ensures IsSectionMatch(s, open, close, o, IndexOf(s, close, o + |open|).value)
  {
    var c := IndexOf(s, close, o + |open|).value;
    forall i | o + |open| <= i < c ensures !OccursAt(s, close, i) {
      IndexOfNoneBefore(s, close, o + |open|, i);
    }
  }

  /** When the expression matches nowhere, the section is the empty string. */
  lemma SectionAbsent(s: string, open: string, close: string)
    requires forall p: nat, c: nat :: !IsSectionMatch(s, open, close, p, c)
    ensures SectionMatch(s, open, close).None? && Section(s, open, close) == ""
  {
    match IndexOf(s, open, 0)
    case None =>
    case Some(o) =>
      if IndexOf(s, close, o + |open|).Some? {
        FirstCloseMakesMatch(s, open, close, o);
        assert false;
      }
  }

  /** Otherwise the section is the trimmed content of the match that starts first:
      only the first `open ... close` pair is read, later ones are ignored. */
  lemma SectionIsLeftmostMatch(s: string, open: string, close: string, p: nat, c: nat)
    requires IsSectionMatch(s, open, close, p, c)
    requires forall p': nat, c': nat :: p' < p ==> !IsSectionMatch(s, open, close, p', c')
    ensures SectionMatch(s, open, close) == Some(s[p + |open|..c])
    ensures Section(s, open, close) == Trim(s[p + |open|..c])
  {
    FirstOpenIsMatchStart(s, open, close, p, c);
    IndexOfFirst(s, close, p + |open|, c);
    SectionMatchAt(s, open, close, p, c);
  }

  /** The first opening tag of `s` is where the leftmost match starts. */
  lemma FirstOpenIsMatchStart(s: string, open: string, close: string, p: nat, c: nat)
    requires IsSectionMatch(s, open, close, p, c)
    requires forall p': nat, c': nat :: p' < p ==> !IsSectionMatch(s, open, close, p', c')
    ensures IndexOf(s, open, 0) == Some(p)
  {
    var r := IndexOf(s, open, 0);
    if r.None? || p < r.value {
      IndexOfNoneBefore(s, open, 0, p);
      assert false;
    }
    var o := r.value;
    if o < p {
      var r' := IndexOf(s, close, o + |open|);
      if r'.None? || c < r'.value {
        IndexOfNoneBefore(s, close, o + |open|, c);
        assert false;
      }
      FirstCloseMakesMatch(s, open, close, o);
      assert false;
    }
  }

  lemma SectionMatchAt(s: string, open: string, close: string, o: nat, c: nat)
    requires IndexOf(s, open, 0) == Some(o) && IndexOf(s, close, o + |open|) == Some(c)
    ensures SectionMatch(s, open, close) == Some(s[o + |open|..c])
    ensures Section(s, open, close) == Trim(s[o + |open|..c])
  {
  }

  // ---------------------------------------------------------------------------
  // `<recommended-item id="([^"]+)">([\s\S]*?)<\/recommended-item>`, global flag

  /** One match of the recommended-item expression: where it starts, the id, the raw
      usage text between the tags, and the index just past the closing tag. */
  datatype ItemMatch = ItemMatch(start: nat, id: string, body: string, end: nat)

  /** Regular-expression reading of `<open>([^"]+)">([\s\S]*?)<close>` matching at
      `m.start`, where `open` is the opening text up to the id: a non-empty id free of
      `"`, then `">`, then the body up to the first `close` after it. */
  ghost predicate IsItemMatch(s: string, open: string, close: string, m: ItemMatch) {
    var a := m.start + |open|;
    var q := a + |m.id|;
    var c := q + 2 + |m.body|;
    OccursAt(s, open, m.start)
    && m.id != [] && (forall i :: 0 <= i < |m.id| ==> m.id[i] != '"')
    && OccursAt(s, m.id, a) && q + 1 < |s| && s[q] == '"' && s[q + 1] == '>'
    && OccursAt(s, m.body, q + 2) && OccursAt(s, close, c)
    && (forall i :: q + 2 <= i < c ==> !OccursAt(s, close, i))
    && m.end == c + |close|
  }

  /** The match of the expression anchored at `p`, if there is one. `[^"]+` followed
      by `"` can only end at the first quote, so the id runs exactly up to it. */
  function ItemMatchAt(s: string, open: string, close: string, p: nat): (r: Option<ItemMatch>)
    ensures r.Some? ==> r.value.start == p && p < r.value.end <= |s|
  {
    if !OccursAt(s, open, p) then None
    else
      var a := p + |open|;
      match FindChar(s, '"', a)
      case None => None
      case Some(q) =>
        if q == a || q + 1 == |s| || s[q + 1] != '>' then None
        else ItemMatchBody(s, close, p, a, q)
  }

  /** The rest of a match whose id is `s[a..q]`: the lazy body after `">` runs up to the
      first closing tag, and without one there is no match. */
  function ItemMatchBody(s: string, close: string, p: nat, a: nat, q: nat): (r: Option<ItemMatch>)
    requires p <= a <= q && q + 2 <= |s|
    ensures r.Some? ==> r.value.start == p && p < r.value.end <= |s|
  {
    match IndexOf(s, close, q + 2)
    case None => None
    case Some(c) => Some(ItemMatch(p, s[a..q], s[q + 2..c], c + |close|))
  }

  /** `ItemMatchAt` once the id has been read. */
  lemma ItemMatchAtId(s: string, open: string, close: string, p: nat, q: nat)
    requires OccursAt(s, open, p) && FindChar(s, '"', p + |open|) == Some(q)
    requires p + |open| < q && q + 1 < |s| && s[q + 1] == '>'
    ensures ItemMatchAt(s, open, close, p) == ItemMatchBody(s, close, p, p + |open|, q)
  {
  }

  /** `ItemMatchBody` once the closing tag has been found. */
  lemma ItemMatchBodyAt(s: string, close: string, p: nat, a: nat, q: nat, c: nat)
    requires p <= a <= q && q + 2 <= |s|
    requires IndexOf(s, close, q + 2) == Some(c)
    ensures ItemMatchBody(s, close, p, a, q) == Some(ItemMatch(p, s[a..q], s[q + 2..c], c + |close|))
  {
  }

  /** The pieces the scanner reads off make a match of the expression. */
  lemma ItemMatchOfPieces(s: string, open: string, close: string, p: nat, q: nat, c: nat)
    requires OccursAt(s, open, p) && p + |open| < q && q + 1 < |s| && s[q] == '"' && s[q + 1] == '>'
    requires forall i :: p + |open| <= i < q ==> s[i] != '"'
    requires q + 2 <= c && OccursAt(s, close, c)
    requires forall i :: q + 2 <= i < c ==> !OccursAt(s, close, i)
    ensures IsItemMatch(s, open, close, ItemMatch(p, s[p + |open|..q], s[q + 2..c], c + |close|))
  {
    var a := p + |open|;
    var id := s[a..q];
    forall k | 0 <= k < |id| ensures id[k] != '"' {
      assert id[k] == s[a + k];
    }
  }

  /** What `ItemMatchAt` finds is a match of the expression. */
  lemma ItemMatchAtSound(s: string, open: string, close: string, p: nat)
    requires ItemMatchAt(s, open, close, p).Some?
    ensures IsItemMatch(s, open, close, ItemMatchAt(s, open, close, p).value)
  {
    var a := p + |open|;
    var q := FindChar(s, '"', a).value;
    ItemMatchAtId(s, open, close, p, q);
    var c := IndexOf(s, close, q + 2).value;
    ItemMatchBodyAt(s, close, p, a, q, c);
    forall i | a <= i < q ensures s[i] != '"' {
      FindCharNoneBefore(s, '"', a, i);
    }
    forall i | q + 2 <= i < c ensures !OccursAt(s, close, i) {
      IndexOfNoneBefore(s, close, q + 2, i);
    }
    ItemMatchOfPieces(s, open, close, p, q, c);
  }

  /** A match is determined by where it starts and ends: its id and body are the text
      between the tags. */
  lemma ItemMatchIsItsPieces(s: string, open: string, close: string, m: ItemMatch)
    requires IsItemMatch(s, open, close, m)
    ensures var a := m.start + |open|;
      var q := a + |m.id|;
      var c := q + 2 + |m.body|;
      m == ItemMatch(m.start, s[a..q], s[q + 2..c], c + |close|)
  {
  }

  /** A quote-free id followed by a quote ends at the first quote after its start. */
  lemma QuoteFreeIdEndsAtQuote(s: string, a: nat, id: string)
    requires OccursAt(s, id, a) && a + |id| < |s| && s[a + |id|] == '"'
    requires forall k :: 0 <= k < |id| ==> id[k] != '"'
    ensures FindChar(s, '"', a) == Some(a + |id|)
  {
    forall i | a <= i < a + |id| ensures s[i] != '"' {
      assert s[i] == id[i - a];
    }
    FindCharFirst(s, '"', a, a + |id|);
  }

  /** The two searches of the scanner, run on a match, stop at its closing quote and
      at its closing tag. */
  lemma ItemMatchSearches(s: string, open: string, close: string, m: ItemMatch)
    requires IsItemMatch(s, open, close, m)
    ensures var a := m.start + |open|;
      var q := a + |m.id|;
      FindChar(s, '"', a) == Some(q) && IndexOf(s, close, q + 2) == Some(q + 2 + |m.body|)
  {
    var a := m.start + |open|;
    var q := a + |m.id|;
    QuoteFreeIdEndsAtQuote(s, a, m.id);
    IndexOfFirst(s, close, q + 2, q + 2 + |m.body|);
  }

  /** Every match of the expression anchored at `m.start` is the one `ItemMatchAt` finds:
      the scanner misses no match and at most one match starts at a position. */
  lemma ItemMatchAtComplete(s: string, open: string, close: string, m: ItemMatch)
    requires IsItemMatch(s, open, close, m)
    ensures ItemMatchAt(s, open, close, m.start) == Some(m)
  {
    var a := m.start + |open|;
    var q := a + |m.id|;
    var c := q + 2 + |m.body|;
    ItemMatchSearches(s, open, close, m);
    ItemMatchAtId(s, open, close, m.start, q);
    ItemMatchBodyAt(s, close, m.start, a, q, c);
    ItemMatchIsItsPieces(s, open, close, m);
  }

  /** `exec` from `lastIndex == from`: the leftmost match starting at or after `from`. */
  function NextItemMatch(s: string, open: string, close: string, from: nat): (r: Option<ItemMatch>)
    decreases |s| - from
    ensures r.Some? ==> from <= r.value.start < r.value.end <= |s|
  {
    if from >= |s| then None
    else
      match ItemMatchAt(s, open, close, from)
      case Some(m) => Some(m)
      case None => NextItemMatch(s, open, close, from + 1)
  }

  /** What `exec` returns is the match of the expression anchored where it starts. */
  lemma {:induction false} NextItemMatchFound(s: string, open: string, close: string, from: nat)
    decreases |s| - from
    ensures NextItemMatch(s, open, close, from).Some? ==>
      ItemMatchAt(s, open, close, NextItemMatch(s, open, close, from).value.start)
        == NextItemMatch(s, open, close, from)
  {
    if from < |s| && ItemMatchAt(s, open, close, from).None? {
      NextItemMatchFound(s, open, close, from + 1);
    }
  }

  /** `exec` skips no match: the expression matches at no position from `from` up to
      the one it reports, nor anywhere after `from` when it reports none. */
  lemma {:induction false} NextItemMatchIsLeftmost(s: string, open: string, close: string, from: nat, p: nat)
    requires from <= p
    requires NextItemMatch(s, open, close, from).None? || p < NextItemMatch(s, open, close, from).value.start
    decreases |s| - from
    ensures ItemMatchAt(s, open, close, p).None?
  {
    if from < |s| && ItemMatchAt(s, open, close, from).None? && from < p {
      NextItemMatchIsLeftmost(s, open, close, from + 1, p);
    }
  }

  /** All matches found by repeated `exec` starting at `from`: each search resumes where
      the previous match ended, so the matches are in textual order and do not overlap. */
  function ItemMatches(s: string, open: string, close: string, from: nat): (ms: seq<ItemMatch>)
    decreases |s| - from
  {
    match NextItemMatch(s, open, close, from)
    case None => []
    case Some(m) => [m] + ItemMatches(s, open, close, m.end)
  }

  /** One step of the scan: the matches from `from` are the next match followed by the
      matches after it, or none when `exec` finds nothing. */
  lemma ItemMatchesStep(s: string, open: string, close: string, from: nat)
    ensures NextItemMatch(s, open, close, from).None? ==> ItemMatches(s, open, close, from) == []
    ensures NextItemMatch(s, open, close, from).Some? ==>
      ItemMatches(s, open, close, from)
        == [NextItemMatch(s, open, close, from).value]
           + ItemMatches(s, open, close, NextItemMatch(s, open, close, from).value.end)
  {
  }

  /** The scanned matches lie after `from`, in textual order, without overlapping. */
  lemma {:induction false} ScannedInOrder(s: string, open: string, close: string, from: nat, i: nat)
    requires 0 < i < |ItemMatches(s, open, close, from)|
    decreases |s| - from
    ensures var ms := ItemMatches(s, open, close, from);
      from <= ms[i - 1].start < ms[i - 1].end <= ms[i].start < ms[i].end <= |s|
  {
    var m :| NextItemMatch(s, open, close, from) == Some(m);
    var rest := ItemMatches(s, open, close, m.end);
    assert ItemMatches(s, open, close, from) == [m] + rest;
    if i > 1 {
      ScannedInOrder(s, open, close, m.end, i - 1);
    } else {
      assert rest[0] == NextItemMatch(s, open, close, m.end).value;
    }
  }

  /** Each scanned match is the match of the expression anchored where it starts. */
  lemma {:induction false} ScannedIsMatch(s: string, open: string, close: string, from: nat, i: nat)
    requires i < |ItemMatches(s, open, close, from)|
    decreases |s| - from
    ensures var m := ItemMatches(s, open, close, from)[i];
      ItemMatchAt(s, open, close, m.start) == Some(m) && IsItemMatch(s, open, close, m)
  {
    NextItemMatchFound(s, open, close, from);
    var m :| NextItemMatch(s, open, close, from) == Some(m);
    var rest := ItemMatches(s, open, close, m.end);
    assert ItemMatches(s, open, close, from) == [m] + rest;
    if i == 0 {
      ItemMatchAtSound(s, open, close, m.start);
    } else {
      ScannedIsMatch(s, open, close, m.end, i - 1);
    }
  }

  /** The scan is the global, non-overlapping, leftmost-first reading of the expression:
      every match of it anywhere in `s` at or after `from` is either one of the scanned
      matches or starts inside one of them. */
  lemma {:induction false} EveryMatchIsScannedOrOverlapped(s: string, open: string, close: string, from: nat, m: ItemMatch)
    requires IsItemMatch(s, open, close, m) && from <= m.start
    decreases |s| - from
    ensures m in ItemMatches(s, open, close, from)
      || exists n :: n in ItemMatches(s, open, close, from) && n.start < m.start < n.end
  {
    ItemMatchAtComplete(s, open, close, m);
    NextItemMatchFound(s, open, close, from);
    var ms := ItemMatches(s, open, close, from);
    match NextItemMatch(s, open, close, from)
    case None =>
      NextItemMatchIsLeftmost(s, open, close, from, m.start);
      assert false;
    case Some(n) =>
      assert ms == [n] + ItemMatches(s, open, close, n.end);
      assert n in ms;
      if m.start < n.start {
        NextItemMatchIsLeftmost(s, open, close, from, m.start);
        assert false;
      } else if m.start == n.start {
        assert ItemMatchAt(s, open, close, n.start) == Some(n);
      } else if m.start >= n.end {
        EveryMatchIsScannedOrOverlapped(s, open, close, n.end, m);
        if m !in ItemMatches(s, open, close, n.end) {
          var k :| k in ItemMatches(s, open, close, n.end) && k.start < m.start < k.end;
          assert k in ms;
        }
      }
  }

  // ---------------------------------------------------------------------------
  // Resolution and the whole result

  /** The entry pushed for one match: the id, the trimmed usage, and the looked-up item. */
  function Recommend(m: ItemMatch, itemMap: map<string, WardrobeItem>): RecommendedItem {
    RecommendedItem(m.id, Trim(m.body), if m.id in itemMap then Some(itemMap[m.id]) else None)
  }

  function RecommendAll(ms: seq<ItemMatch>, itemMap: map<string, WardrobeItem>): (rs: seq<RecommendedItem>)
    ensures |rs| == |ms|
  {
    if ms == [] then [] else [Recommend(ms[0], itemMap)] + RecommendAll(ms[1..], itemMap)
  }

  /** Entry `i` is built from match `i`: one entry per match, in the order of the matches. */
  lemma {:induction false} RecommendAllAt(ms: seq<ItemMatch>, itemMap: map<string, WardrobeItem>, i: nat)
    requires i < |ms|
    ensures RecommendAll(ms, itemMap)[i] == Recommend(ms[i], itemMap)
  {
    if i > 0 {
      RecommendAllAt(ms[1..], itemMap, i - 1);
    }
  }

  /** What `parseSearchResponse(response, wardrobeItems)` returns. */
  function ParsedResponse(response: string, wardrobeItems: seq<WardrobeItem>): ParsedSearchResponse {
    ParsedSearchResponse(
      Section(response, SuggestionsOpen, SuggestionsClose),
      RecommendAll(ItemMatches(response, ItemOpen, ItemClose, 0), ItemMap(wardrobeItems)),
      Section(response, MissingItemsOpen, MissingItemsClose))
  }

  /** The parser as the source runs it: build the lookup table, take the two sections,
      and collect the recommended items with the global expression. */
  method ParseSearchResponse(response: string, wardrobeItems: seq<WardrobeItem>) returns (r: ParsedSearchResponse)
    ensures r == ParsedResponse(response, wardrobeItems)
  {
    var itemMap := ItemMap(wardrobeItems);
    var suggestions := Section(response, SuggestionsOpen, SuggestionsClose);
    var recommendedItems := CollectRecommendedItems(response, ItemOpen, ItemClose, itemMap);
    var missingItems := Section(response, MissingItemsOpen, MissingItemsClose);
    r := ParsedSearchResponse(suggestions, recommendedItems, missingItems);
  }

  /** The `exec` loop of the parser: `lastIndex` starts at 0, each match appends one
      entry and moves `lastIndex` past itself, and the loop stops when `exec` finds
      nothing more. */
  method CollectRecommendedItems(response: string, open: string, close: string, itemMap: map<string, WardrobeItem>)
    returns (recommendedItems: seq<RecommendedItem>)
    ensures recommendedItems == RecommendAll(ItemMatches(response, open, close, 0), itemMap)
  {
    recommendedItems := [];
    var lastIndex: nat := 0;
    var found := NextItemMatch(response, open, close, lastIndex);
    while found.Some?
      invariant found == NextItemMatch(response, open, close, lastIndex)
      invariant recommendedItems + RecommendAll(ItemMatches(response, open, close, lastIndex), itemMap)
             == RecommendAll(ItemMatches(response, open, close, 0), itemMap)
      decreases |response| - lastIndex
    {
      var m := found.value;
      ghost var rest := ItemMatches(response, open, close, m.end);
      ItemMatchesStep(response, open, close, lastIndex);
      assert ([m] + rest)[1..] == rest;
      assert RecommendAll([m] + rest, itemMap) == [Recommend(m, itemMap)] + RecommendAll(rest, itemMap);
      recommendedItems := recommendedItems + [Recommend(m, itemMap)];
      lastIndex := m.end;
      found := NextItemMatch(response, open, close, lastIndex);
    }
    ItemMatchesStep(response, open, close, lastIndex);
  }

  // ---------------------------------------------------------------------------
  // Properties of the parse

  /** The body of a match holds no closing tag: the lazy body stops at the first one. */
  lemma BodyHasNoClose(s: string, open: string, close: string, m: ItemMatch)
    requires IsItemMatch(s, open, close, m) && close != []
    ensures !Contains(m.body, close)
  {
    var b := m.start + |open| + |m.id| + 2;
    var c := b + |m.body|;
    assert m.body == s[b..c];
    if Contains(m.body, close) {
      var j: nat :| OccursAt(m.body, close, j);
      OccursInSlice(s, b, c, close, j);
      assert false;
    }
  }

  /** A scanned match has a non-empty, quote-free id, and its trimmed body holds no
      closing tag. */
  lemma ScannedMatchIsWellFormed(s: string, open: string, close: string, from: nat, i: nat)
    requires i < |ItemMatches(s, open, close, from)| && close != []
    ensures var m := ItemMatches(s, open, close, from)[i];
      m.id != [] && (forall k :: 0 <= k < |m.id| ==> m.id[k] != '"')
      && !Contains(Trim(m.body), close)
  {
    var m := ItemMatches(s, open, close, from)[i];
    ScannedIsMatch(s, open, close, from, i);
    BodyHasNoClose(s, open, close, m);
    TrimKeepsAbsentPattern(m.body, close);
  }

  /** Entry `i` of the result is match `i` of the scan, and every entry is well formed:
      a non-empty, quote-free id and a trimmed usage that contains no closing tag. */
  lemma EntriesAreWellFormed(response: string, wardrobeItems: seq<WardrobeItem>, i: nat)
    requires i < |ParsedResponse(response, wardrobeItems).recommendedItems|
    ensures var e := ParsedResponse(response, wardrobeItems).recommendedItems[i];
      var m := ItemMatches(response, ItemOpen, ItemClose, 0)[i];
      e.id == m.id && e.usage == Trim(m.body)
      && e.id != [] && (forall k :: 0 <= k < |e.id| ==> e.id[k] != '"')
      && IsTrimmed(e.usage) && !Contains(e.usage, ItemClose)
  {
    var ms := ItemMatches(response, ItemOpen, ItemClose, 0);
    RecommendAllAt(ms, ItemMap(wardrobeItems), i);
    ScannedMatchIsWellFormed(response, ItemOpen, ItemClose, 0, i);
  }

  /** An entry carries an item exactly when some wardrobe item has its id, and the item
      it carries is a wardrobe item with that id. */
  lemma ResolvedExactlyWhenRegistered(response: string, wardrobeItems: seq<WardrobeItem>, i: nat)
    requires i < |ParsedResponse(response, wardrobeItems).recommendedItems|
    ensures var e := ParsedResponse(response, wardrobeItems).recommendedItems[i];
      (e.item.Some? <==> exists j :: 0 <= j < |wardrobeItems| && wardrobeItems[j].id == e.id)
      && (e.item.Some? ==> e.item.value in wardrobeItems && e.item.value.id == e.id)
  {
    RecommendAllAt(ItemMatches(response, ItemOpen, ItemClose, 0), ItemMap(wardrobeItems), i);
  }

  /** When several wardrobe items share the referenced id, the last of them is the one
      the entry carries, unchanged. */
  lemma ResolvesToLastRegistered(response: string, wardrobeItems: seq<WardrobeItem>, i: nat, j: nat)
    requires i < |ParsedResponse(response, wardrobeItems).recommendedItems|
    requires j < |wardrobeItems|
    requires wardrobeItems[j].id == ParsedResponse(response, wardrobeItems).recommendedItems[i].id
    requires forall k :: j < k < |wardrobeItems| ==> wardrobeItems[k].id != wardrobeItems[j].id
    ensures ParsedResponse(response, wardrobeItems).recommendedItems[i].item == Some(wardrobeItems[j])
  {
    RecommendAllAt(ItemMatches(response, ItemOpen, ItemClose, 0), ItemMap(wardrobeItems), i);
    ItemMapLastWins(wardrobeItems, j);
  }

  /** The wardrobe only decides the `item` fields: everything else in the result is the
      same for any two wardrobes. */
  lemma WardrobeOnlyAffectsItems(response: string, w1: seq<WardrobeItem>, w2: seq<WardrobeItem>)
    ensures var r1, r2 := ParsedResponse(response, w1), ParsedResponse(response, w2);
      r1.suggestions == r2.suggestions && r1.missingItems == r2.missingItems
      && |r1.recommendedItems| == |r2.recommendedItems|
      && forall i :: 0 <= i < |r1.recommendedItems| ==>
           r1.recommendedItems[i].id == r2.recommendedItems[i].id
           && r1.recommendedItems[i].usage == r2.recommendedItems[i].usage
  {
    var ms := ItemMatches(response, ItemOpen, ItemClose, 0);
    forall i | 0 <= i < |ms|
      ensures RecommendAll(ms, ItemMap(w1))[i].id == RecommendAll(ms, ItemMap(w2))[i].id
      ensures RecommendAll(ms, ItemMap(w1))[i].usage == RecommendAll(ms, ItemMap(w2))[i].usage
    {
      RecommendAllAt(ms, ItemMap(w1), i);
      RecommendAllAt(ms, ItemMap(w2), i);
    }
  }

  /** The empty response parses to the empty result, whatever the wardrobe. */
  lemma EmptyResponse(wardrobeItems: seq<WardrobeItem>)
    ensures ParsedResponse("", wardrobeItems) == ParsedSearchResponse("", [], "")
  {
  }
}
