/** The history suggestions that start with what has been typed. */
module HistorySearch {
  import opened Options
  import opened Utf8

  /** `char::is_whitespace`: the Unicode White_Space property. */
  predicate IsWhitespace(c: char) {
    var n := c as int;
    0x09 <= n <= 0x0D || n == 0x20 || n == 0x85 || n == 0xA0 || n == 0x1680 || 0x2000 <= n <= 0x200A ||
    n == 0x2028 || n == 0x2029 || n == 0x202F || n == 0x205F || n == 0x3000
  }

  function TrimStart(s: string): string {
    if s != "" && IsWhitespace(s[0]) then TrimStart(s[1..]) else s
  }

  function TrimEnd(s: string): (r: string)
    ensures r <= s
    ensures r != "" ==> !IsWhitespace(r[|r| - 1])
    ensures forall i :: |r| <= i < |s| ==> IsWhitespace(s[i])
  {
    if s != "" && IsWhitespace(s[|s| - 1]) then TrimEnd(s[..|s| - 1]) else s
  }

  /** `str::trim` */
  function Trim(s: string): string {
    TrimEnd(TrimStart(s))
  }

  datatype Entry = Entry(text: string, details: Option<string>, icon: Option<string>, isAiQuery: bool)

  /** A suggestion; `matches` are the byte indices of `text` to highlight. */
  datatype Item = Item(
    text: string, details: Option<string>, matches: seq<nat>, icon: Option<string>, isAiQuery: bool,
    isHistoryItem: bool)

  predicate Matches(query: string, entry: Entry) {
    query <= entry.text
  }

  function ToItem(query: string, entry: Entry): Item {
    Item(Trim(entry.text), entry.details, seq(ByteLen(query), i => i), entry.icon, entry.isAiQuery, true)
  }

  function FilterMap(query: string, entries: seq<Entry>): seq<Item> {
    if entries == [] then []
    else
      var last := |entries| - 1;
      FilterMap(query, entries[..last]) + if Matches(query, entries[last]) then [ToItem(query, entries[last])] else []
  }

  /** `InputSuggestions::history_prefix_search` */
  function HistoryPrefixSearch(prefix: string, entries: seq<Entry>): seq<Item> {
    FilterMap(Trim(prefix), entries)
  }

  // ----- trimming

  lemma {:induction false} TrimStartStarts(s: string)
    ensures TrimStart(s) != "" ==> !IsWhitespace(TrimStart(s)[0])
    ensures TrimStart(s) == s <==> s == "" || !IsWhitespace(s[0])
    ensures |TrimStart(s)| <= |s|
  {
    if s != "" && IsWhitespace(s[0]) {
      TrimStartStarts(s[1..]);
    }
  }

  /** A trimmed string has no whitespace at either end. */
  lemma TrimmedEnds(s: string)
    ensures Trim(s) != "" ==> !IsWhitespace(Trim(s)[0]) && !IsWhitespace(Trim(s)[|Trim(s)| - 1])
  {
    TrimStartStarts(s);
  }

  predicate AllWhitespace(s: string) {
    forall i :: 0 <= i < |s| ==> IsWhitespace(s[i])
  }

  lemma {:induction false} TrimStartDrops(s: string) returns (before: string)
    ensures s == before + TrimStart(s) && AllWhitespace(before)
  {
    before := "";
    if s != "" && IsWhitespace(s[0]) {
      var rest := TrimStartDrops(s[1..]);
      before := [s[0]] + rest;
    }
  }

  /** Trimming takes away whitespace at both ends, and all of it. */
  lemma {:induction false} TrimIsExact(s: string) returns (before: string, after: string)
    ensures s == before + Trim(s) + after && AllWhitespace(before) && AllWhitespace(after)
    ensures Trim(s) != "" ==> !IsWhitespace(Trim(s)[0]) && !IsWhitespace(Trim(s)[|Trim(s)| - 1])
  {
    TrimmedEnds(s);
    before := TrimStartDrops(s);
    var t := TrimStart(s);
    after := t[|Trim(s)|..];
    assert t == Trim(s) + after;
  }

  /** Nothing up to a character that is not whitespace is trimmed from the end. */
  lemma TrimEndKeeps(q: string, s: string)
    requires q != "" && q <= s && !IsWhitespace(q[|q| - 1])
    ensures q <= TrimEnd(s)
  {
    assert s[|q| - 1] == q[|q| - 1];
  }

  // ----- which entries match

  /** Matching is done on the untrimmed entry. For a query that is not blank this means: the trimmed text starts with it
      and the entry has no leading whitespace. */
  lemma MatchesIff(prefix: string, entry: Entry)
    ensures var q := Trim(prefix);
            Matches(q, entry) <==> q == "" || (q <= Trim(entry.text) && TrimStart(entry.text) == entry.text)
  {
    var q := Trim(prefix);
    TrimmedEnds(prefix);
    TrimStartStarts(entry.text);
    if q != "" && q <= entry.text {
      TrimEndKeeps(q, entry.text);
    }
  }

  lemma {:induction false} BytesOfPrefix(p: string, s: string)
    requires p <= s
    ensures Bytes(p) <= Bytes(s)
  {
    if p != "" {
      BytesOfPrefix(p[1..], s[1..]);
    }
  }

  /** The highlighted byte indices are in range of the trimmed text that is shown, and highlight exactly the query. */
  lemma HighlightsAreTheQuery(prefix: string, entry: Entry)
    requires Matches(Trim(prefix), entry)
    ensures var item := ToItem(Trim(prefix), entry);
            && (forall m :: m in item.matches ==> m < ByteLen(item.text))
            && |item.matches| <= |Bytes(item.text)|
            && Bytes(item.text)[..|item.matches|] == Bytes(Trim(prefix))
  {
    MatchesIff(prefix, entry);
    BytesOfPrefix(Trim(prefix), Trim(entry.text));
  }

  // ----- the list of results

  /** The results are the items of the entries at the given positions. */
  ghost predicate ComesFrom(query: string, entries: seq<Entry>, items: seq<Item>, from: seq<nat>) {
    && |from| == |items|
    && (forall i :: 0 <= i < |from| ==> from[i] < |entries| && items[i] == ToItem(query, entries[from[i]]))
    && (forall i, j :: 0 <= i < j < |from| ==> from[i] < from[j])
  }

  ghost predicate AreTheMatches(query: string, entries: seq<Entry>, from: seq<nat>) {
    forall k: nat :: k in from <==> k < |entries| && Matches(query, entries[k])
  }

  /** The results are the matching entries in order, none lost and none invented: `from` lists the positions they come
      from, increasing, and it has exactly the positions that match. */
  lemma {:induction false} ResultsAreTheMatchesInOrder(query: string, entries: seq<Entry>) returns (from: seq<nat>)
    ensures ComesFrom(query, entries, FilterMap(query, entries), from)
    ensures AreTheMatches(query, entries, from)
  {
    if entries == [] {
      return [];
    }
    var last := |entries| - 1;
    var init := ResultsAreTheMatchesInOrder(query, entries[..last]);
    from := init + if Matches(query, entries[last]) then [last] else [];
    var items := FilterMap(query, entries[..last]);
    OneMoreItem(query, entries, items, init);
    OneMoreMatch(query, entries, init, from);
  }

  lemma OneMoreItem(query: string, entries: seq<Entry>, items: seq<Item>, from: seq<nat>)
    requires entries != [] && ComesFrom(query, entries[..|entries| - 1], items, from)
    ensures ComesFrom(query, entries, items + [], from + [])
    ensures ComesFrom(query, entries, items + [ToItem(query, entries[|entries| - 1])], from + [|entries| - 1])
  {
  }

  lemma OneMoreMatch(query: string, entries: seq<Entry>, from: seq<nat>, next: seq<nat>)
    requires entries != [] && AreTheMatches(query, entries[..|entries| - 1], from)
    requires next == from + if Matches(query, entries[|entries| - 1]) then [|entries| - 1] else []
    ensures AreTheMatches(query, entries, next)
  {
  }

  /** The search finds exactly the entries whose text starts with the trimmed prefix, in their order: `from` lists their
      positions. Each is suggested with its trimmed text, its other fields, and the bytes of the prefix highlighted. */
  lemma {:induction false} SearchFindsTheMatches(prefix: string, entries: seq<Entry>) returns (from: seq<nat>)
    ensures |from| == |HistoryPrefixSearch(prefix, entries)|
    ensures forall i, j :: 0 <= i < j < |from| ==> from[i] < from[j]
    ensures forall k: nat :: k in from <==> k < |entries| && Trim(prefix) <= entries[k].text
    ensures forall i :: 0 <= i < |from| ==>
              from[i] < |entries| && Suggests(HistoryPrefixSearch(prefix, entries)[i], prefix, entries[from[i]])
  {
    from := ResultsAreTheMatchesInOrder(Trim(prefix), entries);
    forall i | 0 <= i < |from|
      ensures from[i] < |entries| && Suggests(HistoryPrefixSearch(prefix, entries)[i], prefix, entries[from[i]])
    {
      assert from[i] in from;
      HighlightsAreTheQuery(prefix, entries[from[i]]);
    }
  }

  /** The suggestion for an entry; the highlighted bytes are the first ones, and they are those of the prefix. */
  ghost predicate Suggests(item: Item, prefix: string, entry: Entry) {
    && item.text == Trim(entry.text) && item.details == entry.details && item.icon == entry.icon
    && item.isAiQuery == entry.isAiQuery && item.isHistoryItem
    && |item.matches| == |Bytes(Trim(prefix))| <= |Bytes(item.text)|
    && (forall i :: 0 <= i < |item.matches| ==> item.matches[i] == i)
    && Bytes(item.text)[..|item.matches|] == Bytes(Trim(prefix))
  }

  /** A blank query suggests every entry and highlights nothing. */
  lemma {:induction false} BlankQuerySuggestsEverything(prefix: string, entries: seq<Entry>)
    requires Trim(prefix) == ""
    ensures |HistoryPrefixSearch(prefix, entries)| == |entries|
    ensures forall i :: 0 <= i < |entries| ==>
              var item := HistoryPrefixSearch(prefix, entries)[i];
              item == ToItem("", entries[i]) && item.matches == []
  {
    if entries != [] {
      BlankQuerySuggestsEverything(prefix, entries[..|entries| - 1]);
    }
  }
}
