/** The list page of m/js/list.js: the stars shown (neither the root nor a
    category), the search box filter, the sort menu and the CSV export. */
module StarList {
  import opened Seqs
  import opened Text
  import opened TreeState
  import opened Csv

  /** A star: neither the root nor a category. */
  predicate IsStar(n: Node)
  {
    !n.isMe && !n.isCategory
  }

  /** `items` in `boot`: empty when nothing was loaded, else the stars in storage order. */
  function Items(nodes: Option<seq<Node>>): (r: seq<Node>)
    ensures nodes.None? ==> r == []
    ensures nodes.Some? ==> forall n :: n in r <==> n in nodes.value && IsStar(n)
    ensures nodes.Some? ==> forall n :: IsStar(n) ==> multiset(r)[n] == multiset(nodes.value)[n]
    ensures nodes.Some? ==> IsSubsequence(r, nodes.value)
  {
    match nodes
    case None => []
    case Some(ns) =>
      FilterMembers(ns, IsStar);
      FilterCount(ns, IsStar);
      FilterSubsequence(ns, IsStar);
      Filter(ns, IsStar)
  }

  /** The text a query is matched against: title, a space, notes, lowercased. */
  function Haystack(n: Node): string
  {
    Lower(n.title + " " + n.notes)
  }

  /** The search box value, trimmed and lowercased. */
  function Query(input: string): (q: string)
    ensures |q| == |Trim(input)|
  {
    Lower(Trim(input))
  }

  /** The filter in `render`: an empty query keeps every item; otherwise an
      item is kept exactly when its haystack contains the query. */
  function Search(items: seq<Node>, input: string): (r: seq<Node>)
    ensures Trim(input) == "" ==> r == items
    ensures Trim(input) != "" ==>
      forall n :: n in r <==> n in items && exists i :: OccursAt(Haystack(n), Query(input), i)
    ensures forall n :: n in r ==> multiset(r)[n] == multiset(items)[n]
    ensures IsSubsequence(r, items)
  {
    var q := Query(input);
    if q == "" then
      SubsequenceOfSelf(items);
      items
    else
      var hit := (n: Node) => Contains(Haystack(n), q);
      FilterMembers(items, hit);
      FilterCount(items, hit);
      FilterSubsequence(items, hit);
      var r := Filter(items, hit);
      forall n | n in items ensures Contains(Haystack(n), q) <==> exists i :: OccursAt(Haystack(n), q, i) {
        ContainsIff(Haystack(n), q);
      }
      r
  }

  predicate IsDone(n: Node)
  {
    n.completed
  }

  /** The "(n done)" count of `render`: it never exceeds the list length. */
  function DoneCount(list: seq<Node>): (r: nat)
    ensures r <= |list|
  {
    |Filter(list, IsDone)|
  }

  /** The count is zero exactly when nothing is done, and the full length
      exactly when everything is. */
  lemma DoneCountExtremes(list: seq<Node>)
    ensures DoneCount(list) == 0 <==> forall n :: n in list ==> !n.completed
    ensures DoneCount(list) == |list| <==> forall n :: n in list ==> n.completed
  {
    var done := Filter(list, IsDone);
    FilterMembers(list, IsDone);
    if done != [] {
      assert done[0] in done;
    }
    if i :| 0 <= i < |list| && !list[i].completed {
      FilterShorter(list, IsDone, i);
    } else {
      FilterAll(list, IsDone);
    }
  }

  /* ----- sorting ----- */

  /** `num(priority)`: a missing or null priority counts as 0. */
  function Num(p: Option<int>): (r: int)
    ensures p.Some? ==> r == p.value
    ensures r == 0 <==> p.None? || p.value == 0
  {
    match p
    case None => 0
    case Some(v) => v
  }

  /** `time(iso)`: the parsed instant in milliseconds, or 0 when `Date`
      cannot parse it; `parse` stands for the `Date` parser. */
  function Time(iso: string, parse: string -> Option<int>): (r: int)
    ensures parse(iso).Some? ==> r == parse(iso).value
    ensures r == 0 <==> parse(iso).None? || parse(iso).value == 0
  {
    match parse(iso)
    case None => 0
    case Some(t) => t
  }

  predicate KnownSort(sort: string)
  {
    sort in {"priority_desc", "priority_asc", "created_desc", "created_asc", "title_asc", "title_desc"}
  }

  /** The comparator `sortList` passes to `Array.prototype.sort` for each
      known sort, and 0 (no reordering) otherwise. `x.localeCompare(y, "ja")`
      is `collate(x) - collate(y)`: `collate` stands for the "ja" collation,
      as integer collation keys. */
  function Comparator(sort: string, parse: string -> Option<int>, collate: string -> int,
                      a: Node, b: Node): int
  {
    match sort
    case "priority_desc" => Num(b.priority) - Num(a.priority)
    case "priority_asc" => Num(a.priority) - Num(b.priority)
    case "created_desc" => Time(b.createdAt, parse) - Time(a.createdAt, parse)
    case "created_asc" => Time(a.createdAt, parse) - Time(b.createdAt, parse)
    case "title_asc" => collate(a.title) - collate(b.title)
    case "title_desc" => collate(b.title) - collate(a.title)
    case _ => 0
  }

  /** The key each known sort orders by, ascending: for every known sort the
      comparator is the difference of the keys, so sorting by the comparator
      is sorting by ascending key. */
  function SortKey(sort: string, parse: string -> Option<int>, collate: string -> int): (key: Node -> int)
    ensures KnownSort(sort) ==> forall a, b :: Comparator(sort, parse, collate, a, b) == key(a) - key(b)
  {
    if sort == "priority_desc" then (n: Node) => -Num(n.priority)
    else if sort == "priority_asc" then (n: Node) => Num(n.priority)
    else if sort == "created_desc" then (n: Node) => -Time(n.createdAt, parse)
    else if sort == "created_asc" then (n: Node) => Time(n.createdAt, parse)
    else if sort == "title_asc" then (n: Node) => collate(n.title)
    else (n: Node) => -collate(n.title)
  }

  predicate SortedBy(s: seq<Node>, key: Node -> int)
  {
    forall i, j :: 0 <= i < j < |s| ==> key(s[i]) <= key(s[j])
  }

  function HasKey(key: Node -> int, k: int): Node -> bool
  {
    (n: Node) => key(n) == k
  }

  /** Stability: for every key value, the elements with that key appear in
      the same order in `a` as in `b`. */
  ghost predicate SameKeyOrder(a: seq<Node>, b: seq<Node>, key: Node -> int)
  {
    forall k :: Filter(a, HasKey(key, k)) == Filter(b, HasKey(key, k))
  }

  /** Swapping two neighbours with different keys keeps every key's order. */
  lemma SwapKeepsKeyOrder(s: seq<Node>, j: nat, key: Node -> int)
    requires 0 < j < |s| && key(s[j - 1]) != key(s[j])
    ensures SameKeyOrder(s[j - 1 := s[j]][j := s[j - 1]], s, key)
  {
    var t := s[j - 1 := s[j]][j := s[j - 1]];
    var pre, post := s[..j - 1], s[j + 1..];
    assert s == pre + [s[j - 1], s[j]] + post;
    assert t == pre + [s[j], s[j - 1]] + post;
    forall k ensures Filter(t, HasKey(key, k)) == Filter(s, HasKey(key, k)) {
      var p := HasKey(key, k);
      FilterConcat(pre + [s[j], s[j - 1]], post, p);
      FilterConcat(pre, [s[j], s[j - 1]], p);
      FilterConcat(pre + [s[j - 1], s[j]], post, p);
      FilterConcat(pre, [s[j - 1], s[j]], p);
      assert Filter([s[j], s[j - 1]], p) == Filter([s[j - 1], s[j]], p) by {
        FilterCons(s[j], [s[j - 1]], p);
        FilterCons(s[j - 1], [s[j]], p);
        FilterCons(s[j], [], p);
        FilterCons(s[j - 1], [], p);
        assert [s[j - 1]] + [] == [s[j - 1]] && [s[j]] + [] == [s[j]];
      }
    }
  }

  /** Same order for every key value means the same elements. */
  lemma SameKeyOrderIsPermutation(a: seq<Node>, b: seq<Node>, key: Node -> int)
    requires SameKeyOrder(a, b, key)
    ensures multiset(a) == multiset(b)
  {
    forall x ensures multiset(a)[x] == multiset(b)[x] {
      var p := HasKey(key, key(x));
      FilterCount(a, p);
      FilterCount(b, p);
      assert Filter(a, p) == Filter(b, p);
    }
  }

  /** One step of the in-place sort: moves `a[i]` left past every larger
      key, so that `a[..i + 1]` is sorted. */
  method InsertLeft(a: array<Node>, i: nat, key: Node -> int)
    requires i < a.Length && SortedBy(a[..i], key)
    modifies a
    ensures SortedBy(a[..i + 1], key)
    ensures SameKeyOrder(a[..], old(a[..]), key)
  {
    var j := i;
    while j > 0 && key(a[j - 1]) > key(a[j])
      invariant 0 <= j <= i
      invariant SameKeyOrder(a[..], old(a[..]), key)
      invariant forall p, q :: 0 <= p < q <= i && p != j && q != j ==> key(a[p]) <= key(a[q])
      invariant forall q :: j < q <= i ==> key(a[j]) < key(a[q])
    {
      ghost var before := a[..];
      a[j - 1], a[j] := a[j], a[j - 1];
      assert a[..] == before[j - 1 := before[j]][j := before[j - 1]];
      SwapKeepsKeyOrder(before, j, key);
      j := j - 1;
    }
  }

  /** `out.sort(cmp)` on the copy: a stable sort by `key`, in place. */
  method SortInPlace(a: array<Node>, key: Node -> int)
    modifies a
    ensures SortedBy(a[..], key)
    ensures SameKeyOrder(a[..], old(a[..]), key)
  {
    for i := 0 to a.Length
      invariant SortedBy(a[..i], key)
      invariant SameKeyOrder(a[..], old(a[..]), key)
    {
      InsertLeft(a, i, key);
    }
    assert a[..a.Length] == a[..];
  }

  /** `sortList`: a sorted copy for a known sort key, the same order otherwise;
      the argument is not changed. */
  method SortList(list: seq<Node>, sort: string, parse: string -> Option<int>, collate: string -> int)
    returns (out: seq<Node>)
    ensures multiset(out) == multiset(list)
    ensures !KnownSort(sort) ==> out == list
    ensures KnownSort(sort) ==> SortedBy(out, SortKey(sort, parse, collate))
    ensures KnownSort(sort) ==> SameKeyOrder(out, list, SortKey(sort, parse, collate))
  {
    var a := new Node[|list|](i requires 0 <= i < |list| => list[i]);
    assert a[..] == list;
    if KnownSort(sort) {
      SortInPlace(a, SortKey(sort, parse, collate));
      SameKeyOrderIsPermutation(a[..], list, SortKey(sort, parse, collate));
    }
    out := a[..];
  }

  /** The two priority sorts order by `num(priority)`, missing counted as 0. */
  lemma PrioritySortOrder(out: seq<Node>, sort: string, parse: string -> Option<int>, collate: string -> int)
    requires SortedBy(out, SortKey(sort, parse, collate))
    ensures sort == "priority_desc" ==>
      forall i, j :: 0 <= i < j < |out| ==> Num(out[i].priority) >= Num(out[j].priority)
    ensures sort == "priority_asc" ==>
      forall i, j :: 0 <= i < j < |out| ==> Num(out[i].priority) <= Num(out[j].priority)
  {
  }

  /** `render`: search, then sort, then count the done items. */
  method Render(items: seq<Node>, input: string, sort: string,
                parse: string -> Option<int>, collate: string -> int)
    returns (list: seq<Node>, doneCount: nat)
    ensures multiset(list) == multiset(Search(items, input))
    ensures !KnownSort(sort) ==> list == Search(items, input)
    ensures KnownSort(sort) ==> SortedBy(list, SortKey(sort, parse, collate))
    ensures KnownSort(sort) ==> SameKeyOrder(list, Search(items, input), SortKey(sort, parse, collate))
    ensures doneCount == DoneCount(list) && doneCount <= |list|
  {
    list := Search(items, input);
    list := SortList(list, sort, parse, collate);
    doneCount := DoneCount(list);
  }

  /* ----- CSV export ----- */

  const Header: seq<string> := ["title", "category", "priority", "completed", "notes", "createdAt", "updatedAt"]

  /** One exported row, before encoding: `priority ?? 1`, TRUE/FALSE for the flag. */
  function Row(n: Node, category: string): (r: seq<string>)
    ensures |r| == |Header|
  {
    [n.title, category, IntToString(match n.priority case None => 1 case Some(p) => p),
     if n.completed then "TRUE" else "FALSE", n.notes, n.createdAt, n.updatedAt]
  }

  /** One row per item, each with its category, in item order. */
  function ItemRows(nodes: seq<Node>, items: seq<Node>): (t: seq<seq<string>>)
    ensures |t| == |items|
    ensures forall i :: 0 <= i < |t| ==> t[i] == Row(items[i], CategoryOf(nodes, items[i]))
  {
    seq(|items|, i requires 0 <= i < |items| => Row(items[i], CategoryOf(nodes, items[i])))
  }

  /** The header followed by one row per item. */
  function ExportTable(nodes: seq<Node>, items: seq<Node>): (t: seq<seq<string>>)
    ensures |t| == |items| + 1 && t[0] == Header
    ensures t[1..] == ItemRows(nodes, items)
  {
    [Header] + ItemRows(nodes, items)
  }

  lemma HeaderNamePlain(i: nat)
    requires i < |Header|
    ensures !NeedsQuote(Header[i])
  {
    if i == 0 {
      LettersNeedNoQuotes("title");
    } else if i == 1 {
      LettersNeedNoQuotes("category");
    } else if i == 2 {
      LettersNeedNoQuotes("priority");
    } else if i == 3 {
      LettersNeedNoQuotes("completed");
    } else if i == 4 {
      LettersNeedNoQuotes("notes");
    } else if i == 5 {
      LettersNeedNoQuotes("createdAt");
    } else {
      LettersNeedNoQuotes("updatedAt");
    }
  }

  /** The header names are written without quotes. */
  lemma HeaderNeedsNoQuotes()
    ensures Fields(Header) == Header
  {
    forall i | 0 <= i < |Header| ensures Fields(Header)[i] == Header[i] {
      FieldsAt(Header, i);
      HeaderNamePlain(i);
    }
  }

  /** One line of `exportCsv`: the item's seven fields, each passed through
      `csv`, joined with commas. */
  method ExportLine(nodes: seq<Node>, n: Node) returns (line: string)
    ensures line == Record(Row(n, CategoryOf(nodes, n)))
  {
    var cat := RootCategoryOf(nodes, n);
    var row := Row(n, cat);
    line := JoinWith([Field(row[0]), Field(row[1]), Field(row[2]), Field(row[3]),
                      Field(row[4]), Field(row[5]), Field(row[6])], ",");
    FieldsOfRow(row);
  }

  /** The loop of `exportCsv` after a header line whose names need no quoting. */
  method ExportLines(nodes: seq<Node>, items: seq<Node>, header: seq<string>) returns (text: string)
    requires |header| >= 1 && Fields(header) == header
    ensures text == JoinWith(Records([header] + ItemRows(nodes, items)), "\n")
    ensures ReadFile(text) == [header] + ItemRows(nodes, items)
  {
    var lines := [JoinWith(header, ",")];
    ghost var rows := [header];
    assert lines == Records(rows);
    for i := 0 to |items|
      invariant rows == [header] + ItemRows(nodes, items[..i])
      invariant lines == Records(rows)
    {
      var line := ExportLine(nodes, items[i]);
      ghost var row := Row(items[i], CategoryOf(nodes, items[i]));
      assert lines + [line] == Records(rows + [row]) by {
        RecordsAppend(rows, row);
      }
      lines := lines + [line];
      rows := rows + [row];
      assert ItemRows(nodes, items[..i + 1]) == ItemRows(nodes, items[..i]) + [row];
    }
    assert items[..|items|] == items;
    text := JoinWith(lines, "\n");
    FileRoundTrip(rows);
  }

  /** `exportCsv`: the header line, then one encoded line per item, joined
      with LF. Reading the text back yields the header and one seven-field
      row per item, unfiltered and in order. */
  method ExportCsv(nodes: seq<Node>, items: seq<Node>) returns (text: string)
    ensures text == JoinWith(Records(ExportTable(nodes, items)), "\n")
    ensures ReadFile(text) == ExportTable(nodes, items)
  {
    HeaderNeedsNoQuotes();
    text := ExportLines(nodes, items, Header);
  }
}
