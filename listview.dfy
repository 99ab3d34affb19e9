/** The genre list of m/listView.js. It works on its own node schema: a star
    has a numeric `rating` and categories hang under the literal parent id
    "root". The HTML strings and click wiring are not modelled; each group is
    kept as the values the markup shows. */
module GenreList {
  import opened Seqs
  import opened Text

  /** A node as this view reads it; `None` stands for a missing or null field. */
  datatype Star = Star(id: string, title: Option<string>, parentId: Option<string>, rating: Option<int>)

  /* ----- colours ----- */

  const White := "#ffffff"

  /** `priorityColor`: a fixed colour for ratings 2 to 5, white otherwise. */
  function PriorityColor(r: int): (c: string)
    ensures (r < 2 || r > 5) <==> c == White
    ensures r == 2 ==> c == "#f5f3dc"
    ensures r == 3 ==> c == "#ffe066"
    ensures r == 4 ==> c == "#ffcc33"
    ensures r == 5 ==> c == "#ff9fa3"
  {
    if r == 2 then "#f5f3dc"
    else if r == 3 then "#ffe066"
    else if r == 4 then "#ffcc33"
    else if r == 5 then "#ff9fa3"
    else White
  }

  /** The four ratings that have a colour get four different colours. */
  lemma PriorityColorsDistinct(a: int, b: int)
    requires 2 <= a <= 5 && 2 <= b <= 5 && a != b
    ensures PriorityColor(a) != PriorityColor(b)
  {
    // the fourth characters are 'f', 'e', 'c' and '9'
    assert PriorityColor(a)[3] != PriorityColor(b)[3];
  }

  /* ----- escaping ----- */

  /** The characters `escapeHtml` replaces. */
  predicate Escaped(c: char)
  {
    c == '&' || c == '<' || c == '>' || c == '"' || c == '\''
  }

  /** The text `c` becomes: its entity for the five special characters, else itself. */
  function Entity(c: char): (e: string)
    ensures Escaped(c) ==> |e| >= 4 && e[0] == '&' && e[|e| - 1] == ';'
    ensures !Escaped(c) ==> e == [c]
  {
    if c == '&' then "&amp;"
    else if c == '<' then "&lt;"
    else if c == '>' then "&gt;"
    else if c == '"' then "&quot;"
    else if c == '\'' then "&#39;"
    else [c]
  }

  /** `escapeHtml` on a string: every character replaced by its `Entity`, in order. */
  function EscapeHtml(s: string): (r: string)
    ensures |r| >= |s|
  {
    if s == [] then [] else Entity(s[0]) + EscapeHtml(s[1..])
  }

  /** `escapeHtml(v)` with `String(v || "")`: a missing or empty value gives "". */
  function EscapeValue(v: Option<string>): (r: string)
    ensures v.None? ==> r == ""
  {
    EscapeHtml(match v case None => "" case Some(s) => s)
  }

  /** Escaping works character by character: it distributes over concatenation. */
  lemma {:induction false} EscapeConcat(a: string, b: string)
    ensures EscapeHtml(a + b) == EscapeHtml(a) + EscapeHtml(b)
    decreases |a|
  {
    if a == [] {
      assert a + b == b;
    } else {
      assert (a + b)[1..] == a[1..] + b;
      EscapeConcat(a[1..], b);
    }
  }

  /** A text with none of the five special characters is left as it is. */
  lemma {:induction false} EscapePlain(s: string)
    requires forall i :: 0 <= i < |s| ==> !Escaped(s[i])
    ensures EscapeHtml(s) == s
    decreases |s|
  {
    if s != [] {
      EscapePlain(s[1..]);
      assert s == [s[0]] + s[1..];
    }
  }

  /** The output holds no `<`, `>`, `"` or `'`. */
  lemma {:induction false} EscapeIsSafe(s: string)
    ensures forall i :: 0 <= i < |EscapeHtml(s)| ==>
      EscapeHtml(s)[i] != '<' && EscapeHtml(s)[i] != '>' && EscapeHtml(s)[i] != '"' && EscapeHtml(s)[i] != '\''
    decreases |s|
  {
    if s != [] {
      EscapeIsSafe(s[1..]);
      var e, rest := Entity(s[0]), EscapeHtml(s[1..]);
      assert EscapeHtml(s) == e + rest;
      forall i | 0 <= i < |e| ensures e[i] != '<' && e[i] != '>' && e[i] != '"' && e[i] != '\'' {
      }
    }
  }

  /** The character the front of `t` stands for and how many characters
      it takes: one of the five entities, else the first character. */
  function Step(t: string): (p: (char, nat))
    requires t != []
    ensures 1 <= p.1 <= |t|
  {
    if StartsWith(t, "&amp;") then ('&', 5)
    else if StartsWith(t, "&lt;") then ('<', 4)
    else if StartsWith(t, "&gt;") then ('>', 4)
    else if StartsWith(t, "&quot;") then ('"', 6)
    else if StartsWith(t, "&#39;") then ('\'', 5)
    else (t[0], 1)
  }

  /** Replacing the five entities back, left to right; any other text is copied. */
  function Unescape(t: string): (r: string)
    ensures |r| <= |t|
    decreases |t|
  {
    if t == [] then [] else [Step(t).0] + Unescape(t[Step(t).1..])
  }

  /** The front of an escaped character decodes to that character. */
  lemma StepEntity(c: char, rest: string)
    ensures Step(Entity(c) + rest) == (c, |Entity(c)|)
  {
    var e := Entity(c);
    var t := e + rest;
    assert t[..|e|] == e;
    if c == '&' {
      assert StartsWith(t, "&amp;");
    } else if c == '<' {
      assert !StartsWith(t, "&amp;") by { assert t[1] == 'l'; }
      assert StartsWith(t, "&lt;");
    } else if c == '>' {
      assert !StartsWith(t, "&amp;") && !StartsWith(t, "&lt;") by { assert t[1] == 'g'; }
      assert StartsWith(t, "&gt;");
    } else if c == '"' {
      assert !StartsWith(t, "&amp;") && !StartsWith(t, "&lt;") && !StartsWith(t, "&gt;") by { assert t[1] == 'q'; }
      assert StartsWith(t, "&quot;");
    } else if c == '\'' {
      assert !StartsWith(t, "&amp;") && !StartsWith(t, "&lt;") && !StartsWith(t, "&gt;")
        && !StartsWith(t, "&quot;") by { assert t[1] == '#'; }
      assert StartsWith(t, "&#39;");
    } else {
      assert t[0] == c;
    }
  }

  /** Unescaping after a character's `Entity` gives the character back. */
  lemma UnescapeEntity(c: char, rest: string)
    ensures Unescape(Entity(c) + rest) == [c] + Unescape(rest)
  {
    var t := Entity(c) + rest;
    StepEntity(c, rest);
    assert t[|Entity(c)|..] == rest;
  }

  /** Replacing the entities back inverts `escapeHtml`. */
  lemma {:induction false} UnescapeEscape(s: string)
    ensures Unescape(EscapeHtml(s)) == s
    decreases |s|
  {
    if s != [] {
      UnescapeEntity(s[0], EscapeHtml(s[1..]));
      UnescapeEscape(s[1..]);
      assert s == [s[0]] + s[1..];
    }
  }

  /* ----- grouping ----- */

  /** `rating || 0`. */
  function Rating(k: Star): int
  {
    match k.rating
    case None => 0
    case Some(v) => v
  }

  /** `title || ""`. */
  function Title(k: Star): string
  {
    match k.title
    case None => ""
    case Some(t) => t
  }

  /** The kids' order: higher rating first, then by title under `collate`, an
      integer collation key standing for `localeCompare` with base sensitivity. */
  predicate Precedes(a: Star, b: Star, collate: string -> int)
  {
    Rating(a) > Rating(b) || (Rating(a) == Rating(b) && collate(Title(a)) <= collate(Title(b)))
  }

  predicate Ordered(s: seq<Star>, collate: string -> int)
  {
    forall i, j :: 0 <= i < j < |s| ==> Precedes(s[i], s[j], collate)
  }

  /** Places `x` before the first element it precedes. */
  function Insert(x: Star, s: seq<Star>, collate: string -> int): (r: seq<Star>)
    requires Ordered(s, collate)
    ensures Ordered(r, collate)
    ensures multiset(r) == multiset(s) + multiset{x}
  {
    if s == [] then [x]
    else if Precedes(x, s[0], collate) then [x] + s
    else
      var t := Insert(x, s[1..], collate);
      assert Ordered([s[0]] + t, collate) by {
        assert s == [s[0]] + s[1..];
        forall y | y in t ensures Precedes(s[0], y, collate) {
          assert y in multiset(t);
          if y != x {
            assert y in multiset(s[1..]);
          }
        }
        forall i, j | 0 <= i < j < |[s[0]] + t| ensures Precedes(([s[0]] + t)[i], ([s[0]] + t)[j], collate) {
          if i == 0 {
            assert ([s[0]] + t)[j] == t[j - 1];
            assert t[j - 1] in t;
          }
        }
      }
      assert multiset([s[0]] + t) == multiset(s) + multiset{x} by {
        assert s == [s[0]] + s[1..];
      }
      [s[0]] + t
  }

  /** The `.sort(...)` of the kids, as an insertion sort. */
  function SortKids(s: seq<Star>, collate: string -> int): (r: seq<Star>)
    ensures Ordered(r, collate)
    ensures multiset(r) == multiset(s)
  {
    if s == [] then []
    else
      assert s == [s[0]] + s[1..];
      Insert(s[0], SortKids(s[1..], collate), collate)
  }

  /** `cats`: the nodes whose parent id is exactly "root", in storage order. */
  function Categories(nodes: seq<Star>): (r: seq<Star>)
    ensures forall n :: n in r <==> n in nodes && n.parentId == Some("root")
    ensures forall n: Star :: n.parentId == Some("root") ==> multiset(r)[n] == multiset(nodes)[n]
    ensures IsSubsequence(r, nodes)
  {
    var isCat := (n: Star) => n.parentId == Some("root");
    FilterMembers(nodes, isCat);
    FilterCount(nodes, isCat);
    FilterSubsequence(nodes, isCat);
    Filter(nodes, isCat)
  }

  /** The kids of `cat`: the nodes whose parent id is `cat.id`, sorted. */
  function Kids(nodes: seq<Star>, cat: Star, collate: string -> int): (r: seq<Star>)
    ensures Ordered(r, collate)
    ensures forall n :: n in r <==> n in nodes && n.parentId == Some(cat.id)
    ensures forall n: Star :: n.parentId == Some(cat.id) ==> multiset(r)[n] == multiset(nodes)[n]
  {
    var isKid := (n: Star) => n.parentId == Some(cat.id);
    var f := Filter(nodes, isKid);
    FilterMembers(nodes, isKid);
    FilterCount(nodes, isKid);
    var r := SortKids(f, collate);
    assert forall n :: n in r <==> n in f by {
      forall n ensures n in r <==> n in f {
        assert n in r <==> n in multiset(r);
        assert n in f <==> n in multiset(f);
      }
    }
    r
  }

  /** One row of a group: the id it selects, its dot colour, its escaped title
      and the `★` rating text (empty for the placeholder row). */
  datatype Entry = Entry(id: string, color: string, title: string, meta: string)

  /** One group: the escaped category title, the item count and the rows. */
  datatype Group = Group(title: string, count: nat, entries: seq<Entry>)

  /** A kid's row: `priorityColor(rating || 1)`, `escapeHtml(title || "")`, `★` and `rating || 0`. */
  function KidEntry(k: Star): (e: Entry)
    ensures e.id == k.id && e.color == PriorityColor(Rating(k))
    ensures e.title == EscapeHtml(Title(k))
    ensures e.meta == "★" + IntToString(Rating(k))
  {
    var shown := match k.rating case None => 1 case Some(v) => if v == 0 then 1 else v;
    Entry(k.id, PriorityColor(shown), EscapeHtml(Title(k)), "★" + IntToString(Rating(k)))
  }

  /** The group of one category; a category without kids shows one
      placeholder row that selects the category itself. */
  function GroupOf(nodes: seq<Star>, cat: Star, collate: string -> int): (g: Group)
    ensures g.count == |Kids(nodes, cat, collate)|
    ensures g.title == EscapeHtml(Title(cat))
    ensures g.count > 0 ==> |g.entries| == g.count
    ensures g.count > 0 ==> forall i :: 0 <= i < g.count ==> g.entries[i] == KidEntry(Kids(nodes, cat, collate)[i])
    ensures g.count == 0 ==> g.entries == [Entry(cat.id, White, "(no stars yet)", "")]
  {
    var kids := Kids(nodes, cat, collate);
    var entries :=
      if |kids| > 0 then seq(|kids|, i requires 0 <= i < |kids| => KidEntry(kids[i]))
      else [Entry(cat.id, PriorityColor(1), "(no stars yet)", "")];
    Group(EscapeHtml(Title(cat)), |kids|, entries)
  }

  /** The groups of `renderGenreList`, one per category in category order. */
  function GenreGroups(nodes: seq<Star>, collate: string -> int): (r: seq<Group>)
    ensures |r| == |Categories(nodes)|
    ensures forall i :: 0 <= i < |r| ==> r[i] == GroupOf(nodes, Categories(nodes)[i], collate)
  {
    var cats := Categories(nodes);
    seq(|cats|, i requires 0 <= i < |cats| => GroupOf(nodes, cats[i], collate))
  }

  /** Every row shown in a group selects a kid of its category, or the
      category itself when it has none; the head count is the number of kids. */
  lemma GroupRowsSelect(nodes: seq<Star>, collate: string -> int, i: nat, j: nat)
    requires i < |GenreGroups(nodes, collate)|
    requires j < |GenreGroups(nodes, collate)[i].entries|
    ensures var cat := Categories(nodes)[i];
      var id := GenreGroups(nodes, collate)[i].entries[j].id;
      id == cat.id || exists k :: k in nodes && k.parentId == Some(cat.id) && k.id == id
  {
    var cat := Categories(nodes)[i];
    var kids := Kids(nodes, cat, collate);
    if |kids| > 0 {
      assert kids[j] in kids;
    }
  }
}
