/** The projections the App derives from its note list: the search filter
    (`filteredNotes`) and the title ordering used by the sort button. */
module View {
  import opened Text
  import opened Notes

  /** `sortOrder`: the strings `'asc'` and `'desc'`. */
  datatype SortOrder = Asc | Desc

  /** `sortOrder === 'asc' ? 'desc' : 'asc'` */
  function Flip(order: SortOrder): (r: SortOrder)
    ensures r != order
  {
    if order == Asc then Desc else Asc
  }

  /** The search test of one note: a non-empty (truthy) title or content
      whose lower-cased text includes the lower-cased search term. */
  predicate Matches(n: Note, term: string)
    ensures Matches(n, term) ==> n.title != "" || n.content != ""
    ensures Matches(n, term) ==> |term| <= |n.title| || |term| <= |n.content|
  {
    (n.title != "" && Contains(Lower(n.title), Lower(term))) ||
    (n.content != "" && Contains(Lower(n.content), Lower(term)))
  }

  function MatchesTerm(term: string): Note -> bool {
    (n: Note) => Matches(n, term)
  }

  /** `filteredNotes`: the notes the list view shows for `term`, never
      more than the list holds and every one of them a match. */
  function FilterNotes(notes: seq<Note>, term: string): (r: seq<Note>)
    ensures |r| <= |notes|
    ensures forall i :: 0 <= i < |r| ==> Matches(r[i], term)
  {
    Select(notes, MatchesTerm(term))
  }

  /** The filtered list holds exactly the matching notes, each as often as
      in `notes`, in their order in `notes`. */
  lemma FilterSpec(notes: seq<Note>, term: string)
    ensures forall x :: x in FilterNotes(notes, term) <==> x in notes && Matches(x, term)
    ensures forall x :: multiset(FilterNotes(notes, term))[x] == if Matches(x, term) then multiset(notes)[x] else 0
    ensures IsSubseq(FilterNotes(notes, term), notes)
    ensures UniqueIds(notes) ==> UniqueIds(FilterNotes(notes, term))
  {
    forall x ensures multiset(FilterNotes(notes, term))[x] == if Matches(x, term) then multiset(notes)[x] else 0 {
      SelectCount(notes, MatchesTerm(term), x);
    }
    SelectSubseq(notes, MatchesTerm(term));
    if UniqueIds(notes) {
      SelectKeepsUnique(notes, MatchesTerm(term));
    }
  }

  /** With an empty search term the filter keeps every note except those
      whose title and content are both empty (both falsy in JavaScript). */
  lemma FilterEmptyTerm(notes: seq<Note>)
    ensures forall x :: x in FilterNotes(notes, "") <==> x in notes && (x.title != "" || x.content != "")
  {
    FilterSpec(notes, "");
    forall x: Note ensures Matches(x, "") <==> x.title != "" || x.content != "" {
      ContainsEmpty(Lower(x.title));
      ContainsEmpty(Lower(x.content));
    }
  }

  /** A search term that is already in the list's own case matches a title
      written in another case: "grocery" finds "Grocery List". */
  lemma SearchIgnoresCase()
    ensures Matches(Note("1", "Grocery List", ""), "grocery")
  {
    assert Lower("grocery") == "grocery";
    assert Lower("Grocery List")[..7] == "grocery";
  }

  /** Filtering a list all of whose notes match changes nothing. */
  lemma FilterOfMatching(notes: seq<Note>, term: string)
    requires forall n :: n in notes ==> Matches(n, term)
    ensures FilterNotes(notes, term) == notes
  {
    SelectAll(notes, MatchesTerm(term));
  }

  /** The comparator of `handleSort`, as "may come first": `a` may precede
      `b` when `a.title.localeCompare(b.title) <= 0` for `'asc'` and
      `b.title.localeCompare(a.title) <= 0` for `'desc'`. */
  predicate Ahead(order: SortOrder, a: Note, b: Note) {
    match order
    case Asc => Collates(a.title, b.title)
    case Desc => Collates(b.title, a.title)
  }

  lemma AheadTotal(order: SortOrder, a: Note, b: Note)
    ensures Ahead(order, a, b) || Ahead(order, b, a)
  {
    CollatesTotal(a.title, b.title);
  }

  lemma AheadTransitive(order: SortOrder, a: Note, b: Note, c: Note)
    requires Ahead(order, a, b) && Ahead(order, b, c)
    ensures Ahead(order, a, c)
  {
    if order == Asc {
      CollatesTransitive(a.title, b.title, c.title);
    } else {
      CollatesTransitive(c.title, b.title, a.title);
    }
  }

  /** Ordered by title in the direction `order`. */
  ghost predicate SortedBy(s: seq<Note>, order: SortOrder) {
    forall i, j :: 0 <= i < j < |s| ==> Ahead(order, s[i], s[j])
  }

  /** Places `x` before the first note it may precede. */
  function Insert(x: Note, s: seq<Note>, order: SortOrder): (r: seq<Note>)
    ensures multiset(r) == multiset(s) + multiset{x}
  {
    if s == [] then [x]
    else if Ahead(order, x, s[0]) then [x] + s
    else
      assert s == [s[0]] + s[1..];
      [s[0]] + Insert(x, s[1..], order)
  }

  /** `[...s].sort(comparator)`: a stable sort of `s` by title. */
  function SortByTitle(s: seq<Note>, order: SortOrder): (r: seq<Note>)
    ensures multiset(r) == multiset(s)
  {
    if s == [] then []
    else
      assert s == [s[0]] + s[1..];
      Insert(s[0], SortByTitle(s[1..], order), order)
  }

  /** A note that may precede every note of a sorted list may head it. */
  lemma SortedCons(y: Note, t: seq<Note>, order: SortOrder)
    requires SortedBy(t, order)
    requires forall z :: z in multiset(t) ==> Ahead(order, y, z)
    ensures SortedBy([y] + t, order)
  {
    var r := [y] + t;
    forall i, j | 0 <= i < j < |r| ensures Ahead(order, r[i], r[j]) {
      assert r[j] == t[j - 1] && t[j - 1] in multiset(t);
      if i > 0 {
        assert r[i] == t[i - 1];
      }
    }
  }

  lemma {:induction false} InsertSorted(x: Note, s: seq<Note>, order: SortOrder)
    requires SortedBy(s, order)
    ensures SortedBy(Insert(x, s, order), order)
  {
    if s == [] {
    } else if Ahead(order, x, s[0]) {
      forall z | z in multiset(s) ensures Ahead(order, x, z) {
        var k :| 0 <= k < |s| && s[k] == z;
        if k > 0 {
          AheadTransitive(order, x, s[0], s[k]);
        }
      }
      SortedCons(x, s, order);
    } else {
      var t := Insert(x, s[1..], order);
      InsertSorted(x, s[1..], order);
      forall z | z in multiset(t) ensures Ahead(order, s[0], z) {
        if z == x {
          AheadTotal(order, x, s[0]);
        } else {
          assert z in multiset(s[1..]);
          var k :| 0 <= k < |s[1..]| && s[1..][k] == z;
          assert s[k + 1] == z;
        }
      }
      SortedCons(s[0], t, order);
    }
  }

  /** The sorted list is a permutation of the input ordered by title in the
      requested direction. */
  lemma {:induction false} SortByTitleSorted(s: seq<Note>, order: SortOrder)
    ensures SortedBy(SortByTitle(s, order), order)
  {
    if s != [] {
      SortByTitleSorted(s[1..], order);
      InsertSorted(s[0], SortByTitle(s[1..], order), order);
    }
  }

  /** A list that is already in order comes out of the sort unchanged, so
      sorting twice in one direction is the same as sorting once. */
  lemma {:induction false} SortByTitleOfSorted(s: seq<Note>, order: SortOrder)
    requires SortedBy(s, order)
    ensures SortByTitle(s, order) == s
  {
    if s != [] {
      SortByTitleOfSorted(s[1..], order);
      assert s == [s[0]] + s[1..];
      if |s| > 1 {
        assert Ahead(order, s[0], s[1]);
      }
    }
  }

  /** The notes carrying title `t`: one group of notes the comparator ties. */
  function TitleIs(t: string): Note -> bool {
    (n: Note) => n.title == t
  }

  /** Inserting `x` passes over only notes whose title differs from `x`'s,
      so within every title group `x` lands in front. */
  lemma {:induction false} InsertKeepsGroups(x: Note, s: seq<Note>, order: SortOrder, t: string)
    ensures Select(Insert(x, s, order), TitleIs(t)) == (if x.title == t then [x] else []) + Select(s, TitleIs(t))
  {
    if s != [] && !Ahead(order, x, s[0]) {
      AheadTotal(order, x, x);
      InsertKeepsGroups(x, s[1..], order, t);
      assert Insert(x, s, order)[1..] == Insert(x, s[1..], order);
    }
  }

  /** The sort is stable, as `Array.prototype.sort` is: notes with equal
      titles leave it in the order they entered it. */
  lemma {:induction false} SortByTitleStable(s: seq<Note>, order: SortOrder, t: string)
    ensures Select(SortByTitle(s, order), TitleIs(t)) == Select(s, TitleIs(t))
  {
    if s != [] {
      SortByTitleStable(s[1..], order, t);
      InsertKeepsGroups(s[0], SortByTitle(s[1..], order), order, t);
    }
  }

  /** What the sort button writes back into the note list: exactly the
      notes the search shows, ordered by title, and a list the search
      shows in full. */
  lemma SortShown(notes: seq<Note>, term: string, order: SortOrder)
    ensures forall n :: n in SortByTitle(FilterNotes(notes, term), order) <==> n in notes && Matches(n, term)
    ensures SortedBy(SortByTitle(FilterNotes(notes, term), order), order)
    ensures FilterNotes(SortByTitle(FilterNotes(notes, term), order), term) == SortByTitle(FilterNotes(notes, term), order)
  {
    var shown := FilterNotes(notes, term);
    var sorted := SortByTitle(shown, order);
    FilterSpec(notes, term);
    SortByTitleSorted(shown, order);
    forall n ensures n in sorted <==> n in shown {
      assert n in sorted <==> n in multiset(sorted);
    }
    FilterOfMatching(sorted, term);
  }

  /** Two notes titled "B" and "A", sorted ascending, come out as A, B. */
  lemma SortTwoNotes()
    ensures SortByTitle([Note("1", "B", ""), Note("2", "A", "")], Asc) == [Note("2", "A", ""), Note("1", "B", "")]
  {
  }

  /** With an empty search term both of those notes are shown, so the sort
      button writes back A, B. */
  lemma SortTwoNotesShown()
    ensures SortByTitle(FilterNotes([Note("1", "B", ""), Note("2", "A", "")], ""), Asc)
         == [Note("2", "A", ""), Note("1", "B", "")]
  {
    var a := Note("1", "B", "");
    var b := Note("2", "A", "");
    ContainsEmpty(Lower(a.title));
    ContainsEmpty(Lower(b.title));
    FilterOfMatching([a, b], "");
    SortTwoNotes();
  }
}
