/**
  The note list the home page and the search page show: `filteredNotes`, which keeps
  the notes whose name or content contains the lower-cased, trimmed query, and on
  the search page orders them with name matches first and then by the chosen key.
*/
module Search {
  import opened Seqs
  import opened Text
  import opened Entities

  /** `currentView`: which page the main pane shows. */
  datatype View = NoteView | Home | SearchView

  /** `searchSortBy`: the ordering the search page applies within name and content matches. */
  datatype SortKey = ByName | ByDate | ByContent

  /**
    The two locale-dependent string operations the filter calls, taken as given:
    `String.prototype.toLowerCase` and `String.prototype.localeCompare`.
  */
  datatype Locale = Locale(lower: string -> string, collate: (string, string) -> int)

  /** The search page filters by its own debounced search box, every other view by the home page's search box. */
  function ActiveQuery(view: View, debounced: string, query: string): string {
    if view == SearchView then debounced else query
  }

  /** The query as matched: lower-cased, then trimmed. */
  function Normalized(loc: Locale, active: string): string {
    Trim(loc.lower(active))
  }

  predicate NameMatch(loc: Locale, q: string, n: Note) {
    Contains(loc.lower(n.name), q)
  }

  predicate ContentMatch(loc: Locale, q: string, n: Note) {
    Contains(loc.lower(n.content), q)
  }

  predicate Matches(loc: Locale, q: string, n: Note) {
    NameMatch(loc, q, n) || ContentMatch(loc, q, n)
  }

  /** `notes.filter(note => nameMatch || contentMatch)`, in list order. */
  function Matching(notes: seq<Note>, loc: Locale, q: string): (r: seq<Note>)
    ensures forall n :: n in r <==> n in notes && Matches(loc, q, n)
    ensures |r| <= |notes|
    ensures (forall n :: n in notes ==> Matches(loc, q, n)) ==> r == notes
  {
    if notes == [] then []
    else
      assert notes == [notes[0]] + notes[1..];
      var rest := Matching(notes[1..], loc, q);
      if Matches(loc, q, notes[0]) then [notes[0]] + rest else rest
  }

  /** `filter` keeps list order: the matches of a concatenation are the matches of its parts in turn. */
  lemma {:induction false} MatchingAppend(a: seq<Note>, b: seq<Note>, loc: Locale, q: string)
    ensures Matching(a + b, loc, q) == Matching(a, loc, q) + Matching(b, loc, q)
  {
    if a != [] {
      assert (a + b)[0] == a[0] && (a + b)[1..] == a[1..] + b;
      MatchingAppend(a[1..], b, loc, q);
    } else {
      assert a + b == b;
    }
  }

  /** The filter on one element: one note matches exactly when its name or content includes the query. */
  lemma MatchingSingleton(n: Note, loc: Locale, q: string)
    ensures Matching([n], loc, q) == if Matches(loc, q, n) then [n] else []
  {
    assert [n][1..] == [];
  }

  /** Name matches rank 0, content-only matches rank 1. */
  function NameRank(loc: Locale, q: string, n: Note): int {
    if NameMatch(loc, q, n) then 0 else 1
  }

  /** The comparator handed to `sort`: zero off the search page, otherwise rank first and then the key. */
  function Compare(view: View, key: SortKey, loc: Locale, q: string, a: Note, b: Note): int {
    if view != SearchView then 0
    else if NameMatch(loc, q, a) && !NameMatch(loc, q, b) then -1
    else if !NameMatch(loc, q, a) && NameMatch(loc, q, b) then 1
    else match key
      case ByName => loc.collate(a.name, b.name)
      case ByDate => b.id - a.id
      case ByContent => Utf16Length(b.content) - Utf16Length(a.content)
  }

  function Comparator(view: View, key: SortKey, loc: Locale, q: string): (Note, Note) -> int {
    (a: Note, b: Note) => Compare(view, key, loc, q, a, b)
  }

  /**
    `filteredNotes`: every note while the active query, or what is left of it after
    lower-casing and trimming, is empty; otherwise exactly the matching notes, each
    once, in the comparator's stable order.
  */
  function FilteredNotes(notes: seq<Note>, view: View, debounced: string, query: string, key: SortKey, loc: Locale): (r: seq<Note>)
    ensures var active := ActiveQuery(view, debounced, query);
      var q := Normalized(loc, active);
      && (active == "" || q == "" ==> r == notes)
      && (active != "" && q != "" ==>
            && multiset(r) == multiset(Matching(notes, loc, q))
            && forall n :: n in r <==> n in notes && Matches(loc, q, n))
  {
    var active := ActiveQuery(view, debounced, query);
    if active == "" then notes
    else
      var q := Normalized(loc, active);
      if q == "" then notes
      else
        var r := StableSort(Matching(notes, loc, q), Comparator(view, key, loc, q));
        assert forall n :: n in r <==> n in multiset(r);
        r
  }

  /** A query of nothing but white space filters nothing, even when it is not empty. */
  lemma BlankQueryKeepsAll(notes: seq<Note>, view: View, debounced: string, query: string, key: SortKey, loc: Locale)
    requires forall k :: 0 <= k < |loc.lower(ActiveQuery(view, debounced, query))| ==>
      IsTrimmable(loc.lower(ActiveQuery(view, debounced, query))[k])
    ensures FilteredNotes(notes, view, debounced, query, key, loc) == notes
  {
    TrimEmpty(loc.lower(ActiveQuery(view, debounced, query)));
  }

  /** Off the search page the comparator is always zero, so the matches keep their list order. */
  lemma {:induction false} OffSearchKeepsListOrder(notes: seq<Note>, view: View, debounced: string, query: string, key: SortKey, loc: Locale)
    requires view != SearchView
    requires query != "" && Normalized(loc, query) != ""
    ensures FilteredNotes(notes, view, debounced, query, key, loc) == Matching(notes, loc, Normalized(loc, query))
  {
    var q := Normalized(loc, query);
    StableSortKeeps(Matching(notes, loc, q), Comparator(view, key, loc, q));
  }

  /** On the search page every name match comes before every content-only match. */
  lemma {:induction false} NameMatchesFirst(notes: seq<Note>, debounced: string, query: string, key: SortKey, loc: Locale)
    requires debounced != "" && Normalized(loc, debounced) != ""
    ensures var r := FilteredNotes(notes, SearchView, debounced, query, key, loc);
      var q := Normalized(loc, debounced);
      forall i, j :: 0 <= i < j < |r| && NameMatch(loc, q, r[j]) ==> NameMatch(loc, q, r[i])
  {
    var q := Normalized(loc, debounced);
    var cmp := Comparator(SearchView, key, loc, q);
    var rank := (n: Note) => NameRank(loc, q, n);
    assert RankDecides(cmp, rank);
    StableSortRankSorted(Matching(notes, loc, q), cmp, rank);
  }

  /** The search comparator is consistent whenever `localeCompare` is, so `sort` really sorts by it. */
  lemma ComparatorConsistent(view: View, key: SortKey, loc: Locale, q: string)
    requires key == ByName ==> TotalPreorder(loc.collate)
    ensures TotalPreorder(Comparator(view, key, loc, q))
  {
    var cmp := Comparator(view, key, loc, q);
    forall a, b ensures cmp(a, b) <= 0 || cmp(b, a) <= 0 {
    }
    forall a, b, c | cmp(a, b) <= 0 && cmp(b, c) <= 0 ensures cmp(a, c) <= 0 {
    }
  }

  /**
    On the search page, among name matches and among content-only matches, the
    notes follow the chosen key: `localeCompare` order of names, newest id first,
    or longest content first.
  */
  lemma {:induction false} SearchFollowsKey(notes: seq<Note>, debounced: string, query: string, key: SortKey, loc: Locale)
    requires debounced != "" && Normalized(loc, debounced) != ""
    requires key == ByName ==> TotalPreorder(loc.collate)
    ensures var r := FilteredNotes(notes, SearchView, debounced, query, key, loc);
      var q := Normalized(loc, debounced);
      forall i, j :: 0 <= i < j < |r| && NameMatch(loc, q, r[i]) == NameMatch(loc, q, r[j]) ==>
        match key
          case ByName => loc.collate(r[i].name, r[j].name) <= 0
          case ByDate => r[i].id >= r[j].id
          case ByContent => Utf16Length(r[i].content) >= Utf16Length(r[j].content)
  {
    var q := Normalized(loc, debounced);
    ComparatorConsistent(SearchView, key, loc, q);
    StableSortSorted(Matching(notes, loc, q), Comparator(SearchView, key, loc, q));
  }
}
