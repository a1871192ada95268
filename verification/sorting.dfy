/** Sorting a movie list with one of the comparators the app passes to
    `Array.prototype.sort`. The sort is modelled as a stable insertion sort on
    an immutable sequence: `sort` is stable, and the code always sorts a copy. */
module Sorting {
  import opened Movies

  /** Code-unit lexicographic order, standing in for `localeCompare`. */
  predicate LexLe(a: string, b: string)
    decreases |a|
  {
    |a| == 0 || (|b| > 0 && (a[0] < b[0] || (a[0] == b[0] && LexLe(a[1..], b[1..]))))
  }

  lemma {:induction false} LexLeTotal(a: string, b: string)
    ensures LexLe(a, b) || LexLe(b, a)
    decreases |a|
  {
    if |a| > 0 && |b| > 0 && a[0] == b[0] {
      LexLeTotal(a[1..], b[1..]);
    }
  }

  lemma {:induction false} LexLeTransitive(a: string, b: string, c: string)
    requires LexLe(a, b) && LexLe(b, c)
    ensures LexLe(a, c)
    decreases |a|
  {
    if |a| > 0 && a[0] == b[0] && b[0] == c[0] {
      LexLeTransitive(a[1..], b[1..], c[1..]);
    }
  }

  /** The three comparators of the source: title ascending, rating
      descending, and a date descending (the date text is chosen per call
      site and turned into a time value by the caller's `timeOf`). */
  datatype Order = ByTitle | ByRating | ByTime(timeOf: Movie -> int)

  /** The comparator returns a value <= 0 for `(a, b)`: `a` may precede `b`. */
  predicate Precedes(o: Order, a: Movie, b: Movie) {
    match o
    case ByTitle => LexLe(a.title, b.title)
    case ByRating => b.rating - a.rating <= 0.0
    case ByTime(timeOf) => timeOf(b) - timeOf(a) <= 0
  }

  predicate Sorted(o: Order, s: seq<Movie>) {
    forall i, j :: 0 <= i < j < |s| ==> Precedes(o, s[i], s[j])
  }

  lemma PrecedesTotal(o: Order, a: Movie, b: Movie)
    ensures Precedes(o, a, b) || Precedes(o, b, a)
  {
    if o.ByTitle? {
      LexLeTotal(a.title, b.title);
    }
  }

  lemma PrecedesTransitive(o: Order, a: Movie, b: Movie, c: Movie)
    requires Precedes(o, a, b) && Precedes(o, b, c)
    ensures Precedes(o, a, c)
  {
    if o.ByTitle? {
      LexLeTransitive(a.title, b.title, c.title);
    }
  }

  /** Prepending an element that may precede every element keeps order. */
  lemma SortedCons(o: Order, x: Movie, s: seq<Movie>)
    requires Sorted(o, s)
    requires forall j :: 0 <= j < |s| ==> Precedes(o, x, s[j])
    ensures Sorted(o, [x] + s)
  {
    var r := [x] + s;
    forall i, j | 0 <= i < j < |r| ensures Precedes(o, r[i], r[j]) {
      assert r[j] == s[j - 1];
      if i > 0 {
        assert r[i] == s[i - 1];
      }
    }
  }

  /** An element the head of a sorted list may not precede may precede all of it. */
  lemma PrecedesAll(o: Order, x: Movie, s: seq<Movie>)
    requires Sorted(o, s) && |s| > 0 && !Precedes(o, s[0], x)
    ensures forall j :: 0 <= j < |s| ==> Precedes(o, x, s[j])
  {
    PrecedesTotal(o, s[0], x);
    forall j | 0 < j < |s| ensures Precedes(o, x, s[j]) {
      PrecedesTransitive(o, x, s[0], s[j]);
    }
  }

  /** The head of a sorted list may precede whatever the insertion into its
      tail produces, when it may precede the inserted element. */
  lemma HeadPrecedesRest(o: Order, s: seq<Movie>, x: Movie, rest: seq<Movie>)
    requires Sorted(o, s) && |s| > 0 && Precedes(o, s[0], x)
    requires multiset(rest) == multiset(s[1..]) + multiset{x}
    ensures forall j :: 0 <= j < |rest| ==> Precedes(o, s[0], rest[j])
  {
    forall j | 0 <= j < |rest| ensures Precedes(o, s[0], rest[j]) {
      assert rest[j] in multiset(rest);
      if rest[j] != x {
        assert rest[j] in multiset(s[1..]);
        var k :| 0 <= k < |s[1..]| && s[1..][k] == rest[j];
        assert s[k + 1] == rest[j];
      }
    }
  }

  /** Places `x` after every element of the sorted `s` that may precede it,
      i.e. after all elements it ties with, which is what keeps the sort stable. */
  function Insert(o: Order, x: Movie, s: seq<Movie>): (r: seq<Movie>)
    requires Sorted(o, s)
    ensures Sorted(o, r)
    ensures multiset(r) == multiset(s) + multiset{x}
  {
    if |s| == 0 then [x]
    else if !Precedes(o, s[0], x) then
      PrecedesAll(o, x, s);
      SortedCons(o, x, s);
      [x] + s
    else
      var rest := Insert(o, x, s[1..]);
      HeadPrecedesRest(o, s, x, rest);
      SortedCons(o, s[0], rest);
      assert s == [s[0]] + s[1..];
      [s[0]] + rest
  }

  /** `[...s].sort(comparator)`: a sorted permutation of `s`. */
  function Sort(o: Order, s: seq<Movie>): (r: seq<Movie>)
    ensures Sorted(o, r)
    ensures multiset(r) == multiset(s)
  {
    if |s| == 0 then []
    else
      assert s == s[..|s| - 1] + [s[|s| - 1]];
      Insert(o, s[|s| - 1], Sort(o, s[..|s| - 1]))
  }

  /** Inserting an element that every element may precede appends it. */
  lemma {:induction false} InsertLast(o: Order, x: Movie, s: seq<Movie>)
    requires Sorted(o, s)
    requires forall j :: 0 <= j < |s| ==> Precedes(o, s[j], x)
    ensures Insert(o, x, s) == s + [x]
  {
    if |s| > 0 {
      InsertLast(o, x, s[1..]);
      assert s == [s[0]] + s[1..];
    }
  }

  /** Sorting neither adds nor loses a movie. */
  lemma SortMembers(o: Order, s: seq<Movie>)
    ensures forall m :: m in Sort(o, s) <==> m in s
  {
    forall m ensures m in Sort(o, s) <==> m in s {
      assert m in Sort(o, s) <==> m in multiset(Sort(o, s));
    }
  }

  lemma SortedInit(o: Order, init: seq<Movie>, last: Movie)
    requires Sorted(o, init + [last])
    ensures Sorted(o, init)
    ensures forall j :: 0 <= j < |init| ==> Precedes(o, init[j], last)
  {
    var s := init + [last];
    assert forall j :: 0 <= j < |init| ==> s[j] == init[j];
    assert s[|init|] == last;
  }

  lemma SortUnfold(o: Order, s: seq<Movie>)
    requires |s| > 0
    ensures Sort(o, s) == Insert(o, s[|s| - 1], Sort(o, s[..|s| - 1]))
  {
  }

  /** A list already in order comes back unchanged: the sort only moves
      elements that are out of order, so sorting twice equals sorting once. */
  lemma {:induction false} SortSorted(o: Order, s: seq<Movie>)
    requires Sorted(o, s)
    ensures Sort(o, s) == s
  {
    if |s| > 0 {
      var init, last := s[..|s| - 1], s[|s| - 1];
      assert s == init + [last];
      calc {
        Sort(o, s);
      == { SortUnfold(o, s); }
        Insert(o, last, Sort(o, init));
      == { SortedInit(o, init, last); SortSorted(o, init); }
        Insert(o, last, init);
      == { SortedInit(o, init, last); InsertLast(o, last, init); }
        init + [last];
      ==
        s;
      }
    }
  }

  lemma SortIdempotent(o: Order, s: seq<Movie>)
    ensures Sort(o, Sort(o, s)) == Sort(o, s)
  {
    SortSorted(o, Sort(o, s));
  }
}
