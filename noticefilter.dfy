/**
 * What the notice board lists: `renderNotices` keeps the notices that match
 * the search box, the department filter and the category filter, and shows
 * them urgent first and newest first, keeping the input order among ties
 * (ECMA-262 requires `Array.prototype.sort` to be stable). `renderTicker`
 * lists the titles of the urgent notices.
 */
module NoticeFilter {
  import opened Collections
  import opened Text
  import opened Dates
  import opened Records

  /** The search term occurs, ignoring case, in the title or in the description. */
  function MatchesSearch(n: Notice, term: string): (b: bool)
    ensures term == "" ==> b
    ensures b ==> |term| <= |n.title| || |term| <= |n.description|
  {
    ContainsEmpty(ToLower(n.title));
    Contains(ToLower(n.title), ToLower(term)) || Contains(ToLower(n.description), ToLower(term))
  }

  /** The department filter is "all" or names the notice's department. */
  predicate MatchesDept(n: Notice, dept: string)
  {
    dept == "all" || n.department == dept
  }

  predicate MatchesCategory(n: Notice, cat: string)
  {
    cat == "all" || n.category == cat
  }

  predicate Shown(n: Notice, term: string, dept: string, cat: string)
  {
    MatchesSearch(n, term) && MatchesDept(n, dept) && MatchesCategory(n, cat)
  }

  /** The notices the three filters let through, in their stored order. */
  function FilterNotices(notices: seq<Notice>, term: string, dept: string, cat: string): (r: seq<Notice>)
    ensures forall n :: n in r <==> n in notices && Shown(n, term, dept, cat)
    ensures forall n :: Shown(n, term, dept, cat) ==> multiset(r)[n] == multiset(notices)[n]
    ensures forall n :: !Shown(n, term, dept, cat) ==> multiset(r)[n] == 0
  {
    var r := Filter(notices, n => Shown(n, term, dept, cat));
    FilterMultiset(notices, n => Shown(n, term, dept, cat));
    assert forall n :: n in notices && Shown(n, term, dept, cat) ==> n in r by {
      forall n | n in notices && Shown(n, term, dept, cat) ensures n in r {
        assert multiset(notices)[n] > 0;
      }
    }
    r
  }

  /** An empty search box with both filters on "all" shows every notice. */
  lemma FilterNoticesShowsAll(notices: seq<Notice>)
    ensures FilterNotices(notices, "", "all", "all") == notices
  {
    forall i | 0 <= i < |notices| ensures Shown(notices[i], "", "all", "all") {
      ContainsEmpty(ToLower(notices[i].title));
    }
    FilterKeepsAll(notices, n => Shown(n, "", "all", "all"));
  }

  /** Filtering the notices of two lists is filtering each and concatenating. */
  lemma FilterNoticesConcat(a: seq<Notice>, b: seq<Notice>, term: string, dept: string, cat: string)
    ensures FilterNotices(a + b, term, dept, cat) == FilterNotices(a, term, dept, cat) + FilterNotices(b, term, dept, cat)
  {
    FilterConcat(a, b, n => Shown(n, term, dept, cat));
  }

  /**
   * The sort comparator: an urgent notice goes before a non-urgent one, and
   * otherwise the later date goes first (`new Date(b.date) - new Date(a.date)`).
   */
  function Compare(a: Notice, b: Notice): (c: int)
    ensures c < 0 <==> (a.urgent && !b.urgent) || (a.urgent == b.urgent && DateMillis(a.date) > DateMillis(b.date))
  {
    if a.urgent && !b.urgent then -1
    else if !a.urgent && b.urgent then 1
    else DateMillis(b.date) - DateMillis(a.date)
  }

  /** Swapping the arguments negates the comparison, so the comparator is consistent. */
  lemma CompareAntisymmetric(a: Notice, b: Notice)
    ensures Compare(b, a) == -Compare(a, b)
  {
  }

  /** Being placed no later than is transitive. */
  lemma CompareTransitive(a: Notice, b: Notice, c: Notice)
    requires Compare(a, b) <= 0 && Compare(b, c) <= 0
    ensures Compare(a, c) <= 0
  {
  }

  /** Two notices tie exactly when they have the same urgency and the same date value. */
  predicate Tied(a: Notice, b: Notice)
  {
    a.urgent == b.urgent && DateMillis(a.date) == DateMillis(b.date)
  }

  lemma CompareZeroIsTie(a: Notice, b: Notice)
    ensures Compare(a, b) == 0 <==> Tied(a, b)
  {
  }

  /** Every notice goes no later than every notice after it. */
  predicate Sorted(s: seq<Notice>)
  {
    forall i, j :: 0 <= i < j < |s| ==> Compare(s[i], s[j]) <= 0
  }

  /** Places x in front of the first notice it goes no later than. */
  function Insert(x: Notice, t: seq<Notice>): (r: seq<Notice>)
    ensures multiset(r) == multiset(t) + multiset{x}
    ensures |r| == |t| + 1
  {
    if t == [] || Compare(x, t[0]) <= 0 then [x] + t
    else
      assert t == [t[0]] + t[1..];
      [t[0]] + Insert(x, t[1..])
  }

  /**
   * `filteredNotices.sort(Compare)`. Stable insertion: each notice is placed
   * in front of the later notices it ties with.
   */
  function Sort(s: seq<Notice>): (r: seq<Notice>)
    ensures multiset(r) == multiset(s)
    ensures |r| == |s|
  {
    if s == [] then []
    else
      assert s == [s[0]] + s[1..];
      Insert(s[0], Sort(s[1..]))
  }

  lemma {:induction false} InsertSorted(x: Notice, t: seq<Notice>)
    requires Sorted(t)
    ensures Sorted(Insert(x, t))
  {
    if t == [] {
    } else if Compare(x, t[0]) <= 0 {
      var r := [x] + t;
      forall i, j | 0 <= i < j < |r| ensures Compare(r[i], r[j]) <= 0 {
        if i == 0 {
          if j > 1 {
            CompareTransitive(x, t[0], t[j - 1]);
          }
        }
      }
    } else {
      var rest := Insert(x, t[1..]);
      InsertSorted(x, t[1..]);
      var r := [t[0]] + rest;
      forall i, j | 0 <= i < j < |r| ensures Compare(r[i], r[j]) <= 0 {
        if i == 0 {
          var y := r[j];
          assert y in multiset(rest);
          if y == x {
            CompareAntisymmetric(x, t[0]);
          } else {
            assert y in multiset(t[1..]);
            var k :| 0 <= k < |t[1..]| && t[1..][k] == y;
            assert t[k + 1] == y;
          }
        }
      }
    }
  }

  /** The sorted list is ordered by the comparator. */
  lemma {:induction false} SortSorted(s: seq<Notice>)
    ensures Sorted(Sort(s))
  {
    if s != [] {
      SortSorted(s[1..]);
      InsertSorted(s[0], Sort(s[1..]));
    }
  }

  /** p holds only on notices that tie with each other (one tie class, or part of one). */
  ghost predicate WithinTie(p: Notice -> bool)
  {
    forall a, b :: p(a) && p(b) ==> Tied(a, b)
  }

  lemma {:induction false} InsertStable(x: Notice, t: seq<Notice>, p: Notice -> bool)
    requires WithinTie(p)
    ensures Filter(Insert(x, t), p) == Filter([x] + t, p)
  {
    if t != [] && Compare(x, t[0]) > 0 {
      var rest := Insert(x, t[1..]);
      InsertStable(x, t[1..], p);
      NotBothTied(x, t[0], p);
      assert Insert(x, t) == [t[0]] + rest;
      StableStep(x, t[0], t[1..], rest, p);
      assert [x] + ([t[0]] + t[1..]) == [x] + t;
    } else {
      assert Insert(x, t) == [x] + t;
    }
  }

  lemma NotBothTied(x: Notice, y: Notice, p: Notice -> bool)
    requires WithinTie(p)
    requires Compare(x, y) > 0
    ensures !(p(x) && p(y))
  {
    CompareZeroIsTie(x, y);
  }

  /** Moving x past y does not change the filter when p does not hold on both. */
  lemma StableStep<T(!new)>(x: T, y: T, tail: seq<T>, rest: seq<T>, p: T -> bool)
    requires Filter(rest, p) == Filter([x] + tail, p)
    requires !(p(x) && p(y))
    ensures Filter([y] + rest, p) == Filter([x] + ([y] + tail), p)
  {
    FilterConcat([y], rest, p);
    FilterConcat([x], tail, p);
    FilterConcat([x], [y] + tail, p);
    FilterConcat([y], tail, p);
    var fx, fy, ft := Filter([x], p), Filter([y], p), Filter(tail, p);
    assert fx == [] || fy == [];
    calc {
      Filter([y] + rest, p);
      fy + (fx + ft);
      { SwapEmpty(fy, fx, ft); }
      fx + (fy + ft);
      Filter([x] + ([y] + tail), p);
    }
  }

  lemma SwapEmpty<T>(a: seq<T>, b: seq<T>, c: seq<T>)
    requires a == [] || b == []
    ensures a + (b + c) == b + (a + c)
  {
    if a == [] {
      assert a + (b + c) == b + c;
      assert a + c == c;
    } else {
      assert b + (a + c) == a + c;
      assert b + c == c;
    }
  }

  /**
   * The sort is stable: among notices that tie, the sorted list keeps the
   * order they had before sorting.
   */
  lemma {:induction false} SortStable(s: seq<Notice>, p: Notice -> bool)
    requires WithinTie(p)
    ensures Filter(Sort(s), p) == Filter(s, p)
  {
    if s != [] {
      SortStable(s[1..], p);
      InsertStable(s[0], Sort(s[1..]), p);
      assert ([s[0]] + Sort(s[1..]))[1..] == Sort(s[1..]);
    }
  }

  /** Notices that tie with k keep their relative order through the sort. */
  lemma SortKeepsTieOrder(s: seq<Notice>, k: Notice)
    ensures Filter(Sort(s), n => Tied(n, k)) == Filter(s, n => Tied(n, k))
  {
    SortStable(s, n => Tied(n, k));
  }

  /** The list `renderNotices` shows: the filtered notices, sorted. */
  function Displayed(notices: seq<Notice>, term: string, dept: string, cat: string): seq<Notice>
  {
    Sort(FilterNotices(notices, term, dept, cat))
  }

  /**
   * The displayed list is a reordering of exactly the matching notices, urgent
   * ones first, and within the urgent and the non-urgent group the dates never
   * increase.
   */
  lemma DisplayedOrder(notices: seq<Notice>, term: string, dept: string, cat: string)
    ensures var d := Displayed(notices, term, dept, cat);
            && multiset(d) == multiset(FilterNotices(notices, term, dept, cat))
            && (forall i, j :: 0 <= i < j < |d| && d[j].urgent ==> d[i].urgent)
            && (forall i, j :: 0 <= i < j < |d| && d[i].urgent == d[j].urgent ==>
                  DateMillis(d[i].date) >= DateMillis(d[j].date))
  {
    SortSorted(FilterNotices(notices, term, dept, cat));
  }

  /** What the ticker shows. */
  datatype Ticker = NoUrgentNotices | Titles(titles: seq<string>)

  /** `renderTicker`: the titles of the urgent notices, or the placeholder when there are none. */
  function RenderTicker(notices: seq<Notice>): (t: Ticker)
    ensures t.NoUrgentNotices? <==> forall i :: 0 <= i < |notices| ==> !notices[i].urgent
    ensures t.Titles? ==> |t.titles| == Count(notices, IsUrgent) > 0
    ensures t.Titles? ==> forall i :: 0 <= i < |t.titles| ==> t.titles[i] == Filter(notices, IsUrgent)[i].title
    ensures t.Titles? ==> forall i :: 0 <= i < |notices| && notices[i].urgent ==> notices[i].title in t.titles
  {
    var urgent := Filter(notices, IsUrgent);
    FilterMultiset(notices, IsUrgent);
    forall i | 0 <= i < |notices| && notices[i].urgent
      ensures notices[i] in urgent
    {
      assert multiset(notices)[notices[i]] > 0;
    }
    if urgent == [] then
      NoUrgentNotices
    else
      Titles(Map(urgent, (n: Notice) => n.title))
  }

  /** Publishing an urgent notice puts its title first in the ticker. */
  lemma TickerAfterUrgentPublish(notices: seq<Notice>, n: Notice)
    requires n.urgent
    ensures RenderTicker([n] + notices).Titles?
    ensures RenderTicker([n] + notices).titles[0] == n.title
  {
    assert ([n] + notices)[0] == n;
    assert ([n] + notices)[1..] == notices;
  }

  /** Publishing a non-urgent notice leaves the ticker as it was. */
  lemma TickerIgnoresNonUrgent(notices: seq<Notice>, n: Notice)
    requires !n.urgent
    ensures RenderTicker([n] + notices) == RenderTicker(notices)
  {
    assert ([n] + notices)[1..] == notices;
  }
}
