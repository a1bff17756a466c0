/**
 * The directory page (App.tsx): the records read once at start-up, the
 * search term the user types, and the view derived from both by filtering
 * on a case-insensitive substring match and sorting by name.
 *
 * `toLowerCase` and `localeCompare` depend on the locale; they are
 * parameters here: `lower` stands for `toLowerCase`, and `le(a, b)` for
 * `a.localeCompare(b) <= 0`, assumed to be a total preorder where the sort
 * needs that.
 */
module Directory {
  import opened Wrappers
  import opened JsString

  datatype Badge = Badge(src: string, alt: string)

  datatype Supervisor = Supervisor(
    name: string,
    title: string,
    email: string,
    phone: Option<string>,
    specialisation: Option<string>,
    bio: Option<string>,
    badges: Option<seq<Badge>>)

  /** JavaScript truthiness of an optional string: present and not empty. */
  predicate Truthy(o: Option<string>)
  {
    o.Some? && o.value != ""
  }

  /** The predicate passed to `filter`. */
  predicate Matches(lower: string -> string, term: string, s: Supervisor)
  {
    if term == "" then true
    else
      var l := lower(term);
      || Includes(lower(s.name), l)
      || Includes(lower(s.title), l)
      || (Truthy(s.specialisation) && Includes(lower(s.specialisation.value), l))
      || Includes(lower(s.email), l)
  }

  /** `Array.prototype.filter` with `Matches`: the matching records, in source order. */
  function Filter(lower: string -> string, term: string, s: seq<Supervisor>): (r: seq<Supervisor>)
    ensures |r| <= |s|
  {
    if s == [] then []
    else (if Matches(lower, term, s[0]) then [s[0]] else []) + Filter(lower, term, s[1..])
  }

  /** Each matching record is kept exactly as often as it occurs; nothing else is kept. */
  lemma {:induction false} FilterCounts(lower: string -> string, term: string, s: seq<Supervisor>)
    ensures forall x :: multiset(Filter(lower, term, s))[x] == if Matches(lower, term, x) then multiset(s)[x] else 0
  {
    if s != [] {
      FilterCounts(lower, term, s[1..]);
      assert s == [s[0]] + s[1..];
    }
  }

  ghost predicate TotalPreorder(le: (string, string) -> bool)
  {
    && (forall a, b :: le(a, b) || le(b, a))
    && (forall a, b, c :: le(a, b) && le(b, c) ==> le(a, c))
  }

  /** Two names the comparator cannot tell apart (`localeCompare` returns 0). */
  predicate SameName(le: (string, string) -> bool, a: string, b: string)
  {
    le(a, b) && le(b, a)
  }

  ghost predicate Sorted(le: (string, string) -> bool, s: seq<Supervisor>)
  {
    forall i, j :: 0 <= i < j < |s| ==> le(s[i].name, s[j].name)
  }

  /** The records of `s` whose name the comparator equates with `k`, in their order in `s`. */
  function NamedLike(le: (string, string) -> bool, s: seq<Supervisor>, k: string): (r: seq<Supervisor>)
    ensures forall x :: x in r ==> x in s && SameName(le, x.name, k)
  {
    if s == [] then []
    else (if SameName(le, s[0].name, k) then [s[0]] else []) + NamedLike(le, s[1..], k)
  }

  /** Inserts `x` before the first record that does not sort strictly before it. */
  function Insert(le: (string, string) -> bool, x: Supervisor, t: seq<Supervisor>): (r: seq<Supervisor>)
    ensures multiset(r) == multiset(t) + multiset{x}
  {
    if t == [] then [x]
    else if le(x.name, t[0].name) then [x] + t
    else
      assert t == [t[0]] + t[1..];
      [t[0]] + Insert(le, x, t[1..])
  }

  /**
   * The effect of `.sort((a, b) => a.name.localeCompare(b.name))`, which
   * ECMA-262 requires to be stable: an insertion sort that keeps earlier
   * records in front of later ones the comparator ranks equal.
   */
  function SortByName(le: (string, string) -> bool, s: seq<Supervisor>): (r: seq<Supervisor>)
    ensures multiset(r) == multiset(s)
  {
    if s == [] then []
    else
      assert s == [s[0]] + s[1..];
      Insert(le, s[0], SortByName(le, s[1..]))
  }

  lemma {:induction false} InsertSorted(le: (string, string) -> bool, x: Supervisor, t: seq<Supervisor>)
    requires TotalPreorder(le) && Sorted(le, t)
    ensures Sorted(le, Insert(le, x, t))
  {
    if t == [] {
    } else if le(x.name, t[0].name) {
      var r := [x] + t;
      forall i, j | 0 <= i < j < |r| ensures le(r[i].name, r[j].name) {
        if i == 0 && j > 1 {
          assert le(t[0].name, t[j - 1].name);
        }
      }
    } else {
      var rest := Insert(le, x, t[1..]);
      InsertSorted(le, x, t[1..]);
      forall j | 0 <= j < |rest| ensures le(t[0].name, rest[j].name) {
        assert rest[j] in multiset(rest);
        if rest[j] != x {
          assert rest[j] in multiset(t[1..]);
          var i :| 0 <= i < |t[1..]| && t[1..][i] == rest[j];
          assert t[i + 1] == rest[j];
        }
      }
      var r := [t[0]] + rest;
      forall i, j | 0 <= i < j < |r| ensures le(r[i].name, r[j].name) {
        if i == 0 {
          assert r[j] == rest[j - 1];
        } else {
          assert r[i] == rest[i - 1] && r[j] == rest[j - 1];
        }
      }
    }
  }

  /** The view is ordered non-decreasingly by name. */
  lemma {:induction false} SortSorted(le: (string, string) -> bool, s: seq<Supervisor>)
    requires TotalPreorder(le)
    ensures Sorted(le, SortByName(le, s))
  {
    if s != [] {
      SortSorted(le, s[1..]);
      InsertSorted(le, s[0], SortByName(le, s[1..]));
    }
  }

  lemma SameNameOrdered(le: (string, string) -> bool, a: string, b: string, k: string)
    requires TotalPreorder(le) && SameName(le, a, k) && SameName(le, b, k)
    ensures le(a, b)
  {
  }

  lemma {:induction false} InsertNamedLike(le: (string, string) -> bool, x: Supervisor, t: seq<Supervisor>, k: string)
    requires TotalPreorder(le) && Sorted(le, t)
    ensures NamedLike(le, Insert(le, x, t), k)
         == (if SameName(le, x.name, k) then [x] else []) + NamedLike(le, t, k)
  {
    if t == [] {
      assert [x][1..] == [];
    } else if le(x.name, t[0].name) {
      assert ([x] + t)[1..] == t;
    } else {
      InsertNamedLike(le, x, t[1..], k);
      // x sorts strictly after t[0], so the two cannot both be named like k
      if SameName(le, x.name, k) && SameName(le, t[0].name, k) {
        SameNameOrdered(le, x.name, t[0].name, k);
        assert false;
      }
      InsertNamedLikeSkip(le, x, t, k);
    }
  }

  /** The step of InsertNamedLike where `x` moves past the head of `t`. */
  lemma InsertNamedLikeSkip(le: (string, string) -> bool, x: Supervisor, t: seq<Supervisor>, k: string)
    requires t != [] && !le(x.name, t[0].name)
    requires !(SameName(le, x.name, k) && SameName(le, t[0].name, k))
    requires NamedLike(le, Insert(le, x, t[1..]), k)
          == (if SameName(le, x.name, k) then [x] else []) + NamedLike(le, t[1..], k)
    ensures NamedLike(le, Insert(le, x, t), k)
         == (if SameName(le, x.name, k) then [x] else []) + NamedLike(le, t, k)
  {
    var rest := Insert(le, x, t[1..]);
    var r := [t[0]] + rest;
    assert Insert(le, x, t) == r;
    assert r[0] == t[0] && r[1..] == rest;
    var s0 := if SameName(le, t[0].name, k) then [t[0]] else [];
    var sx := if SameName(le, x.name, k) then [x] else [];
    var tail := NamedLike(le, t[1..], k);
    assert NamedLike(le, r, k) == s0 + (sx + tail);
    assert NamedLike(le, t, k) == s0 + tail;
    if sx == [] {
      assert s0 + (sx + tail) == sx + (s0 + tail);
    } else {
      assert s0 == [];
      assert s0 + (sx + tail) == sx + (s0 + tail);
    }
  }

  /** Stability: among records the comparator ranks equal, the source order survives. */
  lemma {:induction false} SortStable(le: (string, string) -> bool, s: seq<Supervisor>, k: string)
    requires TotalPreorder(le)
    ensures NamedLike(le, SortByName(le, s), k) == NamedLike(le, s, k)
  {
    if s != [] {
      SortStable(le, s[1..], k);
      SortSorted(le, s[1..]);
      InsertNamedLike(le, s[0], SortByName(le, s[1..]), k);
    }
  }

  lemma HeadNamedLike(le: (string, string) -> bool, s: seq<Supervisor>)
    requires TotalPreorder(le) && s != []
    ensures NamedLike(le, s, s[0].name) == [s[0]] + NamedLike(le, s[1..], s[0].name)
  {
    assert le(s[0].name, s[0].name);
  }

  lemma FirstSortsFirst(le: (string, string) -> bool, s: seq<Supervisor>, c: Supervisor)
    requires TotalPreorder(le) && Sorted(le, s) && c in s
    ensures le(s[0].name, c.name)
  {
    var i :| 0 <= i < |s| && s[i] == c;
    if i == 0 {
      assert le(c.name, c.name);
    }
  }

  /** A record that starts one sorted sequence ranks no later than the other's head. */
  lemma {:induction false} HeadsOrdered(le: (string, string) -> bool, r: seq<Supervisor>, q: seq<Supervisor>)
    requires TotalPreorder(le) && Sorted(le, q) && r != []
    requires NamedLike(le, r, r[0].name) == NamedLike(le, q, r[0].name)
    ensures q != [] && le(q[0].name, r[0].name)
  {
    var a := r[0];
    HeadNamedLike(le, r);
    var c := NamedLike(le, q, a.name)[0];
    assert c in NamedLike(le, q, a.name);
    FirstSortsFirst(le, q, c);
  }

  /**
   * The ordering and stability properties pin the result down: any sorted
   * sequence that keeps, for every name, the records of `s` with that name in
   * their order in `s` is `SortByName(le, s)`. Whatever stable algorithm the
   * engine uses, its output is the one this model computes.
   */
  lemma {:induction false} StableSortUnique(le: (string, string) -> bool, r: seq<Supervisor>, q: seq<Supervisor>)
    requires TotalPreorder(le) && Sorted(le, r) && Sorted(le, q)
    requires forall k :: NamedLike(le, r, k) == NamedLike(le, q, k)
    ensures r == q
    decreases |r| + |q|
  {
    if r != [] {
      HeadsOrdered(le, r, q);
    }
    if q != [] {
      HeadsOrdered(le, q, r);
    }
    if r != [] && q != [] {
      var a, b := r[0], q[0];
      HeadNamedLike(le, r);
      assert SameName(le, b.name, a.name);
      assert NamedLike(le, q, a.name) == [b] + NamedLike(le, q[1..], a.name);
      assert NamedLike(le, r, a.name)[0] == a;
      assert NamedLike(le, q, a.name)[0] == b;
      forall k ensures NamedLike(le, r[1..], k) == NamedLike(le, q[1..], k) {
        var sa := if SameName(le, a.name, k) then [a] else [];
        assert NamedLike(le, r, k) == sa + NamedLike(le, r[1..], k);
        assert NamedLike(le, q, k) == sa + NamedLike(le, q[1..], k);
        assert (sa + NamedLike(le, r[1..], k))[|sa|..] == NamedLike(le, r[1..], k);
        assert (sa + NamedLike(le, q[1..], k))[|sa|..] == NamedLike(le, q[1..], k);
      }
      StableSortUnique(le, r[1..], q[1..]);
    }
  }

  /** `SortByName` is the stable sort of `s`. */
  lemma SortByNameIsTheStableSort(le: (string, string) -> bool, s: seq<Supervisor>, r: seq<Supervisor>)
    requires TotalPreorder(le) && Sorted(le, r)
    requires forall k :: NamedLike(le, r, k) == NamedLike(le, s, k)
    ensures r == SortByName(le, s)
  {
    SortSorted(le, s);
    forall k ensures NamedLike(le, r, k) == NamedLike(le, SortByName(le, s), k) {
      SortStable(le, s, k);
    }
    StableSortUnique(le, r, SortByName(le, s));
  }

  lemma {:induction false} FilterConcat(lower: string -> string, term: string, a: seq<Supervisor>, b: seq<Supervisor>)
    ensures Filter(lower, term, a + b) == Filter(lower, term, a) + Filter(lower, term, b)
  {
    if a == [] {
      assert a + b == b;
    } else {
      assert (a + b)[0] == a[0] && (a + b)[1..] == a[1..] + b;
      FilterConcat(lower, term, a[1..], b);
      var m := if Matches(lower, term, a[0]) then [a[0]] else [];
      var fa, fb := Filter(lower, term, a[1..]), Filter(lower, term, b);
      assert Filter(lower, term, a + b) == m + (fa + fb);
      assert Filter(lower, term, a) == m + fa;
      assert m + (fa + fb) == (m + fa) + fb;
    }
  }

  lemma {:induction false} NamedLikeConcat(le: (string, string) -> bool, a: seq<Supervisor>, b: seq<Supervisor>, k: string)
    ensures NamedLike(le, a + b, k) == NamedLike(le, a, k) + NamedLike(le, b, k)
  {
    if a == [] {
      assert a + b == b;
    } else {
      assert (a + b)[0] == a[0] && (a + b)[1..] == a[1..] + b;
      NamedLikeConcat(le, a[1..], b, k);
    }
  }

  /** Filtering and picking out the records named like `k` commute. */
  lemma {:induction false} FilterNamedLike(lower: string -> string, term: string, le: (string, string) -> bool,
                                           s: seq<Supervisor>, k: string)
    ensures NamedLike(le, Filter(lower, term, s), k) == Filter(lower, term, NamedLike(le, s, k))
  {
    if s != [] {
      FilterNamedLike(lower, term, le, s[1..], k);
      var x := s[0];
      var m := if Matches(lower, term, x) then [x] else [];
      var n := if SameName(le, x.name, k) then [x] else [];
      var f := Filter(lower, term, s[1..]);
      var g := NamedLike(le, s[1..], k);
      assert Filter(lower, term, s) == m + f;
      assert NamedLike(le, s, k) == n + g;
      NamedLikeConcat(le, m, f, k);
      FilterConcat(lower, term, n, g);
      assert [x][1..] == [];
      assert NamedLike(le, m, k) == Filter(lower, term, n);
    }
  }

  /**
   * The view the page renders: `[...allSupervisors].filter(Matches).sort(byName)`.
   * It holds each record that matches exactly as often as the source does,
   * and nothing else.
   */
  function FilteredAndSorted(lower: string -> string, le: (string, string) -> bool,
                             all: seq<Supervisor>, term: string): (v: seq<Supervisor>)
    ensures |v| <= |all|
    ensures forall x :: multiset(v)[x] == if Matches(lower, term, x) then multiset(all)[x] else 0
    ensures forall x :: x in v <==> x in all && Matches(lower, term, x)
  {
    var v := SortByName(le, Filter(lower, term, all));
    FilterCounts(lower, term, all);
    assert forall x :: x in v <==> multiset(v)[x] > 0;
    assert forall x :: x in all <==> multiset(all)[x] > 0;
    v
  }

  /**
   * The view is sorted by name, and among records with the same name it lists
   * the matching ones in their source order.
   */
  lemma ViewOrdered(lower: string -> string, le: (string, string) -> bool, all: seq<Supervisor>, term: string, k: string)
    requires TotalPreorder(le)
    ensures Sorted(le, FilteredAndSorted(lower, le, all, term))
    ensures NamedLike(le, FilteredAndSorted(lower, le, all, term), k) == Filter(lower, term, NamedLike(le, all, k))
  {
    SortSorted(le, Filter(lower, term, all));
    SortStable(le, Filter(lower, term, all), k);
    FilterNamedLike(lower, term, le, all, k);
  }

  /** An empty search term keeps every record; the view is then just the sorted source. */
  lemma {:induction false} EmptyTermKeepsAll(lower: string -> string, le: (string, string) -> bool, all: seq<Supervisor>)
    ensures Filter(lower, "", all) == all
    ensures FilteredAndSorted(lower, le, all, "") == SortByName(le, all)
  {
    if all != [] {
      EmptyTermKeepsAll(lower, le, all[1..]);
      assert all == [all[0]] + all[1..];
    }
  }

  /** The meaning of the predicate, with `includes` read as "occurs at some index". */
  lemma MatchesIff(lower: string -> string, term: string, s: Supervisor)
    ensures Matches(lower, term, s) <==>
      || term == ""
      || (exists i :: OccursAt(lower(s.name), lower(term), i))
      || (exists i :: OccursAt(lower(s.title), lower(term), i))
      || (Truthy(s.specialisation) && exists i :: OccursAt(lower(s.specialisation.value), lower(term), i))
      || (exists i :: OccursAt(lower(s.email), lower(term), i))
  {
    IncludesIffOccurs(lower(s.name), lower(term));
    IncludesIffOccurs(lower(s.title), lower(term));
    if s.specialisation.Some? {
      IncludesIffOccurs(lower(s.specialisation.value), lower(term));
    }
    IncludesIffOccurs(lower(s.email), lower(term));
  }

  /** A record without a (non-empty) specialisation is judged on name, title and email alone. */
  lemma AbsentSpecialisationIgnored(lower: string -> string, term: string, s: Supervisor)
    requires !Truthy(s.specialisation)
    ensures Matches(lower, term, s) <==>
      term == "" || Includes(lower(s.name), lower(term)) || Includes(lower(s.title), lower(term))
                 || Includes(lower(s.email), lower(term))
  {
  }

  /** The "no results" paragraph appears exactly when no record matches. */
  lemma NoResultsIff(lower: string -> string, le: (string, string) -> bool, all: seq<Supervisor>, term: string)
    ensures |FilteredAndSorted(lower, le, all, term)| == 0 <==> forall x :: x in all ==> !Matches(lower, term, x)
  {
    var v := FilteredAndSorted(lower, le, all, term);
    if v != [] {
      assert v[0] in v;
    }
  }

  /**
   * The page component. Its only state is the search term; the records are
   * fixed when the page is created.
   */
  class DirectoryApp {
    const allSupervisors: seq<Supervisor>
    var searchTerm: string

    constructor (data: seq<Supervisor>)
      ensures allSupervisors == data && searchTerm == ""
    {
      allSupervisors := data;
      searchTerm := "";
    }

    /** `handleSearchChange`: the new input value replaces the term wholesale. */
    method HandleSearchChange(value: string)
      modifies this
      ensures searchTerm == value
    {
      searchTerm := value;
    }

    function View(lower: string -> string, le: (string, string) -> bool): (v: seq<Supervisor>)
      reads this
    {
      FilteredAndSorted(lower, le, allSupervisors, searchTerm)
    }

    /** The condition under which the page renders "No supervisors found" instead of cards. */
    predicate ShowsNoResults(lower: string -> string, le: (string, string) -> bool)
      reads this
    {
      |View(lower, le)| == 0
    }

    /** The page shows the "no results" message exactly when no loaded record matches the term. */
    lemma NoResultsShownIff(lower: string -> string, le: (string, string) -> bool)
      ensures ShowsNoResults(lower, le) <==> forall x :: x in allSupervisors ==> !Matches(lower, searchTerm, x)
    {
      NoResultsIff(lower, le, allSupervisors, searchTerm);
    }
  }
}
