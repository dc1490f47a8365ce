/**
 The sibling orderer `TaxonomicOrderExpander`: the children of a node, reached
 over its outgoing PARENT_OF relationships, sorted by the child's taxonRank and
 then by its scientificName, both under Java's natural `String` order. The sort
 is Guava's `sortedCopy`, a stable sort; it is modelled by a stable insertion
 sort, and `SortedStableUnique` shows that a stable sort has only one possible
 result, so the choice of algorithm does not matter.
 */
module TaxonOrder {
  import opened Wrappers
  import opened Resolver

  const RankTerm := "taxonRank"
  const NameTerm := "scientificName"

  // ---------------------------------------------------------------------------
  // String.compareTo

  /** Lexicographic order, defined independently of `compareTo`: after a common prefix, `a` either
      ends while `b` goes on, or has the smaller next character. */
  ghost predicate Precedes(a: string, b: string) {
    exists k :: 0 <= k <= |a| && k <= |b| && a[..k] == b[..k] &&
      ((k == |a| && k < |b|) || (k < |a| && k < |b| && a[k] < b[k]))
  }

  /** `String.compareTo`: the difference of the first differing characters, or of the lengths when
      one string is a prefix of the other. It is negative exactly when `a` precedes `b`. */
  function CompareTo(a: string, b: string): (r: int)
    ensures r < 0 <==> Precedes(a, b)
  {
    if |a| == 0 || |b| == 0 then
      PrecedesEmpty(a, b);
      |a| - |b|
    else if a[0] != b[0] then
      PrecedesStep(a, b);
      a[0] as int - b[0] as int
    else
      PrecedesStep(a, b);
      CompareTo(a[1..], b[1..])
  }

  lemma PrecedesEmpty(a: string, b: string)
    requires |a| == 0 || |b| == 0
    ensures Precedes(a, b) <==> |a| == 0 && |b| > 0
  {
    if |a| == 0 && |b| > 0 {
      assert a[..0] == b[..0];
    }
  }

  /** Past a first character, precedence is decided by that character, or by the rests when it is shared. */
  lemma PrecedesStep(a: string, b: string)
    requires |a| > 0 && |b| > 0
    ensures Precedes(a, b) <==> a[0] < b[0] || (a[0] == b[0] && Precedes(a[1..], b[1..]))
  {
    if Precedes(a, b) {
      var k :| 0 <= k <= |a| && k <= |b| && a[..k] == b[..k] &&
        ((k == |a| && k < |b|) || (k < |a| && k < |b| && a[k] < b[k]));
      if k > 0 {
        assert a[0] == a[..k][0] == b[..k][0] == b[0];
        assert a[1..][..k - 1] == a[..k][1..] == b[..k][1..] == b[1..][..k - 1];
      }
    }
    if a[0] < b[0] {
      assert a[..0] == b[..0];
    } else if a[0] == b[0] && Precedes(a[1..], b[1..]) {
      var k :| 0 <= k <= |a[1..]| && k <= |b[1..]| && a[1..][..k] == b[1..][..k] &&
        ((k == |a[1..]| && k < |b[1..]|) || (k < |a[1..]| && k < |b[1..]| && a[1..][k] < b[1..][k]));
      assert a[..k + 1] == [a[0]] + a[1..][..k];
      assert b[..k + 1] == [b[0]] + b[1..][..k];
    }
  }

  lemma {:induction false} CompareToZero(a: string, b: string)
    ensures CompareTo(a, b) == 0 <==> a == b
  {
    if |a| > 0 && |b| > 0 && a[0] == b[0] {
      CompareToZero(a[1..], b[1..]);
      assert a == [a[0]] + a[1..] && b == [b[0]] + b[1..];
    }
  }

  lemma {:induction false} CompareToAntisymmetric(a: string, b: string)
    ensures CompareTo(a, b) < 0 <==> CompareTo(b, a) > 0
  {
    if |a| > 0 && |b| > 0 && a[0] == b[0] {
      CompareToAntisymmetric(a[1..], b[1..]);
    }
  }

  lemma {:induction false} CompareToTransitive(a: string, b: string, c: string)
    requires CompareTo(a, b) < 0 && CompareTo(b, c) < 0
    ensures CompareTo(a, c) < 0
  {
    if |a| > 0 && |b| > 0 && |c| > 0 && a[0] == b[0] && b[0] == c[0] {
      CompareToTransitive(a[1..], b[1..], c[1..]);
    }
  }

  /** Natural `String` order is character-code order, not rank order: "class" sorts before
      "kingdom" although a kingdom ranks above a class. */
  lemma RankOrderIsLexicographic()
    ensures CompareTo("class", "kingdom") < 0
    ensures CompareTo("species", "subspecies") < 0
    ensures CompareTo("genus", "family") > 0
  {
  }

  // ---------------------------------------------------------------------------
  // The compound comparator TAX_ORDER and a stable sort

  /** A child relationship with the two sort keys the comparator reads from its end node. */
  datatype Keyed = Keyed(rel: Edge, rank: string, name: string)

  /** `TAX_ORDER.compare`: ranks first, names only when the ranks are equal. */
  function KeyCompare(x: Keyed, y: Keyed): (r: int)
    ensures r < 0 <==> Precedes(x.rank, y.rank) || (x.rank == y.rank && Precedes(x.name, y.name))
  {
    CompareToZero(x.rank, y.rank);
    var c := CompareTo(x.rank, y.rank);
    if c != 0 then c else CompareTo(x.name, y.name)
  }

  predicate KeyLeq(x: Keyed, y: Keyed) {
    KeyCompare(x, y) <= 0
  }

  lemma KeyCompareZero(x: Keyed, y: Keyed)
    ensures KeyCompare(x, y) == 0 <==> x.rank == y.rank && x.name == y.name
  {
    CompareToZero(x.rank, y.rank);
    CompareToZero(x.name, y.name);
  }

  lemma KeyLeqTotal(x: Keyed, y: Keyed)
    ensures KeyLeq(x, y) || KeyLeq(y, x)
    ensures KeyLeq(x, y) && KeyLeq(y, x) ==> x.rank == y.rank && x.name == y.name
  {
    CompareToAntisymmetric(x.rank, y.rank);
    CompareToAntisymmetric(y.rank, x.rank);
    CompareToAntisymmetric(x.name, y.name);
    CompareToAntisymmetric(y.name, x.name);
    CompareToZero(x.rank, y.rank);
    CompareToZero(x.name, y.name);
  }

  lemma KeyLeqTransitive(x: Keyed, y: Keyed, z: Keyed)
    requires KeyLeq(x, y) && KeyLeq(y, z)
    ensures KeyLeq(x, z)
  {
    CompareToZero(x.rank, y.rank);
    CompareToZero(y.rank, z.rank);
    CompareToZero(x.name, y.name);
    CompareToZero(y.name, z.name);
    if CompareTo(x.rank, y.rank) < 0 && CompareTo(y.rank, z.rank) < 0 {
      CompareToTransitive(x.rank, y.rank, z.rank);
    } else if CompareTo(x.name, y.name) < 0 && CompareTo(y.name, z.name) < 0 {
      CompareToTransitive(x.name, y.name, z.name);
    }
  }

  lemma KeyLeqReflexive(x: Keyed)
    ensures KeyLeq(x, x)
  {
    KeyCompareZero(x, x);
  }

  ghost predicate Sorted(s: seq<Keyed>) {
    forall i, j :: 0 <= i < j < |s| ==> KeyLeq(s[i], s[j])
  }

  /** The elements of `s` whose keys are (rank, name), in their order in `s`. */
  function Filter(s: seq<Keyed>, rank: string, name: string): (r: seq<Keyed>)
    ensures forall y :: y in r ==> y in s && y.rank == rank && y.name == name
  {
    if |s| == 0 then []
    else (if s[0].rank == rank && s[0].name == name then [s[0]] else []) + Filter(s[1..], rank, name)
  }

  /** Inserts `x` into `s` before the first element that does not sort strictly before it, so that
      `x` goes ahead of the elements with its own key. */
  function Insert(x: Keyed, s: seq<Keyed>): (r: seq<Keyed>)
    ensures multiset(r) == multiset(s) + multiset{x}
    ensures Sorted(s) ==> Sorted(r)
  {
    if |s| == 0 then [x]
    else if KeyLeq(x, s[0]) then
      var r := [x] + s;
      assert Sorted(s) ==> Sorted(r) by {
        if Sorted(s) {
          forall y | y in s
            ensures KeyLeq(x, y)
          {
            SortedHeadIsLeast(s, y);
            KeyLeqTransitive(x, s[0], y);
          }
          ConsSorted(x, s);
        }
      }
      r
    else
      var t := Insert(x, s[1..]);
      assert s == [s[0]] + s[1..];
      var r := [s[0]] + t;
      assert Sorted(s) ==> Sorted(r) by {
        if Sorted(s) {
          KeyLeqTotal(x, s[0]);
          forall y | y in t
            ensures KeyLeq(s[0], y)
          {
            assert y in multiset(t);
            if y != x {
              var k :| 0 <= k < |s[1..]| && s[1..][k] == y;
              assert s[k + 1] == y;
            }
          }
          ConsSorted(s[0], t);
        }
      }
      r
  }

  /** An element no greater than any of a sorted sequence's elements can go in front of it. */
  lemma ConsSorted(x: Keyed, s: seq<Keyed>)
    requires Sorted(s)
    requires forall y :: y in s ==> KeyLeq(x, y)
    ensures Sorted([x] + s)
  {
    var r := [x] + s;
    forall i, j | 0 <= i < j < |r|
      ensures KeyLeq(r[i], r[j])
    {
      assert r[j] == s[j - 1];
      if i > 0 {
        assert r[i] == s[i - 1];
      }
    }
  }

  /** Inserting `x` puts it in front of the elements that share its key and leaves their order alone. */
  lemma {:induction false} InsertFilter(x: Keyed, s: seq<Keyed>, rank: string, name: string)
    ensures Filter(Insert(x, s), rank, name) ==
            (if x.rank == rank && x.name == name then [x] else []) + Filter(s, rank, name)
  {
    if |s| > 0 && !KeyLeq(x, s[0]) {
      InsertFilter(x, s[1..], rank, name);
      InsertFilterPast(x, s, rank, name);
    } else if |s| > 0 {
      FilterTail([x] + s, rank, name);
      assert ([x] + s)[1..] == s;
    } else {
      FilterTail([x], rank, name);
      assert [x][1..] == [];
    }
  }

  /** The step of `InsertFilter` where `x` goes past the head of `s`: the head and `x` have different
      keys, so at most one of them is selected, and their order does not matter to the filter. */
  lemma InsertFilterPast(x: Keyed, s: seq<Keyed>, rank: string, name: string)
    requires |s| > 0 && !KeyLeq(x, s[0])
    requires Filter(Insert(x, s[1..]), rank, name) ==
             (if x.rank == rank && x.name == name then [x] else []) + Filter(s[1..], rank, name)
    ensures Filter(Insert(x, s), rank, name) ==
            (if x.rank == rank && x.name == name then [x] else []) + Filter(s, rank, name)
  {
    KeyCompareZero(x, s[0]);
    var t := Insert(x, s[1..]);
    var hx := if x.rank == rank && x.name == name then [x] else [];
    var h0 := if s[0].rank == rank && s[0].name == name then [s[0]] else [];
    InsertPast(x, s);
    FilterTail([s[0]] + t, rank, name);
    assert ([s[0]] + t)[1..] == t;
    FilterTail(s, rank, name);
    assert h0 == [] || hx == [];
    SwapFront(h0, hx, Filter(s[1..], rank, name));
  }

  /** Two prefixes of which one is empty can be put in either order. */
  lemma SwapFront<T>(a: seq<T>, b: seq<T>, f: seq<T>)
    requires a == [] || b == []
    ensures a + (b + f) == b + (a + f)
  {
    if a == [] {
      assert a + (b + f) == b + f == b + (a + f);
    } else {
      assert a + (b + f) == a + f == b + (a + f);
    }
  }

  /** Inserting past the head keeps the head in front. */
  lemma InsertPast(x: Keyed, s: seq<Keyed>)
    requires |s| > 0 && !KeyLeq(x, s[0])
    ensures Insert(x, s) == [s[0]] + Insert(x, s[1..])
  {
  }

  lemma {:induction false} FilterTail(s: seq<Keyed>, rank: string, name: string)
    requires |s| > 0
    ensures Filter(s, rank, name) ==
            (if s[0].rank == rank && s[0].name == name then [s[0]] else []) + Filter(s[1..], rank, name)
  {
  }

  /** Stable sort by (rank, name): ordered, a permutation of the input, and for every key the elements
      with that key keep their input order. */
  function Sort(s: seq<Keyed>): (r: seq<Keyed>)
    ensures Sorted(r)
    ensures multiset(r) == multiset(s)
    ensures forall rank, name :: Filter(r, rank, name) == Filter(s, rank, name)
  {
    if |s| == 0 then []
    else
      var t := Sort(s[1..]);
      var r := Insert(s[0], t);
      assert s == [s[0]] + s[1..];
      forall rank, name
        ensures Filter(r, rank, name) == Filter(s, rank, name)
      {
        InsertFilter(s[0], t, rank, name);
      }
      r
  }

  lemma SortedHeadIsLeast(s: seq<Keyed>, y: Keyed)
    requires Sorted(s) && |s| > 0 && y in s
    ensures KeyLeq(s[0], y)
  {
    KeyLeqReflexive(s[0]);
  }

  /** An element's own key selects it, so a sequence whose filters equal those of a non-empty one is non-empty. */
  lemma NonEmptyFilters(a: seq<Keyed>, b: seq<Keyed>)
    requires forall rank, name :: Filter(a, rank, name) == Filter(b, rank, name)
    requires |b| > 0
    ensures |a| > 0
  {
    FilterTail(b, b[0].rank, b[0].name);
    var f := Filter(a, b[0].rank, b[0].name);
    assert b[0] in f;
  }

  /** Two sorted sequences with the same filters start with the same element. */
  lemma SameHead(a: seq<Keyed>, b: seq<Keyed>)
    requires Sorted(a) && Sorted(b) && |a| > 0 && |b| > 0
    requires forall rank, name :: Filter(a, rank, name) == Filter(b, rank, name)
    ensures a[0] == b[0]
  {
    var x, y := a[0], b[0];
    FilterTail(a, x.rank, x.name);
    FilterTail(b, y.rank, y.name);
    assert x in Filter(b, x.rank, x.name);
    SortedHeadIsLeast(b, x);
    assert y in Filter(a, y.rank, y.name);
    SortedHeadIsLeast(a, y);
    KeyLeqTotal(x, y);
    FilterTail(b, x.rank, x.name);
  }

  /** A sorted sequence that keeps every key's elements in a given order is unique: any two stable
      sorts of the same input agree, whatever algorithm produced them. */
  lemma {:induction false} SortedStableUnique(a: seq<Keyed>, b: seq<Keyed>)
    requires Sorted(a) && Sorted(b)
    requires forall rank, name :: Filter(a, rank, name) == Filter(b, rank, name)
    ensures a == b
  {
    if |a| > 0 && |b| > 0 {
      SameHead(a, b);
      forall rank, name
        ensures Filter(a[1..], rank, name) == Filter(b[1..], rank, name)
      {
        FilterTail(a, rank, name);
        FilterTail(b, rank, name);
        var h := if a[0].rank == rank && a[0].name == name then [a[0]] else [];
        assert (h + Filter(a[1..], rank, name))[|h|..] == Filter(a[1..], rank, name);
        assert (h + Filter(b[1..], rank, name))[|h|..] == Filter(b[1..], rank, name);
      }
      SortedStableUnique(a[1..], b[1..]);
      assert a == [a[0]] + a[1..] && b == [b[0]] + b[1..];
    } else if |b| > 0 {
      NonEmptyFilters(a, b);
    } else if |a| > 0 {
      NonEmptyFilters(b, a);
    }
  }

  /** Sorting is the stable sort: any sorted, key-order-preserving arrangement of `s` is `Sort(s)`. */
  lemma SortIsTheStableSort(s: seq<Keyed>, r: seq<Keyed>)
    requires Sorted(r)
    requires forall rank, name :: Filter(r, rank, name) == Filter(s, rank, name)
    ensures r == Sort(s)
  {
    SortedStableUnique(r, Sort(s));
  }

  // ---------------------------------------------------------------------------
  // The expander

  datatype ExpandError = MissingSortKey

  /** The expander only carries the direction flag that `reverse()` toggles. */
  datatype Expander = Expander(reversed: bool)

  /** `reverse()`: flips the flag and returns the expander itself. */
  function Reverse(x: Expander): (r: Expander)
    ensures r.reversed != x.reversed
  {
    x.(reversed := !x.reversed)
  }

  /** `getRelationships(PARENT_OF, OUTGOING)` of node `end`, in the order the store lists `rels`. */
  function ChildRels(rels: seq<Edge>, end: string): (r: seq<Edge>)
    ensures forall e :: e in r <==> e in rels && e.from == end && e.kind == ParentOf
  {
    if |rels| == 0 then []
    else (if rels[0].from == end && rels[0].kind == ParentOf then [rels[0]] else []) + ChildRels(rels[1..], end)
  }

  function RankOf(store: Store, e: Edge): Option<string>
    requires e.to in store
  {
    Value(store[e.to], RankTerm)
  }

  function NameOf(store: Store, e: Edge): Option<string>
    requires e.to in store
  {
    Value(store[e.to], NameTerm)
  }

  /** Sorting reads a missing property. With two or more children every child takes part in some
      comparison, so every rank is read. A child whose rank another child shares must be compared
      with at least one child of its own rank, since no child of another rank can order the two
      between them, and that comparison reads its name. `getProperty` without a default throws on a
      missing property. */
  predicate ReadsMissingKey(store: Store, cs: seq<Edge>)
    requires forall e :: e in cs ==> e.to in store
  {
    && |cs| >= 2
    && exists i :: 0 <= i < |cs| &&
         (|| RankOf(store, cs[i]).None?
          || (NameOf(store, cs[i]).None? &&
              exists j :: 0 <= j < |cs| && j != i && RankOf(store, cs[j]) == RankOf(store, cs[i])))
  }

  /** The keys the comparator works with; a name that is missing is never read (see
      `ReadsMissingKey`), so it stands as the empty string. */
  function KeyedOf(store: Store, cs: seq<Edge>): (ks: seq<Keyed>)
    requires forall e :: e in cs ==> e.to in store
    ensures |ks| == |cs|
    ensures forall i :: 0 <= i < |cs| ==> ks[i].rel == cs[i]
    ensures forall i :: 0 <= i < |cs| ==>
              ks[i].rank == RankOf(store, cs[i]).GetOr("") && ks[i].name == NameOf(store, cs[i]).GetOr("")
  {
    seq(|cs|, i requires 0 <= i < |cs| => Keyed(cs[i], RankOf(store, cs[i]).GetOr(""), NameOf(store, cs[i]).GetOr("")))
  }

  /** The relationships of a keyed sequence, in order. */
  function Rels(ks: seq<Keyed>): (r: seq<Edge>)
    ensures |r| == |ks|
    ensures forall i :: 0 <= i < |ks| ==> r[i] == ks[i].rel
  {
    if |ks| == 0 then [] else [ks[0].rel] + Rels(ks[1..])
  }

  /** Every key was read from the relationship's end node. */
  ghost predicate WellKeyed(store: Store, ks: seq<Keyed>) {
    forall i :: 0 <= i < |ks| ==>
      && ks[i].rel.to in store
      && ks[i].rank == RankOf(store, ks[i].rel).GetOr("")
      && ks[i].name == NameOf(store, ks[i].rel).GetOr("")
  }

  /** The relationships whose end node has the key (rank, name) as the comparator reads it. */
  function KeyFilter(store: Store, s: seq<Edge>, rank: string, name: string): seq<Edge>
    requires forall e :: e in s ==> e.to in store
  {
    if |s| == 0 then []
    else
      (if RankOf(store, s[0]).GetOr("") == rank && NameOf(store, s[0]).GetOr("") == name then [s[0]] else [])
      + KeyFilter(store, s[1..], rank, name)
  }

  /** Children in the order `expand` must produce. With two or more children every child has a rank,
      ranks ascend, and where two ranks are equal both children have names and the names ascend; a
      single child or none is in order whatever its keys. */
  ghost predicate InTaxonomicOrder(store: Store, s: seq<Edge>)
    requires forall e :: e in s ==> e.to in store
  {
    forall i, j :: 0 <= i < j < |s| ==>
      && RankOf(store, s[i]).Some?
      && RankOf(store, s[j]).Some?
      && (|| CompareTo(RankOf(store, s[i]).value, RankOf(store, s[j]).value) < 0
          || (&& RankOf(store, s[i]) == RankOf(store, s[j])
              && NameOf(store, s[i]).Some?
              && NameOf(store, s[j]).Some?
              && CompareTo(NameOf(store, s[i]).value, NameOf(store, s[j]).value) <= 0))
  }

  lemma {:induction false} KeyFilterRels(store: Store, ks: seq<Keyed>, rank: string, name: string)
    requires WellKeyed(store, ks)
    ensures KeyFilter(store, Rels(ks), rank, name) == Rels(Filter(ks, rank, name))
  {
    if |ks| > 0 {
      assert Rels(ks)[1..] == Rels(ks[1..]);
      assert WellKeyed(store, ks[1..]) by {
        assert forall i :: 0 <= i < |ks| - 1 ==> ks[1..][i] == ks[i + 1];
      }
      KeyFilterRels(store, ks[1..], rank, name);
      FilterTail(ks, rank, name);
      var h := if ks[0].rank == rank && ks[0].name == name then [ks[0]] else [];
      RelsConcat(h, Filter(ks[1..], rank, name));
    }
  }

  lemma {:induction false} RelsConcat(a: seq<Keyed>, b: seq<Keyed>)
    ensures Rels(a + b) == Rels(a) + Rels(b)
  {
  }

  lemma {:induction false} RelsCons(x: Keyed, t: seq<Keyed>)
    ensures Rels([x] + t) == [x.rel] + Rels(t)
    ensures multiset(Rels([x] + t)) == multiset(Rels(t)) + multiset{x.rel}
  {
    assert ([x] + t)[1..] == t;
  }

  /** Unfolding `Rels` once: the head's relationship joins those of the tail. */
  lemma RelsHead(s: seq<Keyed>)
    requires |s| > 0
    ensures multiset(Rels(s)) == multiset(Rels(s[1..])) + multiset{s[0].rel}
  {
    assert Rels(s) == [s[0].rel] + Rels(s[1..]);
  }

  lemma {:induction false} RelsInsert(x: Keyed, s: seq<Keyed>)
    ensures multiset(Rels(Insert(x, s))) == multiset(Rels(s)) + multiset{x.rel}
  {
    if |s| > 0 && !KeyLeq(x, s[0]) {
      var t := Insert(x, s[1..]);
      assert Insert(x, s) == [s[0]] + t;
      RelsCons(s[0], t);
      RelsInsert(x, s[1..]);
      RelsHead(s);
    } else {
      assert Insert(x, s) == [x] + s;
      RelsCons(x, s);
    }
  }

  lemma {:induction false} RelsSort(s: seq<Keyed>)
    ensures multiset(Rels(Sort(s))) == multiset(Rels(s))
  {
    if |s| > 0 {
      assert Sort(s) == Insert(s[0], Sort(s[1..]));
      RelsInsert(s[0], Sort(s[1..]));
      RelsSort(s[1..]);
      RelsHead(s);
    }
  }

  lemma {:induction false} RelsKeyedOf(store: Store, cs: seq<Edge>)
    requires forall e :: e in cs ==> e.to in store
    ensures Rels(KeyedOf(store, cs)) == cs
    ensures WellKeyed(store, KeyedOf(store, cs))
  {
  }

  /** A value that occurs at two positions of a sequence occurs twice in its multiset, and back. */
  lemma TwoPositions(s: seq<Edge>, i: int, j: int)
    requires 0 <= i < j < |s| && s[i] == s[j]
    ensures multiset(s)[s[i]] >= 2
  {
    assert s == s[..j] + s[j..];
    assert s[..j][i] == s[i];
    assert s[j..][0] == s[j];
  }

  lemma {:induction false} TwoOccurrences(s: seq<Edge>, e: Edge) returns (i: int, j: int)
    requires multiset(s)[e] >= 2
    ensures 0 <= i < j < |s| && s[i] == e && s[j] == e
  {
    assert s == [s[0]] + s[1..];
    if s[0] == e {
      assert e in multiset(s[1..]);
      assert e in s[1..];
      var k :| 0 <= k < |s| - 1 && s[1..][k] == e;
      i, j := 0, k + 1;
    } else {
      var i', j' := TwoOccurrences(s[1..], e);
      i, j := i' + 1, j' + 1;
    }
  }

  /** Sorting keeps every key as read from its end node. */
  lemma SortWellKeyed(store: Store, ks: seq<Keyed>)
    requires WellKeyed(store, ks)
    ensures WellKeyed(store, Sort(ks))
  {
    var sorted := Sort(ks);
    forall i | 0 <= i < |sorted|
      ensures sorted[i] in ks
    {
      assert sorted[i] in multiset(ks);
    }
  }

  /** Sorting the keyed children gives back the same children. */
  lemma SortedChildrenPermute(store: Store, cs: seq<Edge>)
    requires forall e :: e in cs ==> e.to in store
    ensures multiset(Rels(Sort(KeyedOf(store, cs)))) == multiset(cs)
    ensures forall e :: e in Rels(Sort(KeyedOf(store, cs))) ==> e in cs
  {
    RelsKeyedOf(store, cs);
    RelsSort(KeyedOf(store, cs));
    assert forall e :: e in Rels(Sort(KeyedOf(store, cs))) ==> e in multiset(cs);
  }

  /** Sorting keeps the input order among children with equal keys. */
  lemma SortedChildrenStable(store: Store, cs: seq<Edge>, rank: string, name: string)
    requires forall e :: e in cs ==> e.to in store
    requires forall e :: e in Rels(Sort(KeyedOf(store, cs))) ==> e.to in store
    ensures KeyFilter(store, Rels(Sort(KeyedOf(store, cs))), rank, name) == KeyFilter(store, cs, rank, name)
  {
    var ks := KeyedOf(store, cs);
    RelsKeyedOf(store, cs);
    SortWellKeyed(store, ks);
    KeyFilterRels(store, Sort(ks), rank, name);
    KeyFilterRels(store, ks, rank, name);
    assert Filter(Sort(ks), rank, name) == Filter(ks, rank, name);
  }

  /** With two or more children and no missing key read, the sorted children are in taxonomic order,
      are a permutation of the children, and keep the input order among equal keys. */
  lemma SortedChildren(store: Store, cs: seq<Edge>)
    requires forall e :: e in cs ==> e.to in store
    requires |cs| >= 2 && !ReadsMissingKey(store, cs)
    ensures forall e :: e in Rels(Sort(KeyedOf(store, cs))) ==> e.to in store
    ensures multiset(Rels(Sort(KeyedOf(store, cs)))) == multiset(cs)
    ensures InTaxonomicOrder(store, Rels(Sort(KeyedOf(store, cs))))
    ensures forall rank, name ::
              KeyFilter(store, Rels(Sort(KeyedOf(store, cs))), rank, name) == KeyFilter(store, cs, rank, name)
  {
    var ks := KeyedOf(store, cs);
    var sorted := Sort(ks);
    var r := Rels(sorted);
    SortedChildrenPermute(store, cs);
    forall rank, name
      ensures KeyFilter(store, r, rank, name) == KeyFilter(store, cs, rank, name)
    {
      SortedChildrenStable(store, cs, rank, name);
    }
    RelsKeyedOf(store, cs);
    SortWellKeyed(store, ks);
    forall i, j | 0 <= i < j < |r|
      ensures RankOf(store, r[i]).Some? && RankOf(store, r[j]).Some?
      ensures || CompareTo(RankOf(store, r[i]).value, RankOf(store, r[j]).value) < 0
              || (&& RankOf(store, r[i]) == RankOf(store, r[j])
                  && NameOf(store, r[i]).Some?
                  && NameOf(store, r[j]).Some?
                  && CompareTo(NameOf(store, r[i]).value, NameOf(store, r[j]).value) <= 0)
    {
      ChildrenInOrder(store, cs, r, sorted, i, j);
    }
  }

  lemma ChildrenInOrder(store: Store, cs: seq<Edge>, r: seq<Edge>, sorted: seq<Keyed>, i: int, j: int)
    requires forall e :: e in cs ==> e.to in store
    requires |cs| >= 2 && !ReadsMissingKey(store, cs)
    requires Sorted(sorted) && WellKeyed(store, sorted) && r == Rels(sorted)
    requires multiset(r) == multiset(cs)
    requires 0 <= i < j < |r|
    ensures RankOf(store, r[i]).Some? && RankOf(store, r[j]).Some?
    ensures || CompareTo(RankOf(store, r[i]).value, RankOf(store, r[j]).value) < 0
            || (&& RankOf(store, r[i]) == RankOf(store, r[j])
                && NameOf(store, r[i]).Some?
                && NameOf(store, r[j]).Some?
                && CompareTo(NameOf(store, r[i]).value, NameOf(store, r[j]).value) <= 0)
  {
    var e, f := r[i], r[j];
    assert e in multiset(cs) && f in multiset(cs);
    var p :| 0 <= p < |cs| && cs[p] == e;
    var q :| 0 <= q < |cs| && cs[q] == f;
    if e == f {
      TwoPositions(r, i, j);
      p, q := TwoOccurrences(cs, e);
    }
    assert p != q;
    assert KeyLeq(sorted[i], sorted[j]);
    CompareToZero(sorted[i].rank, sorted[j].rank);
  }

  /** `expand(path)`: the children of the path's end node sorted by rank, then by scientific name.
      The sort fails when it reads a property the child node does not have. The direction flag is
      not consulted. */
  function Expand(x: Expander, store: Store, end: string, rels: seq<Edge>): (r: Result<seq<Edge>, ExpandError>)
    requires forall e :: e in rels && e.from == end && e.kind == ParentOf ==> e.to in store
    ensures r.Failure? <==> ReadsMissingKey(store, ChildRels(rels, end))
    ensures r.Success? ==> multiset(r.value) == multiset(ChildRels(rels, end))
    ensures r.Success? ==> forall e :: e in r.value ==> e.to in store
    ensures r.Success? ==> InTaxonomicOrder(store, r.value)
    ensures r.Success? ==> forall rank, name ::
              KeyFilter(store, r.value, rank, name) == KeyFilter(store, ChildRels(rels, end), rank, name)
  {
    var cs := ChildRels(rels, end);
    if |cs| < 2 then Success(cs)
    else if ReadsMissingKey(store, cs) then Failure(MissingSortKey)
    else
      SortedChildren(store, cs);
      Success(Rels(Sort(KeyedOf(store, cs))))
  }

  /** `reverse()` changes nothing `expand` returns, and flipping twice restores the expander. */
  lemma ExpandIgnoresReverse(x: Expander, store: Store, end: string, rels: seq<Edge>)
    requires forall e :: e in rels && e.from == end && e.kind == ParentOf ==> e.to in store
    ensures Reverse(x) != x && Reverse(Reverse(x)) == x
    ensures Expand(Reverse(x), store, end, rels) == Expand(x, store, end, rels)
  {
  }

  /** A well-keyed sequence is determined by its relationships. */
  lemma {:induction false} FilterKeyedInjective(store: Store, a: seq<Keyed>, b: seq<Keyed>)
    requires WellKeyed(store, a) && WellKeyed(store, b)
    requires Rels(a) == Rels(b)
    ensures a == b
  {
    assert |a| == |b|;
    forall i | 0 <= i < |a|
      ensures a[i] == b[i]
    {
      assert a[i].rel == Rels(a)[i] == Rels(b)[i] == b[i].rel;
    }
  }

  /** The elements a filter keeps from a well-keyed sequence are well keyed. */
  lemma FilterWellKeyed(store: Store, ks: seq<Keyed>, rank: string, name: string)
    requires WellKeyed(store, ks)
    ensures WellKeyed(store, Filter(ks, rank, name))
  {
    var f := Filter(ks, rank, name);
    forall i | 0 <= i < |f|
      ensures f[i] in ks
    {
    }
  }

  /** Children in taxonomic order give a sorted key sequence. */
  lemma OrderedKeysSorted(store: Store, r: seq<Edge>)
    requires forall e :: e in r ==> e.to in store
    requires InTaxonomicOrder(store, r)
    ensures Sorted(KeyedOf(store, r))
  {
    var ks := KeyedOf(store, r);
    forall i, j | 0 <= i < j < |ks|
      ensures KeyLeq(ks[i], ks[j])
    {
      CompareToZero(ks[i].rank, ks[j].rank);
    }
  }

  /** Equal edge-level filters give equal key-level filters. */
  lemma KeyFiltersAgree(store: Store, r: seq<Edge>, cs: seq<Edge>, rank: string, name: string)
    requires forall e :: e in r ==> e.to in store
    requires forall e :: e in cs ==> e.to in store
    requires KeyFilter(store, r, rank, name) == KeyFilter(store, cs, rank, name)
    ensures Filter(KeyedOf(store, r), rank, name) == Filter(KeyedOf(store, cs), rank, name)
  {
    var ks, kc := KeyedOf(store, r), KeyedOf(store, cs);
    RelsKeyedOf(store, r);
    RelsKeyedOf(store, cs);
    KeyFilterRels(store, ks, rank, name);
    KeyFilterRels(store, kc, rank, name);
    FilterWellKeyed(store, ks, rank, name);
    FilterWellKeyed(store, kc, rank, name);
    FilterKeyedInjective(store, Filter(ks, rank, name), Filter(kc, rank, name));
  }

  /** The contract of `Expand` determines its result: any arrangement of the children in taxonomic order
      that keeps the input order among equal keys is the one `Expand` returns. */
  lemma ExpandIsTheStableSort(x: Expander, store: Store, end: string, rels: seq<Edge>, r: seq<Edge>)
    requires forall e :: e in rels && e.from == end && e.kind == ParentOf ==> e.to in store
    requires Expand(x, store, end, rels).Success?
    requires forall e :: e in r ==> e.to in store
    requires multiset(r) == multiset(ChildRels(rels, end))
    requires InTaxonomicOrder(store, r)
    requires forall rank, name :: KeyFilter(store, r, rank, name) == KeyFilter(store, ChildRels(rels, end), rank, name)
    ensures r == Expand(x, store, end, rels).value
  {
    var cs := ChildRels(rels, end);
    if |cs| >= 2 {
      var ks := KeyedOf(store, r);
      RelsKeyedOf(store, r);
      OrderedKeysSorted(store, r);
      forall rank, name
        ensures Filter(ks, rank, name) == Filter(KeyedOf(store, cs), rank, name)
      {
        KeyFiltersAgree(store, r, cs, rank, name);
      }
      SortIsTheStableSort(KeyedOf(store, cs), ks);
    } else {
      SmallPermutation(r, cs);
    }
  }

  /** A permutation of a sequence of at most one element is that sequence. */
  lemma SmallPermutation(r: seq<Edge>, cs: seq<Edge>)
    requires |cs| < 2 && multiset(r) == multiset(cs)
    ensures r == cs
  {
    assert |r| == |cs| by { assert |multiset(r)| == |multiset(cs)|; }
    if |cs| == 1 {
      assert cs[0] in multiset(r);
    }
  }
}
