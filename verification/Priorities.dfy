/**
  Entries kept in per-priority lists and visited list by list in increasing priority order,
  against the plain idea behind it: all entries in registration order, stably sorted by priority.
 */
module Priorities {

  const LEVELS: nat := 256      // priorities are single bytes

  type Buckets<T> = map<nat, seq<T>>

  function Bucket<T>(b: Buckets<T>, p: nat): seq<T> { if p in b then b[p] else [] }

  /** The visiting order: the lists of priority `p`, `p + 1`, ... one after the other. */
  function Visit<T>(b: Buckets<T>, p: nat := 0): seq<T>
    decreases LEVELS - p
  {
    if p >= LEVELS then [] else Bucket(b, p) + Visit(b, p + 1)
  }

  function Push<T>(b: Buckets<T>, p: nat, x: T): Buckets<T> { b[p := Bucket(b, p) + [x]] }

  // ---------------------------------------------------------------- stable sorting

  /** The entries of one priority, in order. */
  function Of<T>(s: seq<T>, prio: T -> nat, p: nat): seq<T> {
    if s == [] then [] else (if prio(s[0]) == p then [s[0]] else []) + Of(s[1..], prio, p)
  }

  ghost predicate Sorted<T>(s: seq<T>, prio: T -> nat) {
    forall i, j | 0 <= i < j < |s| :: prio(s[i]) <= prio(s[j])
  }

  /** `t` is `s` stably sorted: in priority order, and within a priority in the order of `s`. */
  ghost predicate IsStableSort<T>(t: seq<T>, s: seq<T>, prio: T -> nat) {
    Sorted(t, prio) && forall p: nat :: Of(t, prio, p) == Of(s, prio, p)
  }

  /** The buckets hold the entries of `s`, each list in the order of `s`. */
  ghost predicate Holds<T>(b: Buckets<T>, s: seq<T>, prio: T -> nat) {
    forall p: nat :: Bucket(b, p) == Of(s, prio, p)
  }

  lemma {:induction false} OfConcat<T>(a: seq<T>, b: seq<T>, prio: T -> nat, p: nat)
    ensures Of(a + b, prio, p) == Of(a, prio, p) + Of(b, prio, p)
  {
    if a == [] {
      assert a + b == b;
    } else {
      var t := a[1..] + b;
      assert (a + b)[1..] == t && (a + b)[0] == a[0];
      OfConcat(a[1..], b, prio, p);
      var h := if prio(a[0]) == p then [a[0]] else [];
      assert Of(a + b, prio, p) == h + Of(t, prio, p);
    }
  }

  lemma {:induction false} OfMembers<T>(s: seq<T>, prio: T -> nat, p: nat)
    ensures forall x | x in Of(s, prio, p) :: x in s && prio(x) == p
    ensures forall x | x in s && prio(x) == p :: x in Of(s, prio, p)
  {
    if s != [] {
      OfMembers(s[1..], prio, p);
      assert s == [s[0]] + s[1..];
    }
  }

  lemma {:induction false} OfAll<T>(s: seq<T>, prio: T -> nat, p: nat, q: nat)
    requires forall x | x in s :: prio(x) == p
    ensures Of(s, prio, q) == if p == q then s else []
  {
    if s != [] {
      assert s == [s[0]] + s[1..];
      OfAll(s[1..], prio, p, q);
    }
  }

  lemma PushHolds<T>(b: Buckets<T>, s: seq<T>, prio: T -> nat, x: T)
    requires Holds(b, s, prio)
    ensures Holds(Push(b, prio(x), x), s + [x], prio)
  {
    var b' := Push(b, prio(x), x);
    forall p: nat ensures Bucket(b', p) == Of(s + [x], prio, p) {
      OfConcat(s, [x], prio, p);
      assert [x][1..] == [];
      assert Bucket(b, p) == Of(s, prio, p);
    }
  }

  /** From priority `p` on, a visit is sorted and meets each later priority in registration order. */
  lemma {:induction false} VisitFrom<T>(b: Buckets<T>, s: seq<T>, prio: T -> nat, p: nat)
    requires Holds(b, s, prio) && p <= LEVELS
    ensures Sorted(Visit(b, p), prio) && forall x | x in Visit(b, p) :: p <= prio(x)
    ensures forall q: nat :: Of(Visit(b, p), prio, q) == if p <= q < LEVELS then Of(s, prio, q) else []
    decreases LEVELS - p
  {
    if p < LEVELS {
      VisitFrom(b, s, prio, p + 1);
      var l, rest := Bucket(b, p), Visit(b, p + 1);
      assert l == Of(s, prio, p);
      OfMembers(s, prio, p);
      assert Visit(b, p) == l + rest;
      forall q: nat ensures Of(l + rest, prio, q) == if p <= q < LEVELS then Of(s, prio, q) else [] {
        OfConcat(l, rest, prio, q);
        OfAll(l, prio, p, q);
      }
      forall i, j | 0 <= i < j < |l + rest| ensures prio((l + rest)[i]) <= prio((l + rest)[j]) {
        if i < |l| { assert l[i] in l; }
        if j < |l| { assert l[j] in l; } else { assert rest[j - |l|] in rest; }
        if i >= |l| { assert prio(rest[i - |l|]) <= prio(rest[j - |l|]); }
      }
    }
  }

  /** Visiting the buckets is visiting the stable sort. */
  lemma {:induction false} VisitIsStableSort<T>(b: Buckets<T>, s: seq<T>, prio: T -> nat)
    requires Holds(b, s, prio) && forall x | x in s :: prio(x) < LEVELS
    ensures IsStableSort(Visit(b), s, prio)
  {
    VisitFrom(b, s, prio, 0);
    forall q: nat ensures Of(Visit(b), prio, q) == Of(s, prio, q) {
      OfMembers(s, prio, q);
      assert forall x | x in Of(s, prio, q) :: prio(x) == q;
      assert Of(s, prio, q) != [] ==> Of(s, prio, q)[0] in Of(s, prio, q);
    }
  }

  /** There is only one stable sort of a sequence. */
  lemma StableSortUnique<T>(t: seq<T>, u: seq<T>, s: seq<T>, prio: T -> nat)
    requires IsStableSort(t, s, prio) && IsStableSort(u, s, prio)
    ensures t == u
  {
    forall p: nat ensures Of(t, prio, p) == Of(u, prio, p) {
      assert Of(t, prio, p) == Of(s, prio, p) == Of(u, prio, p);
    }
    SameOf(t, u, prio);
  }

  lemma {:induction false} SameOf<T>(t: seq<T>, u: seq<T>, prio: T -> nat)
    requires Sorted(t, prio) && Sorted(u, prio) && forall p: nat :: Of(t, prio, p) == Of(u, prio, p)
    ensures t == u
    decreases |t|
  {
    if t == [] {
      EmptyOf(t, u, prio);
    } else if u == [] {
      EmptyOf(u, t, prio);
    } else {
      SameFirst(t, u, prio);
      SameFirst(u, t, prio);
      var p := prio(t[0]);
      assert Of(t, prio, p) == Of(u, prio, p);
      assert t[0] == Of(t, prio, p)[0] == u[0];
      assert t == [t[0]] + t[1..] && u == [u[0]] + u[1..];
      forall q: nat ensures Of(t[1..], prio, q) == Of(u[1..], prio, q) {
        var h := if q == p then [t[0]] else [];
        assert Of(t, prio, q) == h + Of(t[1..], prio, q) && Of(u, prio, q) == h + Of(u[1..], prio, q);
        assert Of(t[1..], prio, q) == Of(t, prio, q)[|h|..] && Of(u[1..], prio, q) == Of(u, prio, q)[|h|..];
      }
      SameOf(t[1..], u[1..], prio);
    }
  }

  lemma EmptyOf<T>(t: seq<T>, u: seq<T>, prio: T -> nat)
    requires t == [] && forall p: nat :: Of(t, prio, p) == Of(u, prio, p)
    ensures u == []
  {
    assert forall p: nat :: Of(u, prio, p) == Of(t, prio, p) == [];
    assert u != [] ==> u[0] in Of(u, prio, prio(u[0]));
  }

  /** The first element of a sorted sequence has the least priority that occurs. */
  lemma SameFirst<T>(t: seq<T>, u: seq<T>, prio: T -> nat)
    requires t != [] && u != [] && Sorted(u, prio) && forall p: nat :: Of(t, prio, p) == Of(u, prio, p)
    ensures prio(u[0]) <= prio(t[0])
  {
    var p := prio(t[0]);
    assert t[0] in Of(t, prio, p);
    assert Of(t, prio, p) == Of(u, prio, p);
    OfMembers(u, prio, p);
    var j :| 0 <= j < |u| && u[j] == t[0];
  }

  // ---------------------------------------------------------------- the sort itself

  /** Puts `x` behind everything of its own or a more urgent priority. */
  function Insert<T>(t: seq<T>, x: T, prio: T -> nat): seq<T> {
    if t == [] || prio(x) < prio(t[0]) then [x] + t else [t[0]] + Insert(t[1..], x, prio)
  }

  function StableSort<T>(s: seq<T>, prio: T -> nat): seq<T> {
    if s == [] then [] else Insert(StableSort(s[..|s| - 1], prio), s[|s| - 1], prio)
  }

  lemma {:induction false} InsertMembers<T>(t: seq<T>, x: T, prio: T -> nat)
    ensures forall i | 0 <= i < |Insert(t, x, prio)| :: Insert(t, x, prio)[i] in t || Insert(t, x, prio)[i] == x
  {
    if t != [] && prio(t[0]) <= prio(x) {
      InsertMembers(t[1..], x, prio);
    }
  }

  lemma {:induction false} InsertSorts<T>(t: seq<T>, x: T, prio: T -> nat)
    requires Sorted(t, prio)
    ensures Sorted(Insert(t, x, prio), prio)
  {
    if t != [] && prio(t[0]) <= prio(x) {
      var r := Insert(t[1..], x, prio);
      InsertSorts(t[1..], x, prio);
      InsertMembers(t[1..], x, prio);
      forall i | 0 <= i < |r| ensures prio(t[0]) <= prio(r[i]) {
        if r[i] in t[1..] {
          var k :| 0 <= k < |t[1..]| && t[1..][k] == r[i];
          assert t[k + 1] == r[i];
        }
      }
      ConsSorted(t[0], r, prio);
    }
  }

  lemma ConsSorted<T>(x: T, t: seq<T>, prio: T -> nat)
    requires Sorted(t, prio) && forall i | 0 <= i < |t| :: prio(x) <= prio(t[i])
    ensures Sorted([x] + t, prio)
  {
    var r := [x] + t;
    forall i, j | 0 <= i < j < |r| ensures prio(r[i]) <= prio(r[j]) {
      assert r[j] == t[j - 1];
      if i > 0 { assert r[i] == t[i - 1]; }
    }
  }

  lemma {:induction false} OfNone<T>(t: seq<T>, prio: T -> nat, p: nat)
    requires forall i | 0 <= i < |t| :: prio(t[i]) != p
    ensures Of(t, prio, p) == []
  {
    if t != [] { OfNone(t[1..], prio, p); }
  }

  lemma {:induction false} InsertOf<T>(t: seq<T>, x: T, prio: T -> nat, p: nat)
    requires Sorted(t, prio)
    ensures Of(Insert(t, x, prio), prio, p) == Of(t, prio, p) + if prio(x) == p then [x] else []
  {
    if t == [] || prio(x) < prio(t[0]) {
      OfConcat([x], t, prio, p);
      assert [x][1..] == [];
      if prio(x) == p { OfNone(t, prio, p); }
    } else {
      InsertOf(t[1..], x, prio, p);
      assert ([t[0]] + Insert(t[1..], x, prio))[1..] == Insert(t[1..], x, prio);
    }
  }

  lemma {:induction false} SortIsStable<T>(s: seq<T>, prio: T -> nat)
    ensures IsStableSort(StableSort(s, prio), s, prio)
    decreases |s|
  {
    if s != [] {
      var init, x := s[..|s| - 1], s[|s| - 1];
      SortIsStable(init, prio);
      InsertSorts(StableSort(init, prio), x, prio);
      forall p: nat ensures Of(StableSort(s, prio), prio, p) == Of(s, prio, p) {
        InsertOf(StableSort(init, prio), x, prio, p);
        assert s == init + [x];
        OfConcat(init, [x], prio, p);
        assert [x][1..] == [];
        assert Of(StableSort(init, prio), prio, p) == Of(init, prio, p);
      }
    }
  }

  /** The bucketed visit is the stable sort of the registrations. */
  lemma VisitIsSort<T>(b: Buckets<T>, s: seq<T>, prio: T -> nat)
    requires Holds(b, s, prio) && forall x | x in s :: prio(x) < LEVELS
    ensures Visit(b) == StableSort(s, prio)
  {
    VisitIsStableSort(b, s, prio);
    SortIsStable(s, prio);
    StableSortUnique(Visit(b), StableSort(s, prio), s, prio);
  }
}
