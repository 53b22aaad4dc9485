/** The sorted container behind a `ScriptSet`: a `TreeSet<Script>` seen as the
    sequence of its elements in iteration order.

    The TreeSet orders scripts by Script.compareTo, which is not part of this
    model. It is taken to compare ids with String.compareTo (`LexLess`), so
    that two scripts compare equal exactly when their ids are equal. Under
    that order a well-formed container is strictly increasing by id, which
    also makes its ids unique. */
module SortedScripts {
  import opened Scripts

  /** Strictly increasing by id: the shape of a TreeSet's iteration order. */
  predicate SortedById(s: seq<Script>) {
    forall i, j :: 0 <= i < j < |s| ==> LexLess(s[i].id, s[j].id)
  }

  /** A sorted container holds at most one record per id. */
  lemma SortedDistinct(s: seq<Script>)
    requires SortedById(s)
    ensures forall i, j :: 0 <= i < j < |s| ==> s[i].id != s[j].id
  {
    forall i, j | 0 <= i < j < |s|
      ensures s[i].id != s[j].id
    {
      LexLessIrreflexive(s[i].id);
    }
  }

  /** The tail of a sorted container is sorted. */
  lemma SortedTail(s: seq<Script>)
    requires SortedById(s) && |s| != 0
    ensures SortedById(s[1..])
  {
    var t := s[1..];
    forall i, j | 0 <= i < j < |t| ensures LexLess(t[i].id, t[j].id) {
      assert t[i] == s[i + 1] && t[j] == s[j + 1];
    }
  }

  /** Prepending a record smaller than every element keeps the container sorted. */
  lemma SortedCons(x: Script, s: seq<Script>)
    requires SortedById(s)
    requires forall y :: y in s ==> LexLess(x.id, y.id)
    ensures SortedById([x] + s)
  {
    var t := [x] + s;
    forall i, j | 0 <= i < j < |t|
      ensures LexLess(t[i].id, t[j].id)
    {
      if i == 0 {
        assert t[j] in s;
      } else {
        assert t[i] == s[i - 1] && t[j] == s[j - 1];
      }
    }
  }

  /** The first record with the given id, or None; the source's linear scan. */
  function Lookup(s: seq<Script>, id: string): (r: Option<Script>)
    ensures r.Some? ==> r.value in s && r.value.id == id
    ensures r.None? <==> forall x :: x in s ==> x.id != id
  {
    if |s| == 0 then None
    else if s[0].id == id then Some(s[0])
    else Lookup(s[1..], id)
  }

  /** In a sorted container the record found for an id is the one that has it. */
  lemma LookupAt(s: seq<Script>, k: int)
    requires SortedById(s) && 0 <= k < |s|
    ensures Lookup(s, s[k].id) == Some(s[k])
  {
    var r := Lookup(s, s[k].id);
    var j :| 0 <= j < |s| && s[j] == r.value;
    SortedDistinct(s);
  }

  /** TreeSet.add: the record goes to its place in id order; if a record with
      the same id is already present (compares equal) nothing changes. */
  function Insert(s: seq<Script>, x: Script): (r: seq<Script>)
    ensures forall y :: y in r ==> y in s || y == x
  {
    if |s| == 0 then [x]
    else if LexLess(x.id, s[0].id) then [x] + s
    else if x.id == s[0].id then s
    else [s[0]] + Insert(s[1..], x)
  }

  /** TreeSet.remove: drops the element that compares equal to `x` (has its id). */
  function Remove(s: seq<Script>, x: Script): (r: seq<Script>)
    ensures forall y :: y in r ==> y in s
  {
    if |s| == 0 then []
    else if s[0].id == x.id then s[1..]
    else [s[0]] + Remove(s[1..], x)
  }

  /** The records that `keep` accepts, in container order. */
  function Select(s: seq<Script>, keep: Script -> bool): (r: seq<Script>)
    ensures forall x :: x in r <==> x in s && keep(x)
    ensures |r| <= |s|
  {
    if |s| == 0 then []
    else (if keep(s[0]) then [s[0]] else []) + Select(s[1..], keep)
  }

  lemma {:induction false} InsertSorted(s: seq<Script>, x: Script)
    requires SortedById(s)
    ensures SortedById(Insert(s, x))
  {
    if |s| == 0 {
    } else if LexLess(x.id, s[0].id) {
      forall y | y in s ensures LexLess(x.id, y.id) {
        if y != s[0] {
          LexLessTransitive(x.id, s[0].id, y.id);
        }
      }
      SortedCons(x, s);
    } else if x.id == s[0].id {
    } else {
      SortedTail(s);
      InsertSorted(s[1..], x);
      LexLessTotal(x.id, s[0].id);
      SortedCons(s[0], Insert(s[1..], x));
    }
  }

  /** Adding a record whose id is absent adds exactly that record. */
  lemma {:induction false} InsertAbsent(s: seq<Script>, x: Script)
    requires forall y :: y in s ==> y.id != x.id
    ensures multiset(Insert(s, x)) == multiset(s) + multiset{x}
    ensures |Insert(s, x)| == |s| + 1
  {
    if |s| != 0 && !LexLess(x.id, s[0].id) {
      assert s[0] in s;
      InsertAbsent(s[1..], x);
      assert s == [s[0]] + s[1..];
    }
  }

  /** A record larger than every element goes at the end. */
  lemma {:induction false} InsertLast(s: seq<Script>, x: Script)
    requires forall y :: y in s ==> LexLess(y.id, x.id)
    ensures Insert(s, x) == s + [x]
  {
    if |s| != 0 {
      assert s[0] in s;
      LexLessAsymmetric(s[0].id, x.id);
      LexLessIrreflexive(x.id);
      InsertLast(s[1..], x);
      assert s == [s[0]] + s[1..];
    }
  }

  /** Adding a record whose id is present leaves the container as it was. */
  lemma {:induction false} InsertPresent(s: seq<Script>, x: Script, k: int)
    requires SortedById(s) && 0 <= k < |s| && s[k].id == x.id
    ensures Insert(s, x) == s
  {
    LexLessIrreflexive(x.id);
    if k != 0 {
      var t := s[1..];
      assert LexLess(s[0].id, x.id);
      LexLessAsymmetric(s[0].id, x.id);
      SortedTail(s);
      assert t[k - 1] == s[k];
      InsertPresent(t, x, k - 1);
      assert s == [s[0]] + t;
    }
  }

  /** Removing by a record whose id sits at index k takes out exactly index k. */
  lemma {:induction false} RemoveAt(s: seq<Script>, x: Script, k: int)
    requires SortedById(s) && 0 <= k < |s| && s[k].id == x.id
    ensures Remove(s, x) == s[..k] + s[k + 1..]
  {
    if k != 0 {
      LexLessIrreflexive(x.id);
      SortedTail(s);
      RemoveAt(s[1..], x, k - 1);
      assert s[1..][..k - 1] == s[1..k];
      assert s[1..][k..] == s[k + 1..];
      assert [s[0]] + s[1..k] == s[..k];
    }
  }

  /** Removing by a record whose id is absent changes nothing. */
  lemma {:induction false} RemoveAbsent(s: seq<Script>, x: Script)
    requires forall y :: y in s ==> y.id != x.id
    ensures Remove(s, x) == s
  {
    if |s| != 0 {
      assert s[0] in s;
      RemoveAbsent(s[1..], x);
    }
  }

  /** Inserting a record in place of the one with its id, after that one has
      been removed, puts the new record at the old one's index. */
  lemma {:induction false} InsertReplaces(s: seq<Script>, m: Script, k: int)
    requires SortedById(s) && 0 <= k < |s| && s[k].id == m.id
    ensures Insert(s[..k] + s[k + 1..], m) == s[k := m]
  {
    var t := s[..k] + s[k + 1..];
    if k == 0 {
      assert t == s[1..];
      if |t| != 0 {
        assert t[0] == s[1];
      }
    } else {
      var u := s[1..];
      SortedTail(s);
      assert LexLess(s[0].id, m.id);
      LexLessAsymmetric(s[0].id, m.id);
      LexLessIrreflexive(m.id);
      assert u[k - 1] == s[k];
      InsertReplaces(u, m, k - 1);
      assert t == [s[0]] + (u[..k - 1] + u[k..]);
      assert Insert(t, m) == [s[0]] + Insert(u[..k - 1] + u[k..], m);
      assert [s[0]] + u[k - 1 := m] == s[k := m];
    }
  }

  /** Removing keeps the container sorted. */
  lemma RemoveSorted(s: seq<Script>, x: Script)
    requires SortedById(s)
    ensures SortedById(Remove(s, x))
  {
    if k :| 0 <= k < |s| && s[k].id == x.id {
      RemoveAt(s, x, k);
      var r := s[..k] + s[k + 1..];
      forall i, j | 0 <= i < j < |r| ensures LexLess(r[i].id, r[j].id) {
        var i' := if i < k then i else i + 1;
        var j' := if j < k then j else j + 1;
        assert r[i] == s[i'] && r[j] == s[j'];
      }
    } else {
      RemoveAbsent(s, x);
    }
  }

  /** Filtering keeps the container order. */
  lemma {:induction false} SelectSorted(s: seq<Script>, keep: Script -> bool)
    requires SortedById(s)
    ensures SortedById(Select(s, keep))
  {
    if |s| != 0 {
      SortedTail(s);
      SelectSorted(s[1..], keep);
      if keep(s[0]) {
        SortedCons(s[0], Select(s[1..], keep));
      }
    }
  }

  /** Filtering a container grown by one record at its end. */
  lemma {:induction false} SelectSnoc(s: seq<Script>, x: Script, keep: Script -> bool)
    ensures Select(s + [x], keep) == Select(s, keep) + (if keep(x) then [x] else [])
  {
    if |s| != 0 {
      SelectSnoc(s[1..], x, keep);
      assert (s + [x])[1..] == s[1..] + [x];
    }
  }

  lemma HeadIsMember(s: seq<Script>)
    ensures |s| != 0 ==> s[0] in s
  {
  }

  /** A sorted container is determined by which records it holds: two sorted
      sequences with the same members are equal. So the order in which records
      were added leaves no trace. */
  lemma {:induction false} SortedUnique(a: seq<Script>, b: seq<Script>)
    requires SortedById(a) && SortedById(b)
    requires forall x :: x in a <==> x in b
    ensures a == b
  {
    if |a| == 0 {
      HeadIsMember(b);
    } else {
      assert a[0] in b;
      assert b[0] in a;
      var i :| 0 <= i < |a| && a[i] == b[0];
      var j :| 0 <= j < |b| && b[j] == a[0];
      if i != 0 && j != 0 {
        LexLessAsymmetric(a[0].id, b[0].id);
      }
      assert a[0] == b[0];
      forall x ensures x in a[1..] <==> x in b[1..] {
        if x in a[1..] {
          var p :| 1 <= p < |a| && a[p] == x;
          LexLessIrreflexive(a[0].id);
          assert x in a;
          var q :| 0 <= q < |b| && b[q] == x;
          assert q != 0;
        }
        if x in b[1..] {
          var q :| 1 <= q < |b| && b[q] == x;
          LexLessIrreflexive(b[0].id);
          assert x in b;
          var p :| 0 <= p < |a| && a[p] == x;
          assert p != 0;
        }
      }
      SortedUnique(a[1..], b[1..]);
      assert a == [a[0]] + a[1..] && b == [b[0]] + b[1..];
    }
  }

  /** Adding two records with fresh, different ids gives the same container
      whichever is added first. */
  lemma InsertCommutes(s: seq<Script>, x: Script, y: Script)
    requires SortedById(s) && x.id != y.id
    requires forall z :: z in s ==> z.id != x.id && z.id != y.id
    ensures Insert(Insert(s, x), y) == Insert(Insert(s, y), x)
  {
    InsertAbsent(s, x);
    InsertAbsent(s, y);
    InsertAbsent(Insert(s, x), y);
    InsertAbsent(Insert(s, y), x);
    InsertSorted(s, x);
    InsertSorted(s, y);
    InsertSorted(Insert(s, x), y);
    InsertSorted(Insert(s, y), x);
    var a, b := Insert(Insert(s, x), y), Insert(Insert(s, y), x);
    assert forall z :: z in a <==> z in multiset(a);
    assert forall z :: z in b <==> z in multiset(b);
    SortedUnique(a, b);
  }
}
