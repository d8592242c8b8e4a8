/** Lists of ids that the organization table stores as JSON arrays but treats
    as sets: the `list(set(...))` de-duplication, the append-if-absent union
    and the remove-if-present difference. Only element sets and the absence of
    duplicates are promised; the order `list(set(...))` produces is left open
    in the source, and the order chosen here is one admissible order. */
module IdLists {

  /** The elements of a list, as a set. */
  function Elems<T>(s: seq<T>): set<T> {
    set x | x in s
  }

  predicate NoDup<T(==)>(s: seq<T>) {
    forall i, j :: 0 <= i < j < |s| ==> s[i] != s[j]
  }

  lemma ElemsCons<T>(x: T, s: seq<T>)
    ensures Elems([x] + s) == {x} + Elems(s)
  {
    assert forall y :: y in [x] + s <==> y == x || y in s;
  }

  lemma ElemsSnoc<T>(s: seq<T>, x: T)
    ensures Elems(s + [x]) == Elems(s) + {x}
  {
    assert forall y :: y in s + [x] <==> y in s || y == x;
  }

  lemma NoDupCons<T>(x: T, s: seq<T>)
    ensures NoDup(s) && x !in s ==> NoDup([x] + s)
  {
    if NoDup(s) && x !in s {
      var t := [x] + s;
      forall i, j | 0 <= i < j < |t|
        ensures t[i] != t[j]
      {
        if i == 0 {
          assert t[j] == s[j - 1];
        } else {
          assert t[i] == s[i - 1] && t[j] == s[j - 1];
        }
      }
    }
  }

  lemma NoDupSnoc<T>(s: seq<T>, x: T)
    ensures NoDup(s) && x !in s ==> NoDup(s + [x])
  {
    if NoDup(s) && x !in s {
      var t := s + [x];
      forall i, j | 0 <= i < j < |t|
        ensures t[i] != t[j]
      {
        if j == |s| {
          assert t[i] == s[i];
        } else {
          assert t[i] == s[i] && t[j] == s[j];
        }
      }
    }
  }

  /** Dropping the head of a duplicate-free list keeps it duplicate-free, and
      the head does not occur again. */
  lemma NoDupUncons<T>(s: seq<T>)
    requires s != []
    ensures NoDup(s) ==> NoDup(s[1..]) && s[0] !in s[1..]
  {
    if NoDup(s) {
      forall i, j | 0 <= i < j < |s[1..]| ensures s[1..][i] != s[1..][j] {
        assert s[1..][i] == s[i + 1] && s[1..][j] == s[j + 1];
      }
      forall j | 0 <= j < |s[1..]| ensures s[1..][j] != s[0] {
        assert s[1..][j] == s[j + 1];
      }
    }
  }

  /** The append loop of `add_users_to_organization`: every id not yet present
      is appended, so duplicates inside `ids` collapse too. The existing list
      stays in front, unchanged. */
  function AddAll<T(==)>(cur: seq<T>, ids: seq<T>): (r: seq<T>)
    ensures Elems(r) == Elems(cur) + Elems(ids)
    ensures NoDup(cur) ==> NoDup(r)
    ensures |cur| <= |r| && r[..|cur|] == cur
    decreases |ids|
  {
    if ids == [] then cur
    else
      var x := ids[0];
      var next := if x in cur then cur else cur + [x];
      ElemsSnoc(cur, x);
      ElemsCons(x, ids[1..]);
      assert ids == [x] + ids[1..];
      NoDupSnoc(cur, x);
      var r := AddAll(next, ids[1..]);
      assert r[..|cur|] == next[..|next|][..|cur|];
      r
  }

  /** `list(set(s))`: the same elements, each once. */
  function Dedupe<T(==)>(s: seq<T>): (r: seq<T>)
    ensures NoDup(r)
    ensures Elems(r) == Elems(s)
  {
    AddAll([], s)
  }

  /** Python's `list.remove(x)`: drops the first occurrence of `x`. */
  function RemoveFirst<T(==)>(s: seq<T>, x: T): (r: seq<T>)
    ensures Elems(r) <= Elems(s)
    ensures Elems(s) - {x} <= Elems(r)
    ensures NoDup(s) ==> NoDup(r) && Elems(r) == Elems(s) - {x}
  {
    if s == [] then []
    else
      assert s == [s[0]] + s[1..];
      ElemsCons(s[0], s[1..]);
      if s[0] == x then s[1..]
      else
        var t := RemoveFirst(s[1..], x);
        ElemsCons(s[0], t);
        NoDupUncons(s);
        NoDupCons(s[0], t);
        [s[0]] + t
  }

  /** The removal loop of `remove_users_from_organization`: each id present
      is removed once, ids absent are skipped. */
  function RemoveAll<T(==)>(cur: seq<T>, ids: seq<T>): (r: seq<T>)
    ensures Elems(r) <= Elems(cur)
    ensures NoDup(cur) ==> NoDup(r) && Elems(r) == Elems(cur) - Elems(ids)
    decreases |ids|
  {
    if ids == [] then cur
    else
      var x := ids[0];
      assert ids == [x] + ids[1..];
      ElemsCons(x, ids[1..]);
      var next := if x in cur then RemoveFirst(cur, x) else cur;
      var r := RemoveAll(next, ids[1..]);
      assert NoDup(cur) ==> Elems(next) == Elems(cur) - {x};
      r
  }

  /** Appending ids that are all new and distinct is plain concatenation. */
  lemma {:induction false} AddAllFresh<T>(cur: seq<T>, ids: seq<T>)
    requires NoDup(cur + ids)
    ensures AddAll(cur, ids) == cur + ids
    decreases |ids|
  {
    if ids != [] {
      var x := ids[0];
      forall i | 0 <= i < |cur| ensures cur[i] != x {
        assert (cur + ids)[i] == cur[i] && (cur + ids)[|cur|] == x;
      }
      assert cur + [x] + ids[1..] == cur + ids;
      AddAllFresh(cur + [x], ids[1..]);
    }
  }

  /** Adding ids that are all present already changes nothing. */
  lemma {:induction false} AddAllPresent<T>(cur: seq<T>, ids: seq<T>)
    requires Elems(ids) <= Elems(cur)
    ensures AddAll(cur, ids) == cur
    decreases |ids|
  {
    if ids != [] {
      assert ids[0] in Elems(ids);
      assert Elems(ids[1..]) <= Elems(ids) by {
        forall y | y in Elems(ids[1..]) ensures y in Elems(ids) {
          var j :| 0 <= j < |ids[1..]| && ids[1..][j] == y;
          assert ids[j + 1] == y;
        }
      }
      AddAllPresent(cur, ids[1..]);
    }
  }

  /** A list without duplicates has as many elements as its element set. */
  lemma {:induction false} NoDupCard<T>(s: seq<T>)
    requires NoDup(s)
    ensures |Elems(s)| == |s|
  {
    if s != [] {
      NoDupUncons(s);
      NoDupCard(s[1..]);
      assert s == [s[0]] + s[1..];
      ElemsCons(s[0], s[1..]);
    }
  }

  /** De-duplicating a list without duplicates keeps its elements and its
      length: the result is a reordering of the list. */
  lemma DedupeNoDup<T>(s: seq<T>)
    requires NoDup(s)
    ensures Elems(Dedupe(s)) == Elems(s)
    ensures |Dedupe(s)| == |s|
  {
    NoDupCard(s);
    NoDupCard(Dedupe(s));
  }
}
