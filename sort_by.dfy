/**
 * lodash's `_.sortBy(list, 'name')`: a stable sort by name. It is modelled
 * as an insertion sort that puts each record in front of the first record
 * whose name is not smaller, so records with equal names keep their order.
 */
module SortBy {
  import opened StringOrder
  import opened Restaurants

  lemma SortedTail(list: seq<Restaurant>)
    requires list != [] && SortedByName(list)
    ensures SortedByName(list[1..])
  {
    var tail := list[1..];
    forall i, j | 0 <= i < j < |tail| ensures Le(tail[i].name, tail[j].name) {
      assert tail[i] == list[i + 1] && tail[j] == list[j + 1];
    }
  }

  lemma SortedPrepend(head: Restaurant, list: seq<Restaurant>)
    requires SortedByName(list)
    requires forall r :: r in list ==> Le(head.name, r.name)
    ensures SortedByName([head] + list)
  {
    var full := [head] + list;
    forall i, j | 0 <= i < j < |full| ensures Le(full[i].name, full[j].name) {
      if i == 0 {
        assert full[j] == list[j - 1] && full[j] in list;
      } else {
        assert full[i] == list[i - 1] && full[j] == list[j - 1];
      }
    }
  }

  /** A name no greater than the first of a sorted list is no greater than any of it. */
  lemma HeadBound(x: Restaurant, list: seq<Restaurant>)
    requires SortedByName(list) && (list == [] || Le(x.name, list[0].name))
    ensures forall r :: r in list ==> Le(x.name, r.name)
  {
    forall r | r in list ensures Le(x.name, r.name) {
      var j :| 0 <= j < |list| && list[j] == r;
      if j != 0 {
        LeTransitive(x.name, list[0].name, r.name);
      }
    }
  }

  /** Inserting `x` behind the first record, which is named before `x`. */
  lemma InsertBehindHead(x: Restaurant, list: seq<Restaurant>, rest: seq<Restaurant>)
    requires list != [] && SortedByName(list) && !Le(x.name, list[0].name)
    requires SortedByName(rest) && multiset(rest) == multiset(list[1..]) + multiset{x}
    ensures SortedByName([list[0]] + rest)
    ensures multiset([list[0]] + rest) == multiset(list) + multiset{x}
  {
    LeTotal(x.name, list[0].name);
    forall r | r in rest ensures Le(list[0].name, r.name) {
      assert r in multiset(rest);
      if r != x {
        assert r in list[1..];
        var j :| 0 <= j < |list[1..]| && list[1..][j] == r;
        assert list[j + 1] == r;
      }
    }
    SortedPrepend(list[0], rest);
    assert list == [list[0]] + list[1..];
  }

  /** Puts `x` in front of the first record of a sorted list whose name is not smaller. */
  function Insert(x: Restaurant, list: seq<Restaurant>): (r: seq<Restaurant>)
    requires SortedByName(list)
    ensures SortedByName(r)
    ensures multiset(r) == multiset(list) + multiset{x}
    ensures |r| == |list| + 1
    decreases |list|
  {
    if list == [] || Le(x.name, list[0].name) then
      HeadBound(x, list);
      SortedPrepend(x, list);
      [x] + list
    else
      SortedTail(list);
      var rest := Insert(x, list[1..]);
      InsertBehindHead(x, list, rest);
      [list[0]] + rest
  }

  /** `_.sortBy(list, 'name')`: the same records, sorted by name. */
  function SortByName(list: seq<Restaurant>): (sorted: seq<Restaurant>)
    ensures SortedByName(sorted)
    ensures multiset(sorted) == multiset(list)
    ensures |sorted| == |list|
    decreases |list|
  {
    if list == [] then []
    else
      assert list == [list[0]] + list[1..];
      Insert(list[0], SortByName(list[1..]))
  }

  /** The records a permutation holds are the records of its input. */
  lemma SortByNameMembers(list: seq<Restaurant>)
    ensures forall r :: r in SortByName(list) <==> r in list
  {
    var sorted := SortByName(list);
    forall r ensures r in sorted <==> r in list {
      assert r in sorted <==> r in multiset(sorted);
      assert r in list <==> r in multiset(list);
    }
  }

  lemma {:induction false} InsertWithName(x: Restaurant, list: seq<Restaurant>, name: string)
    requires SortedByName(list)
    ensures WithName(Insert(x, list), name) == (if x.name == name then [x] else []) + WithName(list, name)
    decreases |list|
  {
    if list == [] || Le(x.name, list[0].name) {
      assert ([x] + list)[1..] == list;
    } else {
      SortedTail(list);
      LeReflexive(x.name);
      var rest := Insert(x, list[1..]);
      InsertWithName(x, list[1..], name);
      assert ([list[0]] + rest)[1..] == rest;
    }
  }

  /** Stability: the records sharing a name come out in the order they went in. */
  lemma {:induction false} SortByNameStable(list: seq<Restaurant>, name: string)
    ensures WithName(SortByName(list), name) == WithName(list, name)
    decreases |list|
  {
    if list != [] {
      SortByNameStable(list[1..], name);
      InsertWithName(list[0], SortByName(list[1..]), name);
    }
  }

  /** Sorting a list that is already sorted changes nothing. */
  lemma {:induction false} SortByNameOfSorted(list: seq<Restaurant>)
    requires SortedByName(list)
    ensures SortByName(list) == list
    decreases |list|
  {
    if list != [] {
      SortedTail(list);
      SortByNameOfSorted(list[1..]);
      assert list == [list[0]] + list[1..];
    }
  }

  /** Inserting a record under a new name into a sorted list with unique names keeps the names unique. */
  lemma {:induction false} InsertUnique(x: Restaurant, list: seq<Restaurant>)
    requires SortedByName(list) && UniqueNames(list) && !HasName(list, x.name)
    ensures UniqueNames(Insert(x, list))
    decreases |list|
  {
    var r := Insert(x, list);
    if list == [] || Le(x.name, list[0].name) {
      forall i, j | 0 <= i < j < |r| ensures r[i].name != r[j].name {
        if i == 0 {
          assert r[j] == list[j - 1] && r[j] in list;
        } else {
          assert r[i] == list[i - 1] && r[j] == list[j - 1];
        }
      }
    } else {
      var tail := list[1..];
      SortedTail(list);
      assert UniqueNames(tail) by {
        forall i, j | 0 <= i < j < |tail| ensures tail[i].name != tail[j].name {
          assert tail[i] == list[i + 1] && tail[j] == list[j + 1];
        }
      }
      assert !HasName(tail, x.name) by {
        forall y | y in tail ensures y.name != x.name {
          assert y in list;
        }
      }
      InsertUnique(x, tail);
      var rest := Insert(x, tail);
      assert list[0] in list;
      forall i, j | 0 <= i < j < |r| ensures r[i].name != r[j].name {
        if i == 0 {
          assert r[j] == rest[j - 1] && r[j] in multiset(rest);
          if r[j] != x {
            var k :| 0 <= k < |tail| && tail[k] == r[j];
            assert list[k + 1] == r[j];
          }
        } else {
          assert r[i] == rest[i - 1] && r[j] == rest[j - 1];
        }
      }
    }
  }

  /** Sorting a list with unique names keeps them unique. */
  lemma {:induction false} SortByNameUnique(list: seq<Restaurant>)
    requires UniqueNames(list)
    ensures UniqueNames(SortByName(list))
    decreases |list|
  {
    if list != [] {
      var tail := list[1..];
      assert UniqueNames(tail) by {
        forall i, j | 0 <= i < j < |tail| ensures tail[i].name != tail[j].name {
          assert tail[i] == list[i + 1] && tail[j] == list[j + 1];
        }
      }
      SortByNameUnique(tail);
      SortByNameMembers(tail);
      assert !HasName(SortByName(tail), list[0].name) by {
        forall y | y in SortByName(tail) ensures y.name != list[0].name {
          var k :| 0 <= k < |tail| && tail[k] == y;
          assert list[k + 1] == y;
        }
      }
      InsertUnique(list[0], SortByName(tail));
    }
  }
}
