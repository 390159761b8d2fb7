/**
 * What a successful add, update or delete does to the list it reads:
 * the properties the store's callers rely on, stated on values.
 */
module Outcomes {
  import opened Wrappers
  import opened StringOrder
  import opened Restaurants
  import opened SortBy

  /** A successful add: one more record, all old ones kept, sorted, and the new name found exactly once. */
  lemma AddNew(list: seq<Restaurant>, name: string, menu: Option<string>)
    requires name != "" && !HasName(list, name)
    ensures var added := SortByName(list + [Restaurant(name, menu)]);
      && |added| == |list| + 1
      && multiset(added) == multiset(list) + multiset{Restaurant(name, menu)}
      && SortedByName(added)
      && WithName(added, name) == [Restaurant(name, menu)]
      && HasName(added, name)
      && Find(added, name) == Some(Restaurant(name, menu))
      && (WellFormed(list) ==> WellFormed(added))
  {
    var entry := Restaurant(name, menu);
    var added := SortByName(list + [entry]);
    AddedNameOnce(list, entry);
    assert entry in WithName(added, name);
    FindIsFirstMatch(added, name);
    if WellFormed(list) {
      AddedWellFormed(list, entry);
    }
  }

  /** Pushing a record under a new name and sorting leaves exactly that record under the name. */
  lemma AddedNameOnce(list: seq<Restaurant>, entry: Restaurant)
    requires !HasName(list, entry.name)
    ensures WithName(SortByName(list + [entry]), entry.name) == [entry]
  {
    WithNameAppend(list, [entry], entry.name);
    WithNameAbsent(list, entry.name);
    assert WithName([entry], entry.name) == [entry] by {
      assert [entry][1..] == [];
    }
    SortByNameStable(list + [entry], entry.name);
  }

  /** Pushing a record under a new, non-empty name and sorting keeps the store's invariant. */
  lemma AddedWellFormed(list: seq<Restaurant>, entry: Restaurant)
    requires WellFormed(list) && entry.name != "" && !HasName(list, entry.name)
    ensures WellFormed(SortByName(list + [entry]))
  {
    var pushed := list + [entry];
    assert UniqueNames(pushed) by {
      forall i, j | 0 <= i < j < |pushed| ensures pushed[i].name != pushed[j].name {
        assert pushed[i] == list[i] && pushed[i] in list;
        if j < |list| {
          assert pushed[j] == list[j];
        }
      }
    }
    SortByNameUnique(pushed);
    SortByNameMembers(pushed);
  }

  /** `_.find` looks only at names, so two lists with the same names find the same index. */
  lemma {:induction false} FindIndexByNames(a: seq<Restaurant>, b: seq<Restaurant>, name: string)
    requires Names(a) == Names(b)
    ensures FindIndex(a, name) == FindIndex(b, name)
    decreases |a|
  {
    if a != [] {
      assert a[0].name == Names(a)[0] == Names(b)[0] == b[0].name;
      assert Names(a[1..]) == Names(b[1..]) by {
        forall i | 0 <= i < |a| - 1 ensures Names(a[1..])[i] == Names(b[1..])[i] {
          assert Names(a)[i + 1] == Names(b)[i + 1];
        }
      }
      FindIndexByNames(a[1..], b[1..], name);
    }
  }

  /** A successful update: the record found now has the new menu, and nothing else moved. */
  lemma UpdateExisting(list: seq<Restaurant>, name: string, menu: string)
    requires HasName(list, name)
    ensures var updated := WithMenu(list, FindIndex(list, name).value, menu);
      && Find(updated, name) == Some(Restaurant(name, Some(menu)))
      && Names(updated) == Names(list)
      && (WellFormed(list) ==> WellFormed(updated))
  {
    var k := FindIndex(list, name).value;
    var updated := WithMenu(list, k, menu);
    FindIndexByNames(updated, list, name);
    if WellFormed(list) {
      WithMenuWellFormed(list, k, menu);
    }
  }

  /** A successful delete: the name is gone, the invariant kept, and one record fewer when names are unique. */
  lemma DeleteExisting(list: seq<Restaurant>, name: string)
    requires HasName(list, name)
    ensures var rest := Remove(list, name);
      && Find(rest, name) == None
      && Subsequence(rest, list)
      && (UniqueNames(list) ==> |rest| == |list| - 1)
      && (WellFormed(list) ==> WellFormed(rest))
  {
    RemoveExisting(list, name);
    if WellFormed(list) {
      RemoveWellFormed(list, name);
    }
  }
}
