/**
 * The restaurant record and the pure operations the store performs on the
 * list it keeps: formatting an entry, projecting names, lodash's `_.find`
 * and `_.remove` with a `{name}` matcher, and the in-place menu update.
 */
module Restaurants {
  import opened Wrappers
  import opened StringOrder

  /** A stored record `{name, menu}`; `None` is a record created without a menu. */
  datatype Restaurant = Restaurant(name: string, menu: Option<string>)

  /** JavaScript truthiness of a string that may be missing: present and not "". */
  predicate Truthy(s: Option<string>)
  {
    s.Some? && s.value != ""
  }

  /** One line of a reply: the name, followed by ": " and the menu when the menu is truthy. */
  function Format(r: Restaurant): (entry: string)
    ensures |r.name| <= |entry| && entry[..|r.name|] == r.name
    ensures Truthy(r.menu) ==> entry[|r.name|..] == ": " + r.menu.value
    ensures !Truthy(r.menu) ==> entry == r.name
  {
    if Truthy(r.menu) then r.name + ": " + r.menu.value else r.name
  }

  /** The listing projection `_.map(list, restaurantName)`. */
  function Names(list: seq<Restaurant>): (names: seq<string>)
    ensures |names| == |list|
    ensures forall i :: 0 <= i < |list| ==> names[i] == list[i].name
  {
    if list == [] then [] else [list[0].name] + Names(list[1..])
  }

  ghost predicate SortedByName(list: seq<Restaurant>)
  {
    forall i, j :: 0 <= i < j < |list| ==> Le(list[i].name, list[j].name)
  }

  ghost predicate UniqueNames(list: seq<Restaurant>)
  {
    forall i, j :: 0 <= i < j < |list| ==> list[i].name != list[j].name
  }

  ghost predicate NamesNonEmpty(list: seq<Restaurant>)
  {
    forall r :: r in list ==> r.name != ""
  }

  /** The store's invariant: sorted by name, names unique and non-empty. */
  ghost predicate WellFormed(list: seq<Restaurant>)
  {
    SortedByName(list) && UniqueNames(list) && NamesNonEmpty(list)
  }

  ghost predicate HasName(list: seq<Restaurant>, name: string)
  {
    exists r :: r in list && r.name == name
  }

  /** Is `a` obtained from `b` by deleting elements, keeping the order of the rest? */
  ghost predicate Subsequence<T>(a: seq<T>, b: seq<T>)
    decreases |b|
  {
    a == [] || (b != [] && ((a[0] == b[0] && Subsequence(a[1..], b[1..])) || Subsequence(a, b[1..])))
  }

  /** The index of the first record named `name`, as `_.find(list, {name: name})` locates it. */
  function FindIndex(list: seq<Restaurant>, name: string): (k: Option<nat>)
    ensures k.None? <==> !HasName(list, name)
    ensures k.Some? ==> k.value < |list| && list[k.value].name == name
    ensures k.Some? ==> forall j :: 0 <= j < k.value ==> list[j].name != name
  {
    if list == [] then None
    else if list[0].name == name then Some(0)
    else
      match FindIndex(list[1..], name)
      case None =>
        assert forall r :: r in list ==> r == list[0] || r in list[1..];
        None
      case Some(k) => Some(k + 1)
  }

  /** `_.find(list, {name: name})`: the first record with exactly that name, if any. */
  function Find(list: seq<Restaurant>, name: string): (r: Option<Restaurant>)
    ensures r.None? <==> !HasName(list, name)
    ensures r.Some? ==> r.value.name == name
    ensures r.Some? ==> exists k :: 0 <= k < |list| && list[k] == r.value && forall j :: 0 <= j < k ==> list[j].name != name
  {
    match FindIndex(list, name)
    case None => None
    case Some(k) => Some(list[k])
  }

  /** The records named `name`, in list order. */
  function WithName(list: seq<Restaurant>, name: string): (matches: seq<Restaurant>)
    ensures forall r :: r in matches <==> r in list && r.name == name
    ensures |matches| <= |list|
  {
    if list == [] then []
    else
      assert forall r :: r in list <==> r == list[0] || r in list[1..];
      if list[0].name == name then [list[0]] + WithName(list[1..], name) else WithName(list[1..], name)
  }

  /** `_.remove(list, {name: name})`: every record named `name` dropped, the rest in order. */
  function Remove(list: seq<Restaurant>, name: string): (rest: seq<Restaurant>)
    ensures forall r :: r in rest <==> r in list && r.name != name
    ensures Subsequence(rest, list)
    ensures |rest| + |WithName(list, name)| == |list|
  {
    if list == [] then []
    else
      assert forall r :: r in list <==> r == list[0] || r in list[1..];
      if list[0].name == name then Remove(list[1..], name)
      else
        var tail := Remove(list[1..], name);
        assert ([list[0]] + tail)[1..] == tail;
        [list[0]] + tail
  }

  /** The assignment `r.menu = menu` to the record at index `k`. */
  function WithMenu(list: seq<Restaurant>, k: nat, menu: string): (updated: seq<Restaurant>)
    requires k < |list|
    ensures Names(updated) == Names(list)
    ensures updated[k] == Restaurant(list[k].name, Some(menu))
    ensures forall j :: 0 <= j < |list| && j != k ==> updated[j] == list[j]
  {
    list[k := Restaurant(list[k].name, Some(menu))]
  }

  /** Filtering by name distributes over concatenation. */
  lemma {:induction false} WithNameAppend(a: seq<Restaurant>, b: seq<Restaurant>, name: string)
    ensures WithName(a + b, name) == WithName(a, name) + WithName(b, name)
    decreases |a|
  {
    if a != [] {
      assert (a + b)[0] == a[0] && (a + b)[1..] == a[1..] + b;
      WithNameAppend(a[1..], b, name);
    } else {
      assert a + b == b;
    }
  }

  /** A name occurs in a list exactly when it is in the list's listing. */
  lemma HasNameInNames(list: seq<Restaurant>, name: string)
    ensures HasName(list, name) <==> name in Names(list)
  {
    var names := Names(list);
    if HasName(list, name) {
      var r :| r in list && r.name == name;
      var i :| 0 <= i < |list| && list[i] == r;
      assert names[i] == name;
    }
    if name in names {
      var i :| 0 <= i < |names| && names[i] == name;
      assert list[i] in list;
    }
  }

  /** No record carries a name that does not occur. */
  lemma {:induction false} WithNameAbsent(list: seq<Restaurant>, name: string)
    requires !HasName(list, name)
    ensures WithName(list, name) == []
    decreases |list|
  {
    if list != [] {
      assert list[0] in list;
      assert forall r :: r in list[1..] ==> r in list;
      WithNameAbsent(list[1..], name);
    }
  }

  /** `_.find` returns the first of the records carrying the name. */
  lemma {:induction false} FindIsFirstMatch(list: seq<Restaurant>, name: string)
    ensures Find(list, name) == if WithName(list, name) == [] then None else Some(WithName(list, name)[0])
    decreases |list|
  {
    if list != [] && list[0].name != name {
      FindIsFirstMatch(list[1..], name);
    }
  }

  /** With unique names, a name that occurs is carried by exactly one record. */
  lemma {:induction false} WithNameUnique(list: seq<Restaurant>, name: string)
    requires UniqueNames(list)
    ensures |WithName(list, name)| == if HasName(list, name) then 1 else 0
    decreases |list|
  {
    if list != [] {
      assert UniqueNames(list[1..]) by {
        forall i, j | 0 <= i < j < |list[1..]| ensures list[1..][i].name != list[1..][j].name {
          assert list[1..][i] == list[i + 1] && list[1..][j] == list[j + 1];
        }
      }
      WithNameUnique(list[1..], name);
      if list[0].name == name {
        assert !HasName(list[1..], name) by {
          forall r | r in list[1..] ensures r.name != name {
            var j :| 0 <= j < |list[1..]| && list[1..][j] == r;
            assert list[j + 1] == r;
          }
        }
      } else {
        assert HasName(list, name) ==> HasName(list[1..], name) by {
          assert forall r :: r in list ==> r == list[0] || r in list[1..];
        }
      }
    }
  }

  /** With unique names, looking up the name of a record finds that very record. */
  lemma FindIndexOfMember(list: seq<Restaurant>, i: nat)
    requires UniqueNames(list) && i < |list|
    ensures FindIndex(list, list[i].name) == Some(i)
  {
    assert list[i] in list;
  }

  /** `_.remove` keeps the store's invariant: a subsequence of a well-formed list is well-formed. */
  lemma {:induction false} RemoveWellFormed(list: seq<Restaurant>, name: string)
    requires WellFormed(list)
    ensures WellFormed(Remove(list, name))
    decreases |list|
  {
    if list != [] {
      var tail := list[1..];
      assert WellFormed(tail) by {
        forall i, j | 0 <= i < j < |tail|
          ensures Le(tail[i].name, tail[j].name) && tail[i].name != tail[j].name
        {
          assert tail[i] == list[i + 1] && tail[j] == list[j + 1];
        }
      }
      RemoveWellFormed(tail, name);
      if list[0].name != name {
        var rest := Remove(tail, name);
        var head := list[0];
        forall r | r in rest ensures Le(head.name, r.name) && head.name != r.name {
          var j :| 0 <= j < |tail| && tail[j] == r;
          assert list[j + 1] == r;
        }
        PrependKeepsWellFormed(head, rest);
      }
    }
  }

  /** A record that is named before every record of a well-formed list, and differently, may go in front. */
  lemma PrependKeepsWellFormed(head: Restaurant, list: seq<Restaurant>)
    requires WellFormed(list) && head.name != ""
    requires forall r :: r in list ==> Le(head.name, r.name) && head.name != r.name
    ensures WellFormed([head] + list)
  {
    var full := [head] + list;
    forall i, j | 0 <= i < j < |full|
      ensures Le(full[i].name, full[j].name) && full[i].name != full[j].name
    {
      if i == 0 {
        assert full[j] == list[j - 1] && full[j] in list;
      } else {
        assert full[i] == list[i - 1] && full[j] == list[j - 1];
      }
    }
  }

  /** Deleting a name that occurs: the name is gone, and with unique names exactly one record goes. */
  lemma RemoveExisting(list: seq<Restaurant>, name: string)
    requires HasName(list, name)
    ensures !HasName(Remove(list, name), name) && Find(Remove(list, name), name) == None
    ensures |Remove(list, name)| < |list|
    ensures UniqueNames(list) ==> |Remove(list, name)| == |list| - 1
  {
    if UniqueNames(list) {
      WithNameUnique(list, name);
    }
    var r :| r in list && r.name == name;
    assert r in WithName(list, name);
  }

  /** Changing a menu keeps the order, every name, and so the store's invariant. */
  lemma WithMenuWellFormed(list: seq<Restaurant>, k: nat, menu: string)
    requires k < |list| && WellFormed(list)
    ensures WellFormed(WithMenu(list, k, menu))
  {
    var updated := WithMenu(list, k, menu);
    forall i | 0 <= i < |list| ensures updated[i].name == list[i].name {
      assert Names(updated)[i] == Names(list)[i];
    }
    assert list[k] in list;
  }
}
