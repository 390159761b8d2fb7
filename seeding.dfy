/**
 * The built-in restaurant list and the lazy seeding of `getRestaurants`:
 * a stored list that is missing or empty reads as the defaults.
 */
module Seeding {
  import opened Wrappers
  import opened StringOrder
  import opened Restaurants
  import opened SortBy

  /**
   * `defaultRestaurants`. index.js passes this literal list through
   * `_.sortBy(..., 'name')`; it is already in name order, so the sorted
   * list is the literal itself (DefaultsAsWritten).
   */
  const Defaults: seq<Restaurant> := [
    Restaurant("Dibella's", Some("http://www.dibellas.com/menu#submarines")),
    Restaurant("Donnelly's", Some("http://www.donnellysph.com/")),
    Restaurant("Mac's Philly Steaks", Some("http://www.macsphillysteaks.com/menu/")),
    Restaurant("Mesa Grande", Some("http://mesagrandetaqueria.com/menus-fairport/")),
    Restaurant("Mulconry's", Some("http://mulconrys.com/main-menu/2586196")),
    Restaurant("Papa C's", Some("http://papacsfairport.com/menu.php")),
    Restaurant("Salvatores", Some("http://www.salvatores.com/#!pizza/ywcnj")),
    Restaurant("Towpath Cafe", Some("http://towpathcafe.com/menu"))
  ]

  const DefaultNames: seq<string> := [
    "Dibella's", "Donnelly's", "Mac's Philly Steaks", "Mesa Grande",
    "Mulconry's", "Papa C's", "Salvatores", "Towpath Cafe"
  ]

  /** The `!result || !result.length` test of `getRestaurants`. */
  predicate NeedsSeed(stored: Option<seq<Restaurant>>)
  {
    stored.None? || |stored.value| == 0
  }

  /** The list `getRestaurants` returns for what is stored. */
  function Seeded(stored: Option<seq<Restaurant>>): (list: seq<Restaurant>)
    ensures list != []
    ensures NeedsSeed(stored) ==> list == Defaults
    ensures !NeedsSeed(stored) ==> list == stored.value
  {
    if NeedsSeed(stored) then Defaults else stored.value
  }

  /** Consecutive names strictly increasing: the whole list sorted with distinct names. */
  lemma {:induction false} StrictlyIncreasing(list: seq<Restaurant>)
    requires forall i :: 0 < i < |list| ==> Le(list[i - 1].name, list[i].name) && list[i - 1].name != list[i].name
    ensures SortedByName(list) && UniqueNames(list)
    decreases |list|
  {
    if list != [] {
      var tail := list[1..];
      forall i | 0 < i < |tail|
        ensures Le(tail[i - 1].name, tail[i].name) && tail[i - 1].name != tail[i].name
      {
        assert tail[i - 1] == list[i] && tail[i] == list[i + 1];
      }
      StrictlyIncreasing(tail);
      forall j | 0 < j < |list| ensures Le(list[0].name, list[j].name) && list[0].name != list[j].name {
        if j > 1 {
          assert tail[0] == list[1] && tail[j - 1] == list[j];
          LeTransitive(list[0].name, list[1].name, list[j].name);
          if list[0].name == list[j].name {
            LeAntisymmetric(list[0].name, list[1].name);
          }
        }
      }
      forall i, j | 0 <= i < j < |list|
        ensures Le(list[i].name, list[j].name) && list[i].name != list[j].name
      {
        if i > 0 {
          assert tail[i - 1] == list[i] && tail[j - 1] == list[j];
        }
      }
    }
  }

  /** Each default name is smaller than the next one. */
  lemma DefaultsIncreasing()
    ensures forall i :: 0 < i < |Defaults| ==>
      Le(Defaults[i - 1].name, Defaults[i].name) && Defaults[i - 1].name != Defaults[i].name
  {
    var e := Defaults;
    forall i | 0 < i < |e| ensures Le(e[i - 1].name, e[i].name) && e[i - 1].name != e[i].name {
      if i == 1 || i == 3 || i == 4 {
        LeAtFirstDifference(e[i - 1].name, e[i].name, 1);
      } else {
        LeAtFirstDifference(e[i - 1].name, e[i].name, 0);
      }
    }
  }

  /** The literal list is already in name order, so sorting leaves it as written. */
  lemma DefaultsAsWritten()
    ensures SortByName(Defaults) == Defaults && |Defaults| == 8
  {
    DefaultsIncreasing();
    StrictlyIncreasing(Defaults);
    SortByNameOfSorted(Defaults);
  }

  /** The defaults satisfy the store's invariant. */
  lemma DefaultsWellFormed()
    ensures WellFormed(Defaults)
  {
    DefaultsIncreasing();
    StrictlyIncreasing(Defaults);
    assert NamesNonEmpty(Defaults);
  }

  /** A name is among the defaults exactly when it is one of the eight default names. */
  lemma DefaultsHaveName(name: string)
    ensures HasName(Defaults, name) <==> name in DefaultNames
  {
    DefaultEntryNames();
    HasNameInNames(Defaults, name);
  }

  lemma DefaultEntryNames()
    ensures Names(Defaults) == DefaultNames
  {
    var names := Names(Defaults);
    forall i | 0 <= i < |names| ensures names[i] == DefaultNames[i] {
      assert names[i] == Defaults[i].name;
    }
  }

  /** A fresh store lists the eight default names, from "Dibella's" to "Towpath Cafe". */
  lemma DefaultsListing(stored: Option<seq<Restaurant>>)
    requires NeedsSeed(stored)
    ensures Names(Seeded(stored)) == DefaultNames
    ensures DefaultNames[0] == "Dibella's" && DefaultNames[7] == "Towpath Cafe"
  {
    DefaultEntryNames();
  }

  /** Seeding happens once: the list it writes reads back as itself and needs no further seeding. */
  lemma SeedIdempotent(stored: Option<seq<Restaurant>>)
    ensures !NeedsSeed(Some(Seeded(stored)))
    ensures Seeded(Some(Seeded(stored))) == Seeded(stored)
  {
  }

  /** A stored list that is well-formed, or missing, reads as a well-formed list. */
  lemma SeededWellFormed(stored: Option<seq<Restaurant>>)
    requires stored.None? || WellFormed(stored.value)
    ensures WellFormed(Seeded(stored))
  {
    DefaultsWellFormed();
  }
}
