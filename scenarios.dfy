/**
 * Conversations with a bot over a fresh brain, checked against the
 * contracts of the store alone.
 */
module Scenarios {
  import opened Wrappers
  import opened Restaurants
  import opened Seeding
  import opened Outcomes
  import opened Store

  /** `restaurant list` on an empty brain: the eight defaults in name order. */
  method FreshListing() returns (names: seq<string>)
    ensures names == DefaultNames
    ensures names[0] == "Dibella's" && names[|names| - 1] == "Towpath Cafe"
  {
    var brain := new Brain(map[]);
    var bot := new RestaurantBot(brain);
    DefaultsListing(None);
    names := bot.ListRestaurants();
  }

  /** Adding a new name to a fresh store, then asking for it, finds the record as added. */
  method AddThenFind(name: string, menu: Option<string>) returns (added: bool, found: Option<Restaurant>)
    requires name != "" && name !in DefaultNames
    ensures added
    ensures found == Some(Restaurant(name, menu))
  {
    var brain := new Brain(map[]);
    var bot := new RestaurantBot(brain);
    DefaultsHaveName(name);
    added := bot.AddRestaurant(name, menu);
    AddNew(Defaults, name, menu);
    found := bot.GetRestaurant(name);
  }

  /** Adding a name a second time fails and leaves the brain as it was. */
  method AddTwice(name: string, menu: Option<string>, other: Option<string>)
    returns (first: bool, second: bool, untouched: bool)
    requires name != "" && name !in DefaultNames
    ensures first && !second && untouched
  {
    var brain := new Brain(map[]);
    var bot := new RestaurantBot(brain);
    DefaultsHaveName(name);
    first := bot.AddRestaurant(name, menu);
    AddNew(Defaults, name, menu);
    var before := brain.data;
    second := bot.AddRestaurant(name, other);
    untouched := brain.data == before;
  }

  /** Updating a name that is not in the list fails and leaves the brain as it was. */
  method UpdateMissing(name: string, menu: string) returns (ok: bool, untouched: bool)
    requires name !in DefaultNames
    ensures !ok && untouched
  {
    var brain := new Brain(map[StorageKey := Defaults]);
    var bot := new RestaurantBot(brain);
    DefaultsHaveName(name);
    var before := brain.data;
    ok := bot.UpdateRestaurant(name, Some(menu));
    untouched := brain.data == before;
  }

  /** Updating a default restaurant's menu: the new menu is found under its name. */
  method UpdateThenFind(name: string, menu: string) returns (ok: bool, found: Option<Restaurant>)
    requires name in DefaultNames && menu != ""
    ensures ok && found == Some(Restaurant(name, Some(menu)))
  {
    var brain := new Brain(map[]);
    var bot := new RestaurantBot(brain);
    DefaultsHaveName(name);
    ok := bot.UpdateRestaurant(name, Some(menu));
    UpdateExisting(Defaults, name, menu);
    found := bot.GetRestaurant(name);
  }

  /** Deleting a default restaurant: it is gone from the listing, which keeps seven names. */
  method DeleteFromDefaults(name: string) returns (ok: bool, names: seq<string>)
    requires name in DefaultNames
    ensures ok && |names| == 7 && name !in names
  {
    var brain := new Brain(map[]);
    var bot := new RestaurantBot(brain);
    DefaultsHaveName(name);
    DefaultsWellFormed();
    ok := bot.DeleteRestaurant(name);
    DeleteExisting(Defaults, name);
    names := bot.ListRestaurants();
    HasNameInNames(Remove(Defaults, name), name);
  }

  /**
   * Deleting the only stored record leaves an empty list in the brain; the
   * next read reseeds it, so a deleted default name is found again.
   */
  method DeleteLastReseeds(name: string) returns (ok: bool, emptied: bool, found: Option<Restaurant>)
    requires name in DefaultNames
    ensures ok && emptied
    ensures found.Some? && found == Find(Defaults, name)
  {
    var brain := new Brain(map[StorageKey := [Restaurant(name, None)]]);
    var bot := new RestaurantBot(brain);
    assert Restaurant(name, None) in [Restaurant(name, None)];
    ok := bot.DeleteRestaurant(name);
    var rest := Remove([Restaurant(name, None)], name);
    assert |WithName([Restaurant(name, None)], name)| == 1 by {
      assert [Restaurant(name, None)][1..] == [];
    }
    emptied := StorageKey in brain.data && brain.data[StorageKey] == [];
    DefaultsHaveName(name);
    found := bot.GetRestaurant(name);
  }
}
