/**
 * The restaurant store: the bot reads and writes its whole list under one
 * key of the robot's brain, a key-value store shared with other scripts.
 */
module Store {
  import opened Wrappers
  import opened Restaurants
  import opened SortBy
  import opened Seeding
  import opened Outcomes

  /** The one key the store uses. */
  const StorageKey: string := "restaurantBot.list"

  function Lookup(data: map<string, seq<Restaurant>>, key: string): (value: Option<seq<Restaurant>>)
    ensures value.Some? <==> key in data
    ensures value.Some? ==> value.value == data[key]
  {
    if key in data then Some(data[key]) else None
  }

  lemma UpdateLeavesOthers<K, V>(m: map<K, V>, key: K, value: V)
    ensures m[key := value] - {key} == m - {key}
  {
  }

  /** The host's persistent key-value store, reduced to `get` and `set`. */
  class Brain {
    var data: map<string, seq<Restaurant>>

    constructor (data: map<string, seq<Restaurant>>)
      ensures this.data == data
    {
      this.data := data;
    }

    /** `robot.brain.get(key)`: the stored value, or nothing. */
    method Get(key: string) returns (value: Option<seq<Restaurant>>)
      ensures value.Some? <==> key in data
      ensures value.Some? ==> value.value == data[key]
    {
      value := Lookup(data, key);
    }

    /** `robot.brain.set(key, value)`: replaces that key only. */
    method Set(key: string, value: seq<Restaurant>)
      modifies this
      ensures data == old(data)[key := value]
      ensures data - {key} == old(data) - {key}
    {
      UpdateLeavesOthers(data, key, value);
      data := data[key := value];
    }
  }

  /** The draw `Math.floor(u * n)` for a number `u` in [0, 1) returned by `Math.random()`. */
  function PickIndex(u: real, n: nat): (k: nat)
    requires 0.0 <= u < 1.0 && 0 < n
    ensures k < n
    ensures k as real <= u * n as real < k as real + 1.0
  {
    assert 0.0 <= u * n as real < n as real by {
      assert u * n as real < 1.0 * n as real;
    }
    (u * n as real).Floor
  }

  class RestaurantBot {
    const brain: Brain

    constructor (brain: Brain)
      ensures this.brain == brain
    {
      this.brain := brain;
    }

    /** What is stored under the store's key. */
    function Stored(): Option<seq<Restaurant>>
      reads brain
    {
      Lookup(brain.data, StorageKey)
    }

    /** Everything else in the brain, which the store never touches. */
    function Others(): map<string, seq<Restaurant>>
      reads brain
    {
      brain.data - {StorageKey}
    }

    /** The store's invariant holds of what is stored (a missing list reads as the defaults). */
    ghost predicate Valid()
      reads brain
    {
      Stored().None? || WellFormed(Stored().value)
    }

    /** `getRestaurants`: the stored list, after writing the defaults if it is missing or empty. */
    method GetRestaurants() returns (list: seq<Restaurant>)
      modifies brain
      ensures list == Seeded(old(Stored()))
      ensures Stored() == Some(list)
      ensures !NeedsSeed(old(Stored())) ==> brain.data == old(brain.data)
      ensures Others() == old(Others())
      ensures old(Valid()) ==> Valid()
    {
      var result := brain.Get(StorageKey);
      if NeedsSeed(result) {
        brain.Set(StorageKey, Defaults);
        list := Defaults;
        DefaultsWellFormed();
      } else {
        list := result.value;
      }
    }

    /** `getRestaurant`: the first record with exactly this name, after seeding. */
    method GetRestaurant(name: string) returns (r: Option<Restaurant>)
      modifies brain
      ensures r == Find(Seeded(old(Stored())), name)
      ensures Stored() == Some(Seeded(old(Stored())))
      ensures !NeedsSeed(old(Stored())) ==> brain.data == old(brain.data)
      ensures Others() == old(Others())
      ensures old(Valid()) ==> Valid()
    {
      var list := GetRestaurants();
      r := Find(list, name);
    }

    /** The `restaurant list` reply: the names in stored order. */
    method ListRestaurants() returns (names: seq<string>)
      modifies brain
      ensures names == Names(Seeded(old(Stored())))
      ensures Stored() == Some(Seeded(old(Stored())))
      ensures Others() == old(Others())
      ensures old(Valid()) ==> Valid()
    {
      var list := GetRestaurants();
      names := Names(list);
    }

    /** The `restaurant random` pick, for the number `u` that `Math.random()` drew. */
    method RandomRestaurant(u: real) returns (r: Restaurant)
      requires 0.0 <= u < 1.0
      modifies brain
      ensures r in Seeded(old(Stored()))
      ensures r == Seeded(old(Stored()))[PickIndex(u, |Seeded(old(Stored()))|)]
      ensures Stored() == Some(Seeded(old(Stored())))
      ensures Others() == old(Others())
      ensures old(Valid()) ==> Valid()
    {
      var list := GetRestaurants();
      r := list[PickIndex(u, |list|)];
    }

    /**
     * `addRestaurant`: refuses an empty name without reading the store, and a
     * name already present; otherwise pushes the record and stores the list
     * sorted by name.
     */
    method AddRestaurant(name: string, menu: Option<string>) returns (ok: bool)
      modifies brain
      ensures ok <==> name != "" && !HasName(Seeded(old(Stored())), name)
      ensures name == "" ==> brain.data == old(brain.data)
      ensures name != "" && !ok ==> Stored() == Some(Seeded(old(Stored())))
      ensures !ok && !NeedsSeed(old(Stored())) ==> brain.data == old(brain.data)
      ensures ok ==> Stored() == Some(SortByName(Seeded(old(Stored())) + [Restaurant(name, menu)]))
      ensures Others() == old(Others())
      ensures old(Valid()) ==> Valid()
    {
      ok := false;
      if name != "" {
        ghost var before := Stored();
        var restaurants := GetRestaurants();
        assert restaurants == Seeded(before) && Seeded(Some(restaurants)) == restaurants;
        var existing := GetRestaurant(name);
        assert existing == Find(restaurants, name);
        if existing.None? {
          restaurants := restaurants + [Restaurant(name, menu)];
          brain.Set(StorageKey, SortByName(restaurants));
          ok := true;
          if before.None? || WellFormed(before.value) {
            SeededWellFormed(before);
            AddNew(Seeded(before), name, menu);
          }
        }
      }
    }

    /**
     * `updateRestaurant`: needs a name and a truthy menu; sets the menu of
     * the first record with that name and stores the list as it is.
     */
    method UpdateRestaurant(name: string, menu: Option<string>) returns (ok: bool)
      modifies brain
      ensures ok <==> name != "" && Truthy(menu) && HasName(Seeded(old(Stored())), name)
      ensures !(name != "" && Truthy(menu)) ==> brain.data == old(brain.data)
      ensures name != "" && Truthy(menu) && !ok ==> Stored() == Some(Seeded(old(Stored())))
      ensures !ok && !NeedsSeed(old(Stored())) ==> brain.data == old(brain.data)
      ensures ok ==> Stored() == Some(WithMenu(Seeded(old(Stored())), FindIndex(Seeded(old(Stored())), name).value, menu.value))
      ensures Others() == old(Others())
      ensures old(Valid()) ==> Valid()
    {
      ok := false;
      if name != "" && Truthy(menu) {
        ghost var before := Stored();
        var restaurants := GetRestaurants();
        var k := FindIndex(restaurants, name);
        if k.Some? {
          restaurants := WithMenu(restaurants, k.value, menu.value);
          brain.Set(StorageKey, restaurants);
          ok := true;
          if before.None? || WellFormed(before.value) {
            SeededWellFormed(before);
            UpdateExisting(Seeded(before), name, menu.value);
          }
        }
      }
    }

    /**
     * `deleteRestaurant`: needs a name that is present; removes every record
     * with that name and stores what is left, in order.
     */
    method DeleteRestaurant(name: string) returns (ok: bool)
      modifies brain
      ensures ok <==> name != "" && HasName(Seeded(old(Stored())), name)
      ensures name == "" ==> brain.data == old(brain.data)
      ensures name != "" && !ok ==> Stored() == Some(Seeded(old(Stored())))
      ensures !ok && !NeedsSeed(old(Stored())) ==> brain.data == old(brain.data)
      ensures ok ==> Stored() == Some(Remove(Seeded(old(Stored())), name))
      ensures Others() == old(Others())
      ensures old(Valid()) ==> Valid()
    {
      ok := false;
      if name != "" {
        ghost var before := Stored();
        var restaurants := GetRestaurants();
        var r := Find(restaurants, name);
        if r.Some? {
          restaurants := Remove(restaurants, name);
          brain.Set(StorageKey, restaurants);
          ok := true;
          if before.None? || WellFormed(before.value) {
            SeededWellFormed(before);
            DeleteExisting(Seeded(before), name);
          }
        }
      }
    }
  }
}
