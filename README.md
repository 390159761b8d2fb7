# Restaurant store of hubot-restaurants, modelled in Dafny

The chat bot keeps one list of restaurant records `{name, menu}` in the
robot's brain, under the key `restaurantBot.list`. On every read it seeds
the brain with eight built-in restaurants if the stored list is missing or
empty. Three operations change the list, and each reports success as a
boolean:

- add pushes a record with a new, non-empty name and stores the list sorted by name;
- update sets the menu of the first record with the name;
- delete removes every record with the name.

The bot also answers a lookup by exact name, lists the names, formats an
entry, and picks a random entry.

The model has these modules:

- `Wrappers`: the `Option` type.
- `StringOrder`: JavaScript's order on strings, which lodash's `sortBy` uses, with its total-order lemmas.
- `Restaurants`: the record, `formatRestaurant`, the name projection, `_.find` and `_.remove` with a `{name}` matcher, the menu assignment, and the store's invariant `WellFormed` (sorted by name, names unique and non-empty).
- `SortBy`: `_.sortBy(list, 'name')` as a stable insertion sort. It is proved sorted, a permutation of its input, stable, and the identity on sorted input.
- `Seeding`: the default list and the seeding test of `getRestaurants`.
- `Outcomes`: what a successful add, update or delete does to the list, stated on values.
- `Store`: the brain (class `Brain`, a map from keys to lists, with get and set) and the bot (class `RestaurantBot`). The bot's methods read and write the brain, and their `ensures` clauses state the new brain against `old(...)`.
- `Scenarios`: short conversations with a bot, proved from the store's contracts alone. Most start from an empty brain. UpdateMissing starts from a brain that already holds the defaults, because on an empty brain the failed update would seed it. DeleteLastReseeds starts from a brain holding one record.

JavaScript truthiness is written out. A name is falsy when it is `""`. A
menu is an `Option<string>`, and it is truthy when it is `Some(m)` with
`m != ""`.

Four behaviours of the code matter for the model:

- The code runs the `if (name)` guard (and, for update, the `menu` guard) before it reads the store. A call with an empty name therefore writes nothing, not even the defaults. A call that fails after the guard still seeds an empty store.
- Delete removes all records with the name, not just the first one. With unique names that is exactly one record.
- A failed operation can still change the brain, by seeding it.
- A delete that removes the last stored record writes an empty list. The next read reseeds the defaults, so a deleted name that is one of the defaults is found again (Scenarios.DeleteLastReseeds). "Not found after delete" therefore holds of the list written back, not of every later read.

## Model

| member | source | states |
|---|---|---|
| Restaurants.Format | index.js:45-51 | the entry begins with the name; it is followed by ": " and the menu exactly when the menu is truthy, and is the bare name otherwise |
| Restaurants.Names | index.js:53-55 | the listing has one name per record, each the name of the record at the same position |
| Restaurants.FindIndex | index.js:90-91 | the index of the FIRST record carrying the name, and none exactly when no record carries it |
| Restaurants.Find | index.js:70-72 | `_.find` returns a record with exactly that name, which no earlier record has, and returns nothing exactly when the name is absent |
| Restaurants.FindIsFirstMatch | index.js:71 | the record found is the first of the records sharing the name |
| Restaurants.FindIndexOfMember | index.js:90 | with unique names, looking up a record's name finds that record's index |
| Restaurants.HasNameInNames | index.js:114 | a name occurs in the list exactly when it appears in the listing |
| Restaurants.Remove | index.js:105 | `_.remove` keeps exactly the records with other names, in their original order (a subsequence), dropping as many records as carry the name |
| Restaurants.WithNameAbsent | index.js:103-105 | an absent name is carried by no record |
| Restaurants.WithNameAppend | index.js:79 | the records with a name in a list extended by a push are those of the list, then those of the pushed part |
| Restaurants.WithNameUnique | index.js:103-105 | with unique names, a present name is carried by exactly one record |
| Restaurants.RemoveExisting | index.js:103-107 | after removing a present name, the name is not found in the list written back, and with unique names that list is one shorter |
| Restaurants.RemoveWellFormed | index.js:105-106 | removal keeps the list sorted, with unique and non-empty names |
| Restaurants.WithMenu | index.js:92 | the assignment changes only the menu of the record at that index; every name and every other record stay as they were |
| Restaurants.WithMenuWellFormed | index.js:92-93 | a menu change keeps the store's invariant |
| StringOrder.LeReflexive | index.js:80 | the name order is reflexive |
| StringOrder.LeTotal | index.js:80 | any two names are comparable |
| StringOrder.LeTransitive | index.js:80 | the name order is transitive |
| StringOrder.LeAntisymmetric | index.js:80 | two names each no greater than the other are equal |
| StringOrder.LeAtFirstDifference | index.js:34-43 | strings that first differ at a position compare by the characters there, strictly |
| SortBy.Insert | index.js:80 | inserting into a sorted list gives a sorted list holding the old records plus the new one |
| SortBy.SortByName | index.js:80 | `_.sortBy(list, 'name')` is sorted by name and is a permutation of its input |
| SortBy.SortByNameMembers | index.js:80 | sorting keeps exactly the same records |
| SortBy.InsertWithName | index.js:80 | insertion puts the new record in front of all records with an equal name |
| SortBy.SortByNameStable | index.js:80 | the sort is stable: the records sharing a name keep their relative order |
| SortBy.SortByNameOfSorted | index.js:34-43 | sorting a list that is already sorted returns it unchanged |
| SortBy.InsertUnique | index.js:78-80 | inserting a record under a new name keeps names unique |
| SortBy.SortByNameUnique | index.js:80 | sorting keeps names unique |
| Seeding.Seeded | index.js:61-68 | the list read is never empty; it is the defaults when the stored list is missing or empty, and the stored list otherwise |
| Seeding.StrictlyIncreasing | index.js:34-43 | strictly increasing neighbouring names make the whole list sorted with distinct names |
| Seeding.DefaultsIncreasing | index.js:35-42 | each built-in name is strictly smaller than the next |
| Seeding.DefaultsAsWritten | index.js:34-43 | the built-in list has eight entries, and sorting it by name leaves it as written |
| Seeding.DefaultsWellFormed | index.js:34-43 | the built-in list is sorted, with unique non-empty names |
| Seeding.DefaultEntryNames | index.js:35-42 | the built-in names, in order |
| Seeding.DefaultsHaveName | index.js:34-43 | a name is among the defaults exactly when it is one of the eight built-in names |
| Seeding.DefaultsListing | index.js:61-68 | a missing or empty store lists the eight default names, from "Dibella's" to "Towpath Cafe" |
| Seeding.SeedIdempotent | index.js:61-68 | the seeded list reads back as itself and needs no further seeding |
| Seeding.SeededWellFormed | index.js:61-68 | a missing or well-formed stored list reads as a well-formed list |
| Outcomes.AddNew | index.js:74-85 | a successful add yields one more record: the old ones plus the new one, sorted by name, with the new name carried exactly once and found as added; the invariant is kept |
| Outcomes.AddedNameOnce | index.js:78-80 | after pushing a new name and sorting, exactly the new record carries that name |
| Outcomes.AddedWellFormed | index.js:78-80 | pushing a new non-empty name and sorting keeps the invariant |
| Outcomes.FindIndexByNames | index.js:90 | `_.find` by name depends only on the names |
| Outcomes.UpdateExisting | index.js:87-98 | after a successful update the name is found with the new menu, the names are unchanged, and the invariant is kept |
| Outcomes.DeleteExisting | index.js:100-111 | after a successful delete the name is not found in the list written back; the rest keep their order and the invariant, and with unique names one record goes |
| Store.Lookup | index.js:62 | a key's stored value, or nothing exactly when the key is absent |
| Store.PickIndex | index.js:127 | `floor(u * n)` for `0 <= u < 1` is an index into a list of length `n` |
| Store.Brain.constructor | index.js:59 | a brain holding the given data |
| Store.Brain.Get | index.js:62 | `robot.brain.get` returns the value under the key, or nothing when the key is absent |
| Store.Brain.Set | index.js:64 | `robot.brain.set` replaces the value under that key and leaves every other key as it was |
| Store.RestaurantBot.constructor | index.js:59 | a bot over the given brain |
| Store.RestaurantBot.GetRestaurants | index.js:61-68 | returns the seeded list; writes the defaults when the stored list is missing or empty, and writes nothing otherwise; other keys untouched; invariant kept |
| Store.RestaurantBot.GetRestaurant | index.js:70-72 | returns the first record with the name in the seeded list, and writes only by seeding |
| Store.RestaurantBot.ListRestaurants | index.js:113-116 | the names of the seeded list, in stored order |
| Store.RestaurantBot.RandomRestaurant | index.js:118-129 | the record at index `floor(u * n)` of the seeded list, which is therefore one of its records |
| Store.RestaurantBot.AddRestaurant | index.js:74-85 | true exactly when the name is non-empty and absent. Then the stored list becomes the old list plus the record, sorted by name. An empty name writes nothing, and a duplicate only seeds. Other keys are untouched and the invariant is kept |
| Store.RestaurantBot.UpdateRestaurant | index.js:87-98 | true exactly when the name is non-empty, the menu truthy and the name present. Then only the first matching record's menu changes. Otherwise nothing is written beyond seeding. The invariant is kept |
| Store.RestaurantBot.DeleteRestaurant | index.js:100-111 | true exactly when the name is non-empty and present. Then every record with the name is removed and the rest keep their order. Otherwise nothing is written beyond seeding. The invariant is kept |
| Scenarios.FreshListing | index.js:113-116 | a fresh brain lists the eight defaults, "Dibella's" first and "Towpath Cafe" last |
| Scenarios.AddThenFind | index.js:74-85 | on a fresh brain, adding a new non-empty name succeeds, and looking it up returns the record as added |
| Scenarios.AddTwice | index.js:74-85 | adding the same name twice: the second add fails and leaves the brain unchanged |
| Scenarios.UpdateMissing | index.js:87-98 | on a brain already holding the defaults, updating an absent name fails and leaves the brain unchanged |
| Scenarios.UpdateThenFind | index.js:87-98 | updating a default's menu succeeds, and looking it up returns the new menu |
| Scenarios.DeleteFromDefaults | index.js:100-111 | deleting a default succeeds; the listing then has seven names and not that one |
| Scenarios.DeleteLastReseeds | index.js:61-68 | deleting the only stored record, one named like a default, succeeds and leaves an empty list in the brain; the next lookup reseeds and finds the default record again |

## Left out

- The chat wiring (`robot.respond` patterns, argument capture, reply texts; index.js:113-172) is host transport. Only the store calls those handlers make are modelled, and `ListRestaurants` returns the names rather than the `'\r\n'`-joined message.
- `robot.brain` is modelled as a map from keys to restaurant lists. Values of other types under other keys, and persistence failures, are not modelled.
- Store.RestaurantBot.RandomRestaurant: `Math.random()` becomes the parameter `u` with `0 <= u < 1`. The clock-seeded loop that discards draws (index.js:121-126) is left out: it changes only which number is drawn. The product `u * n` is exact real arithmetic, so floating-point rounding is not modelled.
- Reference aliasing is not modelled; the model works on values. `getRestaurants` returns the `defaultRestaurants` array itself after seeding (index.js:64-65). A later `push`, `_.remove` or menu assignment on that list also changes the array that a later reseeding would write. The model always reseeds with the eight built-in records. In the code, deleting all eight records of a freshly seeded store empties `defaultRestaurants` itself. The next seed then writes `[]`, so `getRestaurants` returns an empty list, which the model's Seeded rules out. After that, `restaurant random` reads `list[0]` as undefined, and `formatRestaurant` fails on it at index.js:46. This sequence is inferred from reading the code; it was not executed.
- StringOrder.Le: compares Dafny characters (Unicode scalar values), whereas JavaScript compares UTF-16 code units. The two orders differ only for names that mix characters above U+FFFF with characters from U+E000 to U+FFFF.
- Concurrency is not modelled: commands are assumed to run one at a time.
