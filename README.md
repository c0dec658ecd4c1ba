# Inventory registry, modelled in Dafny

This project models the item registry of a small inventory tracker: the
`ItemManager` class and its value type `Item`.

An `Item` is an immutable pair of a name and an id. Its identity is the id
alone. `ItemManager` keeps two dictionaries keyed by item id. One maps the
id to the number of that item in stock, the other maps it to the `Item`.
The manager creates, deletes and re-counts items and answers queries. Each
failing call raises `ExistingItemException` or `NoSuchItemException` before
it changes anything.

Files:

- `items.dfy`, module `Items`: the datatype `Item` with `GetName`, `GetId`
  and `IsSameItem`, and `NewItem` for the constructor.
- `registry.dfy`, module `Registry`: the manager's state as a value
  (`State`), its invariant `Valid`, and one function per operation, from
  the state before the call to the state after it and the outcome. The two
  exceptions are the variants `ExistingItem` and `NoSuchItem` of `Error`.
  A call that returns nothing yields an `Outcome` (`Done` or `Raised`). A
  call that returns a value yields a `Result` (`Ok` or `Err`). `Run` plays
  a sequence of calls on one manager. The lemmas relate several calls.
- `manager.dfy`, module `Manager`: the class `ItemManager`. Its two map
  fields are updated in place by `CreateItem`, `DeleteItem` and `SetNum`.
  Each method's postcondition ties the new state and the outcome to the
  matching `Registry` function of the old state. `CreateItem`,
  `DeleteItem`, `SetNum` and `GetName` require the invariant `Valid()`;
  `GetNum` and `Contains` need nothing. The constructor establishes the
  invariant and every changing method keeps it. In the source the two
  tables are name-mangled attributes (`__inventory`, `__items`), which keeps
  honest callers out of them; the model does not capture code that reaches
  them directly.

The registry enforces only what the code does. Ids must be unique. Names
need not be unique, may be empty, and counts are unbounded integers, possibly
negative.

## Model

| member | source | states |
|---|---|---|
| `Items.NewItem` | item.py:12-28 | the name and id read back from a new item are the ones it was made with, and it is the same item as its own id |
| `Items.SameItemIffSameId` | item.py:30-32 | `is_same_item(other)` holds exactly when the item's id equals `other` |
| `Items.IdentityIgnoresName` | tests/test_item.py:4-6 | two items with the same id are the same item whatever their names; different ids never are |
| `Items.ItemTestScenario` | tests/test_item.py:10-22 | all eight assertions of the item tests: each getter gives back the constructor's argument for all three items, "Apple" and "Rotten Apple" (both "1234") are the same item, "Banana" is not |
| `Registry.Empty` | item_manager.py:41-43 | a new manager is valid and contains no id |
| `Registry.GetNum` | item_manager.py:90-101 | succeeds exactly when the id is contained, with the stored count; otherwise fails with `NoSuchItem` |
| `Registry.GetName` | item_manager.py:103-114 | succeeds exactly when the id is contained, with the stored item's name; otherwise fails with `NoSuchItem`; the read of the items table is safe because of the invariant |
| `Registry.CreateItem` | item_manager.py:49-63 | a present id fails with `ExistingItem` and leaves the state unchanged; a fresh id becomes contained with the given count and a new item of that name and id, every other id is untouched, and the invariant is kept |
| `Registry.DeleteItem` | item_manager.py:65-76 | an absent id fails with `NoSuchItem` and leaves the state unchanged; a present id leaves both tables, every other id is untouched, and the invariant is kept |
| `Registry.SetNum` | item_manager.py:78-88 | an absent id fails with `NoSuchItem` and leaves the state unchanged; for a present id only its count changes, to any integer, the items table is untouched, and the invariant is kept |
| `Registry.Apply` | item_manager.py:49-88 | every changing call keeps the invariant, a call that raises changes nothing, and no call touches an id other than its own |
| `Registry.Run` | item_manager.py:41-88 | every sequence of calls from a valid state ends in a valid state |
| `Registry.ReachableIsValid` | item_manager.py:41-76 | every state a new manager can reach has equal key sets in both tables and items that carry their own ids |
| `Registry.QueriesFailExactlyWhenAbsent` | item_manager.py:98-114 | in every reachable state `get_num` and `get_name` raise `NoSuchItem` exactly when `contains` is false |
| `Registry.RunLeavesOtherIds` | item_manager.py:58-88 | a sequence of calls on other ids leaves the count and the item under an id unchanged |
| `Registry.FailedCallIsSkipped` | item_manager.py:58-86 | a call that raises is a no-op: the calls after it end where they would have without it |
| `Registry.CreateThenDeleteRestores` | item_manager.py:58-76 | creating a fresh id and deleting it again gives back the earlier state |
| `Registry.DeleteThenRecreateRestores` | item_manager.py:58-76 | deleting an item and creating it again with its old name and count gives back the earlier state |
| `Registry.SetNumLastWins` | item_manager.py:85-88 | setting a count twice is the same as setting it once to the second value, on both outcomes |
| `Registry.SetNumToCurrentIsIdentity` | item_manager.py:85-88 | setting a count to its current value changes nothing |
| `Registry.CreateDefaultsToZero` | item_manager.py:49 | a created item given no count has count 0 |
| `Registry.CreateChecksOnlyId` | item_manager.py:58-63 | two creations with different fresh ids and the same name both succeed, and both ids read back that name |
| `Registry.CreateAcceptsEmptyStrings` | item_manager.py:58-63 | an empty name and an empty id are accepted |
| `Manager.ItemManager.constructor` | item_manager.py:41-43 | a new manager has both tables empty, is valid, and contains no id |
| `Manager.ItemManager.CreateItem` | item_manager.py:49-63 | updates both tables in place as `Registry.CreateItem` says, keeps the invariant, and raises exactly when the id was present |
| `Manager.ItemManager.DeleteItem` | item_manager.py:65-76 | updates both tables in place as `Registry.DeleteItem` says, keeps the invariant, and raises exactly when the id was absent |
| `Manager.ItemManager.SetNum` | item_manager.py:78-88 | updates the counts table in place as `Registry.SetNum` says, keeps the invariant, and raises exactly when the id was absent |
| `Manager.ItemManager.GetNum` | item_manager.py:90-101 | returns what `Registry.GetNum` gives on the current state; `NoSuchItem` exactly when the id is not contained |
| `Manager.ItemManager.GetName` | item_manager.py:103-114 | returns what `Registry.GetName` gives on the current state; `NoSuchItem` exactly when the id is not contained |
| `Manager.ItemManager.Contains` | item_manager.py:116-123 | answers whether the id is in the counts table |
| `Manager.ManagerTests` | tests/test_item_manager.py:4-20 | the manager tests run in order on one shared manager: all five create, delete and set calls complete without raising, "1234" is contained, "5678" is not after its deletion, and the count of "5823" reads back 9 after it is set |

`Items.Item.GetName`, `Items.Item.GetId` and `Items.Item.IsSameItem`
(item.py:22-32) are single expressions with no contract of their own. The
rows for `Items.NewItem`, `Items.SameItemIffSameId` and
`Items.IdentityIgnoresName` state their properties. `Item` is a datatype,
so nothing can change its name or id after it is made.

## Left out

- `to_dataframe` (item_manager.py:125-133): builds a pandas table. Its row order and index alignment come from the library, which is not part of this model.
- The message strings of the two exception classes (item_manager.py:5-27): only which of the two is raised is modelled.
- main.py: Streamlit user-interface code. It calls registry features that item_manager.py does not define: a deletion history with undelete, name uniqueness, a missing-field error and an emptiness check. The model has none of them.
- The non-negativity of counts that the user interface enforces on its inputs: the registry itself accepts any integer, and so does the model.
- Python's dynamic typing: arguments are modelled as strings and unbounded integers, the types the source annotates; `other_id` of `is_same_item` (item.py:30) has no annotation and is modelled as a string. Calls with other argument types are not modelled.
- Direct writes to the tables from outside the class (Python's `_ItemManager__inventory` still reaches them): the model assumes only the manager's own methods change the tables, which is what keeps `Valid()` true.
