/** `ItemManager`: the inventory, kept as two tables keyed by item id that
    every changing call updates in place and together. Each method is
    specified by the matching function of `Registry` on the manager's
    state. */
module Manager {
  import opened Items
  import Registry

  class ItemManager {
    /** id to the number of that item in stock */
    var inventory: map<string, int>
    /** id to the item stored under it */
    var items: map<string, Item>

    /** The manager's current state as a value. */
    function Snapshot(): Registry.State
      reads this
    {
      Registry.State(inventory, items)
    }

    /** Both tables have the same ids, and each item carries its own id. */
    ghost predicate Valid()
      reads this
    {
      Registry.Valid(Snapshot())
    }

    /** A new manager holds no items. */
    constructor ()
      ensures Valid()
      ensures Snapshot() == Registry.Empty()
      ensures forall id :: !Registry.Contains(Snapshot(), id)
    {
      inventory := map[];
      items := map[];
    }

    /** `create_item`; `num` defaults to 0. */
    method CreateItem(name: string, id: string, num: int := 0) returns (outcome: Registry.Outcome)
      requires Valid()
      modifies this
      ensures Valid()
      ensures Registry.Step(Snapshot(), outcome) == Registry.CreateItem(old(Snapshot()), name, id, num)
      ensures outcome == Registry.Raised(Registry.ExistingItem) <==> id in old(inventory)
    {
      if id in inventory {
        outcome := Registry.Raised(Registry.ExistingItem);
      } else {
        var newItem := NewItem(name, id);
        inventory := inventory[id := num];
        items := items[id := newItem];
        outcome := Registry.Done;
      }
    }

    /** `delete_item`. */
    method DeleteItem(id: string) returns (outcome: Registry.Outcome)
      requires Valid()
      modifies this
      ensures Valid()
      ensures Registry.Step(Snapshot(), outcome) == Registry.DeleteItem(old(Snapshot()), id)
      ensures outcome == Registry.Raised(Registry.NoSuchItem) <==> id !in old(inventory)
    {
      if id !in inventory {
        outcome := Registry.Raised(Registry.NoSuchItem);
      } else {
        inventory := inventory - {id};
        items := items - {id};
        outcome := Registry.Done;
      }
    }

    /** `set_num`. */
    method SetNum(id: string, num: int) returns (outcome: Registry.Outcome)
      requires Valid()
      modifies this
      ensures Valid()
      ensures Registry.Step(Snapshot(), outcome) == Registry.SetNum(old(Snapshot()), id, num)
      ensures outcome == Registry.Raised(Registry.NoSuchItem) <==> id !in old(inventory)
    {
      if id !in inventory {
        outcome := Registry.Raised(Registry.NoSuchItem);
      } else {
        inventory := inventory[id := num];
        outcome := Registry.Done;
      }
    }

    /** `get_num`: the stored count, or `NoSuchItem` exactly when the id is
        not contained. */
    method GetNum(id: string) returns (r: Registry.Result<int>)
      ensures r == Registry.GetNum(Snapshot(), id)
      ensures r == Registry.Err(Registry.NoSuchItem) <==> !Registry.Contains(Snapshot(), id)
    {
      if id in inventory {
        r := Registry.Ok(inventory[id]);
      } else {
        r := Registry.Err(Registry.NoSuchItem);
      }
    }

    /** `get_name`: the stored item's name, or `NoSuchItem` exactly when the
        id is not contained. */
    method GetName(id: string) returns (r: Registry.Result<string>)
      requires Valid()
      ensures r == Registry.GetName(Snapshot(), id)
      ensures r == Registry.Err(Registry.NoSuchItem) <==> !Registry.Contains(Snapshot(), id)
    {
      if id in inventory {
        r := Registry.Ok(items[id].GetName());
      } else {
        r := Registry.Err(Registry.NoSuchItem);
      }
    }

    /** `contains`. */
    method Contains(id: string) returns (b: bool)
      ensures b == Registry.Contains(Snapshot(), id)
    {
      b := id in inventory;
    }
  }

  /** The item manager tests on one shared manager, through the methods:
      every create, delete and set call completes without raising, in the
      order the calls are made, and the queries answer as the tests expect. */
  method ManagerTests() returns (outcomes: seq<Registry.Outcome>, has1234: bool, has5678: bool,
                                 num5823: Registry.Result<int>)
    ensures outcomes == [Registry.Done, Registry.Done, Registry.Done, Registry.Done, Registry.Done]
    ensures has1234 && !has5678 && num5823 == Registry.Ok(9)
  {
    var manager := new ItemManager();
    var createApple := manager.CreateItem("Apple", "1234", 5);
    has1234 := manager.Contains("1234");
    var createOrange := manager.CreateItem("Orange", "5678", 3);
    var deleteOrange := manager.DeleteItem("5678");
    has5678 := manager.Contains("5678");
    var createBananas := manager.CreateItem("Bananas", "5823", 6);
    var setBananas := manager.SetNum("5823", 9);
    num5823 := manager.GetNum("5823");
    outcomes := [createApple, createOrange, deleteOrange, createBananas, setBananas];
  }
}
