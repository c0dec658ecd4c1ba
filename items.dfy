/** An item of the inventory: an immutable pair of a name and an id.
    Identity is by id only; the name plays no part in it. */
module Items {

  datatype Item = Item(name: string, id: string) {

    /** The name given when the item was made. */
    function GetName(): string { name }

    /** The id given when the item was made. */
    function GetId(): string { id }

    /** Whether this item carries the id `otherId`. */
    function IsSameItem(otherId: string): bool { id == otherId }
  }

  /** `Item.__init__`. It builds the same value as the datatype constructor
      `Item(name, id)`; it exists to carry the constructor's contract: both
      getters give back exactly what was passed in, and the new item is the
      same item as its own id. */
  function NewItem(name: string, id: string): (it: Item)
    ensures it.GetName() == name
    ensures it.GetId() == id
    ensures it.IsSameItem(id)
  {
    Item(name, id)
  }

  /** `IsSameItem` holds exactly when the ids agree, in both directions. */
  lemma SameItemIffSameId(it: Item, otherId: string)
    ensures it.IsSameItem(otherId) <==> it.GetId() == otherId
  {
  }

  /** Two items with the same id are the same item whatever their names,
      and two items with different ids never are. */
  lemma IdentityIgnoresName(a: Item, b: Item)
    ensures a.IsSameItem(b.GetId()) <==> a.GetId() == b.GetId()
    ensures a.GetId() == b.GetId() ==> a.IsSameItem(b.GetId()) && b.IsSameItem(a.GetId())
  {
  }

  /** The three items of the item tests: each getter gives back what the
      item was made with; "Apple" and "Rotten Apple" share id "1234" and so
      are the same item; "Banana" is not. */
  lemma ItemTestScenario()
    ensures NewItem("Apple", "1234").GetName() == "Apple"
    ensures NewItem("Banana", "5678").GetName() == "Banana"
    ensures NewItem("Rotten Apple", "1234").GetName() == "Rotten Apple"
    ensures NewItem("Apple", "1234").GetId() == "1234"
    ensures NewItem("Banana", "5678").GetId() == "5678"
    ensures NewItem("Rotten Apple", "1234").GetId() == "1234"
    ensures NewItem("Apple", "1234").IsSameItem(NewItem("Rotten Apple", "1234").GetId())
    ensures !NewItem("Apple", "1234").IsSameItem(NewItem("Banana", "5678").GetId())
  {
  }
}
