/** The inventory registry kept by `ItemManager`, as a value: two tables
    keyed by item id, one holding the count of each item and one holding
    the item itself. Every operation of the manager is specified here as a
    function from the state before the call to the state after it and the
    call's outcome (its return value or the exception it raises). */
module Registry {
  import opened Items

  /** The two exceptions the manager raises. */
  datatype Error =
    | ExistingItem  // ExistingItemException: the id is already present
    | NoSuchItem    // NoSuchItemException: the id is absent

  /** The outcome of a call that returns nothing: it either completes or raises. */
  datatype Outcome = Done | Raised(error: Error)

  /** The outcome of a call that returns a value or raises. */
  datatype Result<T> = Ok(value: T) | Err(error: Error)

  /** The manager's two tables: id to count, and id to item. */
  datatype State = State(inventory: map<string, int>, items: map<string, Item>)

  /** The state a call leaves behind, together with what the call reported. */
  datatype Step = Step(state: State, outcome: Outcome)

  /** The registry's invariant: both tables have the same ids, and the item
      stored under an id carries that id. */
  predicate Valid(s: State)
  {
    && s.inventory.Keys == s.items.Keys
    && forall id :: id in s.items ==> s.items[id].GetId() == id
  }

  /** `contains`: whether an item with this id is in the inventory. */
  predicate Contains(s: State, id: string)
  {
    id in s.inventory
  }

  /** The two states hold the same count and the same item under `k`. */
  predicate UnchangedAt(s: State, t: State, k: string)
  {
    && (k in s.inventory <==> k in t.inventory)
    && (k in s.items <==> k in t.items)
    && (k in s.inventory && k in t.inventory ==> s.inventory[k] == t.inventory[k])
    && (k in s.items && k in t.items ==> s.items[k] == t.items[k])
  }

  /** Every id other than `id` is untouched between the two states. */
  ghost predicate OthersUnchanged(s: State, t: State, id: string)
  {
    forall k :: k != id ==> UnchangedAt(s, t, k)
  }

  /** A new manager: both tables empty, so no id is contained. */
  function Empty(): (s: State)
    ensures Valid(s)
    ensures forall id :: !Contains(s, id)
  {
    State(map[], map[])
  }

  /** `get_num`: the stored count, or `NoSuchItem` when the id is absent. */
  function GetNum(s: State, id: string): (r: Result<int>)
    ensures r.Ok? <==> Contains(s, id)
    ensures r.Err? ==> r.error == NoSuchItem
    ensures r.Ok? ==> r.value == s.inventory[id]
  {
    if id in s.inventory then Ok(s.inventory[id]) else Err(NoSuchItem)
  }

  /** `get_name`: the stored item's name, or `NoSuchItem` when the id is
      absent. Membership is looked up in the counts table and the name is read
      from the items table, so the invariant is what makes the read safe. */
  function GetName(s: State, id: string): (r: Result<string>)
    requires Valid(s)
    ensures r.Ok? <==> Contains(s, id)
    ensures r.Err? ==> r.error == NoSuchItem
    ensures r.Ok? ==> id in s.items && r.value == s.items[id].GetName()
  {
    if id in s.inventory then Ok(s.items[id].GetName()) else Err(NoSuchItem)
  }

  /** `create_item`: only the id is checked. A present id raises
      `ExistingItem` and changes nothing; otherwise the count and a new item
      are stored under the id and nothing else changes. The count defaults
      to 0 and is not bounded. */
  function CreateItem(s: State, name: string, id: string, num: int := 0): (r: Step)
    ensures Valid(s) ==> Valid(r.state)
    ensures Contains(s, id) ==> r == Step(s, Raised(ExistingItem))
    ensures !Contains(s, id) ==>
      && r.outcome == Done
      && Contains(r.state, id)
      && GetNum(r.state, id) == Ok(num)
      && id in r.state.items && r.state.items[id] == NewItem(name, id)
      && OthersUnchanged(s, r.state, id)
    ensures Valid(s) && !Contains(s, id) ==> GetName(r.state, id) == Ok(name)
  {
    if id in s.inventory then
      Step(s, Raised(ExistingItem))
    else
      var newItem := NewItem(name, id);
      Step(State(s.inventory[id := num], s.items[id := newItem]), Done)
  }

  /** `delete_item`: an absent id raises `NoSuchItem` and changes nothing;
      otherwise the id leaves both tables and nothing else changes. */
  function DeleteItem(s: State, id: string): (r: Step)
    ensures Valid(s) ==> Valid(r.state)
    ensures !Contains(s, id) ==> r == Step(s, Raised(NoSuchItem))
    ensures Contains(s, id) ==>
      && r.outcome == Done
      && !Contains(r.state, id)
      && id !in r.state.items
      && OthersUnchanged(s, r.state, id)
  {
    if id !in s.inventory then
      Step(s, Raised(NoSuchItem))
    else
      Step(State(s.inventory - {id}, s.items - {id}), Done)
  }

  /** `set_num`: an absent id raises `NoSuchItem` and changes nothing;
      otherwise only the count of that id changes, to any integer, and the
      stored item is left alone. */
  function SetNum(s: State, id: string, num: int): (r: Step)
    ensures Valid(s) ==> Valid(r.state)
    ensures !Contains(s, id) ==> r == Step(s, Raised(NoSuchItem))
    ensures Contains(s, id) ==>
      && r.outcome == Done
      && GetNum(r.state, id) == Ok(num)
      && r.state.items == s.items
      && OthersUnchanged(s, r.state, id)
  {
    if id !in s.inventory then
      Step(s, Raised(NoSuchItem))
    else
      Step(State(s.inventory[id := num], s.items), Done)
  }

  /** The calls that change the registry. */
  datatype Call =
    | CreateCall(name: string, id: string, num: int)
    | DeleteCall(id: string)
    | SetNumCall(id: string, num: int)

  /** One call on the registry. A call that raises leaves the state as it
      was, and no call touches an id other than its own. */
  function Apply(s: State, c: Call): (r: Step)
    ensures Valid(s) ==> Valid(r.state)
    ensures r.outcome.Raised? ==> r.state == s
    ensures OthersUnchanged(s, r.state, c.id)
  {
    match c
    case CreateCall(name, id, num) => CreateItem(s, name, id, num)
    case DeleteCall(id) => DeleteItem(s, id)
    case SetNumCall(id, num) => SetNum(s, id, num)
  }

  /** The state after a sequence of calls on one manager; the invariant
      holds after every sequence of calls that starts from a valid state. */
  function Run(s: State, calls: seq<Call>): (r: State)
    ensures Valid(s) ==> Valid(r)
    decreases |calls|
  {
    if calls == [] then s else Run(Apply(s, calls[0]).state, calls[1..])
  }

  /** A state some sequence of calls reaches from a new manager. */
  ghost predicate Reachable(s: State)
  {
    exists calls :: s == Run(Empty(), calls)
  }

  /** Every state a manager can be in satisfies the invariant. */
  lemma ReachableIsValid(s: State)
    requires Reachable(s)
    ensures Valid(s)
  {
  }

  /** In every reachable state, `get_num` and `get_name` raise
      `NoSuchItem` exactly when `contains` is false, and otherwise succeed. */
  lemma QueriesFailExactlyWhenAbsent(s: State, id: string)
    requires Reachable(s)
    ensures Valid(s)
    ensures GetNum(s, id) == Err(NoSuchItem) <==> !Contains(s, id)
    ensures GetName(s, id) == Err(NoSuchItem) <==> !Contains(s, id)
  {
    ReachableIsValid(s);
  }

  /** Calls on other ids never change what is stored under `id`. */
  lemma {:induction false} RunLeavesOtherIds(s: State, calls: seq<Call>, id: string)
    requires forall i :: 0 <= i < |calls| ==> calls[i].id != id
    ensures UnchangedAt(s, Run(s, calls), id)
    decreases |calls|
  {
    if calls != [] {
      var t := Apply(s, calls[0]).state;
      assert UnchangedAt(s, t, id);
      RunLeavesOtherIds(t, calls[1..], id);
    }
  }

  /** A call that raises followed by further calls ends where the further
      calls alone would: a failed call is a no-op. */
  lemma FailedCallIsSkipped(s: State, c: Call, rest: seq<Call>)
    requires Apply(s, c).outcome.Raised?
    ensures Run(s, [c] + rest) == Run(s, rest)
  {
  }

  /** Creating a fresh id and then deleting it gives back the state before
      the creation. */
  lemma CreateThenDeleteRestores(s: State, name: string, id: string, num: int)
    requires Valid(s)
    requires !Contains(s, id)
    ensures CreateItem(s, name, id, num).outcome == Done
    ensures DeleteItem(CreateItem(s, name, id, num).state, id) == Step(s, Done)
  {
  }

  /** Deleting an item and creating it again with its old name and count
      gives back the state before the deletion. */
  lemma DeleteThenRecreateRestores(s: State, id: string)
    requires Valid(s)
    requires Contains(s, id)
    ensures var t := DeleteItem(s, id).state;
      CreateItem(t, s.items[id].GetName(), id, s.inventory[id]) == Step(s, Done)
  {
  }

  /** Setting a count twice is the same as setting it once to the last value. */
  lemma SetNumLastWins(s: State, id: string, a: int, b: int)
    ensures SetNum(SetNum(s, id, a).state, id, b) == SetNum(s, id, b)
  {
  }

  /** Setting a count to the value it already has changes nothing. */
  lemma SetNumToCurrentIsIdentity(s: State, id: string)
    requires Contains(s, id)
    ensures SetNum(s, id, s.inventory[id]) == Step(s, Done)
  {
  }

  /** When no count is given, a created item starts with a count of 0. */
  lemma CreateDefaultsToZero(s: State, name: string, id: string)
    requires !Contains(s, id)
    ensures GetNum(CreateItem(s, name, id).state, id) == Ok(0)
  {
  }

  /** Only ids are checked on creation: two items with different ids are
      both accepted even when they share a name. */
  lemma CreateChecksOnlyId(s: State, name: string, id1: string, id2: string, n1: int, n2: int)
    requires Valid(s)
    requires !Contains(s, id1) && !Contains(s, id2) && id1 != id2
    ensures var t := CreateItem(s, name, id1, n1);
      && t.outcome == Done
      && CreateItem(t.state, name, id2, n2).outcome == Done
      && GetName(CreateItem(t.state, name, id2, n2).state, id1) == Ok(name)
      && GetName(CreateItem(t.state, name, id2, n2).state, id2) == Ok(name)
  {
  }

  /** Empty names and ids are accepted like any other. */
  lemma CreateAcceptsEmptyStrings()
    ensures CreateItem(Empty(), "", "").outcome == Done
    ensures Contains(CreateItem(Empty(), "", "").state, "")
  {
  }
}
