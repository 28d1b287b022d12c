/**
  The in-memory item store behind the CRUD handlers of the service.

  The process-wide list `items_db` is a `Store`, an ordered sequence of
  `Item` records in insertion order. Every handler is a pure function of the
  store; one that mutates it returns a `Step` holding the store after the
  call and what the caller receives. HTTP 404 and 400 become the `Error`
  values `NotFound` and `Conflict`.
 */
module ItemStore {
  import opened Wrappers

  /** One stored record. `price` is a float that the service never computes on. */
  datatype Item = Item(id: int, name: string, description: Option<string>, price: real)

  /** The two failures the handlers raise: 404 (no such id) and 400 (id already in use). */
  datatype Error = NotFound | Conflict

  type Store = seq<Item>

  /** The effect of one handler call: the store afterwards and the handler's answer. */
  datatype Step<+T> = Step(store: Store, result: Result<T, Error>)

  /** Some stored item carries `id`. */
  predicate Contains(s: Store, id: int)
  {
    exists i :: 0 <= i < |s| && s[i].id == id
  }

  /** `k` is the smallest index whose item carries `id`. */
  ghost predicate IsFirst(s: Store, id: int, k: int)
  {
    && 0 <= k < |s|
    && s[k].id == id
    && forall j :: 0 <= j < k ==> s[j].id != id
  }

  /** No two stored items share an id: the invariant that creation maintains. */
  ghost predicate UniqueIds(s: Store)
  {
    forall i, j :: 0 <= i < j < |s| ==> s[i].id != s[j].id
  }

  /** The linear scan in insertion order that stops at the first item carrying `id`. */
  function FirstIndex(s: Store, id: int): (r: Option<nat>)
    ensures r.None? <==> !Contains(s, id)
    ensures r.Some? ==> IsFirst(s, id, r.value)
  {
    if |s| == 0 then None
    else if s[0].id == id then Some(0)
    else
      match FirstIndex(s[1..], id)
      case None => None
      case Some(k) => Some(k + 1)
  }

  /** GET /items/: the whole store, in insertion order. */
  function ReadItems(s: Store): (r: seq<Item>)
    ensures |r| == |s|
    ensures forall i :: 0 <= i < |r| ==> r[i] == s[i]
  {
    s
  }

  /** GET /items/{id}: the first item carrying `id`, or NotFound. */
  function ReadItem(s: Store, id: int): (r: Result<Item, Error>)
    ensures r.Err? <==> !Contains(s, id)
    ensures r.Err? ==> r.error == NotFound
    ensures r.Ok? ==> r.value.id == id && exists k :: IsFirst(s, id, k) && s[k] == r.value
  {
    match FirstIndex(s, id)
    case None => Err(NotFound)
    case Some(k) => Ok(s[k])
  }

  /** POST /items/: refuse an id already in use, otherwise append and echo the item. */
  function CreateItem(s: Store, item: Item): (r: Step<Item>)
    ensures Contains(s, item.id) ==> r.store == s && r.result == Err(Conflict)
    ensures !Contains(s, item.id) ==>
              && r.result == Ok(item)
              && |r.store| == |s| + 1
              && r.store[|s|] == item
              && forall i :: 0 <= i < |s| ==> r.store[i] == s[i]
  {
    if Contains(s, item.id) then Step(s, Err(Conflict))
    else Step(s + [item], Ok(item))
  }

  /**
    PUT /items/{id}: overwrite the slot of the first item carrying `id` with
    `item` verbatim. The new record's own id is not compared with `id`.
   */
  function UpdateItem(s: Store, id: int, item: Item): (r: Step<Item>)
    ensures !Contains(s, id) ==> r.store == s && r.result == Err(NotFound)
    ensures Contains(s, id) ==>
              && r.result == Ok(item)
              && |r.store| == |s|
              && exists k :: IsFirst(s, id, k) && r.store[k] == item
                               && forall j :: 0 <= j < |s| && j != k ==> r.store[j] == s[j]
  {
    match FirstIndex(s, id)
    case None => Step(s, Err(NotFound))
    case Some(k) => Step(s[k := item], Ok(item))
  }

  /** DELETE /items/{id}: remove the first item carrying `id`, keeping the others in order. */
  function DeleteItem(s: Store, id: int): (r: Step<()>)
    ensures !Contains(s, id) ==> r.store == s && r.result == Err(NotFound)
    ensures Contains(s, id) ==>
              && r.result == Ok(())
              && |r.store| == |s| - 1
              && exists k :: IsFirst(s, id, k) && r.store == s[..k] + s[k + 1..]
  {
    match FirstIndex(s, id)
    case None => Step(s, Err(NotFound))
    case Some(k) => Step(s[..k] + s[k + 1..], Ok(()))
  }

  /** One request to the item routes. */
  datatype Request =
    | List
    | Get(id: int)
    | Create(item: Item)
    | Update(id: int, item: Item)
    | Delete(id: int)

  /** What a successful request answers with. */
  datatype Reply = Items(items: seq<Item>) | One(item: Item) | Deleted

  /** Dispatch one request to its handler. */
  function Handle(s: Store, req: Request): (r: Step<Reply>)
    ensures (req.List? || req.Get?) ==> r.store == s
    ensures r.result.Err? ==> r.store == s
    ensures r.result == Err(Conflict) <==> req.Create? && Contains(s, req.item.id)
    ensures r.result == Err(NotFound) <==> !req.List? && !req.Create? && !Contains(s, req.id)
    ensures req.List? ==> r.result == Ok(Items(s))
    ensures req.Get? && Contains(s, req.id) ==>
              exists k :: IsFirst(s, req.id, k) && r == Step(s, Ok(One(s[k])))
    ensures req.Create? && !Contains(s, req.item.id) ==>
              r == Step(s + [req.item], Ok(One(req.item)))
    ensures req.Update? && Contains(s, req.id) ==>
              exists k :: IsFirst(s, req.id, k) && r == Step(s[k := req.item], Ok(One(req.item)))
    ensures req.Delete? && Contains(s, req.id) ==>
              exists k :: IsFirst(s, req.id, k) && r == Step(s[..k] + s[k + 1..], Ok(Deleted))
  {
    match req
    case List => Step(s, Ok(Items(ReadItems(s))))
    case Get(id) =>
      (match ReadItem(s, id)
       case Ok(x) => Step(s, Ok(One(x)))
       case Err(e) => Step(s, Err(e)))
    case Create(item) =>
      var c := CreateItem(s, item);
      (match c.result
       case Ok(x) => Step(c.store, Ok(One(x)))
       case Err(e) => Step(c.store, Err(e)))
    case Update(id, item) =>
      var u := UpdateItem(s, id, item);
      (match u.result
       case Ok(x) => Step(u.store, Ok(One(x)))
       case Err(e) => Step(u.store, Err(e)))
    case Delete(id) =>
      var d := DeleteItem(s, id);
      (match d.result
       case Ok(_) => Step(d.store, Ok(Deleted))
       case Err(e) => Step(d.store, Err(e)))
  }

  /** The store after serving `reqs` one after another, starting from `s`. */
  function Run(s: Store, reqs: seq<Request>): (r: Store)
    decreases |reqs|
  {
    if |reqs| == 0 then s else Run(Handle(s, reqs[0]).store, reqs[1..])
  }

  /** The store after creating `items` in order, starting from `s`. */
  function CreateAll(s: Store, items: seq<Item>): (r: Store)
    decreases |items|
  {
    if |items| == 0 then s else CreateAll(CreateItem(s, items[0]).store, items[1..])
  }
}
