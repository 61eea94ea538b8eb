/** The storage coordinator: it validates and normalises an item, writes
    it to the repository of its category and then mirrors it into the
    search index; it removes an item from both stores; it lists a
    category with quantities in the requested unit; and it forwards name
    searches to the index.

    The two stores are not updated atomically: whatever a failing step
    leaves behind stays in place.  Every call the coordinator makes to a
    repository or to the index service is recorded in a ghost call log,
    so that the order and presence of those calls can be stated. */
module Storage {
  import opened Globals
  import opened NumericStrings
  import opened UnitConverter
  import opened Repositories
  import opened Factory
  import opened Elasticsearch

  /** A call from the coordinator to one of its collaborators. */
  datatype Call =
    | RepoAdd(category: Category, item: Item)
    | RepoFind(category: Category, id: int)
    | RepoDelete(category: Category, id: int)
    | IndexAdd(doc: Item)
    | IndexRemove(index: string, name: string)
    | IndexSearch(name: string)

  /** One entry of a listing. */
  datatype Listed = Listed(id: int, name: string, quantity: real)

  /** The first steps of `add`: an item without a (non-null) `type` is
      invalid; a quantity given in kilograms is rewritten in grams, and
      any other unit leaves it as it is.  Only the `quantity` entry can
      change.  In kilograms the quantity must stand for a number (a
      number, or a numeral string, which is converted); null and any
      other string are a type error. */
  function Normalize(item: Item): (r: Result<Item>)
    ensures !IsSet(item, "type") ==> r == Err(InvalidItem)
    ensures IsSet(item, "type") && Get(item, "unit") == Str(KILOGRAMS) && NumericValue(Get(item, "quantity")).None? ==>
              r == Err(QuantityTypeError)
    ensures r.Err? ==> r == Err(InvalidItem) || r == Err(QuantityTypeError)
    ensures r.Ok? ==> r.value.Keys == item.Keys + {"quantity"}
    ensures r.Ok? ==> forall k :: k in item && k != "quantity" ==> r.value[k] == item[k]
    ensures r.Ok? && Get(item, "unit") == Str(KILOGRAMS) ==>
              NumericValue(Get(item, "quantity")).Some? && r.value["quantity"].Num?
              && ConvertToKilograms(r.value["quantity"].n) == NumericValue(Get(item, "quantity")).value
    ensures r.Ok? && Get(item, "unit") != Str(KILOGRAMS) ==> r.value["quantity"] == Get(item, "quantity")
  {
    if !IsSet(item, "type") then Err(InvalidItem)
    else if Get(item, "unit") == Str(KILOGRAMS) then
      match NumericValue(Get(item, "quantity"))
      case Some(q) => Ok(item["quantity" := Num(ConvertToGrams(q))])
      case None => Err(QuantityTypeError)
    else Ok(item["quantity" := Get(item, "quantity")])
  }

  /** An item whose `type` is set and that carries a quantity, in any
      unit other than kilograms, passes `Normalize` unchanged. */
  lemma NormalizeKeepsNonKilogramItems(item: Item)
    requires IsSet(item, "type") && "quantity" in item && Get(item, "unit") != Str(KILOGRAMS)
    ensures Normalize(item) == Ok(item)
  {
    assert item["quantity" := item["quantity"]] == item;
  }

  /** The document mirrored into the index: the item without its `id`,
      every other entry as it is. */
  function IndexBody(item: Item): (doc: Item)
    ensures "id" !in doc && doc.Keys == item.Keys - {"id"}
    ensures forall k :: k in doc ==> doc[k] == item[k]
  {
    item - {"id"}
  }

  /** The catch block of `add`: any exception is rethrown as a plain one
      carrying the same message. */
  function Rethrow(e: Error): (g: Error)
    ensures g.Generic? && Message(g) == Message(e)
  {
    Generic(Message(e))
  }

  /** One listing entry: id and name as stored; the quantity converted
      to kilograms exactly when the unit is `"kg"`, otherwise in grams
      as stored. */
  function ListEntry(e: Entity, unit: string): (l: Listed)
    ensures l.id == e.id && l.name == e.name
    ensures unit == KILOGRAMS ==> ConvertToGrams(l.quantity) == e.quantity
    ensures unit != KILOGRAMS ==> l.quantity == e.quantity
  {
    Listed(e.id, e.name, if unit == KILOGRAMS then ConvertToKilograms(e.quantity) else e.quantity)
  }

  /** Everything the coordinator can change: the two tables and the
      search cluster. */
  datatype World = World(fruit: Table, vegetable: Table, cluster: ClusterState)

  function TableOf(w: World, c: Category): (t: Table) {
    match c
    case Fruit => w.fruit
    case Vegetable => w.vegetable
  }

  function WithTable(w: World, c: Category, t: Table): (u: World)
    ensures TableOf(u, c) == t && u.cluster == w.cluster
    ensures forall d :: d != c ==> TableOf(u, d) == TableOf(w, d)
  {
    match c
    case Fruit => w.(fruit := t)
    case Vegetable => w.(vegetable := t)
  }

  ghost predicate Consistent(w: World) {
    WellKeyed(w.fruit.rows, w.fruit.nextId) && WellKeyed(w.vegetable.rows, w.vegetable.nextId)
  }

  /** The outcome of an operation: the new world, the status returned to
      the caller, and the calls made, in order. */
  datatype Step = Step(world: World, status: Status, calls: seq<Call>)

  /** The database reports success only for an item it can hold. */
  ghost predicate StoreAccepts(item: Item, reply: StoreReply) {
    reply == Succeeded ==> (Normalize(item).Ok? ==> Storable(Normalize(item).value))
  }

  /** `add` as a function of the world: normalise the item, resolve the
      repository (an unknown type propagates unchanged), write to the
      repository, and only if that write reports `true` mirror the item
      without its id into the index.  Failures of either write reach the
      caller as plain exceptions with the same message; nothing is rolled
      back. */
  ghost function AddSpec(w: World, item: Item, reply: StoreReply): (step: Step)
    requires Consistent(w) && StoreAccepts(item, reply)
  {
    match Normalize(item)
    case Err(e) => Step(w, Failed(e), [])
    case Ok(it) =>
      match CategoryOf(Get(it, "type"))
      case None => Step(w, Failed(InvalidItemType), [])
      case Some(c) =>
        match reply
        case Raised(m) => Step(w, Failed(Rethrow(Generic(m))), [RepoAdd(c, it)])
        case Declined => Step(w, Done, [RepoAdd(c, it)])
        case Succeeded =>
          var stored := WithTable(w, c, Inserted(TableOf(w, c), it));
          var doc := IndexBody(it);
          var (cluster, res) := AddEffect(w.cluster, doc);
          Step(stored.(cluster := cluster),
               if res.Err? then Failed(Rethrow(res.error)) else Done,
               [RepoAdd(c, it), IndexAdd(doc)])
  }

  /** `remove` as a function of the world: a null type is invalid, an
      unknown type propagates unchanged, a missing id fails with
      `NoItem`; otherwise the row is deleted and, only if the delete
      reports `true`, the item's name is removed from the category's
      index.  Errors are not rewrapped. */
  ghost function RemoveSpec(w: World, id: int, itemType: Value, reply: StoreReply,
                            matches: (string, Value) -> bool): (step: Step)
    requires Consistent(w)
  {
    if itemType == Null then Step(w, Failed(InvalidItem), [])
    else
      match CategoryOf(itemType)
      case None => Step(w, Failed(InvalidItemType), [])
      case Some(c) =>
        var t := TableOf(w, c);
        if id !in t.rows then Step(w, Failed(NoItem), [RepoFind(c, id)])
        else
          var found := [RepoFind(c, id), RepoDelete(c, id)];
          var name := t.rows[id].name;
          match reply
          case Raised(m) => Step(w, Failed(Generic(m)), found)
          case Declined => Step(w, Done, found)
          case Succeeded =>
            var deleted := WithTable(w, c, Removed(t, id));
            var (cluster, res) := RemoveEffect(w.cluster, c.Name(), name, matches);
            Step(deleted.(cluster := cluster),
                 if res.Err? then Failed(res.error) else Done,
                 found + [IndexRemove(c.Name(), name)])
  }

  /** The call log holds a call to the index service. */
  predicate CallsIndex(calls: seq<Call>) {
    exists i :: 0 <= i < |calls| && (calls[i].IndexAdd? || calls[i].IndexRemove? || calls[i].IndexSearch?)
  }

  /** The item `add` writes passes normalisation and names a category. */
  ghost predicate Routable(item: Item) {
    Normalize(item).Ok? && CategoryOf(Get(item, "type")).Some?
  }

  /** An item without a type is rejected before any collaborator is
      called, and nothing changes. */
  lemma AddWithoutTypeCallsNothing(w: World, item: Item, reply: StoreReply)
    requires Consistent(w) && StoreAccepts(item, reply) && !IsSet(item, "type")
    ensures AddSpec(w, item, reply) == Step(w, Failed(InvalidItem), [])
  {
  }

  /** An unknown type keeps its own error (the lookup is outside the
      try block) and no write happens. */
  lemma AddUnknownTypeWritesNothing(w: World, item: Item, reply: StoreReply)
    requires Consistent(w) && StoreAccepts(item, reply)
    requires Normalize(item).Ok? && CategoryOf(Get(item, "type")).None?
    ensures AddSpec(w, item, reply) == Step(w, Failed(InvalidItemType), [])
  {
    assert Get(Normalize(item).value, "type") == Get(item, "type");
  }

  /** The repository receives the item with its quantity multiplied by
      1000 exactly when the unit is `"kg"`, and every other entry as
      given. */
  lemma AddWritesConvertedItem(w: World, item: Item, reply: StoreReply)
    requires Consistent(w) && StoreAccepts(item, reply) && Routable(item)
    ensures var step := AddSpec(w, item, reply);
      var it := Normalize(item).value;
      && step.calls[0] == RepoAdd(CategoryOf(Get(item, "type")).value, it)
      && (Get(item, "unit") == Str(KILOGRAMS) ==>
            Get(it, "quantity") == Num(ConvertToGrams(NumericValue(Get(item, "quantity")).value)))
      && (Get(item, "unit") != Str(KILOGRAMS) ==> Get(it, "quantity") == Get(item, "quantity"))
      && forall k :: k in item && k != "quantity" ==> k in it && it[k] == item[k]
  {
    var it := Normalize(item).value;
    assert Get(it, "type") == Get(item, "type");
    if Get(item, "unit") == Str(KILOGRAMS) {
      UnitConverter.RoundTrip(NumericValue(Get(item, "quantity")).value);
    }
  }

  /** A quantity in kilograms written as a numeral string is converted
      like a number: `"2"` kilograms of apples reach the repository as
      2000 grams, and the index receives the same quantity. */
  lemma AddConvertsNumeralKilograms(w: World)
    requires Consistent(w)
    ensures var item := map["type" := Str(FRUIT), "name" := Str("Apple"), "quantity" := Str("2"), "unit" := Str(KILOGRAMS)];
      var step := AddSpec(w, item, Succeeded);
      var written := item["quantity" := Num(2000.0)];
      && step.calls == [RepoAdd(Fruit, written), IndexAdd(written)]
      && TableOf(step.world, Fruit).rows[w.fruit.nextId] == Entity(w.fruit.nextId, "Apple", 2000.0)
  {
    var item := map["type" := Str(FRUIT), "name" := Str("Apple"), "quantity" := Str("2"), "unit" := Str(KILOGRAMS)];
    RenderedNumeralRoundTrip(2);
    assert Render(2) == "2";
    assert Normalize(item) == Ok(item["quantity" := Num(2000.0)]);
    assert IndexBody(item["quantity" := Num(2000.0)]) == item["quantity" := Num(2000.0)];
  }

  /** Whatever form the quantity takes (a number or a numeral string),
      the stored row holds the number it stands for, in grams: converted
      when the unit is `"kg"`, as given otherwise.  In any other unit the
      index receives the quantity exactly as given. */
  lemma AddStoresNumericQuantity(w: World, item: Item, q: real)
    requires Consistent(w) && IsSet(item, "type") && CategoryOf(Get(item, "type")).Some?
    requires Get(item, "name").Str? && NumericValue(Get(item, "quantity")) == Some(q)
    ensures StoreAccepts(item, Succeeded) && Routable(item)
    ensures var step := AddSpec(w, item, Succeeded);
      var c := CategoryOf(Get(item, "type")).value;
      && TableOf(w, c).nextId in TableOf(step.world, c).rows
      && TableOf(step.world, c).rows[TableOf(w, c).nextId].quantity
         == (if Get(item, "unit") == Str(KILOGRAMS) then ConvertToGrams(q) else q)
      && (Get(item, "unit") != Str(KILOGRAMS) ==> step.calls[1] == IndexAdd(IndexBody(item["quantity" := Get(item, "quantity")])))
  {
    var it := Normalize(item).value;
    assert Get(it, "type") == Get(item, "type") && Get(it, "name") == Get(item, "name");
    if Get(item, "unit") == Str(KILOGRAMS) {
      UnitConverter.RoundTrip(q);
      assert NumericValue(Get(it, "quantity")) == Some(ConvertToGrams(q));
    } else {
      assert Get(it, "quantity") == Get(item, "quantity");
    }
  }

  /** The index is called only after the repository write, exactly when
      that write reports `true`, and it receives the written item
      without its `id`: type, name, unit and the converted quantity
      unchanged. */
  lemma AddIndexesOnlyStoredItems(w: World, item: Item, reply: StoreReply)
    requires Consistent(w) && StoreAccepts(item, reply)
    ensures var step := AddSpec(w, item, reply);
      && (CallsIndex(step.calls) <==> Routable(item) && reply == Succeeded)
      && (CallsIndex(step.calls) ==>
            var it := Normalize(item).value;
            && step.calls == [RepoAdd(CategoryOf(Get(item, "type")).value, it), IndexAdd(IndexBody(it))]
            && "id" !in IndexBody(it)
            && forall k :: k in it && k != "id" ==> IndexBody(it)[k] == it[k])
      && (Routable(item) && reply == Declined ==> step.status == Done && step.world == w)
  {
    var step := AddSpec(w, item, reply);
    if Normalize(item).Ok? {
      assert Get(Normalize(item).value, "type") == Get(item, "type");
    }
    if CallsIndex(step.calls) {
      var i :| 0 <= i < |step.calls| && (step.calls[i].IndexAdd? || step.calls[i].IndexRemove? || step.calls[i].IndexSearch?);
    }
    if Routable(item) && reply == Succeeded {
      assert step.calls[1].IndexAdd?;
    }
  }

  /** A failing repository write surfaces as a plain error with the same
      message, and nothing else happens; a failing index write surfaces
      the same way, but the row already written stays. */
  lemma AddFailuresKeepMessage(w: World, item: Item, reply: StoreReply)
    requires Consistent(w) && StoreAccepts(item, reply) && Routable(item)
    ensures var step := AddSpec(w, item, reply);
      && (reply.Raised? ==>
            step.status == Failed(Generic(reply.msg)) && step.world == w && !CallsIndex(step.calls))
      && (reply == Succeeded && !w.cluster.alive ==>
            var c := CategoryOf(Get(item, "type")).value;
            && step.status.Failed? && step.status.error.Generic?
            && Message(step.status.error) == Message(NoAliveNodes)
            && TableOf(step.world, c) == Inserted(TableOf(w, c), Normalize(item).value)
            && step.world.cluster.indices == w.cluster.indices)
  {
    AddIndexesOnlyStoredItems(w, item, reply);
    assert Get(Normalize(item).value, "type") == Get(item, "type");
  }

  /** After an add that succeeds on both sides, the new row and the last
      document of the category's index carry the same name and
      quantity. */
  lemma AddKeepsStoresInStep(w: World, item: Item)
    requires Consistent(w) && StoreAccepts(item, Succeeded) && Routable(item) && w.cluster.alive
    ensures var step := AddSpec(w, item, Succeeded);
      var c := CategoryOf(Get(item, "type")).value;
      var id := TableOf(w, c).nextId;
      && step.status == Done
      && id in TableOf(step.world, c).rows
      && c.Name() in step.world.cluster.indices
      && var docs := step.world.cluster.indices[c.Name()].docs;
         && |docs| > 0
         && Get(docs[|docs| - 1], "name") == Str(TableOf(step.world, c).rows[id].name)
         && NumericValue(Get(docs[|docs| - 1], "quantity")) == Some(TableOf(step.world, c).rows[id].quantity)
  {
    var it := Normalize(item).value;
    var c := CategoryOf(Get(item, "type")).value;
    assert Get(it, "type") == Get(item, "type");
    var doc := IndexBody(it);
    assert Get(doc, "type") == Str(c.Name());
    AddStoresItem(w.cluster, doc);
  }

  /** A null type is invalid and an unknown one keeps its own error;
      neither reaches a repository. */
  lemma RemoveRejectsUnknownTypes(w: World, id: int, itemType: Value, reply: StoreReply,
                                  matches: (string, Value) -> bool)
    requires Consistent(w) && CategoryOf(itemType).None?
    ensures RemoveSpec(w, id, itemType, reply, matches)
            == Step(w, Failed(if itemType == Null then InvalidItem else InvalidItemType), [])
  {
  }

  /** A missing id fails with `NoItem` after the lookup, without a
      delete and without an index call. */
  lemma RemoveMissingIdDeletesNothing(w: World, id: int, c: Category, reply: StoreReply,
                                      matches: (string, Value) -> bool)
    requires Consistent(w) && id !in TableOf(w, c).rows
    ensures RemoveSpec(w, id, Str(c.Name()), reply, matches) == Step(w, Failed(NoItem), [RepoFind(c, id)])
  {
    CategoryNameRoundTrip(c, c);
  }

  /** For a stored row, the index is asked to remove the row's name from
      the category's index exactly when the delete reports `true`; a
      delete reporting `false` returns normally and changes nothing; an
      index failure propagates unchanged and the deleted row stays
      deleted. */
  lemma RemoveIndexesOnlyDeletedItems(w: World, id: int, c: Category, reply: StoreReply,
                                      matches: (string, Value) -> bool)
    requires Consistent(w) && id in TableOf(w, c).rows
    ensures var step := RemoveSpec(w, id, Str(c.Name()), reply, matches);
      var name := TableOf(w, c).rows[id].name;
      && (CallsIndex(step.calls) <==> reply == Succeeded)
      && (reply == Succeeded ==>
            && step.calls == [RepoFind(c, id), RepoDelete(c, id), IndexRemove(c.Name(), name)]
            && TableOf(step.world, c) == Removed(TableOf(w, c), id)
            && (!w.cluster.alive ==> step.status == Failed(NoAliveNodes))
            && (w.cluster.alive ==>
                  step.status == Done
                  && step.world.cluster == RemoveEffect(w.cluster, c.Name(), name, matches).0))
      && (reply == Declined ==>
            step == Step(w, Done, [RepoFind(c, id), RepoDelete(c, id)]))
      && (reply.Raised? ==>
            step == Step(w, Failed(Generic(reply.msg)), [RepoFind(c, id), RepoDelete(c, id)]))
  {
    CategoryNameRoundTrip(c, c);
    var step := RemoveSpec(w, id, Str(c.Name()), reply, matches);
    if CallsIndex(step.calls) {
      var i :| 0 <= i < |step.calls| && (step.calls[i].IndexAdd? || step.calls[i].IndexRemove? || step.calls[i].IndexSearch?);
    }
    if reply == Succeeded {
      assert step.calls[2].IndexRemove?;
    }
  }

  class StorageService {
    const factory: RepositoryFactory
    const es: ElasticsearchService
    ghost var calls: seq<Call>

    constructor (factory: RepositoryFactory, es: ElasticsearchService)
      ensures this.factory == factory && this.es == es && calls == []
    {
      this.factory := factory;
      this.es := es;
      calls := [];
    }

    ghost predicate Valid()
      reads factory.fruitRepo, factory.vegetableRepo
    {
      factory.Valid() && factory.fruitRepo.Valid() && factory.vegetableRepo.Valid()
    }

    ghost function State(): (w: World)
      reads factory.fruitRepo, factory.vegetableRepo, es.client
      ensures Valid() ==> Consistent(w)
    {
      World(factory.fruitRepo.Snapshot(), factory.vegetableRepo.Snapshot(), es.client.State())
    }

    /** The repository serving category `c`. */
    function RepoFor(c: Category): (repo: Repository)
      ensures factory.Valid() ==> repo.category == c
    {
      match c
      case Fruit => factory.fruitRepo
      case Vegetable => factory.vegetableRepo
    }

    method Add(item: Item, storeReply: StoreReply) returns (r: Status)
      requires Valid() && StoreAccepts(item, storeReply)
      modifies this`calls, factory.fruitRepo, factory.vegetableRepo, es.client`indices, es.client`requests
      ensures Valid()
      ensures var step := AddSpec(old(State()), item, storeReply);
        State() == step.world && r == step.status && calls == old(calls) + step.calls
    {
      var normalized := Normalize(item);
      if normalized.Err? {
        return Failed(normalized.error);
      }
      var it := normalized.value;
      var resolved := factory.GetRepository(Get(it, "type"));
      if resolved.Err? {
        return Failed(resolved.error);
      }
      var repo := resolved.value;
      ghost var c := CategoryOf(Get(it, "type")).value;
      assert repo == RepoFor(c);
      calls := calls + [RepoAdd(repo.category, it)];
      var added := repo.Add(it, storeReply);
      if added.Err? {
        return Failed(Rethrow(added.error));
      }
      if added.value {
        var doc := IndexBody(it);
        calls := calls + [IndexAdd(doc)];
        var indexed := es.Add(doc);
        if indexed.Err? {
          return Failed(Rethrow(indexed.error));
        }
      }
      r := Done;
    }

    method Remove(id: int, itemType: Value, deleteReply: StoreReply, matches: (string, Value) -> bool)
      returns (r: Status)
      requires Valid()
      modifies this`calls, factory.fruitRepo, factory.vegetableRepo, es.client`indices, es.client`requests
      ensures Valid()
      ensures var step := RemoveSpec(old(State()), id, itemType, deleteReply, matches);
        State() == step.world && r == step.status && calls == old(calls) + step.calls
    {
      if itemType == Null {
        return Failed(InvalidItem);
      }
      var resolved := factory.GetRepository(itemType);
      if resolved.Err? {
        return Failed(resolved.error);
      }
      var repo := resolved.value;
      ghost var c := CategoryOf(itemType).value;
      assert repo == RepoFor(c);
      calls := calls + [RepoFind(repo.category, id)];
      var existing := repo.Find(id);
      if existing.None? {
        return Failed(NoItem);
      }
      var entity := existing.value;
      calls := calls + [RepoDelete(repo.category, entity.id)];
      var deleted := repo.Delete(entity, deleteReply);
      if deleted.Err? {
        return Failed(deleted.error);
      }
      if deleted.value {
        calls := calls + [IndexRemove(itemType.s, entity.name)];
        var removed := es.Remove(itemType.s, entity.name, matches);
        if removed.Err? {
          return Failed(removed.error);
        }
      }
      r := Done;
    }

    /** The rows `list` fetches: those whose name contains `name` when a
        name is given, otherwise all of them. */
    ghost function Fetched(repo: Repository, name: string): (rows: seq<Entity>)
      reads repo
    {
      if name != "" then repo.FindByName(name) else repo.FindAll()
    }

    /** List a category: an unknown type fails; otherwise one entry per
        fetched row, in the same order, with the quantity in the
        requested unit. */
    method List(itemType: Value, unit: string, name: string) returns (r: Result<seq<Listed>>)
      requires Valid()
      ensures r.Ok? <==> CategoryOf(itemType).Some?
      ensures r.Err? ==> r.error == InvalidItemType
      ensures r.Ok? ==>
                var fetched := Fetched(RepoFor(CategoryOf(itemType).value), name);
                && |r.value| == |fetched|
                && forall i :: 0 <= i < |fetched| ==> r.value[i] == ListEntry(fetched[i], unit)
    {
      var resolved := factory.GetRepository(itemType);
      if resolved.Err? {
        return Err(resolved.error);
      }
      var repo := resolved.value;
      var items: seq<Entity>;
      if name != "" {
        items := repo.FindByName(name);
      } else {
        items := repo.FindAll();
      }
      var listed := ProcessItems(items, unit);
      r := Ok(listed);
    }

    /** Turn fetched rows into listing entries, one per row, in order. */
    method ProcessItems(entities: seq<Entity>, unit: string) returns (items: seq<Listed>)
      ensures |items| == |entities|
      ensures forall i :: 0 <= i < |entities| ==> items[i] == ListEntry(entities[i], unit)
    {
      items := [];
      for n := 0 to |entities|
        invariant |items| == n
        invariant forall i :: 0 <= i < n ==> items[i] == ListEntry(entities[i], unit)
      {
        var e := entities[n];
        var quantity := if unit == KILOGRAMS then ConvertToKilograms(e.quantity) else e.quantity;
        items := items + [Listed(e.id, e.name, quantity)];
      }
    }

    /** Name search is handed to the index service as it is. */
    method SearchByName(name: string, hits: seq<Hit>) returns (r: Result<seq<Item>>)
      modifies this`calls, es.client`requests
      ensures (es.client.State(), r) == SearchEffect(old(es.client.State()), name, hits)
      ensures calls == old(calls) + [IndexSearch(name)]
    {
      calls := calls + [IndexSearch(name)];
      r := es.SearchByName(name, hits);
    }
  }
}
