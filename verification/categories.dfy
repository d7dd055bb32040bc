/** The category registry: names are unique, and a category some event still uses
    cannot be deleted. */
module Categories {
  import opened Common
  import E = Events

  datatype Category = Category(name: string)

  type CategoryStore = map<nat, Category>

  /** `existsByName`. */
  predicate ExistsByName(cats: CategoryStore, name: string) {
    exists id | id in cats :: cats[id].name == name
  }

  /** No two categories share a name. */
  predicate NamesUnique(cats: CategoryStore) {
    forall a, b | a in cats && b in cats && a != b :: cats[a].name != cats[b].name
  }

  /** Every event's category is registered. */
  predicate CategoriesResolve(events: E.EventStore, cats: CategoryStore) {
    forall id | id in events :: events[id].category in cats
  }

  function GetCategoryById(cats: CategoryStore, catId: nat): (r: Result<Category>)
    ensures r.Ok? <==> catId in cats
    ensures r.Err? ==> r.error == CategoryNotFound
    ensures r.Ok? ==> r.value == cats[catId]
  {
    if catId in cats then Ok(cats[catId]) else Err(CategoryNotFound)
  }

  function CreateCategory(cats: CategoryStore, name: string, newId: nat): (r: Result<CategoryStore>)
    requires newId !in cats
    ensures r.Ok? <==> !ExistsByName(cats, name)
    ensures r.Err? ==> r.error == DataIntegrityViolation
    ensures r.Ok? ==> r.value == cats[newId := Category(name)]
  {
    if ExistsByName(cats, name) then Err(DataIntegrityViolation)
    else Ok(cats[newId := Category(name)])
  }

  /** Renaming: refused only when another category already holds the name; keeping
      one's own name is a no-op rename. */
  function UpdateCategory(cats: CategoryStore, catId: nat, name: string): (r: Result<CategoryStore>)
    ensures catId !in cats ==> r == Err(CategoryNotFound)
    ensures catId in cats ==>
      (r.Ok? <==> cats[catId].name == name || !ExistsByName(cats, name))
    ensures catId in cats && r.Err? ==> r.error == DataIntegrityViolation
    ensures r.Ok? ==> r.value == cats[catId := Category(name)]
    ensures catId in cats && cats[catId].name == name ==> r == Ok(cats)
  {
    if catId !in cats then Err(CategoryNotFound)
    else
      var c := cats[catId];
      if c.name != name && ExistsByName(cats, name) then Err(DataIntegrityViolation)
      else
        assert c.name == name ==> cats[catId := Category(name)] == cats;
        Ok(cats[catId := Category(name)])
  }

  function DeleteCategory(events: E.EventStore, cats: CategoryStore, catId: nat): (r: Result<CategoryStore>)
    ensures catId !in cats ==> r == Err(CategoryNotFound)
    ensures catId in cats ==> (r.Ok? <==> !E.CategoryInUse(events, catId))
    ensures catId in cats && r.Err? ==> r.error == Forbidden
    ensures r.Ok? ==> r.value.Keys == cats.Keys - {catId}
    ensures r.Ok? ==> forall id | id in r.value :: r.value[id] == cats[id]
  {
    if catId !in cats then Err(CategoryNotFound)
    else if E.CategoryInUse(events, catId) then Err(Forbidden)
    else Ok(cats - {catId})
  }

  lemma CreateKeepsNamesUnique(cats: CategoryStore, name: string, newId: nat)
    requires newId !in cats && NamesUnique(cats)
    requires CreateCategory(cats, name, newId).Ok?
    ensures NamesUnique(CreateCategory(cats, name, newId).value)
  {
    var cats' := CreateCategory(cats, name, newId).value;
    forall a, b | a in cats' && b in cats' && a != b ensures cats'[a].name != cats'[b].name {
      if a == newId {
        assert cats[b].name != name;
      } else if b == newId {
        assert cats[a].name != name;
      }
    }
  }

  lemma UpdateKeepsNamesUnique(cats: CategoryStore, catId: nat, name: string)
    requires NamesUnique(cats)
    requires UpdateCategory(cats, catId, name).Ok?
    ensures NamesUnique(UpdateCategory(cats, catId, name).value)
  {
    var cats' := UpdateCategory(cats, catId, name).value;
    forall a, b | a in cats' && b in cats' && a != b ensures cats'[a].name != cats'[b].name {
      if a == catId && cats[catId].name != name {
        assert cats[b].name != name;
      } else if b == catId && cats[catId].name != name {
        assert cats[a].name != name;
      }
    }
  }

  /** A delete never strands an event: the category it removes is unused. */
  lemma DeleteKeepsEventsResolved(events: E.EventStore, cats: CategoryStore, catId: nat)
    requires CategoriesResolve(events, cats)
    requires DeleteCategory(events, cats, catId).Ok?
    ensures CategoriesResolve(events, DeleteCategory(events, cats, catId).value)
  {
    var cats' := DeleteCategory(events, cats, catId).value;
    forall id | id in events ensures events[id].category in cats' {
      assert events[id].category != catId;
    }
  }

  // ---- operation sequences ----

  datatype CategoryOp =
    | CreateOp(name: string, newId: nat)
    | UpdateOp(catId: nat, name: string)
    | DeleteOp(catId: nat)

  /** One operation; a failed one, or a create whose id is taken, changes nothing. */
  function Step(events: E.EventStore, cats: CategoryStore, op: CategoryOp): CategoryStore {
    match op
    case CreateOp(name, id) =>
      if id in cats then cats
      else
        var r := CreateCategory(cats, name, id);
        if r.Ok? then r.value else cats
    case UpdateOp(id, name) =>
      var r := UpdateCategory(cats, id, name);
      if r.Ok? then r.value else cats
    case DeleteOp(id) =>
      var r := DeleteCategory(events, cats, id);
      if r.Ok? then r.value else cats
  }

  function Run(events: E.EventStore, cats: CategoryStore, ops: seq<CategoryOp>): CategoryStore
    decreases |ops|
  {
    if |ops| == 0 then cats else Run(events, Step(events, cats, ops[0]), ops[1..])
  }

  lemma StepKeepsInvariants(events: E.EventStore, cats: CategoryStore, op: CategoryOp)
    requires NamesUnique(cats) && CategoriesResolve(events, cats)
    ensures NamesUnique(Step(events, cats, op)) && CategoriesResolve(events, Step(events, cats, op))
  {
    match op
    case CreateOp(name, id) =>
      if id !in cats && CreateCategory(cats, name, id).Ok? {
        CreateKeepsNamesUnique(cats, name, id);
      }
    case UpdateOp(id, name) =>
      if UpdateCategory(cats, id, name).Ok? {
        UpdateKeepsNamesUnique(cats, id, name);
      }
    case DeleteOp(id) =>
      if DeleteCategory(events, cats, id).Ok? {
        DeleteKeepsEventsResolved(events, cats, id);
      }
  }

  /** Any sequence of registry operations keeps names unique and every event's
      category registered. */
  lemma {:induction false} RunKeepsInvariants(events: E.EventStore, cats: CategoryStore, ops: seq<CategoryOp>)
    requires NamesUnique(cats) && CategoriesResolve(events, cats)
    ensures NamesUnique(Run(events, cats, ops)) && CategoriesResolve(events, Run(events, cats, ops))
    decreases |ops|
  {
    if |ops| > 0 {
      StepKeepsInvariants(events, cats, ops[0]);
      RunKeepsInvariants(events, Step(events, cats, ops[0]), ops[1..]);
    }
  }
}
