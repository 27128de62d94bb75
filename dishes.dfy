/** The dish routes of the current application (src/routes/dishes.ts):
    the dish listing ordered by name without regard to letter case, and
    the create, update and delete handlers over the two tables. Each
    handler answers either the fresh listing or a 400 with the reason. */
module Dishes {

  import opened Wrappers
  import opened Strings
  import opened Sorting
  import opened Staleness
  import opened Tables
  import opened Listing

  /** `ORDER BY f.name COLLATE NOCASE`. */
  predicate NoCaseOrder(a: FoodWithLastMeal, b: FoodWithLastMeal)
  {
    LessEq(FoldCase(a.name), FoldCase(b.name))
  }

  lemma NoCaseOrderIsTotal()
    ensures TotalPreorder(NoCaseOrder)
  {
    forall a: FoodWithLastMeal, b: FoodWithLastMeal
      ensures NoCaseOrder(a, b) || NoCaseOrder(b, a)
    {
      LessTotal(FoldCase(a.name), FoldCase(b.name));
    }
    forall a: FoodWithLastMeal, b: FoodWithLastMeal, c: FoodWithLastMeal
      | NoCaseOrder(a, b) && NoCaseOrder(b, c)
      ensures NoCaseOrder(a, c)
    {
      LessEqTransitive(FoldCase(a.name), FoldCase(b.name), FoldCase(c.name));
    }
  }

  /** `getFoodsWithLastMeal`: one row per food, ordered by name ignoring
      ASCII letter case. */
  function FoodsWithLastMeal(foods: seq<Food>, meals: seq<Meal>, now: Clock): (r: seq<FoodWithLastMeal>)
    requires ValidClock(now)
    ensures Sorted(r, NoCaseOrder)
    ensures multiset(r) == multiset(Rows(foods, meals, now)) && |r| == |foods|
  {
    NoCaseOrderIsTotal();
    SortBy(Rows(foods, meals, now), NoCaseOrder)
  }

  /** The listing holds exactly the summary rows of the stored foods. */
  lemma ListingIsOneRowPerFood(foods: seq<Food>, meals: seq<Meal>, now: Clock)
    requires ValidClock(now)
    ensures forall x :: x in FoodsWithLastMeal(foods, meals, now) <==>
      exists f :: f in foods && x == RowOf(f, meals, now)
  {
    var rows := Rows(foods, meals, now);
    var r := FoodsWithLastMeal(foods, meals, now);
    forall x
      ensures x in r <==> exists f :: f in foods && x == RowOf(f, meals, now)
    {
      assert x in r <==> x in multiset(r);
      assert x in rows <==> x in multiset(rows);
      InRows(foods, meals, now, x);
    }
  }

  /** Why a dish request was refused. */
  datatype DishError =
    | NameRequired    // "Food name is required"
    | NameTaken       // "Eine Speise mit diesem Namen existiert bereits!"
    | OtherNameTaken  // "Eine andere Speise mit diesem Namen existiert bereits!"

  /** The answer of a dish handler: the re-rendered list, or a refusal. */
  datatype DishResponse = FoodList(foods: seq<FoodWithLastMeal>) | BadRequest(error: DishError)

  function Status(r: DishResponse): (code: int)
    ensures code == 400 <==> r.BadRequest?
  {
    if r.BadRequest? then 400 else 200
  }

  /** Renaming the food with id `id` to a name no other food has keeps
      the names unique, as ids are distinct. */
  lemma RenameKeepsNamesUnique(foods: seq<Food>, id: int, name: string, notes: Option<string>)
    requires UniqueNames(foods) && IncreasingBy(foods, FoodId)
    requires !NameInUseByOther(foods, name, id)
    ensures UniqueNames(UpdatedFoods(foods, id, name, notes))
  {
    var r := UpdatedFoods(foods, id, name, notes);
    forall i, j | 0 <= i < j < |r|
      ensures r[i].name != r[j].name
    {
      assert FoodId(foods[i]) < FoodId(foods[j]);
      if foods[i].id == id {
        assert foods[j] in foods;
      } else if foods[j].id == id {
        assert foods[i] in foods;
      }
    }
  }

  /** A food may keep its own name: with unique names, the only food
      carrying it is the food itself. */
  lemma OwnNameIsNotTaken(foods: seq<Food>, i: int)
    requires UniqueNames(foods) && 0 <= i < |foods|
    ensures !NameInUseByOther(foods, foods[i].name, foods[i].id)
  {
    forall g | g in foods && g.name == foods[i].name
      ensures g == foods[i]
    {
      var j :| 0 <= j < |foods| && foods[j] == g;
    }
  }

  /** POST /dishes: refuse an absent or empty name and a name some dish
      already has exactly; otherwise insert the dish, with empty notes
      stored as NULL, and answer the new list. */
  method CreateDish(db: D1, name: Option<string>, notes: Option<string>, now: Clock)
    returns (resp: DishResponse)
    requires db.Valid() && ValidClock(now)
    modifies db
    ensures db.Valid()
    ensures !Present(name) ==> resp == BadRequest(NameRequired) && unchanged(db)
    ensures Present(name) && NameInUse(old(db.foods), name.value) ==>
      resp == BadRequest(NameTaken) && unchanged(db)
    ensures Present(name) && !NameInUse(old(db.foods), name.value) ==>
      && (exists id :: !HasFood(old(db.foods), id) &&
            db.foods == old(db.foods) + [Food(id, name.value, StoredNotes(notes))])
      && db.meals == old(db.meals)
      && resp == FoodList(FoodsWithLastMeal(db.foods, db.meals, now))
    ensures UniqueNames(old(db.foods)) ==> UniqueNames(db.foods)
  {
    if !Present(name) {
      return BadRequest(NameRequired);
    }
    var existing := FirstNamed(db.foods, name.value);
    if existing != None {
      return BadRequest(NameTaken);
    }
    var id := db.InsertFood(name.value, StoredNotes(notes));
    if UniqueNames(old(db.foods)) {
      AppendKeepsUnique(old(db.foods), Food(id, name.value, StoredNotes(notes)), FoodName);
    }
    resp := FoodList(FoodsWithLastMeal(db.foods, db.meals, now));
  }

  /** PUT /dishes/:id: refuse an absent or empty name and a name another
      dish has exactly; otherwise update the row with that id (if any) and
      answer the new list. Keeping a dish's own name is allowed. */
  method UpdateDish(db: D1, id: int, name: Option<string>, notes: Option<string>, now: Clock)
    returns (resp: DishResponse)
    requires db.Valid() && ValidClock(now)
    modifies db
    ensures db.Valid()
    ensures !Present(name) ==> resp == BadRequest(NameRequired) && unchanged(db)
    ensures Present(name) && NameInUseByOther(old(db.foods), name.value, id) ==>
      resp == BadRequest(OtherNameTaken) && unchanged(db)
    ensures Present(name) && !NameInUseByOther(old(db.foods), name.value, id) ==>
      && db.foods == UpdatedFoods(old(db.foods), id, name.value, StoredNotes(notes))
      && db.meals == old(db.meals)
      && resp == FoodList(FoodsWithLastMeal(db.foods, db.meals, now))
    ensures !HasFood(old(db.foods), id) ==> db.foods == old(db.foods) && db.meals == old(db.meals)
    ensures UniqueNames(old(db.foods)) ==> UniqueNames(db.foods)
  {
    if !Present(name) {
      return BadRequest(NameRequired);
    }
    var existing := First(db.foods, (f: Food) => f.name == name.value && f.id != id);
    if existing.Some? {
      return BadRequest(OtherNameTaken);
    }
    if UniqueNames(db.foods) {
      RenameKeepsNamesUnique(db.foods, id, name.value, StoredNotes(notes));
    }
    if !HasFood(db.foods, id) {
      UpdateMissingIsIdentity(db.foods, id, name.value, StoredNotes(notes));
    }
    db.UpdateFood(id, name.value, StoredNotes(notes));
    resp := FoodList(FoodsWithLastMeal(db.foods, db.meals, now));
  }

  /** DELETE /dishes/:id: delete the dish and, by the cascade, its meals;
      an id no dish has changes nothing. */
  method DeleteDish(db: D1, id: int, now: Clock) returns (resp: DishResponse)
    requires db.Valid() && ValidClock(now)
    modifies db
    ensures db.Valid()
    ensures db.foods == WithoutFood(old(db.foods), id) && db.meals == WithoutMealsOf(old(db.meals), id)
    ensures !HasFood(old(db.foods), id) ==> db.foods == old(db.foods) && db.meals == old(db.meals)
    ensures UniqueNames(old(db.foods)) ==> UniqueNames(db.foods)
    ensures resp == FoodList(FoodsWithLastMeal(db.foods, db.meals, now))
  {
    if !HasFood(db.foods, id) {
      DeleteMissingIsIdentity(db.foods, db.meals, id);
    }
    if UniqueNames(db.foods) {
      FilterKeepsUnique(db.foods, (f: Food) => f.id != id, FoodName);
    }
    db.DeleteFood(id);
    resp := FoodList(FoodsWithLastMeal(db.foods, db.meals, now));
  }
}
