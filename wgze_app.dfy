/** The request handlers of the earlier application
    (wgze-hono/src/index.ts) that change the tables. Each builds a
    `Database` over the request's database handle, checks the form, calls
    it, and answers the re-rendered dish list or a message. */
module WgzeApp {

  import opened Wrappers
  import opened Staleness
  import opened Tables
  import opened Listing
  import opened FoodListView
  import opened WgzeDatabase

  datatype AppResponse =
    | FieldsRequired            // 400: "Food name and date are required"
    | UnknownDish               // 400: "Diese Speise existiert nicht! …"
    | MealAdded                 // "Mahlzeit erfolgreich hinzugefügt!"
    | NameRequired              // 400: "Food name is required"
    | DishList(view: View)      // the re-rendered `FoodList`
    | ServerError(message: string)  // 500, from the handler's `catch`

  function Status(r: AppResponse): (code: int)
    ensures code == 400 <==> r.FieldsRequired? || r.UnknownDish? || r.NameRequired?
    ensures code == 500 <==> r.ServerError?
  {
    match r
    case FieldsRequired => 400
    case UnknownDish => 400
    case NameRequired => 400
    case ServerError(_) => 500
    case MealAdded => 200
    case DishList(_) => 200
  }

  /** POST /add-meal: both fields are required and the dish must exist;
      no dish is created here. The `catch` (500) is not reached, since the
      name was found just before `addMeal` looks it up. */
  method AddMealRoute(db: D1, foodName: Option<string>, date: Option<string>, notes: Option<string>)
    returns (resp: AppResponse)
    requires db.Valid()
    modifies db
    ensures db.Valid() && db.foods == old(db.foods)
    ensures !Present(foodName) || !Present(date) ==> resp == FieldsRequired && unchanged(db)
    ensures Present(foodName) && Present(date) && !NameInUse(old(db.foods), foodName.value) ==>
      resp == UnknownDish && unchanged(db)
    ensures Present(foodName) && Present(date) && NameInUse(old(db.foods), foodName.value) ==>
      && resp == MealAdded
      && exists id :: (forall m :: m in old(db.meals) ==> m.id != id) &&
           db.meals == old(db.meals) +
             [Meal(id, FirstNamed(db.foods, foodName.value).value.id, date.value, StoredNotes(notes))]
    ensures DatesPresent(old(db.meals)) ==> DatesPresent(db.meals)
    ensures Status(resp) != 500
  {
    var database := new Database(db);
    if !Present(foodName) || !Present(date) {
      return FieldsRequired;
    }
    var known := database.FoodExists(foodName.value);
    if !known {
      return UnknownDish;
    }
    var outcome := database.AddMeal(foodName.value, date.value, notes);
    resp := if outcome == Done then MealAdded else ServerError("Fehler beim Hinzufügen der Mahlzeit");
  }

  /** POST /add-food: the name is required; the food is added even when
      its name is taken, and the list is answered. */
  method AddFoodRoute(db: D1, name: Option<string>, notes: Option<string>, now: Clock)
    returns (resp: AppResponse)
    requires db.Valid() && ValidClock(now)
    modifies db
    ensures db.Valid() && db.meals == old(db.meals)
    ensures !Present(name) ==> resp == NameRequired && unchanged(db)
    ensures Present(name) ==>
      && (exists id :: !HasFood(old(db.foods), id) &&
            db.foods == old(db.foods) + [Food(id, name.value, StoredNotes(notes))])
      && resp == DishList(Render(FoodsOldestEatenFirst(db.foods, db.meals, now)))
    ensures Present(name) && NameInUse(old(db.foods), name.value) ==> !UniqueNames(db.foods)
  {
    var database := new Database(db);
    if !Present(name) {
      return NameRequired;
    }
    database.AddFood(name.value, notes);
    if NameInUse(old(db.foods), name.value) {
      var id :| !HasFood(old(db.foods), id) &&
        db.foods == old(db.foods) + [Food(id, name.value, StoredNotes(notes))];
      AddingATakenNameDuplicates(old(db.foods), Food(id, name.value, StoredNotes(notes)));
    }
    var foods := database.GetFoodsWithLastMeal(now);
    resp := DishList(Render(foods));
  }

  /** POST /edit-food/:id: the name is required; otherwise the row with
      that id is updated, whatever other dish has the name. */
  method EditFoodRoute(db: D1, id: int, name: Option<string>, notes: Option<string>, now: Clock)
    returns (resp: AppResponse)
    requires db.Valid() && ValidClock(now)
    modifies db
    ensures db.Valid() && db.meals == old(db.meals)
    ensures !Present(name) ==> resp == NameRequired && unchanged(db)
    ensures Present(name) ==>
      && db.foods == UpdatedFoods(old(db.foods), id, name.value, StoredNotes(notes))
      && resp == DishList(Render(FoodsOldestEatenFirst(db.foods, db.meals, now)))
    ensures !HasFood(old(db.foods), id) ==> db.foods == old(db.foods)
  {
    var database := new Database(db);
    if !Present(name) {
      return NameRequired;
    }
    database.EditFood(id, name.value, notes);
    var foods := database.GetFoodsWithLastMeal(now);
    resp := DishList(Render(foods));
  }

  /** DELETE /delete-food/:id: the dish and its meals go; the list is
      answered. */
  method DeleteFoodRoute(db: D1, id: int, now: Clock) returns (resp: AppResponse)
    requires db.Valid() && ValidClock(now)
    modifies db
    ensures db.Valid()
    ensures db.foods == WithoutFood(old(db.foods), id) && db.meals == WithoutMealsOf(old(db.meals), id)
    ensures resp == DishList(Render(FoodsOldestEatenFirst(db.foods, db.meals, now)))
  {
    var database := new Database(db);
    database.DeleteFood(id);
    var foods := database.GetFoodsWithLastMeal(now);
    resp := DishList(Render(foods));
  }
}
