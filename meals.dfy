/** The meal routes of the current application (src/routes/meals.ts): the
    meal history, logging a meal (creating its dish on the fly when no dish
    has that name) and deleting a meal. The same history query serves the
    earlier application's `getMeals`. */
module Meals {

  import opened Wrappers
  import opened Strings
  import opened Sorting
  import opened Calendar
  import opened Tables
  import opened Listing

  /** A history row: the meal with its dish's name and its notes read
      through `COALESCE(m.notes, '')`. */
  datatype MealRow = MealRow(id: int, foodId: int, foodName: string, date: string, notes: string)

  /** `JOIN foods f ON m.food_id = f.id` for one meal. */
  function JoinRow(foods: seq<Food>, m: Meal): (r: MealRow)
    requires HasFood(foods, m.foodId)
    ensures r.id == m.id && r.foodId == m.foodId && r.date == m.date
    ensures exists f :: f in foods && f.id == m.foodId && r.foodName == f.name
    ensures r.notes == "" <==> !Present(m.notes)
    ensures Present(m.notes) ==> r.notes == m.notes.value
  {
    var f := FoodById(foods, m.foodId).value;
    MealRow(m.id, m.foodId, f.name, m.date, if m.notes.Some? then m.notes.value else "")
  }

  /** The inner join in meal order: meals whose dish is gone are dropped. */
  function Joined(foods: seq<Food>, meals: seq<Meal>): (r: seq<MealRow>)
    ensures |r| <= |meals|
    ensures MealsReferToFoods(foods, meals) ==> |r| == |meals|
    ensures forall x :: x in r <==>
      exists m :: m in meals && HasFood(foods, m.foodId) && x == JoinRow(foods, m)
  {
    if |meals| == 0 then []
    else
      var rest := Joined(foods, meals[1..]);
      assert meals == [meals[0]] + meals[1..];
      if HasFood(foods, meals[0].foodId) then [JoinRow(foods, meals[0])] + rest else rest
  }

  /** `ORDER BY m.date DESC`, on the date text. */
  predicate NewestFirst(a: MealRow, b: MealRow)
  {
    LessEq(b.date, a.date)
  }

  lemma NewestFirstIsTotal()
    ensures TotalPreorder(NewestFirst)
  {
    forall a: MealRow, b: MealRow
      ensures NewestFirst(a, b) || NewestFirst(b, a)
    {
      LessTotal(a.date, b.date);
    }
    forall a: MealRow, b: MealRow, c: MealRow | NewestFirst(a, b) && NewestFirst(b, c)
      ensures NewestFirst(a, c)
    {
      LessEqTransitive(c.date, b.date, a.date);
    }
  }

  /** The meal history: every meal whose dish exists, latest date text
      first. */
  function History(foods: seq<Food>, meals: seq<Meal>): (r: seq<MealRow>)
    ensures Sorted(r, NewestFirst)
    ensures multiset(r) == multiset(Joined(foods, meals))
  {
    NewestFirstIsTotal();
    SortBy(Joined(foods, meals), NewestFirst)
  }

  /** The history shows exactly the meals whose dish exists, each with its
      dish's name; when every meal refers to a stored dish none is left out. */
  lemma HistoryShowsMealsWithTheirDish(foods: seq<Food>, meals: seq<Meal>)
    ensures forall x :: x in History(foods, meals) <==>
      exists m :: m in meals && HasFood(foods, m.foodId) && x == JoinRow(foods, m)
    ensures MealsReferToFoods(foods, meals) ==> |History(foods, meals)| == |meals|
  {
    var r, j := History(foods, meals), Joined(foods, meals);
    forall x
      ensures x in r <==> x in j
    {
      assert x in r <==> x in multiset(r);
      assert x in j <==> x in multiset(j);
    }
    assert |r| == |multiset(r)| == |multiset(j)| == |j|;
  }

  /** With `YYYY-MM-DD` dates, the history runs from the latest meal back
      in time. */
  lemma HistoryIsNewestFirst(foods: seq<Food>, meals: seq<Meal>, i: int, k: int)
    requires 0 <= i < k < |History(foods, meals)|
    requires Parse(History(foods, meals)[i].date).Some? && Parse(History(foods, meals)[k].date).Some?
    ensures DayNumber(Parse(History(foods, meals)[k].date).value) <=
            DayNumber(Parse(History(foods, meals)[i].date).value)
  {
    var r := History(foods, meals);
    assert NewestFirst(r[i], r[k]);
    if r[k].date != r[i].date {
      IsoTextOrderIsChronological(r[k].date, r[i].date);
    }
  }

  /** What the meal form is told. */
  datatype MealResponse =
    | FieldsRequired                    // 400: "Food name and date are required"
    | Added                             // "Mahlzeit erfolgreich hinzugefügt!"
    | AddedWithNewDish(dish: string)    // "… Die neue Speise "<dish>" wurde automatisch erstellt."

  function Status(r: MealResponse): (code: int)
    ensures code == 400 <==> r.FieldsRequired?
  {
    if r.FieldsRequired? then 400 else 200
  }

  /** POST /meals: refuse when the dish name or the date is absent or
      empty; otherwise create the dish (without notes) if no dish has
      exactly that name, then add one meal for the dish of that name with
      the date as given and empty notes stored as NULL. */
  method AddMeal(db: D1, foodName: Option<string>, date: Option<string>, notes: Option<string>)
    returns (resp: MealResponse)
    requires db.Valid()
    modifies db
    ensures db.Valid()
    ensures !Present(foodName) || !Present(date) ==> resp == FieldsRequired && unchanged(db)
    ensures Present(foodName) && Present(date) && NameInUse(old(db.foods), foodName.value) ==>
      resp == Added && db.foods == old(db.foods)
    ensures Present(foodName) && Present(date) && !NameInUse(old(db.foods), foodName.value) ==>
      && resp == AddedWithNewDish(foodName.value)
      && exists id :: !HasFood(old(db.foods), id) && db.foods == old(db.foods) + [Food(id, foodName.value, None)]
    ensures Present(foodName) && Present(date) ==>
      && FirstNamed(db.foods, foodName.value).Some?
      && exists id :: (forall m :: m in old(db.meals) ==> m.id != id) &&
           db.meals == old(db.meals) +
             [Meal(id, FirstNamed(db.foods, foodName.value).value.id, date.value, StoredNotes(notes))]
    ensures UniqueNames(old(db.foods)) ==> UniqueNames(db.foods)
    ensures DatesPresent(old(db.meals)) ==> DatesPresent(db.meals)
  {
    if !Present(foodName) || !Present(date) {
      return FieldsRequired;
    }
    var known := FirstNamed(db.foods, foodName.value) != None;
    var message := Added;
    if !known {
      var dishId := db.InsertFood(foodName.value, None);
      if UniqueNames(old(db.foods)) {
        AppendKeepsUnique(old(db.foods), Food(dishId, foodName.value, None), FoodName);
      }
      assert Food(dishId, foodName.value, None) in db.foods;
      message := AddedWithNewDish(foodName.value);
    }
    var found := FirstNamed(db.foods, foodName.value);
    if found == None {
      // `throw new Error('Food not found')`: the dish existed or was just created
      assert false;
    }
    var mealId := db.InsertMeal(found.value.id, date.value, StoredNotes(notes));
    resp := message;
  }

  /** DELETE /meals/:id: delete the meal with that id (none if no meal
      has it) and answer the history. */
  method DeleteMeal(db: D1, id: int) returns (history: seq<MealRow>)
    requires db.Valid()
    modifies db
    ensures db.Valid()
    ensures db.meals == WithoutMeal(old(db.meals), id) && db.foods == old(db.foods)
    ensures (forall m :: m in old(db.meals) ==> m.id != id) ==> db.meals == old(db.meals)
    ensures history == History(db.foods, db.meals)
  {
    db.DeleteMeal(id);
    history := History(db.foods, db.meals);
  }
}
