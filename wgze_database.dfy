/** The data access class of the earlier application
    (wgze-hono/src/database.ts). It runs the same statements as the
    current application, but without any duplicate-name check, and it
    lists dishes with the longest-uneaten first. */
module WgzeDatabase {

  import opened Wrappers
  import opened Strings
  import opened Sorting
  import opened Staleness
  import opened Tables
  import opened Listing
  import opened Meals

  /** A `getFoods` row: notes read through `COALESCE(notes, "")`. */
  datatype FoodRow = FoodRow(id: int, name: string, notes: string)

  /** How a data access call ended: normally, or by throwing an `Error`
      with this message. */
  datatype Outcome = Done | Thrown(message: string)

  lemma TextOrderIsTotal()
    ensures TotalPreorder(LessEq)
  {
    forall a: string, b: string
      ensures LessEq(a, b) || LessEq(b, a)
    {
      LessTotal(a, b);
    }
    forall a: string, b: string, c: string | LessEq(a, b) && LessEq(b, c)
      ensures LessEq(a, c)
    {
      LessEqTransitive(a, b, c);
    }
  }

  /** `ORDER BY name`, in the BINARY collation. */
  predicate ByName(a: FoodRow, b: FoodRow)
  {
    LessEq(a.name, b.name)
  }

  lemma ByNameIsTotal()
    ensures TotalPreorder(ByName)
  {
    TextOrderIsTotal();
    forall a: FoodRow, b: FoodRow
      ensures ByName(a, b) || ByName(b, a)
    {
      assert LessEq(a.name, b.name) || LessEq(b.name, a.name);
    }
    forall a: FoodRow, b: FoodRow, c: FoodRow | ByName(a, b) && ByName(b, c)
      ensures ByName(a, c)
    {
      LessEqTransitive(a.name, b.name, c.name);
    }
  }

  function FoodRowOf(f: Food): FoodRow
  {
    FoodRow(f.id, f.name, if f.notes.Some? then f.notes.value else "")
  }

  function NamesOf(foods: seq<Food>): (r: seq<string>)
    ensures |r| == |foods| && forall i :: 0 <= i < |foods| ==> r[i] == foods[i].name
  {
    seq(|foods|, i requires 0 <= i < |foods| => foods[i].name)
  }

  /** `SELECT id, name, COALESCE(notes, "") as notes FROM foods ORDER BY name`. */
  function FoodsByName(foods: seq<Food>): (r: seq<FoodRow>)
    ensures Sorted(r, ByName)
    ensures multiset(r) == multiset(seq(|foods|, i requires 0 <= i < |foods| => FoodRowOf(foods[i])))
  {
    ByNameIsTotal();
    SortBy(seq(|foods|, i requires 0 <= i < |foods| => FoodRowOf(foods[i])), ByName)
  }

  /** `SELECT name FROM foods ORDER BY name`. */
  function FoodNames(foods: seq<Food>): (r: seq<string>)
    ensures Sorted(r, LessEq) && multiset(r) == multiset(NamesOf(foods))
  {
    TextOrderIsTotal();
    SortBy(NamesOf(foods), LessEq)
  }

  /** `ORDER BY last_had ASC, f.name`. */
  predicate OldestEatenFirst(a: FoodWithLastMeal, b: FoodWithLastMeal)
  {
    Less(a.lastHad, b.lastHad) || (a.lastHad == b.lastHad && LessEq(a.name, b.name))
  }

  lemma OldestEatenFirstIsTotal()
    ensures TotalPreorder(OldestEatenFirst)
  {
    forall a: FoodWithLastMeal, b: FoodWithLastMeal
      ensures OldestEatenFirst(a, b) || OldestEatenFirst(b, a)
    {
      LessTotal(a.lastHad, b.lastHad);
      LessTotal(a.name, b.name);
    }
    forall a: FoodWithLastMeal, b: FoodWithLastMeal, c: FoodWithLastMeal
      | OldestEatenFirst(a, b) && OldestEatenFirst(b, c)
      ensures OldestEatenFirst(a, c)
    {
      if Less(a.lastHad, b.lastHad) && Less(b.lastHad, c.lastHad) {
        LessTransitive(a.lastHad, b.lastHad, c.lastHad);
      } else if a.lastHad == b.lastHad == c.lastHad {
        LessEqTransitive(a.name, b.name, c.name);
      }
    }
  }

  /** `getFoodsWithLastMeal` of the earlier application. */
  function FoodsOldestEatenFirst(foods: seq<Food>, meals: seq<Meal>, now: Clock): (r: seq<FoodWithLastMeal>)
    requires ValidClock(now)
    ensures Sorted(r, OldestEatenFirst)
    ensures multiset(r) == multiset(Rows(foods, meals, now)) && |r| == |foods|
  {
    OldestEatenFirstIsTotal();
    SortBy(Rows(foods, meals, now), OldestEatenFirst)
  }

  /** Dishes never eaten (`last_had` = '') come before every eaten dish. */
  lemma NeverEatenListedFirst(foods: seq<Food>, meals: seq<Meal>, now: Clock, i: int, j: int)
    requires ValidClock(now) && DatesPresent(meals)
    requires 0 <= i < j < |FoodsOldestEatenFirst(foods, meals, now)|
    requires !Eaten(meals, FoodsOldestEatenFirst(foods, meals, now)[j].id)
    ensures !Eaten(meals, FoodsOldestEatenFirst(foods, meals, now)[i].id)
  {
    var r := FoodsOldestEatenFirst(foods, meals, now);
    assert r[i] in multiset(Rows(foods, meals, now)) && r[j] in multiset(Rows(foods, meals, now));
    RowsCarryLastHad(foods, meals, now, r[i]);
    RowsCarryLastHad(foods, meals, now, r[j]);
    LastHadEmptyIffNeverEaten(meals, r[i].id);
    LastHadEmptyIffNeverEaten(meals, r[j].id);
    assert OldestEatenFirst(r[i], r[j]);
    EmptyIsLeast(r[i].lastHad);
  }

  /** Nothing stops a second dish of the same name: appending a food whose
      name is in use breaks name uniqueness. */
  lemma AddingATakenNameDuplicates(foods: seq<Food>, f: Food)
    requires NameInUse(foods, f.name)
    ensures !UniqueNames(foods + [f])
  {
    var g :| g in foods && g.name == f.name;
    var i :| 0 <= i < |foods| && foods[i] == g;
    var s := foods + [f];
    assert s[i].name == s[|foods|].name;
  }

  /** `new Database(c.env.DB)`: the class over one database handle. */
  class Database {
    const db: D1

    constructor (db: D1)
      ensures this.db == db
    {
      this.db := db;
    }

    method GetFoods() returns (r: seq<FoodRow>)
      ensures r == FoodsByName(db.foods)
    {
      r := FoodsByName(db.foods);
    }

    method GetFoodsWithLastMeal(now: Clock) returns (r: seq<FoodWithLastMeal>)
      requires ValidClock(now)
      ensures r == FoodsOldestEatenFirst(db.foods, db.meals, now)
    {
      r := FoodsOldestEatenFirst(db.foods, db.meals, now);
    }

    method GetFoodNames() returns (r: seq<string>)
      ensures r == FoodNames(db.foods)
    {
      r := FoodNames(db.foods);
    }

    /** The same history query as the current application's meal page. */
    method GetMeals() returns (r: seq<MealRow>)
      ensures r == History(db.foods, db.meals)
    {
      r := History(db.foods, db.meals);
    }

    /** `addFood`: one new food, empty notes stored as NULL; no check that
        the name is free. */
    method AddFood(name: string, notes: Option<string>)
      requires db.Valid()
      modifies db
      ensures db.Valid() && db.meals == old(db.meals)
      ensures exists id ::
        !HasFood(old(db.foods), id) && db.foods == old(db.foods) + [Food(id, name, StoredNotes(notes))]
    {
      var id := db.InsertFood(name, StoredNotes(notes));
    }

    /** `addMeal`: throws "Food not found" when no food has exactly that
        name; otherwise one new meal for the first food of that name. */
    method AddMeal(foodName: string, date: string, notes: Option<string>) returns (outcome: Outcome)
      requires db.Valid()
      modifies db
      ensures db.Valid() && db.foods == old(db.foods)
      ensures !NameInUse(old(db.foods), foodName) ==>
        outcome == Thrown("Food not found") && db.meals == old(db.meals)
      ensures NameInUse(old(db.foods), foodName) ==>
        && outcome == Done
        && exists id :: (forall m :: m in old(db.meals) ==> m.id != id) &&
             db.meals == old(db.meals) +
               [Meal(id, FirstNamed(db.foods, foodName).value.id, date, StoredNotes(notes))]
    {
      var food := FirstNamed(db.foods, foodName);
      if food == None {
        return Thrown("Food not found");
      }
      var id := db.InsertMeal(food.value.id, date, StoredNotes(notes));
      outcome := Done;
    }

    /** `editFood`: only the row with that id changes; none if no row has it. */
    method EditFood(id: int, name: string, notes: Option<string>)
      requires db.Valid()
      modifies db
      ensures db.Valid() && db.meals == old(db.meals)
      ensures db.foods == UpdatedFoods(old(db.foods), id, name, StoredNotes(notes))
      ensures !HasFood(old(db.foods), id) ==> db.foods == old(db.foods)
    {
      if !HasFood(db.foods, id) {
        UpdateMissingIsIdentity(db.foods, id, name, StoredNotes(notes));
      }
      db.UpdateFood(id, name, StoredNotes(notes));
    }

    /** `deleteFood`: the food and, by the cascade, its meals. */
    method DeleteFood(id: int)
      requires db.Valid()
      modifies db
      ensures db.Valid()
      ensures db.foods == WithoutFood(old(db.foods), id) && db.meals == WithoutMealsOf(old(db.meals), id)
    {
      db.DeleteFood(id);
    }

    /** `deleteMeal`: only the meal with that id. */
    method DeleteMeal(id: int)
      requires db.Valid()
      modifies db
      ensures db.Valid() && db.foods == old(db.foods)
      ensures db.meals == WithoutMeal(old(db.meals), id)
    {
      db.DeleteMeal(id);
    }

    /** `foodExists`: whether some food's name is exactly `name`. */
    method FoodExists(name: string) returns (b: bool)
      ensures b <==> NameInUse(db.foods, name)
    {
      var row := FirstNamed(db.foods, name);
      b := row != None;
    }
  }
}
