/** The two tables the TypeScript applications keep in their D1 (SQLite)
    database, `foods (id, name, notes)` and `meals (id, food_id, date, notes)`,
    and the SQL statements they run against them. Rows are kept in rowid
    order; a new row gets an id above every id handed out before. Deleting a
    food deletes its meals: the schema's `ON DELETE CASCADE` foreign key,
    which the source states in comments. */
module Tables {

  import opened Wrappers

  datatype Food = Food(id: int, name: string, notes: Option<string>)

  datatype Meal = Meal(id: int, foodId: int, date: string, notes: Option<string>)

  function FoodId(f: Food): int
  {
    f.id
  }

  function MealId(m: Meal): int
  {
    m.id
  }

  function FoodName(f: Food): string
  {
    f.name
  }

  /** `notes || null`: an absent or empty text is stored as NULL. */
  function StoredNotes(notes: Option<string>): (r: Option<string>)
    ensures r == None <==> !Present(notes)
    ensures r != None ==> r == notes
  {
    if Present(notes) then notes else None
  }

  /** Rows in strictly increasing key order (rowid order). */
  ghost predicate IncreasingBy<T>(s: seq<T>, key: T -> int)
  {
    forall i, j :: 0 <= i < j < |s| ==> key(s[i]) < key(s[j])
  }

  /** `DELETE FROM … WHERE NOT keep`: the rows kept, in their order. */
  function Filter<T(!new)>(s: seq<T>, keep: T -> bool): (r: seq<T>)
    ensures forall x :: x in r <==> x in s && keep(x)
    ensures (forall x :: x in s ==> keep(x)) ==> r == s
    ensures |r| <= |s|
  {
    if |s| == 0 then []
    else
      var rest := Filter(s[1..], keep);
      assert s == [s[0]] + s[1..];
      if keep(s[0]) then [s[0]] + rest else rest
  }

  lemma {:induction false} FilterKeepsIncreasing<T(!new)>(s: seq<T>, keep: T -> bool, key: T -> int)
    requires IncreasingBy(s, key)
    ensures IncreasingBy(Filter(s, keep), key)
  {
    if |s| > 0 {
      FilterKeepsIncreasing(s[1..], keep, key);
      var rest := Filter(s[1..], keep);
      if keep(s[0]) {
        var r := [s[0]] + rest;
        assert Filter(s, keep) == r;
        forall i, j | 0 <= i < j < |r|
          ensures key(r[i]) < key(r[j])
        {
          if i == 0 {
            assert r[j] in rest;
            var k :| 0 <= k < |s[1..]| && s[1..][k] == r[j];
            assert s[k + 1] == r[j];
          } else {
            assert r[i] == rest[i - 1] && r[j] == rest[j - 1];
          }
        }
      }
    }
  }

  /** No two rows share a key: a `UNIQUE` column. */
  ghost predicate UniqueBy<T, K>(s: seq<T>, key: T -> K)
  {
    forall i, j :: 0 <= i < j < |s| ==> key(s[i]) != key(s[j])
  }

  /** Appending a row whose key no stored row has keeps the keys unique. */
  lemma AppendKeepsUnique<T, K>(s: seq<T>, x: T, key: T -> K)
    requires UniqueBy(s, key) && forall y :: y in s ==> key(y) != key(x)
    ensures UniqueBy(s + [x], key)
  {
    var r := s + [x];
    forall i, j | 0 <= i < j < |r|
      ensures key(r[i]) != key(r[j])
    {
      if j == |s| {
        assert r[i] in s;
      }
    }
  }

  /** Deleting rows keeps the remaining keys unique. */
  lemma {:induction false} FilterKeepsUnique<T(!new), K>(s: seq<T>, keep: T -> bool, key: T -> K)
    requires UniqueBy(s, key)
    ensures UniqueBy(Filter(s, keep), key)
  {
    if |s| > 0 {
      FilterKeepsUnique(s[1..], keep, key);
      var rest := Filter(s[1..], keep);
      if keep(s[0]) {
        var r := [s[0]] + rest;
        assert Filter(s, keep) == r;
        forall i, j | 0 <= i < j < |r|
          ensures key(r[i]) != key(r[j])
        {
          if i == 0 {
            assert r[j] in rest;
            var k :| 0 <= k < |s[1..]| && s[1..][k] == r[j];
            assert s[k + 1] == r[j];
          } else {
            assert r[i] == rest[i - 1] && r[j] == rest[j - 1];
          }
        }
      }
    }
  }

  /** `SELECT … WHERE p LIMIT 1` / `.first()` without ORDER BY: a matching
      row; the model takes the first in rowid order, where SQLite leaves
      the choice to the engine. */
  function First<T(!new)>(s: seq<T>, p: T -> bool): (r: Option<T>)
    ensures r.Some? <==> exists x :: x in s && p(x)
    ensures r.Some? ==> r.value in s && p(r.value)
  {
    if |s| == 0 then None
    else if p(s[0]) then Some(s[0])
    else
      assert forall x :: x in s && x != s[0] ==> x in s[1..];
      First(s[1..], p)
  }

  predicate HasFood(foods: seq<Food>, id: int)
  {
    exists f :: f in foods && f.id == id
  }

  /** Some food's name is exactly `name` (SQL `name = ?`, case-sensitive). */
  predicate NameInUse(foods: seq<Food>, name: string)
  {
    exists f :: f in foods && f.name == name
  }

  /** Some food other than the one with id `id` is named exactly `name`. */
  predicate NameInUseByOther(foods: seq<Food>, name: string, id: int)
  {
    exists f :: f in foods && f.name == name && f.id != id
  }

  /** No two foods share a name (compared exactly). */
  ghost predicate UniqueNames(foods: seq<Food>)
  {
    UniqueBy(foods, FoodName)
  }

  /** `SELECT id FROM foods WHERE name = ?` … `.first()`. */
  function FirstNamed(foods: seq<Food>, name: string): (r: Option<Food>)
    ensures r.Some? <==> NameInUse(foods, name)
    ensures r.Some? ==> r.value in foods && r.value.name == name
  {
    First(foods, (f: Food) => f.name == name)
  }

  /** `JOIN foods f ON m.food_id = f.id`: the food a meal refers to. */
  function FoodById(foods: seq<Food>, id: int): (r: Option<Food>)
    ensures r.Some? <==> HasFood(foods, id)
    ensures r.Some? ==> r.value in foods && r.value.id == id
  {
    First(foods, (f: Food) => f.id == id)
  }

  /** `UPDATE foods SET name = ?, notes = ? WHERE id = ?`. */
  function UpdatedFoods(foods: seq<Food>, id: int, name: string, notes: Option<string>): (r: seq<Food>)
    ensures |r| == |foods|
    ensures forall i :: 0 <= i < |foods| ==> r[i].id == foods[i].id
    ensures forall i :: 0 <= i < |foods| && foods[i].id != id ==> r[i] == foods[i]
    ensures forall i :: 0 <= i < |foods| && foods[i].id == id ==> r[i].name == name && r[i].notes == notes
  {
    seq(|foods|, i requires 0 <= i < |foods| =>
      if foods[i].id == id then Food(id, name, notes) else foods[i])
  }

  /** `DELETE FROM foods WHERE id = ?`. */
  function WithoutFood(foods: seq<Food>, id: int): (r: seq<Food>)
    ensures forall f :: f in r <==> f in foods && f.id != id
  {
    Filter(foods, (f: Food) => f.id != id)
  }

  /** The cascade: `DELETE FROM meals WHERE food_id = ?`. */
  function WithoutMealsOf(meals: seq<Meal>, foodId: int): (r: seq<Meal>)
    ensures forall m :: m in r <==> m in meals && m.foodId != foodId
  {
    Filter(meals, (m: Meal) => m.foodId != foodId)
  }

  /** `DELETE FROM meals WHERE id = ?`. */
  function WithoutMeal(meals: seq<Meal>, id: int): (r: seq<Meal>)
    ensures forall m :: m in r <==> m in meals && m.id != id
  {
    Filter(meals, (m: Meal) => m.id != id)
  }

  /** Every meal refers to a food that exists. */
  ghost predicate MealsReferToFoods(foods: seq<Food>, meals: seq<Meal>)
  {
    forall m :: m in meals ==> HasFood(foods, m.foodId)
  }

  /** An UPDATE whose id matches no row changes nothing. */
  lemma UpdateMissingIsIdentity(foods: seq<Food>, id: int, name: string, notes: Option<string>)
    requires !HasFood(foods, id)
    ensures UpdatedFoods(foods, id, name, notes) == foods
  {
    var r := UpdatedFoods(foods, id, name, notes);
    forall i | 0 <= i < |foods|
      ensures r[i] == foods[i]
    {
      assert foods[i] in foods;
    }
  }

  /** Deleting an id that no food has, with its cascade, changes nothing
      when every meal refers to an existing food. */
  lemma DeleteMissingIsIdentity(foods: seq<Food>, meals: seq<Meal>, id: int)
    requires MealsReferToFoods(foods, meals) && !HasFood(foods, id)
    ensures WithoutFood(foods, id) == foods
    ensures WithoutMealsOf(meals, id) == meals
  {
    assert Filter(foods, (f: Food) => f.id != id) == foods;
    assert Filter(meals, (m: Meal) => m.foodId != id) == meals;
  }

  /** Deleting a food together with its meals leaves no meal without its
      food. */
  lemma CascadeKeepsReferences(foods: seq<Food>, meals: seq<Meal>, id: int)
    requires MealsReferToFoods(foods, meals)
    ensures MealsReferToFoods(WithoutFood(foods, id), WithoutMealsOf(meals, id))
  {
    forall m | m in WithoutMealsOf(meals, id)
      ensures HasFood(WithoutFood(foods, id), m.foodId)
    {
      var f :| f in foods && f.id == m.foodId;
      assert f in WithoutFood(foods, id);
    }
  }

  /** The database: both tables and the next ids to hand out. */
  class D1 {
    var foods: seq<Food>
    var meals: seq<Meal>
    var nextFoodId: int
    var nextMealId: int

    ghost predicate Valid()
      reads this
    {
      && IncreasingBy(foods, FoodId)
      && IncreasingBy(meals, MealId)
      && (forall f :: f in foods ==> f.id < nextFoodId)
      && (forall m :: m in meals ==> m.id < nextMealId)
      && MealsReferToFoods(foods, meals)
    }

    constructor ()
      ensures Valid() && foods == [] && meals == []
    {
      foods, meals := [], [];
      nextFoodId, nextMealId := 1, 1;
    }

    /** `INSERT INTO foods (name, notes) VALUES (?, ?)`. */
    method InsertFood(name: string, notes: Option<string>) returns (id: int)
      requires Valid()
      modifies this
      ensures Valid() && !HasFood(old(foods), id)
      ensures foods == old(foods) + [Food(id, name, notes)] && meals == old(meals)
    {
      id := nextFoodId;
      foods := foods + [Food(id, name, notes)];
      nextFoodId := nextFoodId + 1;
    }

    /** `INSERT INTO meals (food_id, date, notes) VALUES (?, ?, ?)`. */
    method InsertMeal(foodId: int, date: string, notes: Option<string>) returns (id: int)
      requires Valid() && HasFood(foods, foodId)
      modifies this
      ensures Valid() && forall m :: m in old(meals) ==> m.id != id
      ensures meals == old(meals) + [Meal(id, foodId, date, notes)] && foods == old(foods)
    {
      id := nextMealId;
      meals := meals + [Meal(id, foodId, date, notes)];
      nextMealId := nextMealId + 1;
    }

    method UpdateFood(id: int, name: string, notes: Option<string>)
      requires Valid()
      modifies this
      ensures Valid()
      ensures foods == UpdatedFoods(old(foods), id, name, notes) && meals == old(meals)
    {
      foods := UpdatedFoods(foods, id, name, notes);
      forall m | m in meals
        ensures HasFood(foods, m.foodId)
      {
        var f :| f in old(foods) && f.id == m.foodId;
        var i :| 0 <= i < |old(foods)| && old(foods)[i] == f;
        assert foods[i].id == f.id;
      }
    }

    /** `DELETE FROM foods WHERE id = ?` and its cascade onto `meals`. */
    method DeleteFood(id: int)
      requires Valid()
      modifies this
      ensures Valid()
      ensures foods == WithoutFood(old(foods), id) && meals == WithoutMealsOf(old(meals), id)
    {
      CascadeKeepsReferences(foods, meals, id);
      FilterKeepsIncreasing(foods, (f: Food) => f.id != id, FoodId);
      FilterKeepsIncreasing(meals, (m: Meal) => m.foodId != id, MealId);
      foods := WithoutFood(foods, id);
      meals := WithoutMealsOf(meals, id);
    }

    /** `DELETE FROM meals WHERE id = ?`. */
    method DeleteMeal(id: int)
      requires Valid()
      modifies this
      ensures Valid()
      ensures meals == WithoutMeal(old(meals), id) && foods == old(foods)
    {
      FilterKeepsIncreasing(meals, (m: Meal) => m.id != id, MealId);
      meals := WithoutMeal(meals, id);
    }
  }
}
