/** The per-food summary both TypeScript applications compute with one SQL
    query (`foods LEFT JOIN meals … GROUP BY f.id`) followed by a `.map`
    that adds `days_ago`: one row per food, with the latest meal date as
    text. Only the ORDER BY differs between the places that run it. */
module Listing {

  import opened Wrappers
  import opened Strings
  import opened Calendar
  import opened Staleness
  import opened Tables

  datatype FoodWithLastMeal = FoodWithLastMeal(
    id: int, name: string, notes: string, lastHad: string, daysAgo: Num)

  /** The food has at least one meal. */
  predicate Eaten(meals: seq<Meal>, foodId: int)
  {
    exists m :: m in meals && m.foodId == foodId
  }

  /** Every stored meal date is non-empty (both applications refuse an
      empty date before inserting a meal). */
  ghost predicate DatesPresent(meals: seq<Meal>)
  {
    forall m :: m in meals ==> m.date != ""
  }

  /** `COALESCE(MAX(m.date), '')` over the meals of one food: the greatest
      date text in SQLite's text order, or '' when there is none. */
  function LastHad(meals: seq<Meal>, foodId: int): (r: string)
    ensures r == "" || exists m :: m in meals && m.foodId == foodId && m.date == r
    ensures forall m :: m in meals && m.foodId == foodId ==> LessEq(m.date, r)
  {
    if |meals| == 0 then ""
    else
      var rest := LastHad(meals[1..], foodId);
      var m := meals[0];
      var r := if m.foodId == foodId && Less(rest, m.date) then m.date else rest;
      assert meals == [m] + meals[1..];
      LessTotal(rest, m.date);
      assert forall m' :: m' in meals[1..] && m'.foodId == foodId ==> LessEq(m'.date, r) by {
        forall m' | m' in meals[1..] && m'.foodId == foodId
          ensures LessEq(m'.date, r)
        {
          if r != rest {
            LessEqTransitive(m'.date, rest, r);
          }
        }
      }
      r
  }

  /** A food row and its `days_ago`, computed from `row.last_had || null`. */
  function RowOf(f: Food, meals: seq<Meal>, now: Clock): (r: FoodWithLastMeal)
    requires ValidClock(now)
    ensures r.id == f.id && r.name == f.name && r.lastHad == LastHad(meals, f.id)
    ensures r.notes == "" <==> !Present(f.notes)
    ensures Present(f.notes) ==> r.notes == f.notes.value
    ensures r.daysAgo == CalculateDaysAgo(Some(r.lastHad), now)
  {
    var lastHad := LastHad(meals, f.id);
    FoodWithLastMeal(
      f.id, f.name,
      if f.notes.Some? then f.notes.value else "",
      lastHad,
      CalculateDaysAgo(if lastHad == "" then None else Some(lastHad), now))
  }

  /** The query's rows before ordering: one per food. */
  function Rows(foods: seq<Food>, meals: seq<Meal>, now: Clock): (r: seq<FoodWithLastMeal>)
    requires ValidClock(now)
    ensures |r| == |foods|
  {
    seq(|foods|, i requires 0 <= i < |foods| => RowOf(foods[i], meals, now))
  }

  /** `last_had` is empty exactly for a food without meals. */
  lemma LastHadEmptyIffNeverEaten(meals: seq<Meal>, foodId: int)
    requires DatesPresent(meals)
    ensures LastHad(meals, foodId) == "" <==> !Eaten(meals, foodId)
  {
    if Eaten(meals, foodId) {
      var m :| m in meals && m.foodId == foodId;
      EmptyIsLeast(m.date);
    }
  }

  /** When the food's meal dates are all `YYYY-MM-DD`, `last_had` is the
      date of its most recent meal. */
  lemma LastHadIsLatestMeal(meals: seq<Meal>, foodId: int)
    requires Eaten(meals, foodId)
    requires forall m :: m in meals && m.foodId == foodId ==> Parse(m.date).Some?
    ensures Parse(LastHad(meals, foodId)).Some?
    ensures forall m :: m in meals && m.foodId == foodId ==>
      DayNumber(Parse(m.date).value) <= DayNumber(Parse(LastHad(meals, foodId)).value)
  {
    var r := LastHad(meals, foodId);
    var m0 :| m0 in meals && m0.foodId == foodId;
    assert LessEq(m0.date, r);
    forall m | m in meals && m.foodId == foodId
      ensures DayNumber(Parse(m.date).value) <= DayNumber(Parse(r).value)
    {
      if m.date != r {
        IsoTextOrderIsChronological(m.date, r);
      }
    }
  }

  /** `days_ago` is -1 for a food never eaten; for an eaten food it is -1
      only when its latest meal is dated exactly one day after today. */
  lemma DaysAgoMinusOne(f: Food, meals: seq<Meal>, now: Clock)
    requires ValidClock(now) && DatesPresent(meals)
    ensures !Eaten(meals, f.id) ==> RowOf(f, meals, now).daysAgo == Finite(-1)
    ensures RowOf(f, meals, now).daysAgo == Finite(-1) <==>
      !Eaten(meals, f.id) ||
      (Parse(LastHad(meals, f.id)).Some? &&
       DayNumber(Parse(LastHad(meals, f.id)).value) == DayNumber(now.today) + 1)
  {
    var lastHad := LastHad(meals, f.id);
    LastHadEmptyIffNeverEaten(meals, f.id);
    MinusOneMeansNeverOrTomorrow(if lastHad == "" then None else Some(lastHad), now);
  }

  /** A food whose latest meal has a `YYYY-MM-DD` date gets as `days_ago`
      the calendar days from that meal to today. */
  lemma DaysAgoCountsFromLatestMeal(f: Food, meals: seq<Meal>, now: Clock)
    requires ValidClock(now) && Eaten(meals, f.id)
    requires forall m :: m in meals && m.foodId == f.id ==> Parse(m.date).Some?
    ensures Parse(LastHad(meals, f.id)).Some?
    ensures RowOf(f, meals, now).daysAgo ==
      Finite(DayNumber(now.today) - DayNumber(Parse(LastHad(meals, f.id)).value))
  {
    LastHadIsLatestMeal(meals, f.id);
    DaysAgoIsCalendarDistance(LastHad(meals, f.id), now);
  }

  /** A row is a summary row exactly when it is the row of a stored food. */
  lemma InRows(foods: seq<Food>, meals: seq<Meal>, now: Clock, x: FoodWithLastMeal)
    requires ValidClock(now)
    ensures x in Rows(foods, meals, now) <==> exists f :: f in foods && x == RowOf(f, meals, now)
  {
    var rows := Rows(foods, meals, now);
    if x in rows {
      var i :| 0 <= i < |rows| && rows[i] == x;
      assert foods[i] in foods;
    }
    if exists f :: f in foods && x == RowOf(f, meals, now) {
      var f :| f in foods && x == RowOf(f, meals, now);
      var i :| 0 <= i < |foods| && foods[i] == f;
      assert rows[i] == x;
    }
  }

  /** Each summary row carries the id of its food and that food's latest
      meal date. */
  lemma RowsCarryLastHad(foods: seq<Food>, meals: seq<Meal>, now: Clock, x: FoodWithLastMeal)
    requires ValidClock(now) && x in Rows(foods, meals, now)
    ensures HasFood(foods, x.id) && x.lastHad == LastHad(meals, x.id)
  {
    var rows := Rows(foods, meals, now);
    var i :| 0 <= i < |rows| && rows[i] == x;
    assert foods[i] in foods;
  }
}
