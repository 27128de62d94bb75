/** The dish list of the earlier application
    (wgze-hono/src/components/FoodList.tsx), reduced to what it decides:
    the empty-state message for an empty list, else one entry per dish in
    the order given, each with a coloured caption chosen from `days_ago`. */
module FoodListView {

  import opened Wrappers
  import opened Calendar
  import opened Staleness
  import opened Tables
  import opened Listing

  datatype Color = Red | Green | Yellow

  datatype Caption =
    | NeverEaten              // "Noch nie gegessen"
    | EatenToday              // "Heute gegessen"
    | EatenYesterday          // "Gestern gegessen"
    | EatenDaysAgo(days: Num) // "Vor <days> Tagen gegessen"

  datatype Badge = Badge(color: Color, caption: Caption)

  function CaptionText(c: Caption): string
  {
    match c
    case NeverEaten => "Noch nie gegessen"
    case EatenToday => "Heute gegessen"
    case EatenYesterday => "Gestern gegessen"
    case EatenDaysAgo(d) => "Vor " + NumText(d) + " Tagen gegessen"
  }

  /** The conditional chain on `food.days_ago`. NaN equals nothing and is
      below no bound, so it falls through to the last, red, case. */
  function BadgeFor(days: Num): (b: Badge)
    ensures b.caption == NeverEaten <==> days == Finite(-1)
    ensures b.caption == EatenToday <==> days == Finite(0)
    ensures b.caption == EatenYesterday <==> days == Finite(1)
    ensures b.caption.EatenDaysAgo? ==> b.caption.days == days
    ensures b.color == Green <==> days.Finite? && days.value != -1 && days.value <= 7
    ensures b.color == Yellow <==> days.Finite? && 8 <= days.value <= 30
    ensures b.color == Red <==> days == NaN || days == Finite(-1) || (days.Finite? && days.value > 30)
  {
    match days
    case NaN => Badge(Red, EatenDaysAgo(days))
    case Finite(n) =>
      if n == -1 then Badge(Red, NeverEaten)
      else if n == 0 then Badge(Green, EatenToday)
      else if n == 1 then Badge(Green, EatenYesterday)
      else if n <= 7 then Badge(Green, EatenDaysAgo(days))
      else if n <= 30 then Badge(Yellow, EatenDaysAgo(days))
      else Badge(Red, EatenDaysAgo(days))
  }

  /** One rendered dish: its notes are shown only when non-empty. */
  datatype Entry = Entry(id: int, name: string, notes: Option<string>, badge: Badge)

  datatype View = EmptyState | Entries(entries: seq<Entry>)

  function EntryFor(food: FoodWithLastMeal): (e: Entry)
    ensures e.id == food.id && e.name == food.name && e.badge == BadgeFor(food.daysAgo)
    ensures e.notes.Some? <==> food.notes != ""
    ensures e.notes.Some? ==> e.notes.value == food.notes
  {
    Entry(food.id, food.name, if food.notes != "" then Some(food.notes) else None, BadgeFor(food.daysAgo))
  }

  /** `FoodList({ foods })`. */
  function Render(foods: seq<FoodWithLastMeal>): (v: View)
    ensures v == EmptyState <==> |foods| == 0
    ensures v.Entries? ==> |v.entries| == |foods|
    ensures v.Entries? ==> forall i :: 0 <= i < |foods| ==>
      && v.entries[i].id == foods[i].id && v.entries[i].name == foods[i].name
      && v.entries[i].badge == BadgeFor(foods[i].daysAgo)
      && (v.entries[i].notes.Some? <==> foods[i].notes != "")
      && v.entries[i] == EntryFor(foods[i])
  {
    if |foods| == 0 then EmptyState
    else Entries(seq(|foods|, i requires 0 <= i < |foods| => EntryFor(foods[i])))
  }

  /** A dish without meals is shown red as never eaten. */
  lemma NeverEatenShowsRed(f: Food, meals: seq<Meal>, now: Clock)
    requires ValidClock(now) && DatesPresent(meals) && !Eaten(meals, f.id)
    ensures BadgeFor(RowOf(f, meals, now).daysAgo) == Badge(Red, NeverEaten)
  {
    DaysAgoMinusOne(f, meals, now);
  }

  /** A dish whose latest meal is dated today is shown as eaten today,
      one dated yesterday as eaten yesterday. */
  lemma LatestMealTodayOrYesterday(f: Food, meals: seq<Meal>, now: Clock)
    requires ValidClock(now) && Eaten(meals, f.id)
    requires forall m :: m in meals && m.foodId == f.id ==> Parse(m.date).Some?
    ensures Parse(LastHad(meals, f.id)).Some?
    ensures Parse(LastHad(meals, f.id)).value == now.today ==>
      BadgeFor(RowOf(f, meals, now).daysAgo) == Badge(Green, EatenToday)
    ensures DayNumber(Parse(LastHad(meals, f.id)).value) + 1 == DayNumber(now.today) ==>
      BadgeFor(RowOf(f, meals, now).daysAgo) == Badge(Green, EatenYesterday)
  {
    DaysAgoCountsFromLatestMeal(f, meals, now);
  }

  /** A dish whose latest meal is dated tomorrow gets `days_ago` -1 and so
      is shown as never eaten; a later future date is shown green. */
  lemma FutureMealCaptions(f: Food, meals: seq<Meal>, now: Clock)
    requires ValidClock(now) && Eaten(meals, f.id)
    requires forall m :: m in meals && m.foodId == f.id ==> Parse(m.date).Some?
    ensures Parse(LastHad(meals, f.id)).Some?
    ensures DayNumber(Parse(LastHad(meals, f.id)).value) == DayNumber(now.today) + 1 ==>
      BadgeFor(RowOf(f, meals, now).daysAgo) == Badge(Red, NeverEaten)
    ensures DayNumber(Parse(LastHad(meals, f.id)).value) > DayNumber(now.today) + 1 ==>
      BadgeFor(RowOf(f, meals, now).daysAgo).color == Green
  {
    DaysAgoCountsFromLatestMeal(f, meals, now);
  }
}
