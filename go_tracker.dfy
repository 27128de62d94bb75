/** The original Go prototype (main.go): one `foods` table whose rows carry
    the date a dish was last had, a listing ordered by name, and handlers
    that add a dish, mark a dish as had today and delete a dish. */
module GoTracker {

  import opened Wrappers
  import opened Strings
  import opened Sorting
  import opened Calendar
  import opened Staleness
  import Tables

  const MaxInt64: int := 0x7FFF_FFFF_FFFF_FFFF
  const MinInt64: int := -0x8000_0000_0000_0000

  /** The largest whole number of days an int64 count of nanoseconds holds. */
  const MaxDurationDays: int := 106751

  /** A row of `foods (id, name UNIQUE NOT NULL, last_had DATE)`. */
  datatype GoFood = GoFood(id: int, name: string, lastHad: Option<string>)

  /** The `Food` struct a listing renders. */
  datatype FoodView = FoodView(id: int, name: string, lastHad: string, daysAgo: int)

  function GoFoodId(f: GoFood): int
  {
    f.id
  }

  function GoFoodName(f: GoFood): string
  {
    f.name
  }

  // ---------------------------------------------------------------------
  // calculateDaysAgo
  // ---------------------------------------------------------------------

  /** `time.Time.Sub`: a difference beyond what an int64 of nanoseconds
      holds is replaced by the nearest bound. */
  function Saturate(ns: int): (r: int)
    ensures MinInt64 <= r <= MaxInt64
    ensures MinInt64 <= ns <= MaxInt64 ==> r == ns
    ensures ns > MaxInt64 ==> r == MaxInt64
    ensures ns < MinInt64 ==> r == MinInt64
  {
    if ns > MaxInt64 then MaxInt64 else if ns < MinInt64 then MinInt64 else ns
  }

  /** `int(d.Hours() / 24)`: a duration in whole days, rounded toward
      zero as Go's conversion to `int` does. */
  function WholeDays(ns: int): (days: int)
    ensures ns >= 0 ==> 0 <= days * NanosPerDay <= ns < days * NanosPerDay + NanosPerDay
    ensures ns < 0 ==> days * NanosPerDay - NanosPerDay < ns <= days * NanosPerDay <= 0
  {
    if ns >= 0 then ns / NanosPerDay else -((-ns) / NanosPerDay)
  }

  /** `time.Now()` as nanoseconds since 1970-01-01T00:00:00Z. */
  function NowNanos(c: Clock): int
    requires ValidClock(c)
  {
    (DayNumber(c.today) - DayNumber(Epoch)) * NanosPerDay + c.nanosOfDay
  }

  /** `time.Parse("2006-01-02", s)`: midnight UTC of that day. */
  function MidnightNanos(d: CivilDate): int
    requires ValidDate(d)
  {
    (DayNumber(d) - DayNumber(Epoch)) * NanosPerDay
  }

  /** `calculateDaysAgo(lastHad)`: -1 for the empty text and for a text
      that is not a `YYYY-MM-DD` date; otherwise the elapsed time in whole
      days, rounded toward zero. */
  function GoDaysAgo(lastHad: string, now: Clock): (r: int)
    requires ValidClock(now)
    ensures lastHad == "" || Parse(lastHad).None? ==> r == -1
    ensures -MaxDurationDays <= r <= MaxDurationDays
  {
    if lastHad == "" then -1
    else
      match Parse(lastHad)
      case None => -1
      case Some(d) => WholeDays(Saturate(NowNanos(now) - MidnightNanos(d)))
  }

  /** For a parsed date `k` calendar days before today: a past date or
      today gives `k`, a future date gives one day less in magnitude
      except at midnight exactly, and a date more than 106751 days away
      gives the bound, because the difference saturates. */
  lemma GoDaysAgoOfDate(s: string, now: Clock)
    requires ValidClock(now) && Parse(s).Some?
    ensures var k := DayNumber(now.today) - DayNumber(Parse(s).value);
      GoDaysAgo(s, now) ==
        if k > MaxDurationDays then MaxDurationDays
        else if k < -MaxDurationDays then -MaxDurationDays
        else if k >= 0 || now.nanosOfDay == 0 then k
        else k + 1
  {
    var d := Parse(s).value;
    var k := DayNumber(now.today) - DayNumber(d);
    var x := NowNanos(now) - MidnightNanos(d);
    assert x == k * NanosPerDay + now.nanosOfDay;
    assert WholeDays(MaxInt64) == MaxDurationDays;
    assert WholeDays(MinInt64) == -MaxDurationDays;
    if k > MaxDurationDays {
      assert x > MaxInt64;
    } else if k < -MaxDurationDays - 1 {
      assert x < MinInt64;
    } else if k == -MaxDurationDays - 1 {
      if x >= MinInt64 {
        assert -x == (MaxDurationDays + 1) * NanosPerDay - now.nanosOfDay;
        assert (-x) / NanosPerDay == MaxDurationDays;
      }
    } else if k >= 0 {
      if x <= MaxInt64 {
        assert x / NanosPerDay == k;
      }
    } else if now.nanosOfDay == 0 {
      assert -x == (-k) * NanosPerDay;
      assert (-x) / NanosPerDay == -k;
    } else {
      assert -x == (-k - 1) * NanosPerDay + (NanosPerDay - now.nanosOfDay);
      assert (-x) / NanosPerDay == -k - 1;
    }
  }

  /** The two generations agree exactly on the dates from today back to
      106751 days ago, and on future dates up to that distance at
      midnight. On other future dates within it Go reads one day higher;
      beyond it Go reads the saturated bound. */
  lemma GoAndJavaScriptDaysAgo(s: string, now: Clock)
    requires ValidClock(now) && Parse(s).Some?
    ensures var k := DayNumber(now.today) - DayNumber(Parse(s).value);
      && CalculateDaysAgo(Some(s), now) == Finite(k)
      && (CalculateDaysAgo(Some(s), now) == Finite(GoDaysAgo(s, now)) <==>
            -MaxDurationDays <= k <= MaxDurationDays && (k >= 0 || now.nanosOfDay == 0))
      && (-MaxDurationDays <= k < 0 && now.nanosOfDay != 0 ==>
            CalculateDaysAgo(Some(s), now) == Finite(GoDaysAgo(s, now) - 1))
      && (k > MaxDurationDays ==> GoDaysAgo(s, now) == MaxDurationDays)
      && (k < -MaxDurationDays ==> GoDaysAgo(s, now) == -MaxDurationDays)
  {
    GoDaysAgoOfDate(s, now);
    DaysAgoIsCalendarDistance(s, now);
  }

  /** A dish marked as had today reads 0 days ago for the rest of the day. */
  lemma MarkedTodayIsZeroDaysAgo(now: Clock)
    requires ValidClock(now)
    ensures GoDaysAgo(Format(now.today), now) == 0
  {
    ParseFormat(now.today);
    GoDaysAgoOfDate(Format(now.today), now);
  }

  // ---------------------------------------------------------------------
  // strconv.Atoi
  // ---------------------------------------------------------------------

  /** `strconv.Atoi`: an optional sign and decimal digits, within int64. */
  function Atoi(s: string): (r: Option<int>)
    ensures r.Some? ==> MinInt64 <= r.value <= MaxInt64 && ParseInt(s) == r
    ensures r.None? ==> ParseInt(s).None? || ParseInt(s).value < MinInt64 || ParseInt(s).value > MaxInt64
  {
    match ParseInt(s)
    case None => None
    case Some(n) => if MinInt64 <= n <= MaxInt64 then Some(n) else None
  }

  lemma AtoiReadsBack(n: int)
    requires MinInt64 <= n <= MaxInt64
    ensures Atoi(IntToString(n)) == Some(n)
  {
    ParseIntToString(n);
  }

  // ---------------------------------------------------------------------
  // The table
  // ---------------------------------------------------------------------

  predicate NameInUse(foods: seq<GoFood>, name: string)
  {
    exists f :: f in foods && f.name == name
  }

  predicate HasFood(foods: seq<GoFood>, id: int)
  {
    exists f :: f in foods && f.id == id
  }

  /** The `UNIQUE` constraint on `name`. */
  ghost predicate UniqueNames(foods: seq<GoFood>)
  {
    Tables.UniqueBy(foods, GoFoodName)
  }

  /** `UPDATE foods SET last_had = ? WHERE id = ?`. */
  function WithLastHad(foods: seq<GoFood>, id: int, date: string): (r: seq<GoFood>)
    ensures |r| == |foods|
    ensures forall i :: 0 <= i < |foods| ==> r[i].id == foods[i].id && r[i].name == foods[i].name
    ensures forall i :: 0 <= i < |foods| && foods[i].id != id ==> r[i] == foods[i]
    ensures forall i :: 0 <= i < |foods| && foods[i].id == id ==> r[i].lastHad == Some(date)
  {
    seq(|foods|, i requires 0 <= i < |foods| =>
      if foods[i].id == id then GoFood(id, foods[i].name, Some(date)) else foods[i])
  }

  /** `DELETE FROM foods WHERE id = ?`. */
  function WithoutFood(foods: seq<GoFood>, id: int): (r: seq<GoFood>)
    ensures forall f :: f in r <==> f in foods && f.id != id
  {
    Tables.Filter(foods, (f: GoFood) => f.id != id)
  }

  /** `ORDER BY name`. */
  predicate ByName(a: GoFood, b: GoFood)
  {
    LessEq(a.name, b.name)
  }

  lemma ByNameIsTotal()
    ensures TotalPreorder(ByName)
  {
    forall a: GoFood, b: GoFood
      ensures ByName(a, b) || ByName(b, a)
    {
      LessTotal(a.name, b.name);
    }
    forall a: GoFood, b: GoFood, c: GoFood | ByName(a, b) && ByName(b, c)
      ensures ByName(a, c)
    {
      LessEqTransitive(a.name, b.name, c.name);
    }
  }

  /** `SELECT id, name, COALESCE(last_had, '') FROM foods ORDER BY name`. */
  function RowsByName(foods: seq<GoFood>): (r: seq<GoFood>)
    ensures Sorted(r, ByName) && multiset(r) == multiset(foods) && |r| == |foods|
  {
    ByNameIsTotal();
    SortBy(foods, ByName)
  }

  /** One scanned row with its `DaysAgo`. */
  function ViewOf(f: GoFood, now: Clock): (v: FoodView)
    requires ValidClock(now)
    ensures v.id == f.id && v.name == f.name
    ensures f.lastHad.None? ==> v.lastHad == "" && v.daysAgo == -1
    ensures f.lastHad.Some? ==> v.lastHad == f.lastHad.value
    ensures v.daysAgo == GoDaysAgo(v.lastHad, now)
  {
    var lastHad := if f.lastHad.Some? then f.lastHad.value else "";
    FoodView(f.id, f.name, lastHad, GoDaysAgo(lastHad, now))
  }

  /** The views of `rows`, in order. */
  function ViewsOf(rows: seq<GoFood>, now: Clock): (r: seq<FoodView>)
    requires ValidClock(now)
    ensures |r| == |rows|
  {
    if |rows| == 0 then [] else ViewsOf(rows[..|rows| - 1], now) + [ViewOf(rows[|rows| - 1], now)]
  }

  lemma {:induction false} ViewsOfAt(rows: seq<GoFood>, now: Clock, k: int)
    requires ValidClock(now) && 0 <= k < |rows|
    ensures ViewsOf(rows, now)[k] == ViewOf(rows[k], now)
    decreases |rows|
  {
    if k < |rows| - 1 {
      ViewsOfAt(rows[..|rows| - 1], now, k);
    }
  }

  /** A listing of `foods`: one view per row, by name. */
  ghost predicate ListsFoods(views: seq<FoodView>, foods: seq<GoFood>, now: Clock)
    requires ValidClock(now)
  {
    && |views| == |foods|
    && (forall i, j :: 0 <= i < j < |views| ==> LessEq(views[i].name, views[j].name))
    && (forall f :: f in foods ==> ViewOf(f, now) in views)
    && (forall v :: v in views ==> exists f :: f in foods && v == ViewOf(f, now))
  }

  /** Viewing the rows of the name-ordered table one by one lists the
      table. */
  lemma ScanListsFoods(foods: seq<GoFood>, now: Clock)
    requires ValidClock(now)
    ensures ListsFoods(ViewsOf(RowsByName(foods), now), foods, now)
  {
    var rows := RowsByName(foods);
    var views := ViewsOf(rows, now);
    assert |rows| == |multiset(rows)| == |foods|;
    forall f | f in foods
      ensures ViewOf(f, now) in views
    {
      assert f in multiset(rows);
      var k :| 0 <= k < |rows| && rows[k] == f;
      ViewsOfAt(rows, now, k);
    }
    forall v | v in views
      ensures exists f :: f in foods && v == ViewOf(f, now)
    {
      var k :| 0 <= k < |views| && views[k] == v;
      ViewsOfAt(rows, now, k);
      assert rows[k] in multiset(foods);
    }
    forall i, j | 0 <= i < j < |views|
      ensures LessEq(views[i].name, views[j].name)
    {
      ViewsOfAt(rows, now, i);
      ViewsOfAt(rows, now, j);
      assert ByName(rows[i], rows[j]);
    }
  }

  /** Appending a row with a fresh id and an unused name keeps ids
      increasing and below the next id, and names unique. */
  lemma AppendKeepsTable(foods: seq<GoFood>, id: int, name: string)
    requires Tables.IncreasingBy(foods, GoFoodId) && forall f :: f in foods ==> f.id < id
    requires UniqueNames(foods) && !NameInUse(foods, name)
    ensures !HasFood(foods, id)
    ensures var s := foods + [GoFood(id, name, None)];
      && Tables.IncreasingBy(s, GoFoodId)
      && (forall f :: f in s ==> f.id < id + 1)
      && UniqueNames(s)
  {
    var s := foods + [GoFood(id, name, None)];
    forall i, j | 0 <= i < j < |s|
      ensures GoFoodId(s[i]) < GoFoodId(s[j]) && s[i].name != s[j].name
    {
      if j == |foods| {
        assert s[i] in foods;
      }
    }
  }

  datatype GoResponse = FoodListPage(foods: seq<FoodView>) | HttpError(status: int, message: string)

  /** The table, with the next id `AUTOINCREMENT` hands out. */
  class Tracker {
    var foods: seq<GoFood>
    var nextId: int

    ghost predicate Valid()
      reads this
    {
      && Tables.IncreasingBy(foods, GoFoodId)
      && (forall f :: f in foods ==> f.id < nextId)
      && UniqueNames(foods)
    }

    constructor ()
      ensures Valid() && foods == []
    {
      foods, nextId := [], 1;
    }

    /** `getFoods`: scan the rows in name order, computing each one's
        `DaysAgo`. */
    method GetFoods(now: Clock) returns (views: seq<FoodView>)
      requires ValidClock(now)
      ensures views == ViewsOf(RowsByName(foods), now)
    {
      var rows := RowsByName(foods);
      views := [];
      var i := 0;
      while i < |rows|
        invariant 0 <= i <= |rows|
        invariant views == ViewsOf(rows[..i], now)
      {
        var view := ViewOf(rows[i], now);
        assert rows[..i + 1][..i] == rows[..i];
        views := views + [view];
        i := i + 1;
      }
      assert rows[..|rows|] == rows;
    }

    /** POST /add-food: 400 for an empty name; 500, with nothing stored,
        when the name is taken; otherwise one new row and the listing. */
    method AddFood(name: string, now: Clock) returns (resp: GoResponse)
      requires Valid() && ValidClock(now)
      modifies this
      ensures Valid()
      ensures name == "" ==> resp == HttpError(400, "Food name is required") && foods == old(foods)
      ensures name != "" && NameInUse(old(foods), name) ==>
        resp == HttpError(500, "Failed to add food") && foods == old(foods)
      ensures name != "" && !NameInUse(old(foods), name) ==>
        && (exists id :: !HasFood(old(foods), id) && foods == old(foods) + [GoFood(id, name, None)])
        && resp.FoodListPage? && ListsFoods(resp.foods, foods, now)
    {
      if name == "" {
        return HttpError(400, "Food name is required");
      }
      if NameInUse(foods, name) {
        return HttpError(500, "Failed to add food");
      }
      var id := nextId;
      AppendKeepsTable(foods, id, name);
      foods := foods + [GoFood(id, name, None)];
      nextId := nextId + 1;
      var views := GetFoods(now);
      ScanListsFoods(foods, now);
      resp := FoodListPage(views);
    }

    /** POST /update-last-had/{id}: 400 when the id is not an integer;
        otherwise today's date is stored for that id (no row if none has
        it) and the listing is answered. */
    method UpdateLastHad(idText: string, now: Clock) returns (resp: GoResponse)
      requires Valid() && ValidClock(now)
      modifies this
      ensures Valid()
      ensures Atoi(idText).None? ==> resp == HttpError(400, "Invalid food ID") && foods == old(foods)
      ensures Atoi(idText).Some? ==>
        && foods == WithLastHad(old(foods), Atoi(idText).value, Format(now.today))
        && resp.FoodListPage? && ListsFoods(resp.foods, foods, now)
    {
      var id := Atoi(idText);
      if id.None? {
        return HttpError(400, "Invalid food ID");
      }
      foods := WithLastHad(foods, id.value, Format(now.today));
      assert forall i :: 0 <= i < |foods| ==> foods[i].id == old(foods)[i].id;
      forall f | f in foods
        ensures f.id < nextId
      {
        var k :| 0 <= k < |foods| && foods[k] == f;
        assert old(foods)[k] in old(foods);
      }
      var views := GetFoods(now);
      ScanListsFoods(foods, now);
      resp := FoodListPage(views);
    }

    /** DELETE /delete-food/{id}: 400 when the id is not an integer;
        otherwise the row with that id goes and the listing is answered. */
    method DeleteFood(idText: string, now: Clock) returns (resp: GoResponse)
      requires Valid() && ValidClock(now)
      modifies this
      ensures Valid()
      ensures Atoi(idText).None? ==> resp == HttpError(400, "Invalid food ID") && foods == old(foods)
      ensures Atoi(idText).Some? ==>
        && foods == WithoutFood(old(foods), Atoi(idText).value)
        && resp.FoodListPage? && ListsFoods(resp.foods, foods, now)
    {
      var id := Atoi(idText);
      if id.None? {
        return HttpError(400, "Invalid food ID");
      }
      Tables.FilterKeepsIncreasing(foods, (f: GoFood) => f.id != id.value, GoFoodId);
      Tables.FilterKeepsUnique(foods, (f: GoFood) => f.id != id.value, GoFoodName);
      foods := WithoutFood(foods, id.value);
      var views := GetFoods(now);
      ScanListsFoods(foods, now);
      resp := FoodListPage(views);
    }
  }
}
