# WGZE meal tracker — a Dafny model

WGZE ("Was gibt's zu essen?") keeps a list of dishes and a log of meals and
answers one question: which dish has not been eaten for a while. The
repository holds three generations of the same application, and this
project models each as written, without merging their policies:

- **The current Hono application** (`src/routes/dishes.ts`, `meals.ts`,
  `ai.ts`). It keeps two tables, `foods (id, name, notes)` and
  `meals (id, food_id, date, notes)`. Creating or renaming a dish is refused
  when another dish already has that exact name. Logging a meal for an
  unknown dish name creates the dish. The dish listing is ordered by name
  without regard to letter case. The suggestion route writes the shuffled
  dish list into a prompt for a language model.
- **The earlier Hono application** (`wgze-hono/src/database.ts`, `index.ts`,
  `components/FoodList.tsx`). It has the same tables behind a `Database`
  class. It does no duplicate-name check and refuses meals for unknown
  dishes. It lists dishes with the longest-uneaten first, and each dish
  gets a coloured caption chosen from its `days_ago`.
- **The Go prototype** (`main.go`). It has one `foods` table with a
  `last_had` date column and a `UNIQUE` name, a listing by name, and
  handlers to add a dish, mark a dish as had today, and delete a dish.

Both tables are sequences in rowid order. New rows get ids from a counter
above every id handed out before. The database is a class (`Tables.D1`,
`GoTracker.Tracker`) whose fields the handler methods update. Deleting a
food also deletes its meals: this is the foreign-key cascade stated in the
source's comments.

`calculateDaysAgo` appears three times in the TypeScript code
(`src/routes/dishes.ts:9-18`, `src/routes/ai.ts:9-18`,
`wgze-hono/src/database.ts:9-18`), identically. It is modelled once, as
`Staleness.CalculateDaysAgo`. The clock is a parameter: the current UTC day
and the nanoseconds elapsed in it. A `YYYY-MM-DD` date is UTC midnight of
that day. The model shows two consequences:

- The result is the number of calendar days from the date to today.
- The "never eaten" value −1 is also what a meal dated exactly tomorrow
  gives (`Staleness.MinusOneMeansNeverOrTomorrow`).

The Go version truncates toward zero instead of flooring. For a future date
up to 106751 days ahead it therefore reads one day higher, except at
midnight exactly. Go's duration holds at most 106751 days, so a date farther
away in either direction reads as that bound, where TypeScript gives the
true distance (`GoTracker.GoAndJavaScriptDaysAgo`).

Dish names are compared exactly, as SQL `name = ?` compares them. The
TypeScript code does not fold case when it looks a name up, and the model
follows the code. Only the listing order uses `COLLATE NOCASE`.

Files:

| file | module | models |
|---|---|---|
| wrappers.dfy | Wrappers | optional values; a JavaScript string used as a truth value |
| strings.dfy | Strings | SQLite text order, ASCII case folding, decimal digits, number text, `join`/`split` |
| sorting.dfy | Sorting | `ORDER BY` as a stable sort under a total preorder |
| calendar.dfy | Calendar | `YYYY-MM-DD` dates: parse, format, day numbers, text order against time order |
| staleness.dfy | Staleness | `calculateDaysAgo` of the TypeScript code |
| tables.dfy | Tables | the two tables, the SQL statements over them, the `D1` class |
| listing.dfy | Listing | the per-dish summary row (`MAX(m.date)`, `days_ago`) |
| dishes.dfy | Dishes | `src/routes/dishes.ts` |
| meals.dfy | Meals | `src/routes/meals.ts` |
| suggestions.dfy | Suggestions | `src/routes/ai.ts` |
| food_list.dfy | FoodListView | `wgze-hono/src/components/FoodList.tsx` |
| wgze_database.dfy | WgzeDatabase | `wgze-hono/src/database.ts` |
| wgze_app.dfy | WgzeApp | `wgze-hono/src/index.ts` |
| go_tracker.dfy | GoTracker | `main.go` |

## Model

| member | source | states |
|---|---|---|
| Staleness.CalculateDaysAgo | src/routes/dishes.ts:9-18 | −1 for a null or empty date; otherwise NaN exactly when the text is not a `YYYY-MM-DD` date |
| Staleness.DaysAgoIsCalendarDistance | src/routes/dishes.ts:9-17 | for a date that parses, `days_ago` is today's day number minus the date's, at any time of day; it is 0 exactly for today and negative exactly for a future date |
| Staleness.DaysAgoOfNothing | src/routes/dishes.ts:10 | a null or empty date gives −1 |
| Staleness.MinusOneMeansNeverOrTomorrow | src/routes/dishes.ts:9-17 | the result is −1 exactly when the date is absent or empty, or parses to the day after today |
| Strings.LessIsFirstDifference | src/routes/dishes.ts:24 | SQLite's BINARY text order is decided at the first differing character, a proper prefix sorting first |
| Strings.FoldCase | src/routes/dishes.ts:28 | `NOCASE` folding leaves no upper-case ASCII letter, turns each into its lower-case letter (code + 32) and keeps every other character |
| Calendar.Parse | src/routes/dishes.ts:12 | a date that parses is a real calendar day |
| Calendar.ParseFormat | main.go:138 | the text written for a date parses back to that date |
| Calendar.FormatParse | main.go:55 | a text that parses is the text written for its date |
| Calendar.IsoTextOrderIsChronological | src/routes/dishes.ts:24 | on `YYYY-MM-DD` texts, SQLite's text order is time order, so `MAX(m.date)` is the latest date |
| Sorting.SortBy | src/routes/dishes.ts:28 | an `ORDER BY` result is sorted by the key and holds the same rows with the same multiplicities |
| Tables.StoredNotes | src/routes/dishes.ts:76 | absent or empty notes are stored as NULL, other notes unchanged |
| Tables.First | src/routes/meals.ts:58-60 | `.first()` finds a row exactly when one matches, and the row it finds is stored and matches |
| Tables.FirstNamed | src/routes/meals.ts:42-44 | a lookup by name finds a food exactly when some food has that exact name |
| Tables.FoodById | src/routes/meals.ts:16 | the join finds a food exactly when one has the meal's `food_id` |
| Tables.UpdatedFoods | src/routes/dishes.ts:124-126 | the UPDATE keeps every id and every row with another id, and sets name and notes on the row with that id |
| Tables.WithoutFood | src/routes/dishes.ts:148-150 | the DELETE keeps exactly the foods with another id |
| Tables.WithoutMealsOf | src/routes/dishes.ts:147 | the cascade keeps exactly the meals of other foods |
| Tables.WithoutMeal | src/routes/meals.ts:93-95 | the DELETE keeps exactly the meals with another id |
| Tables.UpdateMissingIsIdentity | src/routes/dishes.ts:124-126 | updating an id no food has changes nothing |
| Tables.DeleteMissingIsIdentity | src/routes/dishes.ts:147-150 | deleting an id no food has, with its cascade, changes neither table |
| Tables.AppendKeepsUnique | src/routes/dishes.ts:59-76 | inserting a row whose key no stored row has keeps the keys unique |
| Tables.FilterKeepsUnique | src/routes/dishes.ts:148-150 | deleting rows keeps the remaining keys unique |
| Tables.CascadeKeepsReferences | src/routes/dishes.ts:147 | after the cascade every meal still refers to a stored food |
| Tables.D1.InsertFood | src/routes/dishes.ts:74-76 | an INSERT appends exactly one food with a fresh id and leaves the meals unchanged |
| Tables.D1.InsertMeal | src/routes/meals.ts:67-69 | an INSERT appends exactly one meal with a fresh id and leaves the foods unchanged |
| Tables.D1.UpdateFood | src/routes/dishes.ts:124-126 | the foods become `UpdatedFoods` and the meals stay unchanged |
| Tables.D1.DeleteFood | src/routes/dishes.ts:147-150 | removes the food and its meals; the table invariants hold afterwards |
| Tables.D1.DeleteMeal | src/routes/meals.ts:93-95 | removes only the meal with that id |
| Listing.LastHad | src/routes/dishes.ts:24 | `COALESCE(MAX(m.date), '')` is '' or one of the food's meal dates, and no meal date of the food is above it |
| Listing.RowOf | src/routes/dishes.ts:22-34 | a summary row keeps the food's id and name, reads absent or empty notes as '', carries the food's `last_had`, and computes `days_ago` from it (`|| null` changes nothing, as '' gives −1 too) |
| Listing.Rows | src/routes/dishes.ts:22-34 | the GROUP BY gives one row per stored food |
| Listing.InRows | src/routes/dishes.ts:22-34 | a row is among the query's rows exactly when it is the summary row of a stored food |
| Listing.LastHadEmptyIffNeverEaten | src/routes/dishes.ts:24 | with non-empty stored dates, `last_had` is '' exactly when the food has no meal |
| Listing.LastHadIsLatestMeal | src/routes/dishes.ts:24 | with `YYYY-MM-DD` dates, `last_had` is the date of the food's most recent meal |
| Listing.DaysAgoMinusOne | src/routes/dishes.ts:31-34 | `days_ago` is −1 for a food without meals, and otherwise only when its latest meal is dated tomorrow |
| Listing.DaysAgoCountsFromLatestMeal | src/routes/dishes.ts:31-34 | an eaten food's `days_ago` is the calendar days from its latest meal to today |
| Listing.RowsCarryLastHad | src/routes/dishes.ts:22-29 | every summary row is for a stored food and carries that food's `last_had` |
| Dishes.NoCaseOrderIsTotal | src/routes/dishes.ts:28 | `COLLATE NOCASE` order is a total preorder |
| Dishes.FoodsWithLastMeal | src/routes/dishes.ts:21-35 | the listing is ordered by name ignoring ASCII case and holds exactly the summary rows, one per food |
| Dishes.ListingIsOneRowPerFood | src/routes/dishes.ts:21-35 | a row is in the listing exactly when it is the summary row of a stored food |
| Dishes.Status | src/routes/dishes.ts:50-71 | the status is 400 exactly for a refusal |
| Dishes.RenameKeepsNamesUnique | src/routes/dishes.ts:109-126 | renaming to a name no other dish has keeps names unique |
| Dishes.OwnNameIsNotTaken | src/routes/dishes.ts:110-114 | with unique names, a dish keeping its own name is not refused |
| Dishes.CreateDish | src/routes/dishes.ts:44-90 | 400 with no change for an absent or empty name, or for a name in use; otherwise exactly one new dish with that name and empty notes stored as NULL, meals unchanged, the fresh listing answered; unique names preserved |
| Dishes.UpdateDish | src/routes/dishes.ts:93-140 | 400 with no change for an absent or empty name, or a name another dish has; otherwise only the row with that id changes; a missing id changes nothing; unique names preserved |
| Dishes.DeleteDish | src/routes/dishes.ts:143-159 | removes the dish and its meals; a missing id changes nothing; the fresh listing is answered |
| Meals.JoinRow | src/routes/meals.ts:13-16 | a joined row keeps the meal's id, dish id and date, carries the name of a food with that id, reads absent or empty notes as '' and keeps other notes |
| Meals.Joined | src/routes/meals.ts:13-16 | the inner join holds exactly the meals whose dish exists, each with its dish's name; none is lost when every meal has its dish |
| Meals.NewestFirstIsTotal | src/routes/meals.ts:17 | `ORDER BY m.date DESC` is a total preorder |
| Meals.History | src/routes/meals.ts:13-18 | the history is the join sorted by date text, latest first |
| Meals.HistoryShowsMealsWithTheirDish | src/routes/meals.ts:13-18 | a row is in the history exactly when it is the joined row of a meal whose dish exists |
| Meals.HistoryIsNewestFirst | src/routes/meals.ts:17 | with `YYYY-MM-DD` dates, earlier rows are not older in time than later ones |
| Meals.Status | src/routes/meals.ts:32-39 | 400 exactly for missing fields |
| Meals.AddMeal | src/routes/meals.ts:25-85 | 400 with no change for an absent or empty dish name or date; a dish that exists leaves the foods unchanged; an unknown name gets exactly one new dish without notes, named in the message; then exactly one meal for the dish of that name with the date as given and empty notes stored as NULL; unique names and non-empty meal dates are preserved |
| Meals.DeleteMeal | src/routes/meals.ts:88-117 | removes only the meal with that id (a missing id changes nothing) and answers the history |
| Suggestions.SeasonOf | src/routes/ai.ts:68-71 | months 3–5 spring, 6–8 summer, 9–11 autumn, all others winter |
| Suggestions.SeasonIsShiftedQuarter | src/routes/ai.ts:68-71 | for months 1–12 the seasons are the quarters shifted to begin in December |
| Suggestions.Shuffle | src/routes/ai.ts:47 | the shuffled list has the same rows with the same multiplicities |
| Suggestions.LastEaten | src/routes/ai.ts:62 | the staleness text is "never eaten" exactly for −1, and otherwise the number's text followed by " days ago" |
| Suggestions.NotesSuffix | src/routes/ai.ts:63 | the suffix is empty exactly for empty notes; otherwise it holds the notes |
| Suggestions.DishLine | src/routes/ai.ts:61-64 | a dish line is "- ", the dish's name and ": last eaten ", followed by the staleness text and the notes suffix |
| Suggestions.PreferencesText | src/routes/ai.ts:88 | absent or empty preferences become "No specific preferences"; others are kept |
| Suggestions.ReplyText | src/routes/ai.ts:110 | an absent or empty reply becomes "Keine Vorschläge verfügbar."; others are kept |
| Suggestions.PromptFor | src/routes/ai.ts:61-92 | the prompt's date reads back as today, its season is that of the current month, its preferences are `PreferencesText`, and its dish part is the dish lines joined by line breaks |
| Suggestions.Suggest | src/routes/ai.ts:26-129 | no dishes gives the notice; otherwise the model is asked with the prompt of the shuffled listing, a failing call gives 500 and an answer is shown with the default for an empty reply |
| Suggestions.NoDishesAsksNoModel | src/routes/ai.ts:49-55 | with no dishes the answer does not depend on the model |
| Suggestions.IntToStringHasNoBreak | src/routes/ai.ts:62 | a number's text has no line break |
| Suggestions.NumTextReadsBack | src/routes/ai.ts:62 | a number's text reads back as the number, and "NaN" as none |
| Suggestions.LastEatenEnding | src/routes/ai.ts:62 | the staleness text ends in 'n' exactly for −1 |
| Suggestions.LastEatenIsInjective | src/routes/ai.ts:62 | different `days_ago` values give different staleness texts |
| Suggestions.NeverEatenLine | src/routes/ai.ts:41-64 | a dish's line is `- name: last eaten never eaten` plus its notes suffix exactly when it has no meal or its latest meal is dated tomorrow |
| Suggestions.NeverEatenLineIsMinusOne | src/routes/ai.ts:61-64 | a row's line is the "never eaten" line exactly when its `days_ago` is −1 |
| Suggestions.NoteBreakSplitsLine | src/routes/ai.ts:61-65 | a line break in a dish's notes makes the dish part split into more than one line for that one dish |
| Suggestions.DishLineIsOneLine | src/routes/ai.ts:61-64 | a dish line has no line break when the dish's name and notes have none |
| Suggestions.ShuffleCommutesWithMap | src/routes/ai.ts:47-64 | mapping a shuffled list is the same shuffle of the mapped list |
| Suggestions.ShuffleCommutesWithLines | src/routes/ai.ts:47-65 | the lines of the shuffled dishes are the same shuffle of the dishes' lines |
| Suggestions.PromptHasOneLinePerDish | src/routes/ai.ts:61-65 | without line breaks in names and notes, splitting the prompt's dish part gives the shuffled dishes' lines, each dish's line exactly once |
| FoodListView.BadgeFor | wgze-hono/src/components/FoodList.tsx:33-45 | −1 never eaten (red), 0 today, 1 yesterday, other values up to 7 green, 8–30 yellow, above 30 red; NaN falls through to red |
| FoodListView.EntryFor | wgze-hono/src/components/FoodList.tsx:19-45 | an entry shows the dish's id, name and the badge of its `days_ago`, and its notes exactly when they are non-empty |
| FoodListView.Render | wgze-hono/src/components/FoodList.tsx:7-23 | the empty-state message exactly for an empty list; otherwise one entry per dish in input order, with notes shown only when non-empty; each entry is `EntryFor` of its dish, so the shown notes are the dish's notes |
| FoodListView.NeverEatenShowsRed | wgze-hono/src/components/FoodList.tsx:33-34 | a dish without meals shows red "Noch nie gegessen" |
| FoodListView.LatestMealTodayOrYesterday | wgze-hono/src/components/FoodList.tsx:35-38 | latest meal today shows "Heute gegessen", yesterday "Gestern gegessen" |
| FoodListView.FutureMealCaptions | wgze-hono/src/components/FoodList.tsx:33-40 | a latest meal dated tomorrow shows as never eaten; a later future date shows green |
| WgzeDatabase.TextOrderIsTotal | wgze-hono/src/database.ts:49 | `ORDER BY name` on text is a total preorder |
| WgzeDatabase.ByNameIsTotal | wgze-hono/src/database.ts:23 | ordering rows by name is a total preorder |
| WgzeDatabase.FoodsByName | wgze-hono/src/database.ts:21-27 | `getFoods` is sorted by name and holds every food once, notes read through `COALESCE` |
| WgzeDatabase.FoodNames | wgze-hono/src/database.ts:47-53 | `getFoodNames` is sorted and holds every food's name once |
| WgzeDatabase.OldestEatenFirstIsTotal | wgze-hono/src/database.ts:37 | `ORDER BY last_had ASC, f.name` is a total preorder |
| WgzeDatabase.FoodsOldestEatenFirst | wgze-hono/src/database.ts:30-44 | the listing is ordered by `last_had`, then name, and holds exactly the summary rows |
| WgzeDatabase.NeverEatenListedFirst | wgze-hono/src/database.ts:30-44 | dishes never eaten come before every eaten dish |
| WgzeDatabase.AddingATakenNameDuplicates | wgze-hono/src/database.ts:68-72 | inserting a name in use leaves two dishes with that name |
| WgzeDatabase.Database.constructor | wgze-hono/src/database.ts:6 | the class holds the database handle it is given |
| WgzeDatabase.Database.GetFoods | wgze-hono/src/database.ts:21-27 | answers `FoodsByName` of the stored foods |
| WgzeDatabase.Database.GetFoodsWithLastMeal | wgze-hono/src/database.ts:30-44 | answers the oldest-eaten-first listing |
| WgzeDatabase.Database.GetFoodNames | wgze-hono/src/database.ts:47-53 | answers the sorted names |
| WgzeDatabase.Database.GetMeals | wgze-hono/src/database.ts:56-65 | answers the same history as the current application |
| WgzeDatabase.Database.AddFood | wgze-hono/src/database.ts:68-72 | exactly one new food with empty notes stored as NULL and a fresh id, without a name check; meals unchanged |
| WgzeDatabase.Database.AddMeal | wgze-hono/src/database.ts:75-88 | throws "Food not found" and changes nothing when no food has that exact name; otherwise exactly one meal for a food of that name (the model takes the first in rowid order); foods unchanged |
| WgzeDatabase.Database.EditFood | wgze-hono/src/database.ts:91-95 | only the row with that id changes; a missing id changes nothing |
| WgzeDatabase.Database.DeleteFood | wgze-hono/src/database.ts:98-102 | removes the food and, by the cascade, its meals |
| WgzeDatabase.Database.DeleteMeal | wgze-hono/src/database.ts:105-109 | removes only the meal with that id |
| WgzeDatabase.Database.FoodExists | wgze-hono/src/database.ts:112-118 | true exactly when some food's name equals the given name |
| WgzeApp.Status | wgze-hono/src/index.ts:53-71 | 400 exactly for the three refusals, 500 exactly for a server error |
| WgzeApp.AddMealRoute | wgze-hono/src/index.ts:44-89 | 400 with no change for missing fields or an unknown dish (no dish is created); otherwise exactly one meal for that dish; non-empty meal dates are preserved; never 500 |
| WgzeApp.AddFoodRoute | wgze-hono/src/index.ts:92-112 | 400 with no change for a missing name; otherwise one new food even when the name is taken (then names are no longer unique), and the re-rendered list |
| WgzeApp.EditFoodRoute | wgze-hono/src/index.ts:115-136 | 400 with no change for a missing name; otherwise the row with that id is updated with no name check, and the re-rendered list |
| WgzeApp.DeleteFoodRoute | wgze-hono/src/index.ts:139-153 | the dish and its meals are removed and the re-rendered list is answered |
| GoTracker.Saturate | main.go:60 | a time difference is clamped to the int64 range and kept when it fits |
| GoTracker.WholeDays | main.go:60 | a duration becomes whole days rounded toward zero |
| GoTracker.GoDaysAgo | main.go:50-61 | −1 for an empty or unparseable date; otherwise a day count within what an int64 duration holds |
| GoTracker.GoDaysAgoOfDate | main.go:50-61 | for every parsed date `k` days back: `k` for today and past dates, one less in magnitude for future dates except at midnight, and ±106751 beyond 106751 days either way, where the duration saturates |
| GoTracker.GoAndJavaScriptDaysAgo | main.go:60 | TypeScript gives the calendar distance `k`; Go agrees exactly when `k` is from −106751 to 106751 and the date is not in the future or it is midnight; on other future dates within that range Go reads one higher; beyond it Go reads ±106751 |
| GoTracker.MarkedTodayIsZeroDaysAgo | main.go:138-139 | a dish marked as had today reads 0 days ago |
| GoTracker.Atoi | main.go:132-136 | an id parses exactly when it is an optionally signed decimal within int64 |
| GoTracker.AtoiReadsBack | main.go:132 | every int64 written in decimal parses back to itself |
| GoTracker.WithLastHad | main.go:139 | the UPDATE sets `last_had` on the row with that id only, and keeps ids and names |
| GoTracker.WithoutFood | main.go:170 | the DELETE keeps exactly the rows with another id |
| GoTracker.AppendKeepsTable | main.go:107 | inserting an unused name with the next id keeps ids increasing and names unique |
| GoTracker.ByNameIsTotal | main.go:64 | `ORDER BY name` is a total preorder |
| GoTracker.RowsByName | main.go:64 | the query's rows are sorted by name and are the table's rows |
| GoTracker.ViewOf | main.go:72-77 | a scanned row keeps its id and name, reads a NULL `last_had` as '' with −1 days, and gets the `DaysAgo` of its `last_had` |
| GoTracker.ViewsOf | main.go:70-79 | one view per scanned row |
| GoTracker.ViewsOfAt | main.go:72-78 | the k-th view is the k-th row with its `DaysAgo` |
| GoTracker.ScanListsFoods | main.go:63-81 | the scan lists every row of the table once, ordered by name, each with its `DaysAgo` |
| GoTracker.Tracker.GetFoods | main.go:63-81 | the loop appends the view of each row in name order |
| GoTracker.Tracker.AddFood | main.go:99-127 | 400 for an empty name; 500 with no change for a name in use; otherwise exactly one new row with a fresh id and the listing |
| GoTracker.Tracker.UpdateLastHad | main.go:129-159 | 400 for an id that is not an integer; otherwise today's date on that id's row only, and the listing |
| GoTracker.Tracker.DeleteFood | main.go:161-190 | 400 for an id that is not an integer; otherwise only the row with that id goes, and the listing |

## Left out

- HTTP plumbing is not modelled: routing, method checks, form parsing, HTML fragments and templates. Responses are datatypes naming the status and the message kind.
- The JSX pages and layouts, the browser script in HomePage.tsx, `src/routes/home.ts` and the authentication routes are outside the model.
- The database engine is not modelled. Tables are sequences in rowid order with ids from counters. The D1 schema is not part of this model, so the cascade comes from the source's comments, and SQLite's reuse of deleted ids is not modelled.
- Rows with equal sort keys keep their storage order (a stable sort). SQLite leaves that order unspecified.
- Catch-all 500s caused by database failures are not modelled, because the model has no failing database. The 500s it has are the Go duplicate-name insert, a failing language-model call, and the earlier application's `/add-meal` catch, which is proved unreachable.
- `parseInt` of a TypeScript route id is not modelled; the id arrives as an integer. Go's `strconv.Atoi` is modelled.
- The clock is a parameter (UTC day and nanoseconds into it). The server's local time zone is taken to be UTC.
- Staleness.CalculateDaysAgo: a date text that JavaScript's fallback parser accepts but that is not strict `YYYY-MM-DD` reads as NaN here. So does an ISO-shaped text with a day number past the end of its month (`2023-02-30`), which JavaScript engines may roll over into the next month.
- `.first()` without `ORDER BY` (the name lookups before a meal is added) is modelled as the first matching row in rowid order. SQLite leaves the choice to the engine, which matters in the earlier application, where two dishes can share a name.
- GoTracker.GoDaysAgo: `Hours() / 24` is computed in float64 in the source; the model divides exactly, so rounding at the edge of a day is not captured.
- Suggestions.Shuffle: `sort` with a random comparator is modelled as a permutation chosen by a list of draws. Its distribution is not modelled.
- Suggestions.PromptFor: the language-model call is a parameter, and the prompt's fixed instruction text is not reproduced; the prompt holds only the date, season, preferences and dish lines.
- `COALESCE(notes, "")` in `getFoods` is read as the empty string.
- Concurrent requests are not modelled, including the race between the name check and the insert.
