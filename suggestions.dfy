/** The suggestion route of the current application (src/routes/ai.ts):
    the dish summary is shuffled, written one line per dish into a prompt
    together with today's date, the season and the user's preferences, and
    the language model's reply is shown. The model is a parameter `ask`;
    the random order is a parameter `draws`. */
module Suggestions {

  import opened Wrappers
  import opened Strings
  import opened Calendar
  import opened Staleness
  import opened Tables
  import opened Listing
  import opened Dishes

  // ---------------------------------------------------------------------
  // Season
  // ---------------------------------------------------------------------

  datatype Season = Spring | Summer | Autumn | Winter

  function SeasonName(s: Season): string
  {
    match s
    case Spring => "Frühling"
    case Summer => "Sommer"
    case Autumn => "Herbst"
    case Winter => "Winter"
  }

  /** The season of a month numbered 1 to 12. */
  function SeasonOf(month: int): (s: Season)
    ensures s == Spring <==> 3 <= month <= 5
    ensures s == Summer <==> 6 <= month <= 8
    ensures s == Autumn <==> 9 <= month <= 11
    ensures s == Winter <==> !(3 <= month <= 11)
  {
    if 3 <= month <= 5 then Spring
    else if 6 <= month <= 8 then Summer
    else if 9 <= month <= 11 then Autumn
    else Winter
  }

  /** Seasons are the calendar quarters shifted to start in December. */
  lemma SeasonIsShiftedQuarter(month: int)
    requires 1 <= month <= 12
    ensures SeasonOf(month) == [Winter, Spring, Summer, Autumn][(month % 12) / 3]
  {
    if month == 12 {
      assert month % 12 == 0;
    } else {
      assert month % 12 == month;
    }
  }

  // ---------------------------------------------------------------------
  // Shuffle
  // ---------------------------------------------------------------------

  /** `[...foods].sort(() => Math.random() - 0.5)`: some order of the same
      rows. Each draw picks which of the remaining rows comes next. */
  function Shuffle<T>(s: seq<T>, draws: seq<nat>): (r: seq<T>)
    ensures |r| == |s| && multiset(r) == multiset(s)
    decreases |s|
  {
    if |s| == 0 then []
    else
      var k := if |draws| > 0 then draws[0] % |s| else 0;
      assert s == s[..k] + [s[k]] + s[k + 1..];
      [s[k]] + Shuffle(s[..k] + s[k + 1..], if |draws| > 0 then draws[1..] else [])
  }

  // ---------------------------------------------------------------------
  // The prompt
  // ---------------------------------------------------------------------

  /** `food.days_ago === -1 ? 'never eaten' : `${food.days_ago} days ago``. */
  function LastEaten(d: Num): (r: string)
    ensures r == "never eaten" <==> d == Finite(-1)
    ensures d != Finite(-1) ==> r == NumText(d) + " days ago"
  {
    assert (NumText(d) + " days ago")[|NumText(d)| + 8] == 'o';
    if d == Finite(-1) then "never eaten" else NumText(d) + " days ago"
  }

  /** `food.notes ? ` (Notes: ${food.notes})` : ''`. */
  function NotesSuffix(notes: string): (r: string)
    ensures r == "" <==> notes == ""
    ensures notes != "" ==> |r| == |notes| + 10 && r[9..|r| - 1] == notes
  {
    if notes != "" then " (Notes: " + notes + ")" else ""
  }

  /** `xs.map(f)`. */
  function Map<A, B>(xs: seq<A>, f: A -> B): (r: seq<B>)
    ensures |r| == |xs| && forall i :: 0 <= i < |xs| ==> r[i] == f(xs[i])
  {
    seq(|xs|, i requires 0 <= i < |xs| => f(xs[i]))
  }

  /** `- ${food.name}: last eaten ${lastEaten}${notes}`. */
  function DishLine(food: FoodWithLastMeal): (r: string)
    ensures |r| >= |food.name| + 15
    ensures r[..|food.name| + 15] == "- " + food.name + ": last eaten "
    ensures r[|food.name| + 15..] == LastEaten(food.daysAgo) + NotesSuffix(food.notes)
  {
    "- " + food.name + ": last eaten " + LastEaten(food.daysAgo) + NotesSuffix(food.notes)
  }

  function DishLines(foods: seq<FoodWithLastMeal>): (r: seq<string>)
    ensures |r| == |foods|
  {
    Map(foods, DishLine)
  }

  /** `foodsInfo`: the dish lines joined with line breaks. */
  function FoodsInfo(foods: seq<FoodWithLastMeal>): string
  {
    Join(DishLines(foods), '\n')
  }

  /** `preferences || 'No specific preferences'`. */
  function PreferencesText(preferences: Option<string>): (r: string)
    ensures r != ""
    ensures Present(preferences) ==> r == preferences.value
    ensures !Present(preferences) ==> r == "No specific preferences"
  {
    if Present(preferences) then preferences.value else "No specific preferences"
  }

  /** `response.text || 'Keine Vorschläge verfügbar.'`. */
  function ReplyText(text: Option<string>): (r: string)
    ensures r != ""
    ensures Present(text) ==> r == text.value
    ensures !Present(text) ==> r == "Keine Vorschläge verfügbar."
  {
    if Present(text) then text.value else "Keine Vorschläge verfügbar."
  }

  /** The parts of the prompt that vary; its fixed instructions are not
      part of this model. */
  datatype Prompt = Prompt(todayDate: string, season: string, preferences: string, foodsInfo: string)

  function PromptFor(preferences: Option<string>, shuffled: seq<FoodWithLastMeal>, now: Clock): (p: Prompt)
    requires ValidClock(now)
    ensures Parse(p.todayDate) == Some(now.today)
    ensures p.season == SeasonName(SeasonOf(now.today.month))
    ensures p.preferences == PreferencesText(preferences)
    ensures p.foodsInfo == Join(DishLines(shuffled), '\n')
  {
    ParseFormat(now.today);
    Prompt(Format(now.today), SeasonName(SeasonOf(now.today.month)),
           PreferencesText(preferences), FoodsInfo(shuffled))
  }

  // ---------------------------------------------------------------------
  // The route
  // ---------------------------------------------------------------------

  /** What the language model returns: some text (possibly none), or a
      failure that the route's `catch` turns into a 500. */
  datatype ModelReply = Answered(text: Option<string>) | CallFailed

  datatype SuggestionResponse =
    | NoDishesYet          // the "add dishes first" notice
    | Suggestions(text: string)
    | GenerationFailed     // 500: "Fehler beim Generieren der Vorschläge"

  /** POST /ai-suggestions. */
  function Suggest(preferences: Option<string>, foods: seq<Food>, meals: seq<Meal>, now: Clock,
                   draws: seq<nat>, ask: Prompt -> ModelReply): (r: SuggestionResponse)
    requires ValidClock(now)
    ensures r == NoDishesYet <==> |foods| == 0
    ensures |foods| > 0 ==>
      var prompt := PromptFor(preferences, Shuffle(FoodsWithLastMeal(foods, meals, now), draws), now);
      && (ask(prompt).CallFailed? <==> r == GenerationFailed)
      && (ask(prompt).Answered? ==> r == Suggestions(ReplyText(ask(prompt).text)))
    ensures r.Suggestions? ==> r.text != ""
  {
    var rows := FoodsWithLastMeal(foods, meals, now);
    var shuffled := Shuffle(rows, draws);
    if |rows| == 0 then NoDishesYet
    else
      match ask(PromptFor(preferences, shuffled, now))
      case CallFailed => GenerationFailed
      case Answered(text) => Suggestions(ReplyText(text))
  }

  /** With no dishes the model is never asked: any two models give the
      same answer. */
  lemma NoDishesAsksNoModel(preferences: Option<string>, meals: seq<Meal>, now: Clock,
                            draws: seq<nat>, ask1: Prompt -> ModelReply, ask2: Prompt -> ModelReply)
    requires ValidClock(now)
    ensures Suggest(preferences, [], meals, now, draws, ask1) == Suggest(preferences, [], meals, now, draws, ask2)
  {
  }

  // ---------------------------------------------------------------------
  // Properties of the dish lines
  // ---------------------------------------------------------------------

  lemma IntToStringHasNoBreak(n: int)
    ensures '\n' !in IntToString(n)
  {
    var digits := NatToString(if n < 0 then -n else n);
    forall i | 0 <= i < |digits|
      ensures digits[i] != '\n'
    {
      assert IsDigit(digits[i]);
    }
    assert IntToString(n) == (if n < 0 then "-" else "") + digits;
  }

  /** The number text reads back as the number; "NaN" reads as none. */
  lemma NumTextReadsBack(n: Num)
    ensures ParseInt(NumText(n)) == if n.Finite? then Some(n.value) else None
  {
    match n
    case Finite(v) => ParseIntToString(v);
    case NaN => assert !IsDigit('N');
  }

  /** The staleness text ends in 'n' ("never eaten") only for -1; every
      other value ends in 'o' ("days ago"). */
  lemma LastEatenEnding(d: Num)
    ensures |LastEaten(d)| > 0
    ensures LastEaten(d)[|LastEaten(d)| - 1] == 'n' <==> d == Finite(-1)
  {
    if d != Finite(-1) {
      var t := NumText(d) + " days ago";
      assert t[|t| - 1] == 'o';
    }
  }

  /** The staleness text tells every `days_ago` apart: "never eaten" is
      written for -1 and for nothing else. */
  lemma LastEatenIsInjective(a: Num, b: Num)
    requires LastEaten(a) == LastEaten(b)
    ensures a == b
  {
    LastEatenEnding(a);
    LastEatenEnding(b);
    NumTextReadsBack(a);
    NumTextReadsBack(b);
    if a != Finite(-1) && b != Finite(-1) {
      var x, y := NumText(a), NumText(b);
      var sfx := " days ago";
      assert |x| == |y|;
      assert x == (x + sfx)[..|x|] && y == (y + sfx)[..|y|];
    }
  }

  /** A dish's line says "never eaten" exactly when it has no meals or its
      latest meal is dated tomorrow. */
  lemma NeverEatenLine(f: Food, meals: seq<Meal>, now: Clock)
    requires ValidClock(now) && DatesPresent(meals)
    ensures var row := RowOf(f, meals, now);
      DishLine(row) == "- " + f.name + ": last eaten " + "never eaten" + NotesSuffix(row.notes) <==>
        !Eaten(meals, f.id) ||
        (Parse(LastHad(meals, f.id)).Some? &&
         DayNumber(Parse(LastHad(meals, f.id)).value) == DayNumber(now.today) + 1)
  {
    DaysAgoMinusOne(f, meals, now);
    NeverEatenLineIsMinusOne(RowOf(f, meals, now));
  }

  /** A row's line is the "never eaten" line exactly when its `days_ago`
      is -1. */
  lemma NeverEatenLineIsMinusOne(row: FoodWithLastMeal)
    ensures DishLine(row) == "- " + row.name + ": last eaten " + "never eaten" + NotesSuffix(row.notes) <==>
      row.daysAgo == Finite(-1)
  {
    var line, head := DishLine(row), "- " + row.name + ": last eaten ";
    assert line == line[..|head|] + line[|head|..];
    MiddleDecides(head, LastEaten(row.daysAgo), "never eaten", NotesSuffix(row.notes));
  }

  /** Two texts with the same head and tail are equal exactly when their
      middles are. */
  lemma MiddleDecides(head: string, a: string, b: string, tail: string)
    ensures head + (a + tail) == head + b + tail <==> a == b
  {
    if head + (a + tail) == head + b + tail {
      assert |a| == |b|;
      assert a == (head + (a + tail))[|head|..|head| + |a|];
      assert b == (head + b + tail)[|head|..|head| + |b|];
    }
  }

  /** Text without a line break in a dish's name or notes. */
  predicate SingleLine(food: FoodWithLastMeal)
  {
    '\n' !in food.name && '\n' !in food.notes
  }

  lemma LastEatenHasNoBreak(d: Num)
    ensures '\n' !in LastEaten(d)
  {
    match d
    case Finite(v) => IntToStringHasNoBreak(v);
    case NaN =>
  }

  lemma DishLineIsOneLine(food: FoodWithLastMeal)
    requires SingleLine(food)
    ensures '\n' !in DishLine(food)
  {
    var staleness, notes := LastEaten(food.daysAgo), NotesSuffix(food.notes);
    LastEatenHasNoBreak(food.daysAgo);
    assert '\n' !in notes;
    assert DishLine(food) == "- " + food.name + ": last eaten " + staleness + notes;
  }

  /** A line break in a dish's notes breaks the dish's line in two: the
      split of the prompt's dish part then sees more lines than dishes. */
  lemma NoteBreakSplitsLine(food: FoodWithLastMeal)
    requires '\n' in food.notes
    ensures |Split(FoodsInfo([food]), '\n')| > 1
  {
    var line, notes := DishLine(food), NotesSuffix(food.notes);
    var i :| 0 <= i < |food.notes| && food.notes[i] == '\n';
    assert notes[9 + i] == '\n';
    var k := |food.name| + 15 + |LastEaten(food.daysAgo)| + 9 + i;
    assert line[|food.name| + 15..][|LastEaten(food.daysAgo)| + 9 + i] == '\n';
    assert line[k] == '\n';
    assert DishLines([food]) == [line];
    SplitSeesInnerBreak(line, '\n');
  }

  lemma MapCons<A, B>(x: A, xs: seq<A>, f: A -> B)
    ensures Map([x] + xs, f) == [f(x)] + Map(xs, f)
  {
    var l, r := Map([x] + xs, f), [f(x)] + Map(xs, f);
    assert |l| == |r|;
    forall i | 0 <= i < |l|
      ensures l[i] == r[i]
    {
      if i > 0 {
        assert ([x] + xs)[i] == xs[i - 1];
      }
    }
  }

  lemma MapSplice<A, B>(xs: seq<A>, k: int, f: A -> B)
    requires 0 <= k < |xs|
    ensures Map(xs[..k] + xs[k + 1..], f) == Map(xs, f)[..k] + Map(xs, f)[k + 1..]
  {
    var others, ys := xs[..k] + xs[k + 1..], Map(xs, f);
    var l, r := Map(others, f), ys[..k] + ys[k + 1..];
    assert |l| == |r|;
    forall i | 0 <= i < |l|
      ensures l[i] == r[i]
    {
      if i < k {
        assert others[i] == xs[i];
      } else {
        assert others[i] == xs[i + 1];
      }
    }
  }

  /** Shuffling and then mapping is mapping and then the same shuffle. */
  lemma {:induction false} ShuffleCommutesWithMap<A, B>(xs: seq<A>, f: A -> B, draws: seq<nat>)
    ensures Map(Shuffle(xs, draws), f) == Shuffle(Map(xs, f), draws)
    decreases |xs|
  {
    if |xs| > 0 {
      var ys := Map(xs, f);
      var k := if |draws| > 0 then draws[0] % |xs| else 0;
      var rest := if |draws| > 0 then draws[1..] else [];
      var others := xs[..k] + xs[k + 1..];
      MapSplice(xs, k, f);
      ShuffleCommutesWithMap(others, f, rest);
      MapCons(xs[k], Shuffle(others, rest), f);
      assert Shuffle(xs, draws) == [xs[k]] + Shuffle(others, rest);
      assert Shuffle(ys, draws) == [ys[k]] + Shuffle(ys[..k] + ys[k + 1..], rest);
    }
  }

  /** Shuffling the rows and then writing their lines is the same shuffle
      of the lines. */
  lemma ShuffleCommutesWithLines(foods: seq<FoodWithLastMeal>, draws: seq<nat>)
    ensures DishLines(Shuffle(foods, draws)) == Shuffle(DishLines(foods), draws)
  {
    ShuffleCommutesWithMap(foods, DishLine, draws);
  }

  /** When no dish name or note holds a line break, the prompt's dish part
      has one line per dish: the lines of the rows in shuffled order, each
      dish's line exactly once. */
  lemma PromptHasOneLinePerDish(preferences: Option<string>, foods: seq<Food>, meals: seq<Meal>,
                                now: Clock, draws: seq<nat>)
    requires ValidClock(now) && |foods| > 0
    requires forall f :: f in foods ==>
      '\n' !in f.name && (f.notes.Some? ==> '\n' !in f.notes.value)
    ensures
      var rows := FoodsWithLastMeal(foods, meals, now);
      var lines := Split(PromptFor(preferences, Shuffle(rows, draws), now).foodsInfo, '\n');
      && lines == DishLines(Shuffle(rows, draws))
      && multiset(lines) == multiset(DishLines(rows))
  {
    var rows := FoodsWithLastMeal(foods, meals, now);
    var shuffled := Shuffle(rows, draws);
    ListingIsOneRowPerFood(foods, meals, now);
    var lines := DishLines(shuffled);
    forall k | 0 <= k < |lines|
      ensures '\n' !in lines[k]
    {
      assert shuffled[k] in multiset(rows);
      assert shuffled[k] in rows;
      DishLineIsOneLine(shuffled[k]);
    }
    SplitJoin(lines, '\n');
    ShuffleCommutesWithLines(rows, draws);
  }
}
