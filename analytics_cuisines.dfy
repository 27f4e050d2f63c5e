/**
 * The cuisine word-frequency tables of pages/analytics_cuisines.py: the
 * Cuisine text of the selected rows is lower-cased, the word "cuisine" is
 * removed, the text is split on commas, each piece stripped and split on
 * spaces, and the resulting words are counted (pandas `value_counts`),
 * once per award tier and once for all rows.
 */
module AnalyticsCuisines {
  import opened Common
  import opened Text
  import opened Sequences
  import opened Grouping
  import opened App

  const Stopword := "cuisine"

  /** A row of a `value_counts` result. */
  datatype WordCount = WordCount(word: string, count: nat)

  /** The six word tables the page plots. */
  datatype CuisineTables = CuisineTables(
    stars3: seq<WordCount>,
    stars2: seq<WordCount>,
    stars1: seq<WordCount>,
    bib: seq<WordCount>,
    selected: seq<WordCount>,
    all: seq<WordCount>)

  // ---------------------------------------------------------------- tokens

  /** Strip each comma-free piece and split it on single spaces (`str.strip().str.split(" ").explode()`). */
  function SplitWords(pieces: seq<string>): (tokens: seq<string>)
    requires forall p :: p in pieces ==> ',' !in p
    ensures forall t :: t in tokens ==> ',' !in t && ' ' !in t
    ensures |tokens| >= |pieces|
    decreases |pieces|
  {
    if |pieces| == 0 then []
    else
      var p := pieces[0];
      assert p in pieces;
      StripKeepsAbsent(p, ',');
      SplitKeepsAbsent(Strip(p), ' ', ',');
      Split(Strip(p), ' ') + SplitWords(pieces[1..])
  }

  /** The words one Cuisine text contributes, empty words included. */
  function CuisineTokens(cuisine: string): (tokens: seq<string>)
    ensures forall t :: t in tokens ==> ',' !in t && ' ' !in t
    ensures |tokens| >= 1
  {
    SplitWords(Split(RemoveAll(Lower(cuisine), Stopword), ','))
  }

  /**
   * A missing Cuisine stays missing through the `.str` chain and `value_counts`
   * drops it; a present one gives at least one word.
   */
  function RowTokens(cuisine: Option<string>): (tokens: seq<string>)
    ensures tokens == [] <==> cuisine.None?
  {
    if cuisine.None? then [] else CuisineTokens(cuisine.value)
  }

  /** All words of the selected rows, in row order. */
  function TokensOf(rows: seq<Restaurant>): seq<string>
    decreases |rows|
  {
    if |rows| == 0 then []
    else TokensOf(rows[..|rows| - 1]) + RowTokens(rows[|rows| - 1].cuisine)
  }

  /** The concatenation of word runs, in order. */
  function Flatten(runs: seq<seq<string>>): seq<string>
    decreases |runs|
  {
    if |runs| == 0 then [] else runs[0] + Flatten(runs[1..])
  }

  /** The words of each piece on its own: the piece stripped and split on spaces. */
  function PieceWords(pieces: seq<string>): seq<seq<string>>
  {
    seq(|pieces|, i requires 0 <= i < |pieces| => Split(Strip(pieces[i]), ' '))
  }

  lemma {:induction false} SplitWordsFlatten(pieces: seq<string>)
    requires forall p :: p in pieces ==> ',' !in p
    ensures SplitWords(pieces) == Flatten(PieceWords(pieces))
    decreases |pieces|
  {
    if |pieces| > 0 {
      assert forall p :: p in pieces[1..] ==> p in pieces;
      SplitWordsFlatten(pieces[1..]);
      var runs := PieceWords(pieces);
      assert runs[1..] == PieceWords(pieces[1..]);
      assert SplitWords(pieces) == runs[0] + SplitWords(pieces[1..]);
    }
  }

  /**
   * Where the words of a Cuisine text come from: the lower-cased text with
   * "cuisine" removed is cut at its commas into pieces that join back to
   * it, and the words are one run per piece, in order, each run a list of
   * space-free words that joined with single spaces gives the stripped piece.
   */
  lemma CuisineTokensMeaning(cuisine: string)
    ensures var text := RemoveAll(Lower(cuisine), Stopword);
            var pieces := Split(text, ',');
            && Join(pieces, ',') == text
            && exists runs: seq<seq<string>> ::
                 && |runs| == |pieces|
                 && CuisineTokens(cuisine) == Flatten(runs)
                 && forall i :: 0 <= i < |runs| ==>
                      && runs[i] != []
                      && Join(runs[i], ' ') == Strip(pieces[i])
                      && forall w :: w in runs[i] ==> ' ' !in w
  {
    var text := RemoveAll(Lower(cuisine), Stopword);
    var pieces := Split(text, ',');
    SplitThenJoin(text, ',');
    SplitWordsFlatten(pieces);
    var runs := PieceWords(pieces);
    forall i | 0 <= i < |runs| ensures Join(runs[i], ' ') == Strip(pieces[i]) {
      SplitThenJoin(Strip(pieces[i]), ' ');
    }
  }

  /** Counting ignores case: texts equal up to ASCII case give the same words. */
  lemma CaseInsensitive(a: string, b: string)
    requires Lower(a) == Lower(b)
    ensures CuisineTokens(a) == CuisineTokens(b)
    ensures CuisineTokens(Lower(a)) == CuisineTokens(a)
  {
    LowerIdempotent(a);
  }

  /** "Cuisine" alone leaves the empty text, which counts once as the empty word. */
  lemma StopwordAloneIsEmptyWord()
    ensures CuisineTokens("Cuisine") == [""]
  {
    assert Lower("Cuisine") == "cuisine";
    assert RemoveAll("cuisine", Stopword) == "";
    assert Split("", ',') == [""];
    assert Strip("") == "";
    assert SplitWords([""]) == [""] + SplitWords([]);
  }

  // ---------------------------------------------------------------- counting

  function CountKey(e: WordCount): int
  {
    e.count
  }

  ghost predicate WordsDistinct(table: seq<WordCount>)
  {
    forall i, j :: 0 <= i < j < |table| ==> table[i].word != table[j].word
  }

  /** The position of the row for `w`, or `|table|` when there is none. */
  function RowOf(table: seq<WordCount>, w: string): (n: nat)
    ensures n <= |table|
    ensures n < |table| ==> table[n].word == w
    ensures forall i :: 0 <= i < n ==> table[i].word != w
    decreases |table|
  {
    if |table| == 0 then 0
    else if table[0].word == w then 0
    else 1 + RowOf(table[1..], w)
  }

  /** Counts `w` once more: bumps its row, or appends a new row with count 1. */
  function Bump(table: seq<WordCount>, w: string): (r: seq<WordCount>)
    ensures |r| == |table| || |r| == |table| + 1
    ensures |r| == |table| + 1 <==> forall i :: 0 <= i < |table| ==> table[i].word != w
    ensures |r| == |table| + 1 ==> r[|table|] == WordCount(w, 1)
    ensures forall i :: 0 <= i < |table| ==> r[i].word == table[i].word
  {
    var n := RowOf(table, w);
    if n == |table| then table + [WordCount(w, 1)]
    else table[n := WordCount(w, table[n].count + 1)]
  }

  /** On a table with distinct words, bumping keeps them distinct and adds one to `w`'s count only. */
  lemma BumpCounts(table: seq<WordCount>, w: string)
    requires WordsDistinct(table)
    ensures WordsDistinct(Bump(table, w))
    ensures forall i :: 0 <= i < |table| ==>
              Bump(table, w)[i].count == if table[i].word == w then table[i].count + 1 else table[i].count
  {
  }

  lemma BumpSum(table: seq<WordCount>, w: string)
    ensures SumOf(Bump(table, w), CountKey) == SumOf(table, CountKey) + 1
  {
    var n := RowOf(table, w);
    if n == |table| {
      SumOfConcat(table, [WordCount(w, 1)], CountKey);
    } else {
      SumOfUpdate(table, n, WordCount(w, table[n].count + 1), CountKey);
    }
  }

  /** The dictionary counter: words in order of first appearance with their counts. */
  function Tally(tokens: seq<string>): (table: seq<WordCount>)
    ensures WordsDistinct(table)
    decreases |tokens|
  {
    if |tokens| == 0 then []
    else
      BumpCounts(Tally(tokens[..|tokens| - 1]), tokens[|tokens| - 1]);
      Bump(Tally(tokens[..|tokens| - 1]), tokens[|tokens| - 1])
  }

  /** Each tallied count is the number of occurrences of its word, hence at least 1. */
  lemma TallyCounts(tokens: seq<string>)
    ensures forall i :: 0 <= i < |Tally(tokens)| ==>
              Tally(tokens)[i].count == multiset(tokens)[Tally(tokens)[i].word] && Tally(tokens)[i].count >= 1
  {
    forall i | 0 <= i < |Tally(tokens)|
      ensures Tally(tokens)[i].count == multiset(tokens)[Tally(tokens)[i].word] && Tally(tokens)[i].count >= 1
    {
      TallyCountAt(tokens, i);
    }
  }

  lemma {:induction false} TallyCountAt(tokens: seq<string>, i: nat)
    requires i < |Tally(tokens)|
    ensures Tally(tokens)[i].count == multiset(tokens)[Tally(tokens)[i].word]
    ensures Tally(tokens)[i].count >= 1
    decreases |tokens|
  {
    if |tokens| > 0 {
      var init := tokens[..|tokens| - 1];
      var w := tokens[|tokens| - 1];
      var before := Tally(init);
      assert Tally(tokens) == Bump(before, w);
      assert tokens == init + [w];
      BumpCounts(before, w);
      var x := Tally(tokens)[i].word;
      assert multiset(tokens)[x] == multiset(init)[x] + if x == w then 1 else 0;
      if i < |before| {
        TallyCountAt(init, i);
      } else {
        TallyCovers(init, w);
      }
    }
  }

  /** Bumping keeps every word the table had and adds the bumped one. */
  lemma BumpHasWord(table: seq<WordCount>, w: string, x: string)
    requires x == w || exists i :: 0 <= i < |table| && table[i].word == x
    ensures exists i :: 0 <= i < |Bump(table, w)| && Bump(table, w)[i].word == x
  {
    var r := Bump(table, w);
    if exists i :: 0 <= i < |table| && table[i].word == x {
      var i :| 0 <= i < |table| && table[i].word == x;
      assert r[i].word == x;
    } else {
      assert r[|table|].word == x;
    }
  }

  /** Every word that occurs has a tallied row. */
  lemma {:induction false} TallyCovers(tokens: seq<string>, x: string)
    ensures x in tokens ==> exists i :: 0 <= i < |Tally(tokens)| && Tally(tokens)[i].word == x
    decreases |tokens|
  {
    if |tokens| > 0 {
      var init := tokens[..|tokens| - 1];
      var w := tokens[|tokens| - 1];
      assert tokens == init + [w];
      TallyCovers(init, x);
      if x in tokens {
        assert Tally(tokens) == Bump(Tally(init), w);
        BumpHasWord(Tally(init), w, x);
      }
    }
  }

  /** The tallied counts add up to the number of words. */
  lemma {:induction false} TallySum(tokens: seq<string>)
    ensures SumOf(Tally(tokens), CountKey) == |tokens|
    decreases |tokens|
  {
    if |tokens| > 0 {
      TallySum(tokens[..|tokens| - 1]);
      BumpSum(Tally(tokens[..|tokens| - 1]), tokens[|tokens| - 1]);
    }
  }

  /**
   * `value_counts()`: one row per distinct word, its number of occurrences,
   * in non-increasing order of count.
   */
  function ValueCounts(tokens: seq<string>): (table: seq<WordCount>)
    ensures WordsDistinct(table)
    ensures forall i :: 0 <= i < |table| ==>
              table[i].count == multiset(tokens)[table[i].word] && table[i].count >= 1
    ensures forall t :: t in tokens ==> exists i :: 0 <= i < |table| && table[i].word == t
    ensures NonIncreasing(table, CountKey)
    ensures SumOf(table, CountKey) == |tokens|
  {
    var tally := Tally(tokens);
    var table := SortDesc(tally, CountKey);
    TallyCounts(tokens);
    TallySum(tokens);
    SortedTableFacts(tokens, tally, table);
    table
  }

  lemma SortedTableFacts(tokens: seq<string>, tally: seq<WordCount>, table: seq<WordCount>)
    requires multiset(table) == multiset(tally) && WordsDistinct(tally)
    requires forall i :: 0 <= i < |tally| ==>
               tally[i].count == multiset(tokens)[tally[i].word] && tally[i].count >= 1
    requires tally == Tally(tokens)
    ensures WordsDistinct(table)
    ensures forall i :: 0 <= i < |table| ==>
              table[i].count == multiset(tokens)[table[i].word] && table[i].count >= 1
    ensures forall t :: t in tokens ==> exists i :: 0 <= i < |table| && table[i].word == t
    ensures SumOf(table, CountKey) == SumOf(tally, CountKey)
  {
    PermutationMembers(table, tally);
    PermutedWordsDistinct(table, tally);
    forall i | 0 <= i < |table|
      ensures table[i].count == multiset(tokens)[table[i].word] && table[i].count >= 1
    {
      assert table[i] in tally;
      var a :| 0 <= a < |tally| && tally[a] == table[i];
    }
    forall t | t in tokens ensures exists i :: 0 <= i < |table| && table[i].word == t {
      TallyCovers(tokens, t);
      var k :| 0 <= k < |tally| && tally[k].word == t;
      assert tally[k] in table;
    }
    SumOfPermutation(table, tally, CountKey);
  }

  /** Reordering a table with distinct words keeps its words distinct. */
  lemma PermutedWordsDistinct(table: seq<WordCount>, tally: seq<WordCount>)
    requires multiset(table) == multiset(tally) && WordsDistinct(tally)
    ensures WordsDistinct(table)
  {
    assert Distinct(tally);
    PermutationKeepsDistinct(table, tally);
    PermutationMembers(table, tally);
    forall i, j | 0 <= i < j < |table| ensures table[i].word != table[j].word {
      assert table[i] in tally && table[j] in tally;
    }
  }

  /** The count a table reports for `w`, 0 when `w` has no row. */
  function CountOf(table: seq<WordCount>, w: string): nat
    decreases |table|
  {
    if |table| == 0 then 0
    else if table[0].word == w then table[0].count
    else CountOf(table[1..], w)
  }

  /** The reported count of every word is its number of occurrences. */
  lemma {:induction false} CountOfValueCounts(tokens: seq<string>, w: string)
    ensures CountOf(ValueCounts(tokens), w) == multiset(tokens)[w]
  {
    var table := ValueCounts(tokens);
    if w in tokens {
      var i :| 0 <= i < |table| && table[i].word == w;
      CountOfRow(table, i);
    } else {
      CountOfNoRow(table, w);
    }
  }

  lemma {:induction false} CountOfRow(table: seq<WordCount>, i: nat)
    requires WordsDistinct(table) && i < |table|
    ensures CountOf(table, table[i].word) == table[i].count
    decreases i
  {
    if i > 0 {
      CountOfRow(table[1..], i - 1);
    }
  }

  lemma {:induction false} CountOfNoRow(table: seq<WordCount>, w: string)
    requires forall i :: 0 <= i < |table| ==> table[i].word != w || table[i].count == 0
    ensures CountOf(table, w) == 0
    decreases |table|
  {
    if |table| > 0 {
      CountOfNoRow(table[1..], w);
    }
  }

  // ---------------------------------------------------------------- the page

  /** `df[df.Award == tier]`: the rows whose Award is exactly `tier`, in order. */
  function WithAward(df: seq<Restaurant>, tier: string): (rows: seq<Restaurant>)
    ensures forall r :: r in rows ==> r in df && r.award == Some(tier)
    ensures forall n :: 0 <= n < |df| && df[n].award == Some(tier) ==> df[n] in rows
    ensures forall x :: multiset(rows)[x] == if x.award == Some(tier) then multiset(df)[x] else 0
  {
    SelectMembers(df, AwardOf, tier);
    SelectMultiset(df, AwardOf, tier);
    Select(df, AwardOf, tier)
  }

  function WordCounts(rows: seq<Restaurant>): seq<WordCount>
  {
    ValueCounts(TokensOf(rows))
  }

  /** The table of some rows reports, for every word, its number of occurrences among their words. */
  lemma WordCountsMeaning(rows: seq<Restaurant>)
    ensures forall w :: CountOf(WordCounts(rows), w) == multiset(TokensOf(rows))[w]
    ensures NonIncreasing(WordCounts(rows), CountKey)
  {
    forall w ensures CountOf(WordCounts(rows), w) == multiset(TokensOf(rows))[w] {
      CountOfValueCounts(TokensOf(rows), w);
    }
  }

  /**
   * `update_analytics_graph`: one word table per award tier, counting the
   * words of the rows whose Award is exactly that tier, and one for all rows;
   * each table lists its words in non-increasing order of count.
   */
  function UpdateAnalyticsGraph(df: seq<Restaurant>): (t: CuisineTables)
    ensures forall w :: CountOf(t.stars3, w) == multiset(TokensOf(WithAward(df, ThreeStars)))[w]
    ensures forall w :: CountOf(t.stars2, w) == multiset(TokensOf(WithAward(df, TwoStars)))[w]
    ensures forall w :: CountOf(t.stars1, w) == multiset(TokensOf(WithAward(df, OneStar)))[w]
    ensures forall w :: CountOf(t.bib, w) == multiset(TokensOf(WithAward(df, BibGourmand)))[w]
    ensures forall w :: CountOf(t.selected, w) == multiset(TokensOf(WithAward(df, SelectedRestaurants)))[w]
    ensures forall w :: CountOf(t.all, w) == multiset(TokensOf(df))[w]
    ensures && NonIncreasing(t.stars3, CountKey) && NonIncreasing(t.stars2, CountKey)
            && NonIncreasing(t.stars1, CountKey) && NonIncreasing(t.bib, CountKey)
            && NonIncreasing(t.selected, CountKey) && NonIncreasing(t.all, CountKey)
  {
    WordCountsMeaning(WithAward(df, ThreeStars));
    WordCountsMeaning(WithAward(df, TwoStars));
    WordCountsMeaning(WithAward(df, OneStar));
    WordCountsMeaning(WithAward(df, BibGourmand));
    WordCountsMeaning(WithAward(df, SelectedRestaurants));
    WordCountsMeaning(df);
    CuisineTables(
      stars3 := WordCounts(WithAward(df, ThreeStars)),
      stars2 := WordCounts(WithAward(df, TwoStars)),
      stars1 := WordCounts(WithAward(df, OneStar)),
      bib := WordCounts(WithAward(df, BibGourmand)),
      selected := WordCounts(WithAward(df, SelectedRestaurants)),
      all := WordCounts(df))
  }

  predicate IsTier(award: Option<string>)
  {
    award in {Some(ThreeStars), Some(TwoStars), Some(OneStar), Some(BibGourmand), Some(SelectedRestaurants)}
  }

  /** Appending a row extends the words of its own tier only. */
  lemma WithAwardSnoc(df: seq<Restaurant>, t: string)
    requires |df| > 0
    ensures TokensOf(WithAward(df, t)) ==
              if df[|df| - 1].award == Some(t) then TokensOf(WithAward(df[..|df| - 1], t)) + RowTokens(df[|df| - 1].cuisine)
              else TokensOf(WithAward(df[..|df| - 1], t))
  {
    var sel := Select(df[..|df| - 1], AwardOf, t);
    if df[|df| - 1].award == Some(t) {
      assert Select(df, AwardOf, t) == sel + [df[|df| - 1]];
      assert (sel + [df[|df| - 1]])[..|sel|] == sel;
    }
  }


  /** Occurrences of `w` among the words of the five tier selections, together. */
  ghost function TierOccurrences(df: seq<Restaurant>, w: string): nat
  {
    multiset(TokensOf(WithAward(df, ThreeStars)))[w] + multiset(TokensOf(WithAward(df, TwoStars)))[w]
    + multiset(TokensOf(WithAward(df, OneStar)))[w] + multiset(TokensOf(WithAward(df, BibGourmand)))[w]
    + multiset(TokensOf(WithAward(df, SelectedRestaurants)))[w]
  }

  /** A row of a tier adds its words to exactly one of the five selections. */
  lemma TierStep(df: seq<Restaurant>, w: string)
    requires |df| > 0 && IsTier(df[|df| - 1].award)
    ensures TierOccurrences(df, w) == TierOccurrences(df[..|df| - 1], w) + multiset(RowTokens(df[|df| - 1].cuisine))[w]
  {
    WithAwardSnoc(df, ThreeStars);
    WithAwardSnoc(df, TwoStars);
    WithAwardSnoc(df, OneStar);
    WithAwardSnoc(df, BibGourmand);
    WithAwardSnoc(df, SelectedRestaurants);
    assert ThreeStars != TwoStars && ThreeStars != OneStar && ThreeStars != BibGourmand;
    assert ThreeStars != SelectedRestaurants && TwoStars != OneStar && TwoStars != BibGourmand;
    assert TwoStars != SelectedRestaurants && OneStar != BibGourmand && OneStar != SelectedRestaurants;
    assert BibGourmand != SelectedRestaurants;
  }

  /** Counted over all rows, a word occurs as often as over the five tier selections together. */
  lemma {:induction false} TokensSplitByTier(df: seq<Restaurant>, w: string)
    requires forall r :: r in df ==> IsTier(r.award)
    ensures multiset(TokensOf(df))[w] == TierOccurrences(df, w)
    decreases |df|
  {
    if |df| > 0 {
      var init := df[..|df| - 1];
      assert forall r :: r in init ==> r in df;
      TokensSplitByTier(init, w);
      assert df[|df| - 1] in df;
      TierStep(df, w);
    }
  }

  /** When every Award is a tier, a word's overall count is the sum of its five tier counts. */
  lemma AllCountsAreTierSums(df: seq<Restaurant>, w: string)
    requires forall r :: r in df ==> IsTier(r.award)
    ensures var t := UpdateAnalyticsGraph(df);
            CountOf(t.all, w) ==
              CountOf(t.stars3, w) + CountOf(t.stars2, w) + CountOf(t.stars1, w)
              + CountOf(t.bib, w) + CountOf(t.selected, w)
  {
    TokensSplitByTier(df, w);
    CountOfValueCounts(TokensOf(df), w);
    CountOfValueCounts(TokensOf(WithAward(df, ThreeStars)), w);
    CountOfValueCounts(TokensOf(WithAward(df, TwoStars)), w);
    CountOfValueCounts(TokensOf(WithAward(df, OneStar)), w);
    CountOfValueCounts(TokensOf(WithAward(df, BibGourmand)), w);
    CountOfValueCounts(TokensOf(WithAward(df, SelectedRestaurants)), w);
  }
}
