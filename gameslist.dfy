/** The game catalogue of `components/GamesList.tsx` and its filter: a
    category choice (or `All`) and a case-insensitive search over names
    and categories. */
module GamesList {
  import opened JsStrings
  import opened Sequences

  datatype Game = Game(id: string, name: string, category: string, rating: real)

  const ALL: string := "All"

  const GAMES: seq<Game> := [
    Game("snake", "Neon Snake", "Arcade", 4.8),
    Game("2048", "2048 Fusion", "Puzzle", 4.9),
    Game("memory", "Neural Match", "Brain", 4.5),
    Game("clicker", "Core Clicker", "Idle", 4.2),
    Game("tictactoe", "Quantum TicTacToe", "Classic", 4.4),
    Game("mines", "Void Sweeper", "Logic", 4.6),
    Game("reaction", "Reflex Test", "Arcade", 4.3),
    Game("tetris", "Tetra Fall", "Puzzle", 4.7),
    Game("typing", "Ghost Typer", "Classic", 4.1),
    Game("sudoku", "Logic Grid", "Logic", 4.5),
    Game("binary", "Binary Guess", "Brain", 3.9),
    Game("tower", "Stack Relay", "Arcade", 4.4)
  ]

  /** The predicate of `filteredGames`. */
  predicate Shown(g: Game, searchTerm: string, selectedCategory: string)
  {
    && (selectedCategory == ALL || g.category == selectedCategory)
    && (Includes(ToLower(g.name), ToLower(searchTerm)) ||
        Includes(ToLower(g.category), ToLower(searchTerm)))
  }

  /** `games.filter(...)`. */
  function Filtered(games: seq<Game>, searchTerm: string, selectedCategory: string): (r: seq<Game>)
    ensures |r| <= |games|
    ensures forall g :: g in r <==> g in games && Shown(g, searchTerm, selectedCategory)
  {
    if games == [] then []
    else if Shown(games[0], searchTerm, selectedCategory)
    then [games[0]] + Filtered(games[1..], searchTerm, selectedCategory)
    else Filtered(games[1..], searchTerm, selectedCategory)
  }

  function FilteredGames(searchTerm: string, selectedCategory: string): seq<Game>
  {
    Filtered(GAMES, searchTerm, selectedCategory)
  }

  /** The filter keeps the shown games in catalogue order. */
  lemma {:induction false} FilteredIsSubsequence(games: seq<Game>, term: string, category: string)
    ensures IsSubsequence(Filtered(games, term, category), games)
  {
    if games != [] {
      FilteredIsSubsequence(games[1..], term, category);
      var rest := Filtered(games[1..], term, category);
      if Shown(games[0], term, category) {
        assert ([games[0]] + rest)[1..] == rest;
      }
    }
  }

  /** With `All`, the filter is the search alone; otherwise each result
      has the selected category. */
  lemma CategoryTest(games: seq<Game>, term: string, category: string)
    ensures category == ALL ==> forall g :: g in Filtered(games, term, category) <==>
      g in games && (Includes(ToLower(g.name), ToLower(term)) || Includes(ToLower(g.category), ToLower(term)))
    ensures category != ALL ==> forall g :: g in Filtered(games, term, category) ==> g.category == category
  {
  }

  /** The empty search term matches every game, so only the category
      test remains. */
  lemma EmptyTermMatches(g: Game, category: string)
    ensures Shown(g, "", category) <==> category == ALL || g.category == category
  {
    IncludesEmpty(ToLower(g.name));
  }

  /** The empty search with `All` lists the whole catalogue in order. */
  lemma {:induction false} EmptySearchKeepsAll(games: seq<Game>)
    ensures Filtered(games, "", ALL) == games
  {
    if games != [] {
      IncludesEmpty(ToLower(games[0].name));
      EmptySearchKeepsAll(games[1..]);
    }
  }

  /** Matching ignores letter case: a search term and its lower-case form
      select the same games. */
  lemma {:induction false} CaseInsensitive(games: seq<Game>, term: string, category: string)
    ensures Filtered(games, term, category) == Filtered(games, ToLower(term), category)
  {
    LowerIdempotent(term);
    if games != [] {
      CaseInsensitive(games[1..], term, category);
    }
  }

  /** Searching for "SNAKE" finds the snake game by its name. */
  lemma SnakeByName()
    ensures Shown(GAMES[0], "SNAKE", ALL)
  {
    var name := ToLower(GAMES[0].name);
    assert name == "neon snake";
    assert ToLower("SNAKE") == "snake";
    assert MatchesAt(name, "snake", 5);
    IncludesIff(name, "snake");
  }
}
