/** Day 2: rock-paper-scissors scoring.

    The opponent plays 'A', 'B' or 'C' and the second column is 'X', 'Y'
    or 'Z' (rock, paper, scissors in both cases).  The script compares
    character codes after shifting the second column down by 23, so that
    'X' lines up with 'A'. */
module RockPaperScissors {
  import opened Results
  import PyText

  /** The code difference the script branches on. */
  function Diff(move1: char, move2: char): int
  {
    move1 as int - (move2 as int - 23)
  }

  /** `determine_outcome`: 3 for a draw, 6 when the second player wins,
      0 when the second player loses; NotImplementedError for codes that
      are too far apart. */
  function DetermineOutcome(move1: char, move2: char): (r: Result<int>)
    ensures r == Ok(3) <==> move1 as int == move2 as int - 23
    ensures r == Ok(6) <==> Diff(move1, move2) == -1 || Diff(move1, move2) == 2
    ensures r == Ok(0) <==> Diff(move1, move2) == 1 || Diff(move1, move2) == -2
    ensures r.Err? <==> !(-2 <= Diff(move1, move2) <= 2)
  {
    var m1 := move1 as int;
    var m2 := move2 as int - 23;
    if m1 == m2 then Ok(3)
    else if m1 - m2 == -1 || m1 - m2 == 2 then Ok(6)
    else if m1 - m2 == 1 || m1 - m2 == -2 then Ok(0)
    else Err("NotImplementedError")
  }

  predicate IsOpponentShape(c: char) { 'A' <= c <= 'C' }

  predicate IsOwnShape(c: char) { 'X' <= c <= 'Z' }

  /** The game itself, independent of character codes. */
  datatype Shape = Rock | Paper | Scissors

  function Opponent(c: char): Shape
    requires IsOpponentShape(c)
  {
    if c == 'A' then Rock else if c == 'B' then Paper else Scissors
  }

  function Own(c: char): Shape
    requires IsOwnShape(c)
  {
    if c == 'X' then Rock else if c == 'Y' then Paper else Scissors
  }

  predicate Beats(a: Shape, b: Shape)
  {
    (a == Rock && b == Scissors) || (a == Scissors && b == Paper) || (a == Paper && b == Rock)
  }

  /** On real shapes the code arithmetic never raises and agrees with
      the rules of the game. */
  lemma OutcomeFollowsRules(move1: char, move2: char)
    requires IsOpponentShape(move1) && IsOwnShape(move2)
    ensures DetermineOutcome(move1, move2).Ok?
    ensures DetermineOutcome(move1, move2) == Ok(3) <==> Opponent(move1) == Own(move2)
    ensures DetermineOutcome(move1, move2) == Ok(6) <==> Beats(Own(move2), Opponent(move1))
    ensures DetermineOutcome(move1, move2) == Ok(0) <==> Beats(Opponent(move1), Own(move2))
  {
  }

  /** `chr`: Python accepts every code point up to 0x10FFFF; codes that are
      not Dafny characters (surrogates) are reported as errors too. */
  function Chr(code: int): Result<char>
  {
    if 0 <= code < 0xD800 || 0xE000 <= code < 0x11_0000 then Ok(code as char)
    else Err("ValueError")
  }

  /** `outcome_to_move`: "X" asks to lose, "Y" to draw, any other string to
      win; the shape is computed on codes with wrap-around inside 'A'..'C'
      and shifted up by 23. */
  function OutcomeToMove(move1: char, outcome: string): (r: Result<char>)
    ensures IsOpponentShape(move1) ==> r.Ok? && IsOwnShape(r.value)
  {
    var m1 := move1 as int;
    var m2 :=
      if outcome == "X" then (if m1 - 1 == 64 then 67 else m1 - 1)
      else if outcome == "Y" then m1
      else (if m1 + 1 == 68 then 65 else m1 + 1);
    Chr(m2 + 23)
  }

  /** The chosen move produces the requested outcome: "X" loses, "Y" draws
      and anything else wins. */
  lemma OutcomeToMoveRoundTrip(move1: char, outcome: string)
    requires IsOpponentShape(move1)
    ensures OutcomeToMove(move1, outcome).Ok?
    ensures DetermineOutcome(move1, OutcomeToMove(move1, outcome).value)
            == Ok(if outcome == "X" then 0 else if outcome == "Y" then 3 else 6)
  {
  }

  /** The scoring rules of the puzzle: 1, 2 or 3 for the shape played, plus
      6 for a win, 3 for a draw and 0 for a loss. */
  function GameScore(opponent: Shape, own: Shape): int
  {
    (match own case Rock => 1 case Paper => 2 case Scissors => 3)
    + (if Beats(own, opponent) then 6 else if own == opponent then 3 else 0)
  }

  /** The points of one round: the shape's code minus 87 plus the outcome,
      which on real shapes is the score the rules of the game give. */
  function RoundScore(opponent: char, own: char): (r: Result<int>)
    ensures r.Ok? <==> DetermineOutcome(opponent, own).Ok?
    ensures IsOpponentShape(opponent) && IsOwnShape(own) ==>
              r == Ok(GameScore(Opponent(opponent), Own(own)))
  {
    var outcome :- DetermineOutcome(opponent, own);
    Ok(own as int - 87 + outcome)
  }

  /** One input line: `strip().split(' ')` must give exactly two tokens
      (ValueError otherwise). */
  function Tokens(line: string): (r: Result<(string, string)>)
    ensures r.Ok? <==> |PyText.Split(PyText.Strip(line), ' ')| == 2
    ensures r.Ok? ==> PyText.Split(PyText.Strip(line), ' ') == [r.value.0, r.value.1]
  {
    var tokens := PyText.Split(PyText.Strip(line), ' ');
    if |tokens| != 2 then Err("ValueError") else Ok((tokens[0], tokens[1]))
  }

  /** `ord` of a token: a TypeError unless it is a single character. */
  function Ord(token: string): (r: Result<char>)
    ensures r.Ok? <==> |token| == 1
    ensures r.Ok? ==> token == [r.value]
  {
    if |token| == 1 then Ok(token[0]) else Err("TypeError")
  }

  /** The score of a round.  Without `--part-2` both tokens are shapes; with
      it the second token is the wanted outcome and is first turned into a
      move, so only the opponent's token has to be a single character. */
  function LineScore(line: string, part2: bool): Result<int>
  {
    var (first, second) :- Tokens(line);
    var opponent :- Ord(first);
    var own :- if part2 then OutcomeToMove(opponent, second) else Ord(second);
    RoundScore(opponent, own)
  }

  function TotalScore(lines: seq<string>, part2: bool): Result<int>
  {
    if lines == [] then Ok(0)
    else
      var first :- LineScore(lines[0], part2);
      var rest :- TotalScore(lines[1..], part2);
      Ok(first + rest)
  }

  /** The total of a file is the sum of the totals of its parts, and it
      fails exactly when one of the parts fails. */
  lemma {:induction false} TotalScoreConcat(a: seq<string>, b: seq<string>, part2: bool)
    ensures TotalScore(a + b, part2).Ok? <==> TotalScore(a, part2).Ok? && TotalScore(b, part2).Ok?
    ensures TotalScore(a + b, part2).Ok? ==>
              TotalScore(a + b, part2).value == TotalScore(a, part2).value + TotalScore(b, part2).value
  {
    if a == [] {
      assert a + b == b;
    } else {
      assert (a + b)[0] == a[0];
      assert (a + b)[1..] == a[1..] + b;
      TotalScoreConcat(a[1..], b, part2);
    }
  }

  /** A well-formed line "<opponent> <column>" scores by the rules of the
      game: in part 1 for the shape in the second column, in part 2 for
      the shape that reaches the requested outcome. */
  lemma LineScoreByRules(opponent: char, column: char, part2: bool)
    requires IsOpponentShape(opponent)
    requires IsOwnShape(column)
    ensures LineScore([opponent, ' ', column], part2).Ok?
    ensures !part2 ==> LineScore([opponent, ' ', column], part2).value
                       == GameScore(Opponent(opponent), Own(column))
    ensures part2 ==> LineScore([opponent, ' ', column], part2).value
                      == GameScore(Opponent(opponent), Own(OutcomeToMove(opponent, [column]).value))
  {
    var line := [opponent, ' ', column];
    PyText.StripUnpadded(line);
    PyText.SplitJoin([[opponent], [column]], ' ');
    assert PyText.Join([[opponent], [column]], ' ') == line;
    OutcomeToMoveRoundTrip(opponent, [column]);
  }
}
