/**
 * The tournament (Ex02-TicTacToe/Tournament.java): validating the two player names given on
 * the command line, and playing `rounds` games in which the two players swap marks every
 * round, crediting each win to the player who held the winning mark.
 */
module Tournaments {
  import opened Boards
  import opened Moves
  import opened Players
  import opened Games
  import opened PlayerFactories

  /** Positions of the two player names among the command-line arguments. */
  const PlayerOneIndex: nat := 4
  const PlayerTwoIndex: nat := 5

  /** Both player names, lower-cased, are names the factory knows. */
  predicate ValidNames(args: seq<string>)
    requires |args| > PlayerTwoIndex
  {
    IsPlayerName(ToLower(args[PlayerOneIndex])) && IsPlayerName(ToLower(args[PlayerTwoIndex]))
  }

  /**
   * `checkValidNames`: counts, over the two lower-cased names, those that are one of the four
   * known names, and accepts when both are.
   */
  method CheckValidNames(args: seq<string>) returns (valid: bool)
    requires |args| > PlayerTwoIndex
    ensures valid <==> ValidNames(args)
  {
    var players := [ToLower(args[PlayerOneIndex]), ToLower(args[PlayerTwoIndex])];
    var countValid := 0;
    for i := 0 to 2
      invariant countValid <= i
      invariant countValid == i <==> forall j :: 0 <= j < i ==> IsPlayerName(players[j])
    {
      if IsPlayerName(players[i]) {
        countValid := countValid + 1;
      }
    }
    assert players[0] == ToLower(args[PlayerOneIndex]) && players[1] == ToLower(args[PlayerTwoIndex]);
    return countValid == 2;
  }

  /** Once the names pass the check, the factory builds both players (neither is `null`). */
  lemma ValidNamesBuildPlayers(args: seq<string>)
    requires |args| > PlayerTwoIndex && ValidNames(args)
    ensures BuildPlayer(ToLower(args[PlayerOneIndex])).Some?
    ensures BuildPlayer(ToLower(args[PlayerTwoIndex])).Some?
  {
    ToLowerIdempotent(args[PlayerOneIndex]);
    ToLowerIdempotent(args[PlayerTwoIndex]);
  }

  /** Who plays X in a round: the first player in even rounds, the second in odd ones. */
  function XPlayer(players: seq<PlayerKind>, round: nat): PlayerKind
    requires |players| == 2
  {
    players[if round % 2 == 0 then 0 else 1]
  }

  /** Who plays O in a round: the other player. */
  function OPlayer(players: seq<PlayerKind>, round: nat): PlayerKind
    requires |players| == 2
  {
    players[if round % 2 == 1 then 0 else 1]
  }

  /**
   * Each round the two players take the two marks, and the first player's is `TurnMark(round)`:
   * X in even rounds, O in odd ones.
   */
  lemma PlayersSwapMarks(players: seq<PlayerKind>, round: nat)
    requires |players| == 2
    ensures TurnMark(round) == X ==> XPlayer(players, round) == players[0] && OPlayer(players, round) == players[1]
    ensures TurnMark(round) == O ==> XPlayer(players, round) == players[1] && OPlayer(players, round) == players[0]
  {
  }

  /** Wins of the first player, wins of the second, and ties. */
  datatype Score = Score(first: nat, second: nat, ties: nat)

  /**
   * The score after one more round: the win goes to the player who held the winning mark in
   * this round, and a blank result is a tie.
   */
  function Credit(s: Score, round: nat, winner: Mark): Score
  {
    if winner == Blank then s.(ties := s.ties + 1)
    else if winner == TurnMark(round) then s.(first := s.first + 1)
    else s.(second := s.second + 1)
  }

  /**
   * The switch on the round's winning mark: X credits the first player in even rounds and the
   * second in odd ones, O the other way round, and anything else is a tie. This is `Credit`.
   */
  method CreditRound(firstPlayerWins: nat, secondPlayerWins: nat, numTies: nat, i: nat, curWinner: Mark)
    returns (first: nat, second: nat, ties: nat)
    ensures Score(first, second, ties) == Credit(Score(firstPlayerWins, secondPlayerWins, numTies), i, curWinner)
  {
    first, second, ties := firstPlayerWins, secondPlayerWins, numTies;
    match curWinner {
      case X =>
        if i % 2 == 0 {
          first := first + 1;
        } else {
          second := second + 1;
        }
      case O =>
        if i % 2 == 0 {
          second := second + 1;
        } else {
          first := first + 1;
        }
      case Blank =>
        ties := ties + 1;
    }
  }

  /** The score after the rounds whose winners are `results`, in order. Every round counts once. */
  function Tally(results: seq<Mark>): (s: Score)
    ensures s.first + s.second + s.ties == |results|
  {
    if results == [] then Score(0, 0, 0)
    else Credit(Tally(results[..|results| - 1]), |results| - 1, results[|results| - 1])
  }

  /** The rounds whose index and winner satisfy `p`. */
  ghost function RoundsWhere(results: seq<Mark>, p: (nat, Mark) -> bool): set<nat>
  {
    set i: nat | i < |results| && p(i, results[i])
  }

  /** One more round adds itself to the rounds satisfying `p` exactly when it satisfies `p`. */
  lemma RoundsWhereGrow(results: seq<Mark>, p: (nat, Mark) -> bool)
    requires results != []
    ensures var k := |results| - 1;
            |RoundsWhere(results, p)| == |RoundsWhere(results[..k], p)| + if p(k, results[k]) then 1 else 0
  {
    var k := |results| - 1;
    var prev := RoundsWhere(results[..k], p);
    assert k !in prev;
    assert RoundsWhere(results, p) == prev + (if p(k, results[k]) then {k} else {});
  }

  /** The rounds the first player (`one`) or the second player (`!one`) won. */
  ghost function RoundsWon(results: seq<Mark>, one: bool): set<nat>
  {
    RoundsWhere(results, (i: nat, w: Mark) => w != Blank && (w == TurnMark(i)) == one)
  }

  /** The rounds that ended in a tie. */
  ghost function TiedRounds(results: seq<Mark>): set<nat>
  {
    RoundsWhere(results, (i: nat, w: Mark) => w == Blank)
  }

  /** The tally counts exactly the rounds each player won and the tied rounds. */
  lemma {:induction false} TallyCountsRounds(results: seq<Mark>)
    ensures Tally(results).first == |RoundsWon(results, true)|
    ensures Tally(results).second == |RoundsWon(results, false)|
    ensures Tally(results).ties == |TiedRounds(results)|
  {
    if results != [] {
      var k := |results| - 1;
      TallyCountsRounds(results[..k]);
      RoundsWhereGrow(results, (i: nat, w: Mark) => w != Blank && (w == TurnMark(i)) == true);
      RoundsWhereGrow(results, (i: nat, w: Mark) => w != Blank && (w == TurnMark(i)) == false);
      RoundsWhereGrow(results, (i: nat, w: Mark) => w == Blank);
    }
  }

  /** The rounds actually played: none when `rounds` is not positive. */
  function RoundsPlayed(rounds: int): (n: nat)
    ensures rounds >= 0 ==> n == rounds
    ensures rounds < 0 ==> n == 0
  {
    if rounds < 0 then 0 else rounds
  }

  /** Every round's chooser picks a blank cell of any size-by-size grid that has one. */
  ghost predicate EveryRoundPlayable(size: nat, choosers: nat -> Chooser)
  {
    forall i: nat :: ChoosesBlank(choosers(i), size)
  }

  /**
   * The winner of round `round`: the game on a size-by-size board, with the streak the game
   * constructor makes of `winStreak`, and the players placed on X and O by the round's parity.
   */
  ghost function RoundWinner(players: seq<PlayerKind>, size: nat, winStreak: int, choosers: nat -> Chooser, round: nat): Mark
    requires |players| == 2 && ChoosesBlank(choosers(round), size)
  {
    var ws := ClampStreak(size, winStreak);
    Winner(GameEnd(size, ws, XPlayer(players, round), OPlayer(players, round), choosers(round)), size, ws)
  }

  /** The winners of the first `k` rounds, in order. */
  ghost function Outcomes(players: seq<PlayerKind>, size: nat, winStreak: int, choosers: nat -> Chooser, k: nat): (r: seq<Mark>)
    requires |players| == 2 && EveryRoundPlayable(size, choosers)
    ensures |r| == k
    ensures forall i :: 0 <= i < k ==> r[i] == RoundWinner(players, size, winStreak, choosers, i)
  {
    if k == 0 then [] else Outcomes(players, size, winStreak, choosers, k - 1) + [RoundWinner(players, size, winStreak, choosers, k - 1)]
  }

  /** The score is the tally of the first `k` rounds. */
  ghost predicate Tallied(players: seq<PlayerKind>, size: nat, winStreak: int, choosers: nat -> Chooser, k: nat, score: Score)
  {
    |players| == 2 && EveryRoundPlayable(size, choosers) && score == Tally(Outcomes(players, size, winStreak, choosers, k))
  }

  /** The tally of one more round is the old tally credited with that round's winner. */
  lemma TallyStep(players: seq<PlayerKind>, size: nat, winStreak: int, choosers: nat -> Chooser, k: nat, score: Score)
    requires Tallied(players, size, winStreak, choosers, k, score)
    ensures Tallied(players, size, winStreak, choosers, k + 1, Credit(score, k, RoundWinner(players, size, winStreak, choosers, k)))
  {
    var after := Outcomes(players, size, winStreak, choosers, k + 1);
    assert after[..k] == Outcomes(players, size, winStreak, choosers, k);
  }

  /**
   * A tournament between two players. The renderer it passes to every game is not part of this
   * model; the moves of human and whatever players come from `choosers`, one per round.
   */
  class Tournament {
    const rounds: int
    const players: seq<PlayerKind>

    constructor (rounds: int, players: seq<PlayerKind>)
      ensures this.rounds == rounds && this.players == players
    {
      this.rounds := rounds;
      this.players := players;
    }

    /** One game of the tournament, with the players placed on X and O by the round's parity. */
    method PlayRound(size: nat, winStreak: int, choosers: nat -> Chooser, i: nat) returns (curWinner: Mark)
      requires |players| == 2 && ChoosesBlank(choosers(i), size)
      ensures curWinner == RoundWinner(players, size, winStreak, choosers, i)
    {
      var game := new Game(players[if i % 2 == 0 then 0 else 1], players[if i % 2 == 1 then 0 else 1], size, winStreak);
      curWinner := game.Run(choosers(i));
    }

    /**
     * `playTournament`: plays the rounds and returns what it prints, the first player's wins,
     * the second player's wins and the ties. They are the tally of the round winners, so they
     * add up to the number of rounds played.
     */
    method PlayTournament(size: nat, winStreak: int, choosers: nat -> Chooser)
      returns (firstPlayerWins: nat, secondPlayerWins: nat, numTies: nat)
      requires |players| == 2 && EveryRoundPlayable(size, choosers)
      ensures Score(firstPlayerWins, secondPlayerWins, numTies) ==
              Tally(Outcomes(players, size, winStreak, choosers, RoundsPlayed(rounds)))
      ensures firstPlayerWins + secondPlayerWins + numTies == RoundsPlayed(rounds)
    {
      firstPlayerWins, secondPlayerWins, numTies := 0, 0, 0;
      var i := 0;
      while i < rounds
        invariant i <= RoundsPlayed(rounds)
        invariant Tallied(players, size, winStreak, choosers, i, Score(firstPlayerWins, secondPlayerWins, numTies))
        decreases rounds - i
      {
        assert ChoosesBlank(choosers(i), size);
        var curWinner := PlayRound(size, winStreak, choosers, i);
        TallyStep(players, size, winStreak, choosers, i, Score(firstPlayerWins, secondPlayerWins, numTies));
        firstPlayerWins, secondPlayerWins, numTies := CreditRound(firstPlayerWins, secondPlayerWins, numTies, i, curWinner);
        i := i + 1;
      }
      assert i == RoundsPlayed(rounds);
    }
  }
}
