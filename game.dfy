/**
 * The Hit and Blow console game: the player picks a difficulty, the game
 * draws a secret of distinct digits, and the player guesses it as a line of
 * comma-separated digits until every position is a hit.
 *
 * The console is modelled by the lines the player would type, in order, and
 * Math.random by the digit indices it would produce; the recursive
 * re-prompts become loops over those inputs.
 */
module Game {
  import opened Text

  datatype Option<T> = None | Some(value: T)

  /** The difficulties offered; the selection menu shows their names. */
  datatype Mode = Normal | Hard

  const ModeNames: seq<string> := ["normal", "hard"]

  /** The digits a secret and a guess are made of. */
  const AnswerSource: seq<string> := ["0", "1", "2", "3", "4", "5", "6", "7", "8", "9"]

  /** An index into AnswerSource, as Math.floor(Math.random() * 10) produces. */
  type Draw = d: nat | d < 10

  function ModeName(m: Mode): (name: string)
    ensures name in ModeNames
  {
    match m
    case Normal => "normal"
    case Hard => "hard"
  }

  /** The mode whose name the player typed; promptSelect only returns listed names. */
  function ModeOf(name: string): (m: Mode)
    requires name in ModeNames
    ensures ModeName(m) == name
  {
    if name == "normal" then Normal else Hard
  }

  /**
   * getAnswerLength: three digits for normal, four for hard. Mode is closed,
   * so the source's defensive throw for an unknown mode has no counterpart.
   * Never more than there are digits, so a secret of distinct digits exists.
   */
  function AnswerLength(m: Mode): (n: nat)
    ensures m == Normal ==> n == 3
    ensures m == Hard ==> n == 4
    ensures n <= |AnswerSource|
  {
    match m
    case Normal => 3
    case Hard => 4
  }

  predicate Distinct(s: seq<string>) {
    forall i, j :: 0 <= i < j < |s| ==> s[i] != s[j]
  }

  predicate FromSource(s: seq<string>) {
    forall i :: 0 <= i < |s| ==> s[i] in AnswerSource
  }

  /** What the game keeps as its answer at all times: distinct digits. */
  predicate IsSecret(s: seq<string>) {
    Distinct(s) && FromSource(s)
  }

  /** A token is in AnswerSource exactly when it is a single character '0'..'9'. */
  lemma DigitToken(t: string)
    ensures t in AnswerSource <==> |t| == 1 && '0' <= t[0] <= '9'
  {
    if |t| == 1 && '0' <= t[0] <= '9' {
      assert t == [t[0]];
      var k := t[0] as int - '0' as int;
      assert AnswerSource[k] == t;
    }
  }

  // ---------------------------------------------------------------------
  // Drawing the secret

  /**
   * The answer after the loop of `setting` has consumed `draws`: each drawn
   * digit is appended when it is not there yet. The answer only grows and
   * stays a secret.
   */
  function AfterDraws(acc: seq<string>, draws: seq<Draw>): (r: seq<string>)
    ensures |acc| <= |r| <= |acc| + |draws| && r[..|acc|] == acc
    ensures IsSecret(acc) ==> IsSecret(r)
    decreases |draws|
  {
    if |draws| == 0 then acc
    else
      var before := AfterDraws(acc, draws[..|draws| - 1]);
      var item := AnswerSource[draws[|draws| - 1]];
      if item in before then before else before + [item]
  }

  /** Every digit drawn ends up in the answer, appended then or already there. */
  lemma {:induction false} AfterDrawsHolds(acc: seq<string>, draws: seq<Draw>, k: nat)
    requires k < |draws|
    ensures AnswerSource[draws[k]] in AfterDraws(acc, draws)
    decreases |draws|
  {
    var n := |draws| - 1;
    if k < n {
      AfterDrawsHolds(acc, draws[..n], k);
      var before := AfterDraws(acc, draws[..n]);
      assert AfterDraws(acc, draws)[..|before|] == before by { AfterDrawsGrows(acc, draws, n); }
    }
  }

  /** Drawing more never takes a digit away: an earlier answer is a prefix of a later one. */
  lemma {:induction false} AfterDrawsGrows(acc: seq<string>, draws: seq<Draw>, k: nat)
    requires k <= |draws|
    ensures |AfterDraws(acc, draws[..k])| <= |AfterDraws(acc, draws)|
    ensures AfterDraws(acc, draws[..k]) == AfterDraws(acc, draws)[..|AfterDraws(acc, draws[..k])|]
    decreases |draws|
  {
    if k < |draws| {
      var n := |draws| - 1;
      assert draws[..n][..k] == draws[..k];
      AfterDrawsGrows(acc, draws[..n], k);
      var early, before, late := AfterDraws(acc, draws[..k]), AfterDraws(acc, draws[..n]), AfterDraws(acc, draws);
      var item := AnswerSource[draws[n]];
      assert late == if item in before then before else before + [item];
      assert late[..|before|] == before;
      assert late[..|early|] == before[..|early|];
    } else {
      assert draws[..k] == draws;
    }
  }

  predicate CoversAllDigits(draws: seq<Draw>) {
    forall d: Draw :: d in draws
  }

  /** The digits of AnswerSource are pairwise different. */
  lemma SourceDistinct()
    ensures Distinct(AnswerSource)
  {
    forall i, j | 0 <= i < j < |AnswerSource| ensures AnswerSource[i] != AnswerSource[j] {
      assert AnswerSource[i][0] == "0123456789"[i];
      assert AnswerSource[j][0] == "0123456789"[j];
    }
  }

  /** Deletes the first occurrence of `x` from `s`. */
  function Remove(s: seq<string>, x: string): (r: seq<string>)
    requires x in s
    ensures |r| == |s| - 1
    ensures forall y :: y in s && y != x ==> y in r
  {
    if s[0] == x then s[1..] else [s[0]] + Remove(s[1..], x)
  }

  /** A sequence holding every item of a sequence without repeats is at least as long. */
  lemma {:induction false} HoldsAll(s: seq<string>, items: seq<string>)
    requires Distinct(items)
    requires forall k :: 0 <= k < |items| ==> items[k] in s
    ensures |s| >= |items|
    decreases |items|
  {
    if items != [] {
      var rest := Remove(s, items[0]);
      forall k | 0 <= k < |items| - 1 ensures items[1..][k] in rest {
        assert items[1..][k] == items[k + 1] != items[0];
      }
      HoldsAll(rest, items[1..]);
    }
  }

  /** Once every digit has been drawn, the answer holds all ten of them. */
  lemma CoverFills(acc: seq<string>, draws: seq<Draw>)
    requires CoversAllDigits(draws)
    ensures |AfterDraws(acc, draws)| >= |AnswerSource|
  {
    var r := AfterDraws(acc, draws);
    forall k | 0 <= k < |AnswerSource| ensures AnswerSource[k] in r {
      var d: Draw := k;
      assert d in draws;
      var i :| 0 <= i < |draws| && draws[i] == d;
      AfterDrawsHolds(acc, draws, i);
    }
    SourceDistinct();
    HoldsAll(r, AnswerSource);
  }

  // ---------------------------------------------------------------------
  // Validating a guess

  /**
   * Array.prototype.indexOf: the first position of `x` in `s`, or -1 when
   * it does not occur.
   */
  function IndexOf(s: seq<string>, x: string): (r: int)
    ensures r == -1 <==> x !in s
    ensures r != -1 ==> 0 <= r < |s| && s[r] == x && forall j :: 0 <= j < r ==> s[j] != x
  {
    if |s| == 0 then -1
    else if s[0] == x then 0
    else
      var k := IndexOf(s[1..], x);
      if k == -1 then -1 else k + 1
  }

  /**
   * validation: the guess has as many tokens as the answer, every token is
   * one of the digits, and every token is found first at its own position,
   * which is to say no token repeats.
   */
  function Validation(answer: seq<string>, input: seq<string>): (ok: bool)
    ensures ok <==> |input| == |answer| && FromSource(input) && Distinct(input)
  {
    var lengthValid := |answer| == |input|;
    var allFromSource := forall v <- input :: v in AnswerSource;
    var allDifferent := forall i | 0 <= i < |input| :: IndexOf(input, input[i]) == i;
    assert allDifferent <==> Distinct(input) by {
      if allDifferent {
        forall i, j | 0 <= i < j < |input| ensures input[i] != input[j] {
          assert IndexOf(input, input[j]) == j;
        }
      }
    }
    lengthValid && allFromSource && allDifferent
  }

  /** The tokens of one guess line: the trimmed line split on ','. */
  function ParseGuess(line: string): (tokens: seq<string>)
    ensures |tokens| > 0 && Join(tokens, ',') == Trim(line)
    ensures forall i :: 0 <= i < |tokens| ==> ',' !in tokens[i]
  {
    Split(Trim(line), ',')
  }

  // ---------------------------------------------------------------------
  // Scoring a guess

  datatype Score = Score(hit: nat, blow: nat)

  /**
   * Position `i` of the guess is a hit when the answer has a position `i`
   * holding the same token; anything else, including a position past the
   * end of the answer, is a blow.
   */
  predicate IsHit(input: seq<string>, answer: seq<string>, i: int)
    requires 0 <= i < |input|
  {
    i < |answer| && input[i] == answer[i]
  }

  /** The hits among the positions of `input`, counted from the left. */
  function HitCount(input: seq<string>, answer: seq<string>): (n: nat)
    ensures n <= |input|
  {
    if |input| == 0 then 0
    else HitCount(input[..|input| - 1], answer) + (if IsHit(input, answer, |input| - 1) then 1 else 0)
  }

  function HitPositions(input: seq<string>, answer: seq<string>): set<int> {
    set i | 0 <= i < |input| && IsHit(input, answer, i)
  }

  function BlowPositions(input: seq<string>, answer: seq<string>): set<int> {
    set i | 0 <= i < |input| && !IsHit(input, answer, i)
  }

  /**
   * The hit count is the number of positions holding the answer's token,
   * and the blows are all the other positions, whether or not their token
   * occurs elsewhere in the answer.
   */
  lemma {:induction false} ScoreMeaning(input: seq<string>, answer: seq<string>)
    ensures HitCount(input, answer) == |HitPositions(input, answer)|
    ensures |input| - HitCount(input, answer) == |BlowPositions(input, answer)|
  {
    if |input| > 0 {
      var k := |input| - 1;
      ScoreMeaning(input[..k], answer);
      PositionsStep(input, answer);
    } else {
      assert HitPositions(input, answer) == {};
      assert BlowPositions(input, answer) == {};
    }
  }

  /** The last position joins either the hits or the blows of the positions before it. */
  lemma PositionsStep(input: seq<string>, answer: seq<string>)
    requires |input| > 0
    ensures var k := |input| - 1;
            && HitPositions(input, answer)
               == HitPositions(input[..k], answer) + (if IsHit(input, answer, k) then {k} else {})
            && BlowPositions(input, answer)
               == BlowPositions(input[..k], answer) + (if IsHit(input, answer, k) then {} else {k})
  {
    var k := |input| - 1;
    assert forall i :: 0 <= i < k ==> IsHit(input[..k], answer, i) == IsHit(input, answer, i);
  }

  lemma {:induction false} AllHits(input: seq<string>, answer: seq<string>)
    ensures HitCount(input, answer) == |input| <==> forall i :: 0 <= i < |input| ==> IsHit(input, answer, i)
  {
    if |input| > 0 {
      var k := |input| - 1;
      AllHits(input[..k], answer);
      assert forall i :: 0 <= i < k ==> IsHit(input[..k], answer, i) == IsHit(input, answer, i);
    }
  }

  /** A guess as long as the answer scores all hits exactly when it is the answer. */
  lemma AllHitsIffEqual(input: seq<string>, answer: seq<string>)
    requires |input| == |answer|
    ensures HitCount(input, answer) == |answer| <==> input == answer
  {
    AllHits(input, answer);
    if HitCount(input, answer) == |answer| {
      forall i | 0 <= i < |input| ensures input[i] == answer[i] {
        assert IsHit(input, answer, i);
      }
    }
  }

  // ---------------------------------------------------------------------
  // Rounds of play

  /** What one guess leads to: rejected, or scored. */
  datatype Round = Rejected | Scored(score: Score)

  /**
   * One activation of `play` on the tokens of a guess: an invalid guess is
   * rejected; a valid one is scored, with as many hits and blows together
   * as the answer has digits.
   */
  function Judge(answer: seq<string>, input: seq<string>): (r: Round)
    ensures r.Rejected? <==> !Validation(answer, input)
    ensures r.Scored? ==> r.score.hit + r.score.blow == |answer|
    ensures r.Scored? ==> r.score.hit == |HitPositions(input, answer)| && r.score.blow == |BlowPositions(input, answer)|
  {
    if !Validation(answer, input) then Rejected
    else
      var hits := HitCount(input, answer);
      ScoreMeaning(input, answer);
      Scored(Score(hits, |input| - hits))
  }

  /** The game stops on a scored round whose hits cover the whole answer. */
  predicate Wins(answer: seq<string>, r: Round) {
    r.Scored? && r.score.hit == |answer|
  }

  /** A guess wins exactly when it is the secret itself. */
  lemma JudgeWins(answer: seq<string>, input: seq<string>)
    requires IsSecret(answer)
    ensures Wins(answer, Judge(answer, input)) <==> input == answer
  {
    if Validation(answer, input) {
      AllHitsIffEqual(input, answer);
    }
  }

  /** A line that is comma-separated tokens, with white space around it, parses to those tokens. */
  lemma ParseJoined(lead: string, tokens: seq<string>, trail: string)
    requires |tokens| > 0 && forall i :: 0 <= i < |tokens| ==> ',' !in tokens[i]
    requires AllWhite(lead) && AllWhite(trail) && IsTrimmed(Join(tokens, ','))
    ensures ParseGuess(lead + Join(tokens, ',') + trail) == tokens
  {
    TrimStrips(lead, Join(tokens, ','), trail);
    SplitJoin(tokens, ',');
  }

  /** The tokens of each guess line, in order. */
  function Guesses(lines: seq<string>): (guesses: seq<seq<string>>)
    ensures |guesses| == |lines|
    ensures forall j :: 0 <= j < |lines| ==> guesses[j] == ParseGuess(lines[j])
  {
    seq(|lines|, j requires 0 <= j < |lines| => ParseGuess(lines[j]))
  }

  /** The guesses that pass validation, each of which is one try. */
  function ValidGuesses(answer: seq<string>, guesses: seq<seq<string>>): (n: nat)
    ensures n <= |guesses|
  {
    if |guesses| == 0 then 0
    else (if Judge(answer, guesses[0]).Scored? then 1 else 0) + ValidGuesses(answer, guesses[1..])
  }

  /** What `play` does with the guesses: how many it reads, whether it ends on a win, how many tries it counts. */
  datatype Session = Session(used: nat, solved: bool, tries: nat)

  /**
   * The rounds of `play`: every guess is judged in turn, a scored round
   * counts one try, and play stops after the first winning round.
   */
  function Rounds(answer: seq<string>, guesses: seq<seq<string>>): (s: Session)
    ensures s.used <= |guesses| && s.tries <= s.used
  {
    if |guesses| == 0 then Session(0, false, 0)
    else
      var round := Judge(answer, guesses[0]);
      var counted := if round.Scored? then 1 else 0;
      if Wins(answer, round) then Session(1, true, counted)
      else
        var rest := Rounds(answer, guesses[1..]);
        Session(rest.used + 1, rest.solved, rest.tries + counted)
  }

  /** Play ends on a guess that is the answer, and runs out of guesses only when it has not met one. */
  lemma {:induction false} RoundsEnd(answer: seq<string>, guesses: seq<seq<string>>)
    requires IsSecret(answer)
    ensures var s := Rounds(answer, guesses);
            && (s.solved ==> 0 < s.used && guesses[s.used - 1] == answer)
            && (!s.solved ==> s.used == |guesses|)
  {
    if |guesses| > 0 {
      JudgeWins(answer, guesses[0]);
      if !Wins(answer, Judge(answer, guesses[0])) {
        RoundsEnd(answer, guesses[1..]);
        var rest := Rounds(answer, guesses[1..]);
        if rest.solved {
          assert guesses[rest.used] == guesses[1..][rest.used - 1];
        }
      }
    }
  }

  /** No guess before the one play ends on is the answer: it stops at the first. */
  lemma {:induction false} RoundsFirst(answer: seq<string>, guesses: seq<seq<string>>, j: nat)
    requires IsSecret(answer)
    requires var s := Rounds(answer, guesses); j < s.used && (!s.solved || j < s.used - 1)
    ensures guesses[j] != answer
  {
    JudgeWins(answer, guesses[0]);
    if j > 0 {
      RoundsFirst(answer, guesses[1..], j - 1);
      assert guesses[j] == guesses[1..][j - 1];
    }
  }

  /** The tries play counts are the valid guesses it read, at least the winning one. */
  lemma {:induction false} RoundsTries(answer: seq<string>, guesses: seq<seq<string>>)
    ensures var s := Rounds(answer, guesses);
            && s.tries == ValidGuesses(answer, guesses[..s.used])
            && (s.solved ==> s.tries >= 1)
  {
    if |guesses| > 0 {
      var s := Rounds(answer, guesses);
      if Wins(answer, Judge(answer, guesses[0])) {
        assert guesses[..1][1..] == [];
      } else {
        RoundsTries(answer, guesses[1..]);
        var rest := Rounds(answer, guesses[1..]);
        assert guesses[..s.used][0] == guesses[0];
        assert guesses[..s.used][1..] == guesses[1..][..rest.used];
      }
    }
  }

  // ---------------------------------------------------------------------
  // promptSelect

  /**
   * promptSelect: reads trimmed lines until one of them is among `values`,
   * and returns it together with the number of lines read. Runs out of
   * input only when no line is acceptable.
   */
  method PromptSelect(values: seq<string>, lines: seq<string>) returns (choice: Option<string>, used: nat)
    ensures used <= |lines|
    ensures choice.Some? ==> 0 < used && choice.value == Trim(lines[used - 1]) && choice.value in values
    ensures choice.None? ==> used == |lines|
    ensures forall j :: 0 <= j < used && (choice.None? || j < used - 1) ==> Trim(lines[j]) !in values
  {
    used := 0;
    while used < |lines|
      invariant used <= |lines|
      invariant forall j :: 0 <= j < used ==> Trim(lines[j]) !in values
    {
      var input := Trim(lines[used]);
      used := used + 1;
      if input in values {
        return Some(input), used;
      }
    }
    return None, used;
  }

  // ---------------------------------------------------------------------
  // The game object

  class HitAndBlow {
    var answer: seq<string>
    var tryCount: nat
    var mode: Mode

    ghost predicate Valid()
      reads this
    {
      IsSecret(answer)
    }

    constructor ()
      ensures Valid()
      ensures answer == [] && tryCount == 0 && mode == Normal
    {
      answer := [];
      tryCount := 0;
      mode := Normal;
    }

    /**
     * The secret-drawing loop of `setting`: while the answer is shorter than
     * the mode asks for, take the next draw and append its digit when it is
     * not there yet. Stops early only when the draws run out; if every digit
     * is among the draws, the answer is complete.
     */
    method Fill(draws: seq<Draw>) returns (used: nat)
      requires Valid()
      modifies this`answer
      ensures Valid()
      ensures used <= |draws| && answer == AfterDraws(old(answer), draws[..used])
      ensures |answer| >= AnswerLength(mode) || used == |draws|
      ensures 0 < used ==> |AfterDraws(old(answer), draws[..used - 1])| < AnswerLength(mode)
      ensures |old(answer)| <= AnswerLength(mode) ==> |answer| <= AnswerLength(mode)
      ensures CoversAllDigits(draws) ==> |answer| >= AnswerLength(mode)
    {
      var answerLength := AnswerLength(mode);
      used := 0;
      while |answer| < answerLength && used < |draws|
        invariant used <= |draws|
        invariant answer == AfterDraws(old(answer), draws[..used])
        invariant 0 < used ==> |AfterDraws(old(answer), draws[..used - 1])| < answerLength
        invariant |old(answer)| <= answerLength ==> |answer| <= answerLength
      {
        ghost var before := answer;
        var selectedItem := AnswerSource[draws[used]];
        if selectedItem !in answer {
          answer := answer + [selectedItem];
        }
        assert draws[..used + 1][..used] == draws[..used];
        assert |AfterDraws(old(answer), draws[..used])| < answerLength by {
          assert before == AfterDraws(old(answer), draws[..used]);
        }
        used := used + 1;
      }
      if CoversAllDigits(draws) && |answer| < answerLength {
        assert draws[..used] == draws;
        CoverFills(old(answer), draws);
      }
    }

    /**
     * setting: the mode is the first line naming one; then the secret is
     * drawn for that mode. Without an acceptable line nothing changes.
     */
    method Setting(lines: seq<string>, draws: seq<Draw>) returns (linesUsed: nat, drawsUsed: nat, selected: bool)
      requires Valid()
      modifies this`mode, this`answer
      ensures Valid()
      ensures linesUsed <= |lines|
      ensures !selected ==> linesUsed == |lines| && drawsUsed == 0 && mode == old(mode) && answer == old(answer)
      ensures selected ==> 0 < linesUsed && ModeName(mode) == Trim(lines[linesUsed - 1])
      ensures forall j :: 0 <= j < linesUsed && (!selected || j < linesUsed - 1) ==> Trim(lines[j]) !in ModeNames
      ensures selected ==> drawsUsed <= |draws| && answer == AfterDraws(old(answer), draws[..drawsUsed])
      ensures selected ==> |answer| >= AnswerLength(mode) || drawsUsed == |draws|
      ensures selected && 0 < drawsUsed ==> |AfterDraws(old(answer), draws[..drawsUsed - 1])| < AnswerLength(mode)
      ensures selected && |old(answer)| <= AnswerLength(mode) ==> |answer| <= AnswerLength(mode)
      ensures selected && CoversAllDigits(draws) ==> |answer| >= AnswerLength(mode)
    {
      var choice;
      choice, linesUsed := PromptSelect(ModeNames, lines);
      drawsUsed := 0;
      selected := choice.Some?;
      if selected {
        mode := ModeOf(choice.value);
        drawsUsed := Fill(draws);
      }
    }

    /**
     * check: walks the guess position by position, counting a hit where the
     * answer holds the same token and a blow everywhere else.
     */
    method Check(input: seq<string>) returns (result: Score)
      ensures result.hit == HitCount(input, answer) == |HitPositions(input, answer)|
      ensures result.blow == |BlowPositions(input, answer)|
      ensures result.hit + result.blow == |input|
    {
      var hitCount, blowCount := 0, 0;
      var index := 0;
      while index < |input|
        invariant index <= |input|
        invariant hitCount == HitCount(input[..index], answer)
        invariant hitCount + blowCount == index
      {
        assert input[..index + 1][..index] == input[..index];
        if index < |answer| && input[index] == answer[index] {
          hitCount := hitCount + 1;
        } else {
          blowCount := blowCount + 1;
        }
        index := index + 1;
      }
      assert input[..index] == input;
      ScoreMeaning(input, answer);
      result := Score(hitCount, blowCount);
    }

    /**
     * One activation of `play`: an invalid guess is rejected and does not
     * count; a valid one is scored and counts as one try, winning or not.
     */
    method Turn(line: string) returns (round: Round)
      requires Valid()
      modifies this`tryCount
      ensures round == Judge(answer, ParseGuess(line))
      ensures tryCount == old(tryCount) + (if round.Scored? then 1 else 0)
    {
      var inputAttr := ParseGuess(line);
      if !Validation(answer, inputAttr) {
        return Rejected;
      }
      var result := Check(inputAttr);
      tryCount := tryCount + 1;
      round := Scored(result);
    }

    /**
     * play: takes guess lines until one scores a hit at every position of the
     * answer; an invalid line is rejected without counting, every valid one
     * is a try, the winning one included.
     */
    method Play(lines: seq<string>) returns (used: nat, solved: bool)
      requires Valid()
      modifies this`tryCount
      ensures var s := Rounds(answer, Guesses(lines));
              used == s.used && solved == s.solved && tryCount == old(tryCount) + s.tries
    {
      ghost var guesses := Guesses(lines);
      ghost var whole := Rounds(answer, guesses);
      used, solved := 0, false;
      while used < |lines| && !solved
        invariant used <= |lines| && tryCount >= old(tryCount)
        invariant !solved ==> var rest := Rounds(answer, guesses[used..]);
                              && whole.used == used + rest.used && whole.solved == rest.solved
                              && whole.tries == tryCount - old(tryCount) + rest.tries
        invariant solved ==> whole == Session(used, true, tryCount - old(tryCount))
      {
        assert guesses[used..][0] == ParseGuess(lines[used]);
        assert guesses[used..][1..] == guesses[used + 1..];
        var round := Turn(lines[used]);
        solved := round.Scored? && round.score.hit == |answer|;
        used := used + 1;
      }
    }
  }

  /**
   * The first two statements of the script at the end of the file: a new
   * game, and its setting from the typed lines and the draws.
   */
  method NewGame(lines: seq<string>, draws: seq<Draw>)
    returns (game: HitAndBlow, selected: bool, linesUsed: nat, drawsUsed: nat)
    ensures fresh(game) && game.Valid() && game.tryCount == 0
    ensures linesUsed <= |lines|
    ensures forall j :: 0 <= j < linesUsed && (!selected || j < linesUsed - 1) ==> Trim(lines[j]) !in ModeNames
    ensures selected ==> 0 < linesUsed && ModeName(game.mode) == Trim(lines[linesUsed - 1])
    ensures !selected ==> linesUsed == |lines| && game.mode == Normal && game.answer == []
    ensures drawsUsed <= |draws| && game.answer == AfterDraws([], draws[..drawsUsed])
    ensures |game.answer| <= AnswerLength(game.mode)
    ensures selected ==> |game.answer| == AnswerLength(game.mode) || drawsUsed == |draws|
    ensures 0 < drawsUsed ==> |AfterDraws([], draws[..drawsUsed - 1])| < AnswerLength(game.mode)
    ensures selected && CoversAllDigits(draws) ==> |game.answer| == AnswerLength(game.mode)
  {
    game := new HitAndBlow();
    linesUsed, drawsUsed, selected := game.Setting(lines, draws);
    assert !selected ==> draws[..drawsUsed] == [];
  }

  /**
   * The script at the end of the file: a new game, setting, play, and the
   * final report of the try count, all reading one stream of typed lines.
   * The mode is the first line naming one; the lines after it are the
   * guesses. The secret is what the draws consumed make of an empty answer,
   * and a try count is reported exactly when the secret is complete and
   * some guess line solves it.
   */
  method Run(lines: seq<string>, draws: seq<Draw>)
    returns (selected: bool, linesUsed: nat, mode: Mode, drawsUsed: nat, secret: seq<string>,
             guessesUsed: nat, tries: Option<nat>)
    ensures linesUsed <= |lines|
    ensures forall j :: 0 <= j < linesUsed && (!selected || j < linesUsed - 1) ==> Trim(lines[j]) !in ModeNames
    ensures selected ==> 0 < linesUsed && ModeName(mode) == Trim(lines[linesUsed - 1])
    ensures !selected ==> linesUsed == |lines| && mode == Normal && secret == []
    ensures drawsUsed <= |draws| && secret == AfterDraws([], draws[..drawsUsed])
    ensures IsSecret(secret) && |secret| <= AnswerLength(mode)
    ensures selected ==> |secret| == AnswerLength(mode) || drawsUsed == |draws|
    ensures 0 < drawsUsed ==> |AfterDraws([], draws[..drawsUsed - 1])| < AnswerLength(mode)
    ensures selected && CoversAllDigits(draws) ==> |secret| == AnswerLength(mode)
    ensures tries.Some? <==> selected && |secret| == AnswerLength(mode) && Rounds(secret, Guesses(lines[linesUsed..])).solved
    ensures tries.Some? ==> Rounds(secret, Guesses(lines[linesUsed..])) == Session(guessesUsed, true, tries.value)
    ensures tries.None? ==> guessesUsed == (if selected && |secret| == AnswerLength(mode) then |lines| - linesUsed else 0)
  {
    var game;
    game, selected, linesUsed, drawsUsed := NewGame(lines, draws);
    secret, mode, guessesUsed, tries := game.answer, game.mode, 0, None;
    if selected && |secret| == AnswerLength(mode) {
      var rest := lines[linesUsed..];
      ghost var session := Rounds(secret, Guesses(rest));
      RoundsEnd(secret, Guesses(rest));
      var solved;
      guessesUsed, solved := game.Play(rest);
      assert guessesUsed == session.used && solved == session.solved && game.tryCount == session.tries;
      if solved {
        tries := Some(game.tryCount);
      } else {
        assert guessesUsed == |rest|;
      }
    }
  }
}
