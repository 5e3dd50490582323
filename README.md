# Hit and Blow, modelled in Dafny

This project models the console game in `node-app/src/index.ts`. The player
chooses a difficulty (`normal` or `hard`). The game draws a secret of three or
four distinct digits. The player then types comma-separated digits until the
guess matches the secret. Each guess is answered with its hits (right digit,
right position) and blows (every other position). When the secret is found,
the game reports how many valid guesses it took.

Two modules:

- `Text` (`text.dfy`): `String.prototype.trim`, with its white-space set, and
  `String.prototype.split` on a single separator character, with the
  `Join`/`Split` round trip.
- `Game` (`game.dfy`):
  - the `HitAndBlow` class with its fields `answer`, `tryCount` and `mode`;
  - its methods `setting` (`Setting` and `Fill`), `check` (`Check`), `play`
    (`Turn` and `Play`), `validation` (`Validation`) and `getAnswerLength`
    (`AnswerLength`);
  - `promptSelect` (`PromptSelect`) and the script that runs a game (`NewGame`
    and `Run`).

The console is modelled by the lines the player would type, in order. Each line
is read through `trim()`, as `readLine` does. `Math.random` is modelled by the
sequence of digit indices it would produce (`Draw`). The recursive re-prompts
of `promptSelect` and `play` become loops over those lines. Their results are
specified by the functions `AfterDraws` (the secret after a run of draws) and
`Rounds` (what `play` does with a sequence of guesses). Lemmas state what the
game promises about them.

## Model

| member | source | states |
|---|---|---|
| Text.TrimStart | node-app/src/index.ts:20 | the result is a suffix of the input, everything cut off is white space, and the result does not start with white space |
| Text.TrimEnd | node-app/src/index.ts:20 | the result is a prefix of the input, everything cut off is white space, and the result does not end with white space |
| Text.Trim | node-app/src/index.ts:20 | the result neither starts nor ends with white space |
| Text.TrimCuts | node-app/src/index.ts:20 | the input is white space, then the trimmed text, then white space |
| Text.TrimEndCut | node-app/src/index.ts:20 | a string is its end-trimmed part followed by white space only |
| Text.TrimStartOfWhite | node-app/src/index.ts:20 | trimming the start of white space followed by text that does not start with white space leaves that text |
| Text.TrimEndOfWhite | node-app/src/index.ts:20 | trimming the end of text followed by white space leaves that text, if the text does not end with white space |
| Text.TrimStrips | node-app/src/index.ts:20 | white space around already trimmed text is exactly what trim removes |
| Text.TrimIdempotent | node-app/src/index.ts:20 | trimming twice is trimming once |
| Text.Split | node-app/src/index.ts:112 | split always yields at least one part, no part contains the separator, and joining the parts with the separator gives back the input |
| Text.SplitPrefix | node-app/src/index.ts:112 | text without the separator glued before a string becomes part of that string's first part |
| Text.SplitJoin | node-app/src/index.ts:112 | splitting parts joined by the separator returns those parts, when no part contains it |
| Game.ModeName | node-app/src/index.ts:62-63 | every mode's name is one of the names offered in the menu |
| Game.ModeOf | node-app/src/index.ts:62-63 | a name offered in the menu selects the mode of that name |
| Game.AnswerLength | node-app/src/index.ts:178-188 | normal asks for 3 digits and hard for 4; never more than there are digits |
| Game.DigitToken | node-app/src/index.ts:75 | a token is one of the answer source's entries exactly when it is one character from '0' to '9' |
| Game.AfterDraws | node-app/src/index.ts:93-101 | drawing only appends to the answer, at most one digit per draw, and the answer stays a set of distinct digits |
| Game.AfterDrawsHolds | node-app/src/index.ts:96-100 | every drawn digit is in the answer afterwards |
| Game.AfterDrawsGrows | node-app/src/index.ts:93-101 | the answer after fewer draws is a prefix of the answer after more |
| Game.SourceDistinct | node-app/src/index.ts:75 | the ten entries of the answer source are pairwise different |
| Game.CoverFills | node-app/src/index.ts:93-101 | once every digit has been drawn, the answer holds all ten, so the loop's goal is met |
| Game.IndexOf | node-app/src/index.ts:171 | -1 exactly when the value is absent, otherwise the first position holding it |
| Game.Validation | node-app/src/index.ts:165-173 | valid exactly when the guess has as many tokens as the answer, every token is a digit, and no token repeats |
| Game.ParseGuess | node-app/src/index.ts:112 | a guess line gives at least one token, no token contains ',', and the tokens joined by ',' are the trimmed line |
| Game.ParseJoined | node-app/src/index.ts:112 | a line made of comma-joined tokens with white space around it parses back to those tokens |
| Game.HitCount | node-app/src/index.ts:148-154 | the hits never outnumber the guess's positions |
| Game.ScoreMeaning | node-app/src/index.ts:148-154 | the hit count is the number of positions holding the answer's token there, and the blows are all the other positions |
| Game.PositionsStep | node-app/src/index.ts:148-154 | the last position of a guess joins either the hits or the blows, never both |
| Game.AllHits | node-app/src/index.ts:148-154 | the hit count equals the guess's length exactly when every position is a hit |
| Game.AllHitsIffEqual | node-app/src/index.ts:122 | a guess as long as the answer scores all hits exactly when it is the answer |
| Game.Judge | node-app/src/index.ts:114-130 | a guess is rejected exactly when validation fails; a scored guess has as many hits as positions matching the answer and as many blows as the other positions, together the answer's length |
| Game.JudgeWins | node-app/src/index.ts:120-130 | for a secret of distinct digits, a guess ends the game exactly when it equals the secret |
| Game.ValidGuesses | node-app/src/index.ts:114-129 | no more valid guesses than guesses |
| Game.Rounds | node-app/src/index.ts:109-131 | play reads no more guesses than there are, and counts no more tries than it reads |
| Game.RoundsEnd | node-app/src/index.ts:122-130 | when play ends solved, the last guess read is the secret; otherwise it read every guess |
| Game.RoundsFirst | node-app/src/index.ts:122-126 | no guess before the last one read is the secret, so play stops at the first win |
| Game.RoundsTries | node-app/src/index.ts:114-130 | for any answer, the try count is the number of valid guesses read, and a solved game counts at least one try |
| Game.PromptSelect | node-app/src/index.ts:43-56 | returns only a trimmed line that is among the offered values, the first such line; every line before it was rejected; it returns nothing only when no line was acceptable |
| Game.HitAndBlow.constructor | node-app/src/index.ts:74-78 | a new game has an empty answer, no tries, and normal mode |
| Game.HitAndBlow.Fill | node-app/src/index.ts:91-101 | the answer becomes the answer after the draws consumed; it stops once it has the mode's length or when the draws run out; it never overshoots; all ten digits among the draws guarantee a complete answer |
| Game.HitAndBlow.Setting | node-app/src/index.ts:88-102 | the mode becomes the first acceptable menu line, then the answer is drawn for that mode, stopping at the first draw that completes it (no draw at all when it is already long enough); without an acceptable line, nothing changes |
| Game.HitAndBlow.Check | node-app/src/index.ts:144-160 | hit is the number of positions matching the answer, blow the number of other positions, and together they equal the guess's length |
| Game.HitAndBlow.Turn | node-app/src/index.ts:109-130 | the guess line is judged as `Judge` says; the try count grows by one exactly when the guess was valid, the winning guess included |
| Game.HitAndBlow.Play | node-app/src/index.ts:109-131 | the lines read, whether the game was won, and the tries added are those of `Rounds` on the parsed lines |
| Game.NewGame | node-app/src/index.ts:194-195 | a new game with no tries whose mode is the first typed line naming one (normal if none does) and whose answer is what the consumed draws make of an empty answer, stopping at the first draw that completes it |
| Game.Run | node-app/src/index.ts:193-198 | from one stream of typed lines: the mode is the first line naming one (normal if none does), and the lines after it are the guesses; the secret is what the consumed draws make of an empty answer, stopping once complete; a try count is reported exactly when the secret is complete and a guess solves it, and it is the count play reached at its first winning guess; otherwise play read every remaining line, or none if it never started |

## Left out

- Console I/O is left out: `printLine`, the prompts, the menu listing, the "invalid input" message and the Hit/Blow report are not modelled. Input is the sequence of lines the player would type.
- Reading stdin in chunks and decoding bytes to text are left out. Each `'data'` event is taken to be one whole line.
- `Math.random` is left out. The draws it would produce are a parameter. The source's loop ends only with probability 1, so `Fill` stops when the supplied draws run out, and `Run` then reports no result.
- `end()` is left out: its message and `process.exit()`. `Run` returns the try count that `end()` would print.
- The async recursion of `promptSelect` and `play` is modelled as loops. They have the same order of reads and the same results. The model does not follow the promise scheduling.
- The `default` branch of `getAnswerLength` is left out. `Mode` is a closed datatype, so an unknown mode cannot occur, and neither can the throw.
- `PromptSelect` checks `as T` by membership in `values`: the model's result type is `string`, and its contract states membership.
- `Check` is stated for any answer. A guess position past the end of the answer counts as a blow, as `this.answer[index]` is `undefined` there. In play, validation guarantees the lengths agree.
- The loading-spinner files and the build setup are not part of this model.
