# The Champion, modelled in Dafny

The Champion is a terminal game in one Python script. Two teams of five players are created. Each player gets ability points from a budget of 100 per team. The teams then play a five-round contest: each round pairs one randomly drawn player of each team, and the one with more points wins the round. Matches and their results live in a JSON document with a `matches` list. A menu loop dispatches between five commands: new match, rematch, history, menu and exit.

This project models the core of that script and proves what it promises:

- `Store`: the `Data` key-value document.
  - `add` overwrites exactly the given keys.
  - `delete` removes one top-level key or one nested leaf, and does nothing on a broken path.
  - Start-up normalises the `matches` entry.
- `Records`: the match record.
  - Winner tag and score text, and the history tally.
  - The point budget of team creation.
  - The invariant of the match list: ids 1, 2, … in order, valid rosters, consistent results.
  - `Extends`: the match list only grows by appends.
- `Codec`: the nested dictionaries a match is stored as, and a proof that reading them back gives the same match.
- `Contest`: the five-round simulation.
  - Drawing without replacement from `[0, 1, 2, 3, 4]`.
  - Strict comparison of points.
  - The method that runs the rounds, proved against a function that describes them.
- `Validation`: what each re-prompt loop accepts, and where an accepted history lookup leads.
- `Session`: a class holding the matches.
  - It holds the answers still to be typed and the source of random picks.
  - It has the handlers `menu`, `classic`, `rematch` and `history`.
  - It has the `func_map` run loop.
- `Text`, `Json` and `Wrappers` hold supporting definitions:
  - `Text`: ASCII `isdigit`, `int`, `str`, first-index search and `str.replace`;
  - `Json`: the JSON value type;
  - `Wrappers`: `Option`.

Inputs the script reads from outside become explicit parameters:

- The terminal is the sequence of answers not yet typed. When it runs out, the process ends without saving, as `cin` does on an interrupt or at end of input.
- `random.choice(pool)` becomes `pool[rng(k) % |pool|]` for the k-th random call. `rng` is a parameter of the session. Team A's picks come from the even calls of a contest and team B's from the odd ones.
- The document on disk is the constructor argument.

Two places where the program's own messages say less than its code does. The model follows the code:

- **The history lookup.** The prompt says "To rematch, enter the ID followed by 'r' (e.g., 2r)" (`The_champion.py:393`). The loop that checks the answer removes the first `r` anywhere in it (`choice.replace("r", "", 1)`, `:397-401`), so `r2` is accepted as well, and `1r2` is read as id 12 and accepted only when there are at least 12 matches. The match that is rematched is then read with every `r` removed (`:406`).
- **An unknown command.** The message says "Unknown command: … Returning to the main menu" (`:479`). The loop sets `run` to `"menu"` but keeps the pending `arg`, so a fallback that carried an argument would call `menu(arg)`, which raises and ends the process. `Session.ExpectedIsRouted` shows that no value a handler returns leads there.

## Model

| member | source | states |
|---|---|---|
| Store.Data.constructor | The_champion.py:67-89 | The store starts out holding exactly the loaded dictionary, which is `{}` for a new file or a memory-only store. |
| Store.Data.Item | The_champion.py:100-101 | `d[key]` finds a value exactly when the key is present, and it is the stored value; `None` stands for `KeyError`. |
| Store.Data.Get | The_champion.py:125-127 | The whole document holds exactly the keys `d[key]` finds, with the same values. |
| Store.Data.Add | The_champion.py:106-109 | The keys afterwards are the old keys plus the given ones. Each given key holds the given value, and every other key keeps its old value. |
| Store.Data.Delete | The_champion.py:111-123 | A string key is removed from the top level. An empty list changes nothing. A non-empty path leaves `DeleteAt` of the old document. |
| Store.WalkSnoc | The_champion.py:116-121 | `Walk`, the descent through `key[:-1]`, goes one key further exactly when the place it reached is a dictionary holding that key; otherwise the walk breaks. |
| Store.Data.Descend | The_champion.py:116-121 | The descent loop either gets stuck on a missing key or a non-dictionary, and then deleting changes nothing, or reaches the leaf's parent through a chain of nested dictionaries, each holding the next key. |
| Store.Data.Rebuild | The_champion.py:122-123 | Popping the leaf from the innermost dictionary of that chain and putting the chain back together gives `DeleteAt` of the outermost one. |
| Store.DeleteAt | The_champion.py:111-123 | Deleting by a path adds no key and changes no top-level entry other than the one the path starts with. A path longer than one key keeps every top-level key. |
| Store.StuckDescent | The_champion.py:116-121 | When the descent stops before the leaf's parent, the document is unchanged. |
| Store.DeleteAtBrokenPath | The_champion.py:116-121 | When the walk to the leaf's parent meets a missing key or a non-dictionary, the document is unchanged. |
| Store.DeleteAtRemovesLeaf | The_champion.py:122-123 | When the walk reaches a parent dictionary, the same walk afterwards reaches that dictionary with only the leaf key removed. |
| Store.DeleteAtKeepsOthers | The_champion.py:111-123 | Every path that branches away from the deleted one reaches the same value as before. |
| Store.Data.NormaliseMatches | The_champion.py:184-185 | Afterwards `matches` is a list. A document that already had a list is unchanged; otherwise only `matches` is set to `[]`. |
| Text.ValueDigits | The_champion.py:162-165 | `int(s)` (here and at `:251` and `:400-408`) reads decimal digits: appending a digit multiplies the value by ten and adds the digit, and a leading `0` leaves the value as it was, so `01` reads as 1. |
| Text.IsDigitsChars | The_champion.py:397-398 | `str.isdigit()` (here and at `:162` and `:245`) holds exactly for a non-empty string whose every character is a digit; such a string holds no `r` and is not `m`. |
| Text.Show | The_champion.py:159-160 | `str(n)` gives digits without a leading zero, and `int` reads them back as `n`. |
| Text.ShowValue | The_champion.py:162-165 | A canonical digit string read with `int` and printed with `str` gives the same string. |
| Text.Lower | The_champion.py:296 | `str.lower()` keeps the length and lowers each character on its own. |
| Text.LowerFacts | The_champion.py:344 | After `lower()` no upper-case letter is left, every character that is not one is kept, and lowering again changes nothing. |
| Text.LowerOfOne | The_champion.py:296 | Exactly `y` and `Y` give `y` under `lower()`. |
| Text.Find | The_champion.py:399 | The index of the first occurrence, or the length when there is none. |
| Text.ReplaceFirst | The_champion.py:399 | `replace('r', "", 1)` leaves a string without `r` as it is, and otherwise removes exactly one character. |
| Text.ReplaceFirstRemovesOne | The_champion.py:399 | `replace('r', "", 1)` takes out one `r` when there is one and keeps every other character. |
| Text.RemoveAll | The_champion.py:406 | `replace('r', "")` leaves no `r`, and leaves a string without `r` as it is. |
| Text.RemoveAllCounts | The_champion.py:406 | `replace('r', "")` keeps every other character as often as it occurred, and takes out every `r`. |
| Text.RemoveAllConcat | The_champion.py:406 | Removing every `r` from a concatenation removes it from each part and keeps the parts in order, so the kept characters stay in their order. |
| Text.RemoveAllAgreesWithReplaceFirst | The_champion.py:399-406 | When removing the first `r` leaves none, removing every `r` gives the same string, so the id checked is the id used. |
| Validation.Choices | The_champion.py:158-160 | The choices are `n` strings, and the i-th is `str(i + 1)`. |
| Validation.OptionAcceptedIff | The_champion.py:162-165 | `OptionAccepted`, the exit test of the `options()` loop, holds exactly for a number from 1 to n written without leading zeros. |
| Validation.FirstAccepted | The_champion.py:162-164 | A re-prompt loop stops at the first accepted answer: that answer is accepted and every earlier one is rejected. |
| Validation.NameChecks | The_champion.py:209-236 | `NameAccepted`, the exit test of the team-name loop (`:210`) and of the player-name loop (`:235`), holds exactly for a non-empty answer. `SecondNameAccepted`, the exit test of the second-name loop (`:214`), holds exactly when the answer would pass as a name and differs from the first. |
| Validation.PointsReachable | The_champion.py:243-249 | Every value from 0 to `remaining_points`, typed as `str` writes it, passes `PointAccepted`, the exit test of the points loop, and is read back as that value. |
| Validation.IsYes | The_champion.py:344 | An answer is a yes exactly when it is `y` or `Y`. |
| Validation.HistoryAcceptedIff | The_champion.py:397-402 | `HistoryRejected`, the condition of the lookup loop, is false exactly on `m`, or on a choice whose first-`r`-removed form is a digit string of value 1..len(matches). |
| Validation.HistoryChoiceInRange | The_champion.py:403-408 | An accepted choice with an `r` names, via `replace('r', "")`, a digit string with value in 1..len. One without an `r` is itself such a digit string. |
| Records.Title | The_champion.py:217 | The stored match name is laid out as `---- `, the first team name, ` vs. `, the second team name and ` ----`, and its length is the two names' lengths plus 15. |
| Records.WinnerTag | The_champion.py:284-291 | The tag is `team_a` iff A scored more, `team_b` iff B scored more, and `draw` iff the scores are equal. |
| Records.ParseScoreText | The_champion.py:285 | `ScoreText(a, b)`, the text `f"{a}-{b}"`, reads back as exactly `(a, b)`. |
| Records.NewOutcome | The_champion.py:282-291 | The appended entry's score is the text `str(a)-str(b)`, which parses back to the two scores, and its winner follows the three-way rule. |
| Records.NewOutcomeConsistent | The_champion.py:282-291 | The entry of a contest whose scores sum to at most five satisfies the result invariant. |
| Records.CountWinner | The_champion.py:372-380 | The number of results that name a tag is at most the number of results. |
| Records.Tally | The_champion.py:372-380 | The counting loop returns the number of `team_a`, `team_b` and `draw` winners. |
| Records.TallyTotal | The_champion.py:354-362 | The three counts never exceed the number of results, and equal it when every winner is one of the three tags. |
| Records.RemainingBounds | The_champion.py:232-253 | While each player takes at most what remains, `remaining_points` stays between 0 and 100. |
| Records.ValidMatchTally | The_champion.py:354-362 | Every result of a recorded match names `team_a`, `team_b` or `draw`, so its three counts add up to its number of results. |
| Records.AppendKeepsValid | The_champion.py:201-206 | Appending a valid match with id `len(matches)+1` grows the list and keeps the ids sequential. |
| Records.UpdateKeepsValid | The_champion.py:330-339 | Replacing a match by one with the same roster and more results grows the list and keeps it valid. |
| Records.ExtendsTransitive | The_champion.py:472-496 | Growth by appends composes over successive handler calls. |
| Codec.TeamRoundTrip | The_champion.py:219-230 | Reading back the dictionary stored for a team gives the same team. |
| Codec.MatchRoundTrip | The_champion.py:202-230 | Reading back the dictionaries stored for a match gives the same match. |
| Codec.MatchesRoundTrip | The_champion.py:129-134 | Reading back the stored `matches` list gives the same matches, in the same order. |
| Contest.Pick | The_champion.py:261-262 | `random.choice` returns an element still in the pool. |
| Contest.Remove | The_champion.py:278-279 | `list.remove` leaves the pool one element shorter. |
| Contest.RemoveFacts | The_champion.py:278-279 | `remove` keeps every other element and adds none. In a pool without repeats, the removed index is gone. |
| Contest.Draws | The_champion.py:260-279 | Each round draws one index, so five rolls give five draws. |
| Contest.DrawsFacts | The_champion.py:256-279 | Only pool elements are drawn, none twice, and all of them when there are as many rounds as elements. |
| Contest.DrawsEachIndexOnce | The_champion.py:304-328 | Over five rounds every index 0..4 of a side is drawn exactly once. |
| Contest.RoundOutcome | The_champion.py:267-276 | A round is won by A iff A has more points, by B iff B has more, and drawn iff the points are equal. |
| Contest.Rounds | The_champion.py:263-276 | There is one round outcome per pairing of drawn players. |
| Contest.RoundsAt | The_champion.py:263-276 | Round i compares the two players the draw orders name at position i. |
| Contest.CountSides | The_champion.py:267-276 | A's wins, B's wins and draw rounds add up to the rounds played. |
| Contest.Contest | The_champion.py:256-279 | The round loop returns exactly the rounds won by each side under the given draws. |
| Contest.ContestScores | The_champion.py:256-279 | `score_a + score_b <= 5`, and the draw rounds number `5 - score_a - score_b`. |
| Contest.ContestOutcome | The_champion.py:282-291 | The appended entry is `NewOutcome` of the rounds won by each side. It satisfies the result invariant, and its score reads back as the two counts. |
| Contest.Played | The_champion.py:282-291 | One contest appends the `ContestOutcome` of the two rosters under the given draws to the match's results and changes nothing else. |
| Contest.PlayedKeepsRecord | The_champion.py:330-342 | A contest keeps id, name and rosters, appends exactly one consistent result, and leaves the match valid. |
| Session.FuncMap | The_champion.py:464-469 | Each of `menu`, `classic`, `rematch` and `history` resolves to its own handler, and no other name resolves. |
| Session.Route | The_champion.py:472-490 | An unknown name falls back to the menu. A known handler given an argument it does not take fails. Otherwise the handler is called with the pending argument. |
| Session.Unpack | The_champion.py:492-496 | A tuple result sets the command and its argument; any other result sets the command and no argument. |
| Session.ExpectedIsRouted | The_champion.py:472-496 | Every value a handler returns stops the loop or calls a handler. A handler gets an argument exactly when it is `rematch`. |
| Session.RedirectReachesMenu | The_champion.py:473-481 | A `None` command is the menu, and after a fallback the menu is called when no argument is pending. |
| Session.Rolls | The_champion.py:261-262 | Each side gets one random pick per round, five in all; `RollsInterleave` says which calls they are. |
| Session.Resolve | The_champion.py:473-475 | A `None` command becomes `menu`, and any other command is kept. |
| Session.PyIndex | The_champion.py:302-303 | `matches[id-1]` exists exactly for `-len <= id-1 < len`, is in range, and is position `id-1` for ids 1..len. |
| Session.Overview | The_champion.py:371-380 | The overview lists, for every match in order, the counts of its winners. |
| Session.PlayerFrom | The_champion.py:234-253 | A player read from the answers has a non-empty name and uses up at least one answer. The first four take 0..remaining points; the fifth takes exactly what remains. |
| Session.PlayersFrom | The_champion.py:232-253 | Reading `count` players gives `count` named players and uses up at least one answer when `count` is positive. |
| Session.PlayersFromShares | The_champion.py:232-253 | The players read for a team share out exactly the points they start with: each takes at most what the earlier ones left. |
| Session.PlayersFromValid | The_champion.py:219-253 | The five players read for a named team make a valid team with 100 points shared out and none overdrawn. |
| Session.MatchFrom | The_champion.py:209-253 | The match read from the answers has the given id, a non-empty first name, a different non-empty second name, the title built from both, no results and two full teams. It uses up at least one answer. |
| Session.MenuFrom | The_champion.py:187-197 | The menu's reading on the answers: the first answer `options(3)` accepts picks `classic`, `history` or `exit`. A reading that returns uses up at least one answer. |
| Session.AgainFrom | The_champion.py:296-299 | The rematch question: the result is `("rematch", id)` exactly when the first answer is `y` or `Y`, and otherwise `menu`, after one more prompt. A reading that returns uses up at least one answer. |
| Session.LookupFrom | The_champion.py:388-408 | The history lookup's reading: with no matches one Enter leads to `menu`; otherwise the first accepted choice leads to `menu` for `m`, to a rematch for a choice with an `r`, and to `menu` after one more Enter for a plain id. A reading that returns uses up at least one answer. |
| Session.ClassicFrom | The_champion.py:199-299 | `classic()` as a function of the match list, the answers and the random calls made: read a match, play it under the next ten picks, append it, ask the rematch question. A call that returns uses up at least one answer. |
| Session.ClassicRead | The_champion.py:199-299 | Once `MatchFrom` reads a match and leaves some answers, `classic()` appends that match played under the next ten picks, uses ten random calls, and asks the rematch question on exactly the answers left. |
| Session.RematchFrom | The_champion.py:301-347 | `rematch(id)` as a function of the state: replay the match at Python position `id-1` under the next ten picks, then ask the rematch question; a missing or short match leaves the state as it was and ends the process. A call that returns uses up at least one answer. |
| Session.CallFrom | The_champion.py:483-490 | One handler call as a function of the state; `rematch` takes the pending argument, or its default without one. A call that returns uses up at least one answer, which is why the run loop ends. |
| Session.RollsInterleave | The_champion.py:260-262 | The ten random calls of a contest are each used once: the even ones pick team A's players and the odd ones team B's. |
| Session.RunFromSteps | The_champion.py:464-498 | `RunFrom`, the run loop over the answers: `exit` ends with the data saved; `None` runs the menu; an unknown command falls back to the menu with the pending argument kept; a handler given an argument it does not take ends the process unsaved; otherwise the handler is called, and the loop ends unsaved if the call ends the process or continues with the command and argument it returned. `RunFrom` ends because each call that returns uses up at least one answer (`CallFrom`). |
| Session.Session.constructor | The_champion.py:301 | The session starts with the loaded matches. The rematch default argument is fixed at the number of loaded matches. |
| Session.Session.Prompt | The_champion.py:7-34 | `cin` consumes the next answer; with none left the process ends. |
| Session.Session.Ask | The_champion.py:209-211 | A prompt with its re-prompt loop returns the first accepted answer and consumes everything up to it. With no accepted answer the process ends. |
| Session.Session.Options | The_champion.py:137-165 | `options(n)` returns the value of the first accepted answer, always within 1..n, and leaves exactly the answers after it. With no accepted answer the process ends. |
| Session.Session.Menu | The_champion.py:187-197 | The result and the answers left are exactly `MenuFrom` of the answers before: `classic`, `history` or `exit` exactly as the first accepted answer is 1, 2 or 3, and the answers after it remain. |
| Session.Session.ReadPlayer | The_champion.py:234-253 | The player is exactly what `PlayerFrom` reads: the first non-empty answer as the name, and, unless it is the fifth, the first later digit answer of value 0..remaining as the points. Exactly those answers are consumed. |
| Session.Session.ReadTeam | The_champion.py:219-253 | The team has the given name and exactly the five players `PlayersFrom` reads, in order, consuming exactly their answers. A completed team is valid: named players sharing out exactly 100 points. |
| Session.Session.ReadMatch | The_champion.py:199-253 | The match is exactly the one `MatchFrom` reads: the first non-empty answer names team A, the first later answer that is non-empty and different names team B, then come both teams' players. It has the given id, the title, valid rosters and no results. |
| Session.Session.PlayContest | The_champion.py:256-291 | One contest appends the `Played` result and uses the next ten random picks. |
| Session.Session.AskAgain | The_champion.py:296-299 | The result and the answers left are exactly `AgainFrom` of the answers before: `y` or `Y` leads to `("rematch", id)` and leaves the answers after it; any other answer leads, after one more prompt, to `menu`, leaving the answers after that one. |
| Session.Session.AddPlayed | The_champion.py:256-291 | The new match is appended with exactly one result, the `ContestOutcome` of the next ten picks. Earlier matches are unchanged, and the new match and a valid list stay valid. |
| Session.Session.Classic | The_champion.py:199-299 | The new state and result are exactly `ClassicFrom` of the state before. When the answers give a match, it is appended last with id `len(matches)+1` and exactly one result, the `ContestOutcome` of the next ten picks, and earlier matches are unchanged. The rematch question is then asked on the answers after the match: `("rematch", new id)` exactly when that answer is `y` or `Y`, `menu` otherwise. When the answers give no match, no match changes and the process ends. |
| Session.Session.Rematch | The_champion.py:301-347 | The new state and result are exactly `RematchFrom` of the state before. The match at Python position `id-1` gets exactly one more result, the `Played` of the next ten picks, and nothing else changes; the rematch question then reads the next answers. A missing match, or a team of fewer than five, ends the process with nothing changed. |
| Session.Session.History | The_champion.py:349-462 | No match changes, and the result and the answers left are exactly `LookupFrom` of the answers before. With no matches the next state is `menu`. Otherwise the first accepted lookup decides it: `m` or a plain id gives `menu`, and a choice with an `r` gives `("rematch", int(choice.replace('r', "")))` for an id in 1..len. |
| Session.Session.Details | The_champion.py:408-418 | The detail view selects `matches[id-1]` and counts its `team_a`, `team_b` and `draw` winners; on a valid match list the counts add up to its number of results. |
| Session.Session.Call | The_champion.py:483-490 | The new state and result are exactly `CallFrom` of the state before. One call only grows the match list and keeps it valid, and returns a value the loop routes. A rematch of an id in 1..len returns an id in range, and on a valid list a call ends the process only when the answers run out. |
| Session.Session.Run | The_champion.py:464-498 | The final state, and whether `d.write()` is reached, are exactly `RunFrom` of the starting state with `run = "menu"` and no argument. The match list only grows by appends, and a valid list stays valid. Started on a valid list, the loop ends without reaching `d.write()` only when the answers run out: no handler call raises. |

## Left out

- Terminal output: `print`, the `rich` tables, panels and columns, the prompt texts and the display strings of the history views. The tallies behind the views are modelled.
- The save-permission prompt, and the file side of `Data`: opening, `fsync`, `json.load`, `json.dump` and their error exits. `Run` returns `true` where the script goes on to `d.write()`; the write itself and the JSON text format are not modelled.
- `time.sleep`, and the difference between an interrupt, end of input and an unexpected exception in `cin`. All three end the process without saving, and the model treats them alike.
- Real randomness. `random.choice` is an oracle, and `roll % len(pool)` stands for CPython's index choice.
- Python's Unicode-aware `str.isdigit`, `int` and `str.lower`. The model has ASCII digits and letters only, so it does not capture a digit such as `²` that passes `isdigit` but makes `int` raise.
- Session.Session.Classic: the match is appended once its teams are read. The source appends a placeholder `{"id", "name", "teams": {}}` first and fills it in. The two differ only when the process ends part-way, and then nothing is saved.
- Store.Data.Get: returns the dictionary as a value. Python returns the store's own dictionary, so a caller could mutate it; aliasing is not modelled.
- Store.Data.Delete: models the in-place pop inside nested dictionaries as rebuilding the path with new values. Other references to those nested dictionaries are not modelled.
- Session.Session: keeps the matches as typed records, separate from the `Data` document. A loaded match that is not a well-formed record is outside the model, except for a team of fewer than five players, which `Rematch` handles.
