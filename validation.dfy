/**
 * What the prompts accept. A prompt asks again until an answer passes its test; these are the
 * tests, and what an accepted answer is then known to mean.
 */
module Validation {
  import opened Text

  /** The choice strings "1".."n" that `options()` lists. */
  function Choices(n: nat): (cs: seq<string>)
    ensures |cs| == n
    ensures forall i :: 0 <= i < n ==> cs[i] == Show(i + 1)
  {
    seq(n, i requires 0 <= i < n => Show(i + 1))
  }

  /** `options()` keeps asking while `not v.isdigit() or v not in choices`. */
  predicate OptionAccepted(v: string, n: nat) {
    IsDigits(v) && v in Choices(n)
  }

  /** `options()` accepts exactly the numbers 1..n written without leading zeros. */
  lemma OptionAcceptedIff(v: string, n: nat)
    ensures OptionAccepted(v, n) <==> Canonical(v) && 1 <= Value(v) <= n
  {
    if OptionAccepted(v, n) {
      var i :| 0 <= i < n && Choices(n)[i] == v;
    }
    if Canonical(v) && 1 <= Value(v) <= n {
      ShowValue(v);
      assert Choices(n)[Value(v) - 1] == v;
    }
  }

  /** Team and player names are asked again while empty. */
  predicate NameAccepted(s: string) {
    s != ""
  }

  /** The second team name is asked again while empty or equal to the first. */
  predicate SecondNameAccepted(s: string, first: string) {
    s != "" && s != first
  }

  /** Ability points are asked again until they are a digit string naming 0..remaining. */
  predicate PointAccepted(s: string, remaining: int) {
    IsDigits(s) && 0 <= Value(s) <= remaining
  }

  /** Every point value the prompt offers can be typed: `str(n)` passes the check and reads back as `n`. */
  lemma PointsReachable(n: nat, remaining: int)
    requires n <= remaining
    ensures PointAccepted(Show(n), remaining) && Value(Show(n)) == n
  {
  }

  /** `cin(...).lower() == "y"` */
  predicate IsYes(s: string)
    ensures IsYes(s) <==> s == "y" || s == "Y"
  {
    LowerOfOne(s);
    Lower(s) == "y"
  }

  /**
   * The re-prompt condition of the history lookup, as written:
   * `choice != "m" and not stripped.isdigit() or (stripped.isdigit() and not 1 <= int(stripped) <= count)`.
   */
  predicate HistoryRejected(choice: string, count: nat) {
    var stripped := ReplaceFirst(choice, 'r');
    (choice != "m" && !IsDigits(stripped)) || (IsDigits(stripped) && !(1 <= Value(stripped) <= count))
  }

  /** The history lookup lets through "m", and otherwise a choice whose one-`r`-removed form is an id 1..count. */
  lemma HistoryAcceptedIff(choice: string, count: nat)
    ensures !HistoryRejected(choice, count) <==>
              choice == "m" || (IsDigits(ReplaceFirst(choice, 'r')) && 1 <= Value(ReplaceFirst(choice, 'r')) <= count)
  {
    if choice == "m" {
      assert Find(choice, 'r') == 1;
      assert ReplaceFirst(choice, 'r') == "m";
      assert !IsDigit('m');
    }
  }

  /**
   * Where an accepted lookup leads: a choice with an `r` names the rematch id that
   * `int(choice.replace('r', ""))` reads, a choice without one names the match to show, and in
   * both cases that id is in 1..count.
   */
  lemma HistoryChoiceInRange(choice: string, count: nat)
    requires !HistoryRejected(choice, count) && choice != "m"
    ensures 'r' in choice ==> IsDigits(RemoveAll(choice, 'r')) && RemoveAll(choice, 'r') == ReplaceFirst(choice, 'r')
    ensures 'r' in choice ==> 1 <= Value(RemoveAll(choice, 'r')) <= count
    ensures 'r' !in choice ==> IsDigits(choice) && 1 <= Value(choice) <= count
  {
    var stripped := ReplaceFirst(choice, 'r');
    assert IsDigits(stripped);
    forall i | 0 <= i < |stripped| ensures stripped[i] != 'r' {
      assert IsDigit(stripped[i]);
    }
    RemoveAllAgreesWithReplaceFirst(choice, 'r');
    if 'r' !in choice {
      assert Find(choice, 'r') == |choice|;
      assert stripped == choice;
    }
  }

  /** The test each prompt re-asks on. */
  datatype Check =
    | TeamName                       // first team name
    | SecondTeamName(first: string)  // second team name
    | PlayerName
    | Points(remaining: int)         // a player's ability points
    | Choice(n: nat)                 // `options()` with n options
    | HistoryChoice(count: nat)      // the history lookup with count matches

  predicate Accepts(check: Check, s: string) {
    match check
    case TeamName => NameAccepted(s)
    case SecondTeamName(first) => SecondNameAccepted(s, first)
    case PlayerName => NameAccepted(s)
    case Points(remaining) => PointAccepted(s, remaining)
    case Choice(n) => OptionAccepted(s, n)
    case HistoryChoice(count) => !HistoryRejected(s, count)
  }

  /**
   * The two name loops: a team or player name is accepted exactly when it is non-empty, and the
   * second team name exactly when it would pass as a name and differs from the first.
   */
  lemma NameChecks(s: string, first: string)
    ensures Accepts(TeamName, s) <==> |s| > 0
    ensures Accepts(PlayerName, s) <==> |s| > 0
    ensures Accepts(SecondTeamName(first), s) <==> Accepts(TeamName, s) && s != first
  {
  }

  /** The position of the first answer in `lines` that `check` accepts, or |lines| when none is. */
  function FirstAccepted(lines: seq<string>, check: Check): (k: nat)
    ensures k <= |lines|
    ensures k < |lines| ==> Accepts(check, lines[k])
    ensures forall i {:trigger Accepts(check, lines[i])} :: 0 <= i < k ==> !Accepts(check, lines[i])
  {
    AcceptedFrom(lines, check, 0)
  }

  /** The position of the first answer at or after `i` that `check` accepts, or |lines| when none is. */
  function AcceptedFrom(lines: seq<string>, check: Check, i: nat): (k: nat)
    requires i <= |lines|
    ensures i <= k <= |lines|
    ensures k < |lines| ==> Accepts(check, lines[k])
    ensures forall j {:trigger Accepts(check, lines[j])} :: i <= j < k ==> !Accepts(check, lines[j])
    decreases |lines| - i
  {
    if i == |lines| || Accepts(check, lines[i]) then i
    else
      var k := AcceptedFrom(lines, check, i + 1);
      assert !Accepts(check, lines[i]);
      k
  }
}
