/**
 * The match record: two named teams of five players with ability points, and the list of
 * contest results. Also the per-match tally shown in the history view and the point budget
 * that team creation keeps.
 */
module Records {
  import opened Wrappers
  import opened Text

  /** Players per team, and rounds per contest. */
  const TeamSize: nat := 5
  /** Ability points a team shares out. */
  const Budget: int := 100

  datatype Player = Player(name: string, point: int)
  datatype Team = Team(name: string, players: seq<Player>)
  /** One entry of a match's `result` list: `{"winner": ..., "score": ...}`. */
  datatype Outcome = Outcome(winner: string, score: string)
  datatype Match = Match(id: int, name: string, teamA: Team, teamB: Team, results: seq<Outcome>)

  /** The display name a match gets once both team names are known. */
  function Title(nameA: string, nameB: string): (t: string)
    ensures |t| == |nameA| + |nameB| + 15
    ensures t[..5] == "---- " && t[|t| - 5..] == " ----"
    ensures t[5..5 + |nameA|] == nameA && t[5 + |nameA|..10 + |nameA|] == " vs. " && t[10 + |nameA|..|t| - 5] == nameB
  {
    "---- " + nameA + " vs. " + nameB + " ----"
  }

  // ----- contest results -----

  /** The winner tag stored for final scores `scoreA`-`scoreB`. */
  function WinnerTag(scoreA: nat, scoreB: nat): (w: string)
    ensures w == "team_a" <==> scoreA > scoreB
    ensures w == "team_b" <==> scoreA < scoreB
    ensures w == "draw" <==> scoreA == scoreB
  {
    assert "team_a"[5] != "team_b"[5];
    if scoreA > scoreB then "team_a" else if scoreA < scoreB then "team_b" else "draw"
  }

  predicate IsWinnerTag(w: string) {
    w == "team_a" || w == "team_b" || w == "draw"
  }

  /** The score text `f"{score_a}-{score_b}"`. */
  function ScoreText(scoreA: nat, scoreB: nat): string {
    Show(scoreA) + "-" + Show(scoreB)
  }

  /** Reads a score text back: two digit strings around the first '-'. */
  function ParseScore(s: string): Option<(nat, nat)> {
    var k := Find(s, '-');
    if k < |s| && IsDigits(s[..k]) && IsDigits(s[k + 1..]) then Some((Value(s[..k]), Value(s[k + 1..])))
    else None
  }

  /** The score text determines the two scores. */
  lemma ParseScoreText(scoreA: nat, scoreB: nat)
    ensures ParseScore(ScoreText(scoreA, scoreB)) == Some((scoreA, scoreB))
  {
    var a, b := Show(scoreA), Show(scoreB);
    var s := ScoreText(scoreA, scoreB);
    assert s == a + ['-'] + b;
    assert s[|a|] == '-';
    forall i | 0 <= i < |a| ensures s[i] != '-' {
      assert s[i] == a[i];
    }
    var k := Find(s, '-');
    assert k == |a|;
    assert s[..k] == a;
    assert s[k + 1..] == b;
  }

  /** The result entry appended after a contest that ended `scoreA`-`scoreB`. */
  function NewOutcome(scoreA: nat, scoreB: nat): (r: Outcome)
    ensures r.score == Show(scoreA) + "-" + Show(scoreB)
    ensures ParseScore(r.score) == Some((scoreA, scoreB))
    ensures r.winner == "team_a" <==> scoreA > scoreB
    ensures r.winner == "team_b" <==> scoreA < scoreB
    ensures r.winner == "draw" <==> scoreA == scoreB
  {
    ParseScoreText(scoreA, scoreB);
    Outcome(WinnerTag(scoreA, scoreB), ScoreText(scoreA, scoreB))
  }

  /** A result entry as a contest writes it: a readable score of at most five won rounds and the matching winner. */
  predicate Consistent(r: Outcome) {
    match ParseScore(r.score)
    case Some(s) => s.0 + s.1 <= TeamSize && r.winner == WinnerTag(s.0, s.1)
    case None => false
  }

  lemma NewOutcomeConsistent(scoreA: nat, scoreB: nat)
    requires scoreA + scoreB <= TeamSize
    ensures Consistent(NewOutcome(scoreA, scoreB))
  {
  }

  // ----- the history tally -----

  /** How many entries of `results` name `tag` as winner. */
  function CountWinner(results: seq<Outcome>, tag: string): (n: nat)
    ensures n <= |results|
    decreases |results|
  {
    if results == [] then 0
    else CountWinner(results[..|results| - 1], tag) + (if results[|results| - 1].winner == tag then 1 else 0)
  }

  /** The counting loop of the history view: wins of each side and draws. */
  method Tally(results: seq<Outcome>) returns (winsA: nat, winsB: nat, draws: nat)
    ensures winsA == CountWinner(results, "team_a")
    ensures winsB == CountWinner(results, "team_b")
    ensures draws == CountWinner(results, "draw")
  {
    winsA, winsB, draws := 0, 0, 0;
    for i := 0 to |results|
      invariant winsA == CountWinner(results[..i], "team_a")
      invariant winsB == CountWinner(results[..i], "team_b")
      invariant draws == CountWinner(results[..i], "draw")
    {
      assert results[..i + 1][..i] == results[..i];
      var winner := results[i].winner;
      if winner == "team_a" {
        winsA := winsA + 1;
      } else if winner == "team_b" {
        winsB := winsB + 1;
      } else if winner == "draw" {
        draws := draws + 1;
      }
    }
    assert results[..|results|] == results;
  }

  /**
   * The three counts never exceed the number of results, and add up to it exactly when every
   * winner is one of the three tags.
   */
  lemma {:induction false} TallyTotal(results: seq<Outcome>)
    ensures CountWinner(results, "team_a") + CountWinner(results, "team_b") + CountWinner(results, "draw") <= |results|
    ensures (forall i :: 0 <= i < |results| ==> IsWinnerTag(results[i].winner)) ==>
              CountWinner(results, "team_a") + CountWinner(results, "team_b") + CountWinner(results, "draw") == |results|
    decreases |results|
  {
    assert "team_a"[5] != "team_b"[5];
    if results != [] {
      var prefix := results[..|results| - 1];
      TallyTotal(prefix);
      assert forall i :: 0 <= i < |prefix| ==> prefix[i] == results[i];
    }
  }

  // ----- the point budget -----

  /** The points handed out to `players`. */
  function Total(players: seq<Player>): int
    decreases |players|
  {
    if players == [] then 0 else Total(players[..|players| - 1]) + players[|players| - 1].point
  }

  /** The points of a player in front of others add to theirs. */
  lemma {:induction false} TotalCons(p: Player, players: seq<Player>)
    ensures Total([p] + players) == p.point + Total(players)
    decreases |players|
  {
    if players == [] {
      assert ([p] + players)[..0] == [];
    } else {
      var n := |players|;
      assert ([p] + players)[..n] == [p] + players[..n - 1];
      TotalCons(p, players[..n - 1]);
    }
  }

  /** `remaining_points` once `players` have been entered. */
  function Remaining(players: seq<Player>): int {
    Budget - Total(players)
  }

  /** Every player takes between 0 and what the players before it left of `remaining`. */
  predicate Shares(ps: seq<Player>, remaining: int) {
    forall j :: 0 <= j < |ps| ==> 0 <= ps[j].point <= remaining - Total(ps[..j])
  }

  /** The budget rule of team creation: every player received between 0 and the points that remained when it was entered. */
  predicate BudgetRespected(players: seq<Player>) {
    Shares(players, Budget)
  }

  /** While each player takes at most what remains, the remaining points never go negative nor grow. */
  lemma {:induction false} RemainingBounds(players: seq<Player>)
    requires BudgetRespected(players)
    ensures 0 <= Remaining(players) <= Budget
    decreases |players|
  {
    if players != [] {
      var prefix := players[..|players| - 1];
      assert forall j :: 0 <= j < |prefix| ==> prefix[..j] == players[..j] && prefix[j] == players[j];
      RemainingBounds(prefix);
    }
  }

  // ----- the invariant of the match list -----

  ghost predicate ValidTeam(t: Team) {
    && t.name != ""
    && |t.players| == TeamSize
    && (forall j :: 0 <= j < |t.players| ==> t.players[j].name != "")
    && BudgetRespected(t.players)
    && Total(t.players) == Budget
  }

  /** A match as creation builds it: its id, distinct team names, the title built from them, and budget-respecting teams. */
  ghost predicate ValidRoster(m: Match, id: int) {
    && m.id == id
    && m.teamA.name != m.teamB.name
    && m.name == Title(m.teamA.name, m.teamB.name)
    && ValidTeam(m.teamA)
    && ValidTeam(m.teamB)
  }

  /** A match as creation and contests leave it: a valid roster and consistent results (at least one). */
  ghost predicate ValidMatch(m: Match, id: int) {
    && ValidRoster(m, id)
    && |m.results| > 0
    && (forall j :: 0 <= j < |m.results| ==> Consistent(m.results[j]))
  }

  /** Every result a valid match records names one of the three tags, so its tally adds up to its number of results. */
  lemma ValidMatchTally(m: Match, id: int)
    requires ValidMatch(m, id)
    ensures forall j :: 0 <= j < |m.results| ==> IsWinnerTag(m.results[j].winner)
    ensures CountWinner(m.results, "team_a") + CountWinner(m.results, "team_b") + CountWinner(m.results, "draw") == |m.results|
  {
    forall j | 0 <= j < |m.results|
      ensures IsWinnerTag(m.results[j].winner)
    {
      assert Consistent(m.results[j]);
    }
    TallyTotal(m.results);
  }

  /** The match list with ids 1, 2, ... in order. */
  ghost predicate ValidMatches(ms: seq<Match>) {
    forall i :: 0 <= i < |ms| ==> ValidMatch(ms[i], i + 1)
  }

  /** `later` grew from `earlier` only by appending matches and appending results; no roster changed. */
  ghost predicate Extends(earlier: seq<Match>, later: seq<Match>) {
    && |earlier| <= |later|
    && forall i :: 0 <= i < |earlier| ==>
         && later[i] == earlier[i].(results := later[i].results)
         && earlier[i].results <= later[i].results
  }

  /** Growing by appends is transitive. */
  lemma ExtendsTransitive(a: seq<Match>, b: seq<Match>, c: seq<Match>)
    requires Extends(a, b) && Extends(b, c)
    ensures Extends(a, c)
  {
    forall i | 0 <= i < |a| ensures c[i] == a[i].(results := c[i].results) && a[i].results <= c[i].results {
      assert b[i] == a[i].(results := b[i].results);
    }
  }

  /** Appending a valid match under the next id grows the list and keeps it valid. */
  lemma AppendKeepsValid(ms: seq<Match>, m: Match)
    requires ValidMatch(m, |ms| + 1)
    ensures Extends(ms, ms + [m])
    ensures ValidMatches(ms) ==> ValidMatches(ms + [m])
  {
    var ms' := ms + [m];
    assert forall i :: 0 <= i < |ms| ==> ms'[i] == ms[i];
  }

  /** Replacing a match by one with the same roster and more results grows the list, and keeps it valid when the new match is. */
  lemma UpdateKeepsValid(ms: seq<Match>, i: nat, m: Match)
    requires i < |ms|
    requires m == ms[i].(results := m.results) && ms[i].results <= m.results
    requires ValidMatches(ms) ==> ValidMatch(m, i + 1)
    ensures Extends(ms, ms[i := m])
    ensures ValidMatches(ms) ==> ValidMatches(ms[i := m])
  {
  }
}
