/**
 * One run of the program: the menu, match creation, rematches, the history view and the loop
 * that dispatches between them through `func_map`.
 *
 * The terminal is the sequence `input` of answers not yet read; when it runs out, `cin` ends
 * the process without saving (an interrupt or end of input). `random.choice` is the oracle
 * `rng`: the k-th call picks `pool[rng(k) % |pool|]`.
 */
module Session {
  import opened Wrappers
  import opened Text
  import opened Records
  import opened Contest
  import opened Validation

  /** What a handler returns: a command name, or a command name with a match id. */
  datatype Ret = Tag(run: string) | TagArg(run: string, arg: int)

  datatype Handler = MenuH | ClassicH | RematchH | HistoryH

  /** `func_map.get(name)` */
  function FuncMap(name: string): (h: Option<Handler>)
    ensures h.Some? <==> name in ["menu", "classic", "rematch", "history"]
    ensures h == Some(MenuH) <==> name == "menu"
    ensures h == Some(ClassicH) <==> name == "classic"
    ensures h == Some(RematchH) <==> name == "rematch"
    ensures h == Some(HistoryH) <==> name == "history"
  {
    if name == "menu" then Some(MenuH)
    else if name == "classic" then Some(ClassicH)
    else if name == "rematch" then Some(RematchH)
    else if name == "history" then Some(HistoryH)
    else None
  }

  /** What one pass of the run loop does: fall back to the menu, end on an error, or call a handler. */
  datatype Step = Redirect | Fail | Invoke(handler: Handler, arg: Option<int>)

  /** The name a pass looks up: a `None` command becomes "menu". */
  function Resolve(run: Option<string>): (name: string)
    ensures run.Some? ==> name == run.value
    ensures name == "menu" <==> run.None? || run == Some("menu")
  {
    if run.Some? then run.value else "menu"
  }

  /**
   * One pass of the run loop for a command other than "exit". An unknown name falls back to
   * the menu and keeps `arg`; a known handler is called with `arg` when there is one, and every
   * handler but `rematch` takes no argument, so that call raises and the process ends.
   */
  function Route(run: Option<string>, arg: Option<int>): (s: Step)
    ensures s.Redirect? <==> FuncMap(Resolve(run)).None?
    ensures s.Fail? <==> FuncMap(Resolve(run)).Some? && arg.Some? && FuncMap(Resolve(run)) != Some(RematchH)
    ensures s.Invoke? ==> Some(s.handler) == FuncMap(Resolve(run)) && s.arg == arg
  {
    match FuncMap(Resolve(run))
    case None => Redirect
    case Some(h) => if arg.Some? && h != RematchH then Fail else Invoke(h, arg)
  }

  /** `run, arg = result` for a tuple, `run = result; arg = None` otherwise. */
  function Unpack(ret: Ret): (r: (Option<string>, Option<int>))
    ensures r.0 == Some(ret.run)
    ensures r.1.Some? <==> ret.TagArg?
    ensures ret.TagArg? ==> r.1 == Some(ret.arg)
  {
    match ret
    case Tag(t) => (Some(t), None)
    case TagArg(t, a) => (Some(t), Some(a))
  }

  /** The values the handlers return. */
  predicate Expected(ret: Ret) {
    || ret == Tag("menu") || ret == Tag("classic") || ret == Tag("history") || ret == Tag("exit")
    || (ret.TagArg? && ret.run == "rematch")
  }

  /**
   * Whatever a handler returns either stops the loop or calls a handler: the fallback to the
   * menu and the argument error are never taken, and a rematch always gets its id, never the
   * default argument.
   */
  lemma ExpectedIsRouted(ret: Ret)
    requires Expected(ret)
    ensures var (run, arg) := Unpack(ret);
      run == Some("exit") || (Route(run, arg).Invoke? && (arg.Some? <==> Route(run, arg).handler == RematchH))
  {
  }

  /** How a pass falls back: "menu" with no argument calls the menu, and with one is an error. */
  lemma RedirectReachesMenu(arg: Option<int>)
    ensures Route(None, arg) == Route(Some("menu"), arg)
    ensures Route(Some("menu"), arg) == (if arg.None? then Invoke(MenuH, None) else Fail)
  {
  }

  /** `matches[id - 1]` in Python: a negative position counts from the end. */
  function PyIndex(id: int, n: nat): (k: Option<nat>)
    ensures k.Some? <==> -(n as int) <= id - 1 < n
    ensures k.Some? ==> k.value < n && (k.value == id - 1 || k.value == n + id - 1)
    ensures 1 <= id <= n ==> k == Some(id - 1)
  {
    if 0 <= id - 1 < n then Some(id - 1) else if -(n as int) <= id - 1 < 0 then Some(n + id - 1) else None
  }

  /** The rolls of one contest starting at the `from`-th random call: team A's picks (`side` 0) or team B's (`side` 1). */
  function Rolls(rng: nat -> nat, from: nat, side: nat): (rs: seq<nat>)
    ensures |rs| == TeamSize
  {
    seq(TeamSize, i requires 0 <= i < TeamSize => rng(from + 2 * i + side))
  }

  /** The ten random calls from the `from`-th on are each used once: the even ones by team A, the odd ones by team B. */
  lemma RollsInterleave(rng: nat -> nat, from: nat)
    ensures forall k :: 0 <= k < 2 * TeamSize ==>
      rng(from + k) == if k % 2 == 0 then Rolls(rng, from, 0)[k / 2] else Rolls(rng, from, 1)[k / 2]
  {
  }

  /** The overview of the history view: the tally of every match, in order. */
  method Overview(ms: seq<Match>) returns (rows: seq<(nat, nat, nat)>)
    ensures |rows| == |ms|
    ensures forall i :: 0 <= i < |ms| ==>
              rows[i] == (CountWinner(ms[i].results, "team_a"), CountWinner(ms[i].results, "team_b"), CountWinner(ms[i].results, "draw"))
  {
    rows := [];
    for i := 0 to |ms|
      invariant |rows| == i
      invariant forall j :: 0 <= j < i ==>
                  rows[j] == (CountWinner(ms[j].results, "team_a"), CountWinner(ms[j].results, "team_b"), CountWinner(ms[j].results, "draw"))
    {
      var winsA, winsB, draws := Tally(ms[i].results);
      rows := rows + [(winsA, winsB, draws)];
    }
  }

  /**
   * The player the prompts read from `lines`, and the answers left after it: the first
   * non-empty name, then (unless it is the last player, who gets `remaining`) the first answer
   * that is a digit string naming 0..remaining. `None` when the answers run out first.
   */
  function PlayerFrom(lines: seq<string>, last: bool, remaining: int): (r: Option<(Player, seq<string>)>)
    ensures r.Some? ==> r.value.0.name != "" && |r.value.1| < |lines|
    ensures r.Some? && last ==> r.value.0.point == remaining
    ensures r.Some? && !last ==> 0 <= r.value.0.point <= remaining
  {
    var k := FirstAccepted(lines, PlayerName);
    if k == |lines| then None
    else if last then Some((Player(lines[k], remaining), lines[k + 1..]))
    else
      var rest := lines[k + 1..];
      var j := FirstAccepted(rest, Points(remaining));
      if j == |rest| then None
      else Some((Player(lines[k], Value(rest[j])), rest[j + 1..]))
  }

  /** `p` in front of the players read after it. */
  function Prepend(p: Player, read: Option<(seq<Player>, seq<string>)>): Option<(seq<Player>, seq<string>)> {
    if read.None? then None else Some(([p] + read.value.0, read.value.1))
  }

  /** The players already read in front of those still to be read. */
  function After(ps: seq<Player>, read: Option<(seq<Player>, seq<string>)>): Option<(seq<Player>, seq<string>)> {
    if read.None? then None else Some((ps + read.value.0, read.value.1))
  }

  lemma AfterEnds(ps: seq<Player>, read: Option<(seq<Player>, seq<string>)>, rest: seq<string>)
    ensures After([], read) == read
    ensures After(ps, Some(([], rest))) == Some((ps, rest))
  {
    if read.Some? {
      assert [] + read.value.0 == read.value.0;
    }
    assert ps + [] == ps;
  }

  lemma AfterPrepend(ps: seq<Player>, p: Player, read: Option<(seq<Player>, seq<string>)>)
    ensures After(ps, Prepend(p, read)) == After(ps + [p], read)
  {
    if read.Some? {
      assert ps + ([p] + read.value.0) == (ps + [p]) + read.value.0;
    }
  }

  /**
   * The `count` players of a team read from `lines` with `remaining` points to share: each
   * player takes its points from what the earlier ones left, and the last one takes the rest.
   */
  function PlayersFrom(lines: seq<string>, count: nat, remaining: int): (r: Option<(seq<Player>, seq<string>)>)
    ensures r.Some? ==> |r.value.0| == count && |r.value.1| <= |lines|
    ensures r.Some? ==> forall j :: 0 <= j < count ==> r.value.0[j].name != ""
    ensures r.Some? && count > 0 ==> |r.value.1| < |lines|
    decreases count, 0
  {
    if count == 0 then Some(([], lines))
    else PlayersAfter(PlayerFrom(lines, count == 1, remaining), count - 1, remaining)
  }

  function PlayersAfter(first: Option<(Player, seq<string>)>, count: nat, remaining: int): (r: Option<(seq<Player>, seq<string>)>)
    ensures r.Some? ==> first.Some? && |r.value.0| == count + 1 && |r.value.1| <= |first.value.1|
    ensures r.Some? ==> r.value.0[0] == first.value.0 && forall j :: 0 < j <= count ==> r.value.0[j].name != ""
    decreases count, 1
  {
    if first.None? then None
    else Prepend(first.value.0, PlayersFrom(first.value.1, count, remaining - first.value.0.point))
  }

  /** Reading `count` > 0 players reads one player, then the others from what that one left. */
  lemma PlayersFromFirst(lines: seq<string>, count: nat, remaining: int, p: Player, rest: seq<string>)
    requires count > 0 && PlayerFrom(lines, count == 1, remaining) == Some((p, rest))
    ensures PlayersFrom(lines, count, remaining) == Prepend(p, PlayersFrom(rest, count - 1, remaining - p.point))
  {
  }

  /** The players read so far, then one more, in front of the rest still to be read. */
  lemma ReadOneMore(ps: seq<Player>, lines: seq<string>, count: nat, remaining: int, p: Player, rest: seq<string>)
    requires count > 0 && PlayerFrom(lines, count == 1, remaining) == Some((p, rest))
    ensures After(ps, PlayersFrom(lines, count, remaining)) == After(ps + [p], PlayersFrom(rest, count - 1, remaining - p.point))
  {
    PlayersFromFirst(lines, count, remaining, p, rest);
    AfterPrepend(ps, p, PlayersFrom(rest, count - 1, remaining - p.point));
  }

  /**
   * The loop step of reading a team: once one more player `p` is read, what was still to be
   * read is `p` and then the rest, with `p`'s points taken out of what remains.
   */
  lemma ReadStep(ps: seq<Player>, lines: seq<string>, count: nat, share: int, p: Player, rest: seq<string>,
                 read: Option<(seq<Player>, seq<string>)>, ps': seq<Player>, count': nat, share': int)
    requires count > 0 && PlayerFrom(lines, count == 1, share) == Some((p, rest))
    requires read == After(ps, PlayersFrom(lines, count, share))
    requires ps' == ps + [p] && count' == count - 1 && share' == share - p.point
    ensures read == After(ps', PlayersFrom(rest, count', share'))
  {
    ReadOneMore(ps, lines, count, share, p, rest);
  }

  /** Reading players stops when the answers run out before the first of them is read. */
  lemma PlayersFromNone(lines: seq<string>, count: nat, remaining: int)
    requires count > 0 && PlayerFrom(lines, count == 1, remaining).None?
    ensures PlayersFrom(lines, count, remaining).None?
  {
  }

  /**
   * The players read for one team share out exactly the points they started with: each takes
   * no more than the earlier ones left, and the last takes the rest.
   */
  lemma {:induction false} PlayersFromShares(lines: seq<string>, count: nat, remaining: int)
    requires remaining >= 0 && count > 0 && PlayersFrom(lines, count, remaining).Some?
    ensures Shares(PlayersFrom(lines, count, remaining).value.0, remaining)
    ensures Total(PlayersFrom(lines, count, remaining).value.0) == remaining
    decreases count
  {
    var (p, rest) := PlayerFrom(lines, count == 1, remaining).value;
    var later := PlayersFrom(rest, count - 1, remaining - p.point);
    assert later.Some? && PlayersFrom(lines, count, remaining).value.0 == [p] + later.value.0 by {
      PlayersFromFirst(lines, count, remaining, p, rest);
    }
    var qs := later.value.0;
    if count == 1 {
      assert qs == [];
    } else {
      PlayersFromShares(rest, count - 1, remaining - p.point);
    }
    SharesCons(p, qs, remaining);
  }

  /** The five players read for a team with a name make a valid team: 100 points shared out, none overdrawn. */
  lemma PlayersFromValid(lines: seq<string>, name: string)
    requires name != "" && PlayersFrom(lines, TeamSize, Budget).Some?
    ensures ValidTeam(Team(name, PlayersFrom(lines, TeamSize, Budget).value.0))
  {
    var ps := PlayersFrom(lines, TeamSize, Budget).value.0;
    PlayersFromShares(lines, TeamSize, Budget);
    assert forall j :: 0 <= j < |ps| ==> Remaining(ps[..j]) == Budget - Total(ps[..j]);
  }

  /** A player taking part of `remaining` in front of players sharing out the rest. */
  lemma SharesCons(p: Player, qs: seq<Player>, remaining: int)
    requires 0 <= p.point <= remaining
    requires Shares(qs, remaining - p.point) && Total(qs) == remaining - p.point
    ensures Shares([p] + qs, remaining) && Total([p] + qs) == remaining
  {
    var ps := [p] + qs;
    TotalCons(p, qs);
    forall j | 0 <= j < |ps| ensures 0 <= ps[j].point <= remaining - Total(ps[..j]) {
      if j == 0 {
        assert ps[..0] == [];
      } else {
        assert ps[..j] == [p] + qs[..j - 1];
        TotalCons(p, qs[..j - 1]);
        assert ps[j] == qs[j - 1];
      }
    }
  }

  /**
   * The match the reading part of `classic()` builds from `lines`, and the answers left after
   * it: a non-empty first team name, a second one that is non-empty and different, then the
   * five players of each team with 100 points each.
   */
  function MatchFrom(lines: seq<string>, id: int): (r: Option<(Match, seq<string>)>)
    ensures r.Some? ==> var m := r.value.0;
      && m.id == id && m.teamA.name != "" && m.teamA.name != m.teamB.name && m.teamB.name != ""
      && m.name == Title(m.teamA.name, m.teamB.name) && m.results == []
      && Playable(m) && |r.value.1| < |lines|
  {
    var k := FirstAccepted(lines, TeamName);
    if k == |lines| then None else SecondNameFrom(lines[k], lines[k + 1..], id)
  }

  /** `MatchFrom` once the first team name is read: the second name, then both teams. */
  function SecondNameFrom(name1: string, lines: seq<string>, id: int): (r: Option<(Match, seq<string>)>)
    ensures r.Some? ==> var m := r.value.0;
      && m.id == id && m.teamA.name == name1 && m.teamA.name != m.teamB.name && m.teamB.name != ""
      && m.name == Title(m.teamA.name, m.teamB.name) && m.results == []
      && Playable(m) && |r.value.1| < |lines|
  {
    var k := FirstAccepted(lines, SecondTeamName(name1));
    if k == |lines| then None else TeamsFrom(name1, lines[k], PlayersFrom(lines[k + 1..], TeamSize, Budget), id)
  }

  /** Reading the first team name leaves the rest of the match to be read from what follows it. */
  lemma FirstNameRead(lines: seq<string>, id: int, name1: string, rest: seq<string>)
    requires FirstAccepted(lines, TeamName) < |lines|
    requires name1 == lines[FirstAccepted(lines, TeamName)]
    requires rest == lines[FirstAccepted(lines, TeamName) + 1..]
    ensures MatchFrom(lines, id) == SecondNameFrom(name1, rest, id)
  {
  }

  /** Reading the second team name leaves the two teams to be read from what follows it. */
  lemma SecondNameRead(name1: string, lines: seq<string>, id: int, name2: string, rest: seq<string>)
    requires FirstAccepted(lines, SecondTeamName(name1)) < |lines|
    requires name2 == lines[FirstAccepted(lines, SecondTeamName(name1))]
    requires rest == lines[FirstAccepted(lines, SecondTeamName(name1)) + 1..]
    ensures SecondNameFrom(name1, lines, id) == TeamsFrom(name1, name2, PlayersFrom(rest, TeamSize, Budget), id)
  {
  }

  /** Once both teams are read, the match is complete and the answers after the second team are left. */
  lemma TeamsRead(name1: string, name2: string, playersA: seq<Player>, lines: seq<string>, id: int, playersB: seq<Player>, rest: seq<string>)
    requires PlayersFrom(lines, TeamSize, Budget) == Some((playersB, rest))
    ensures TeamsFrom(name1, name2, Some((playersA, lines)), id) ==
            Some((Match(id, Title(name1, name2), Team(name1, playersA), Team(name2, playersB), []), rest))
  {
  }

  /** `MatchFrom` once both names and the first team's players are read. */
  function TeamsFrom(name1: string, name2: string, teamA: Option<(seq<Player>, seq<string>)>, id: int): (r: Option<(Match, seq<string>)>)
    ensures r.Some? ==> teamA.Some? && |r.value.1| < |teamA.value.1|
    ensures r.Some? ==> r.value.0 == Match(id, Title(name1, name2), Team(name1, teamA.value.0), r.value.0.teamB, [])
    ensures r.Some? ==> r.value.0.teamB.name == name2 && |r.value.0.teamB.players| == TeamSize
  {
    if teamA.None? then None
    else
      var teamB := PlayersFrom(teamA.value.1, TeamSize, Budget);
      if teamB.None? then None
      else Some((Match(id, Title(name1, name2), Team(name1, teamA.value.0), Team(name2, teamB.value.0), []), teamB.value.1))
  }

  // ----- what one handler call does, as a function of the state it starts from -----

  /** The state a handler call works on: the match list, the answers not yet typed, and the random calls made so far. */
  datatype World = World(matches: seq<Match>, input: seq<string>, rolled: nat)

  /** The value a handler's reading returns, or `None` when the process ends. */
  function Answer(read: Option<(Ret, seq<string>)>): Option<Ret> {
    if read.None? then None else Some(read.value.0)
  }

  /** The answers a handler's reading leaves; none when the process ends because they ran out. */
  function Left(read: Option<(Ret, seq<string>)>): seq<string> {
    if read.None? then [] else read.value.1
  }

  /** `menu()` on the answers `lines`: the first accepted option 1, 2 or 3 names `classic`, `history` or `exit`. */
  function MenuFrom(lines: seq<string>): (r: Option<(Ret, seq<string>)>)
    ensures r.Some? ==> |r.value.1| < |lines|
  {
    var k := FirstAccepted(lines, Choice(3));
    if k == |lines| then None
    else
      var v := Value(lines[k]);
      Some((if v == 1 then Tag("classic") else if v == 2 then Tag("history") else Tag("exit"), lines[k + 1..]))
  }

  /**
   * The rematch question that ends `classic()` and `rematch()`: `y` or `Y` asks for a rematch
   * of `id`; any other answer is followed by one more prompt and then the menu.
   */
  function AgainFrom(lines: seq<string>, id: int): (r: Option<(Ret, seq<string>)>)
    ensures r.Some? ==> |r.value.1| < |lines|
    ensures r.Some? ==> (r.value.0 == TagArg("rematch", id) <==> IsYes(lines[0]))
    ensures r.Some? ==> r.value.0 == Tag("menu") || r.value.0 == TagArg("rematch", id)
  {
    if lines == [] then None
    else if IsYes(lines[0]) then Some((TagArg("rematch", id), lines[1..]))
    else if |lines| == 1 then None
    else Some((Tag("menu"), lines[2..]))
  }

  /**
   * The lookup of `history()` on the answers `lines` with `count` matches. With no matches it
   * waits for Enter and returns to the menu. Otherwise the first accepted choice decides: `m`
   * is the menu, a choice with an `r` is a rematch of the id left when every `r` is removed,
   * and an id shows that match, waits for Enter and returns to the menu.
   */
  function LookupFrom(lines: seq<string>, count: nat): (r: Option<(Ret, seq<string>)>)
    ensures r.Some? ==> |r.value.1| < |lines|
  {
    if count == 0 then (if lines == [] then None else Some((Tag("menu"), lines[1..])))
    else
      var k := FirstAccepted(lines, HistoryChoice(count));
      if k == |lines| then None
      else if lines[k] == "m" then Some((Tag("menu"), lines[k + 1..]))
      else
        HistoryChoiceInRange(lines[k], count);
        if 'r' in lines[k] then Some((TagArg("rematch", Value(RemoveAll(lines[k], 'r'))), lines[k + 1..]))
        else if k + 1 == |lines| then None
        else Some((Tag("menu"), lines[k + 2..]))
  }

  /**
   * `classic()` from state `w`: the match read from the answers is played once under the next
   * ten random picks and appended under the next id, and the rematch question follows.
   */
  function ClassicFrom(w: World, rng: nat -> nat): (r: (World, Option<Ret>))
    ensures r.1.Some? ==> |r.0.input| < |w.input|
  {
    var id := |w.matches| + 1;
    var read := MatchFrom(w.input, id);
    if read.None? then (w.(input := []), None)
    else
      var m := read.value.0;
      var again := AgainFrom(read.value.1, id);
      (World(w.matches + [Played(m, Rolls(rng, w.rolled, 0), Rolls(rng, w.rolled, 1))], Left(again), w.rolled + 2 * TeamSize),
       Answer(again))
  }

  /** Once the match is read, `classic()` plays it, appends it and asks the rematch question on the answers left. */
  lemma ClassicRead(w: World, rng: nat -> nat, m: Match, rest: seq<string>)
    requires MatchFrom(w.input, |w.matches| + 1) == Some((m, rest))
    ensures var again := AgainFrom(rest, |w.matches| + 1);
      && ClassicFrom(w, rng).1 == Answer(again)
      && ClassicFrom(w, rng).0.input == Left(again)
      && ClassicFrom(w, rng).0.rolled == w.rolled + 2 * TeamSize
      && ClassicFrom(w, rng).0.matches == w.matches + [Played(m, Rolls(rng, w.rolled, 0), Rolls(rng, w.rolled, 1))]
  {
  }

  /**
   * `rematch(id)` from state `w`: the match at `matches[id - 1]` is played once more and the
   * rematch question follows. A position that does not exist or a team of fewer than five
   * players raises, and the process ends with nothing changed.
   */
  function RematchFrom(w: World, id: int, rng: nat -> nat): (r: (World, Option<Ret>))
    ensures r.1.Some? ==> |r.0.input| < |w.input|
  {
    var k := PyIndex(id, |w.matches|);
    if k.None? || !Playable(w.matches[k.value]) then (w, None)
    else
      var again := AgainFrom(w.input, id);
      (World(w.matches[k.value := Played(w.matches[k.value], Rolls(rng, w.rolled, 0), Rolls(rng, w.rolled, 1))], Left(again), w.rolled + 2 * TeamSize),
       Answer(again))
  }

  /** One handler call from state `w`: only `rematch` uses the pending argument, or its default `defaultId` without one. */
  function CallFrom(handler: Handler, given: Option<int>, w: World, rng: nat -> nat, defaultId: int): (r: (World, Option<Ret>))
    ensures r.1.Some? ==> |r.0.input| < |w.input|
  {
    match handler
    case MenuH => (w.(input := Left(MenuFrom(w.input))), Answer(MenuFrom(w.input)))
    case ClassicH => ClassicFrom(w, rng)
    case HistoryH => (w.(input := Left(LookupFrom(w.input, |w.matches|))), Answer(LookupFrom(w.input, |w.matches|)))
    case RematchH => RematchFrom(w, if given.Some? then given.value else defaultId, rng)
  }

  /**
   * The run loop from state `w` with command `run` and argument `arg` pending: the final state,
   * and whether the loop reached "exit" (and so `d.write()`) rather than ending the process.
   */
  function RunFrom(w: World, run: Option<string>, arg: Option<int>, rng: nat -> nat, defaultId: int): (World, bool)
    decreases |w.input|, if FuncMap(Resolve(run)).None? then 1 else 0
  {
    if run == Some("exit") then (w, true)
    else
      match Route(run, arg)
      case Redirect => RunFrom(w, Some("menu"), arg, rng, defaultId)
      case Fail => (w, false)
      case Invoke(handler, given) =>
        var (w', ret) := CallFrom(handler, given, w, rng, defaultId);
        if ret.None? then (w', false)
        else RunFrom(w', Unpack(ret.value).0, Unpack(ret.value).1, rng, defaultId)
  }


  /**
   * The passes of the run loop: "exit" stops with the data saved; a `None` command is the menu;
   * an unknown command falls back to the menu with the pending argument kept; a handler given an
   * argument it does not take raises and ends the process; otherwise the handler is called, and
   * the loop ends unsaved when the call ends the process or goes on with the command and argument
   * the call returned.
   */
  lemma RunFromSteps(w: World, run: Option<string>, arg: Option<int>, rng: nat -> nat, defaultId: int)
    ensures run == Some("exit") ==> RunFrom(w, run, arg, rng, defaultId) == (w, true)
    ensures run == None ==> RunFrom(w, run, arg, rng, defaultId) == RunFrom(w, Some("menu"), arg, rng, defaultId)
    ensures run != Some("exit") && FuncMap(Resolve(run)).None? ==>
      RunFrom(w, run, arg, rng, defaultId) == RunFrom(w, Some("menu"), arg, rng, defaultId)
    ensures run != Some("exit") && FuncMap(Resolve(run)).Some? && FuncMap(Resolve(run)) != Some(RematchH) && arg.Some? ==>
      RunFrom(w, run, arg, rng, defaultId) == (w, false)
    ensures run != Some("exit") && FuncMap(Resolve(run)).Some? && (arg.Some? ==> FuncMap(Resolve(run)) == Some(RematchH)) ==>
      var call := CallFrom(FuncMap(Resolve(run)).value, arg, w, rng, defaultId);
      RunFrom(w, run, arg, rng, defaultId) ==
        if call.1.None? then (call.0, false) else RunFrom(call.0, Unpack(call.1.value).0, Unpack(call.1.value).1, rng, defaultId)
  {
  }

  class Session {
    /** `d.data["matches"]` */
    var matches: seq<Match>
    /** The answers still to be typed. */
    var input: seq<string>
    /** The source of `random.choice`. */
    const rng: nat -> nat
    /** How many random picks have been made. */
    var rolled: nat
    /** `rematch()`'s default argument, fixed when the function is defined: the number of matches loaded. */
    const defaultId: int

    constructor (loaded: seq<Match>, answers: seq<string>, rng: nat -> nat)
      ensures matches == loaded && input == answers && this.rng == rng && rolled == 0
      ensures defaultId == |loaded|
    {
      matches := loaded;
      input := answers;
      this.rng := rng;
      rolled := 0;
      defaultId := |loaded|;
    }

    /** `cin(text)`: the next answer, or `None` when there is none and the process ends. */
    method Prompt() returns (answer: Option<string>)
      modifies this
      ensures matches == old(matches) && rolled == old(rolled)
      ensures old(input) == [] ==> answer.None? && input == []
      ensures old(input) != [] ==> answer == Some(old(input)[0]) && input == old(input)[1..]
    {
      if input == [] {
        return None;
      }
      answer := Some(input[0]);
      input := input[1..];
    }

    /** A prompt and its re-prompt loop: the first answer `check` accepts, after skipping the rejected ones. */
    method Ask(check: Check) returns (answer: Option<string>)
      modifies this
      ensures matches == old(matches) && rolled == old(rolled)
      ensures var k := FirstAccepted(old(input), check);
        if k < |old(input)| then answer == Some(old(input)[k]) && input == old(input)[k + 1..]
        else answer.None? && input == []
      ensures answer.Some? ==> Accepts(check, answer.value) && |input| < |old(input)|
      ensures answer.None? ==> input == []
    {
      ghost var skipped := 0;
      while input != []
        invariant matches == old(matches) && rolled == old(rolled)
        invariant 0 <= skipped <= |old(input)| && input == old(input)[skipped..]
        invariant forall i :: 0 <= i < skipped ==> !Accepts(check, old(input)[i])
        decreases |input|
      {
        var line := input[0];
        input := input[1..];
        if Accepts(check, line) {
          return Some(line);
        }
        skipped := skipped + 1;
      }
      return None;
    }

    /** `options(...)` with `n` options: the number chosen, always one of 1..n. */
    method Options(n: nat) returns (choice: Option<nat>)
      modifies this
      ensures matches == old(matches) && rolled == old(rolled)
      ensures var k := FirstAccepted(old(input), Choice(n));
        choice == (if k < |old(input)| then Some(Value(old(input)[k])) else None)
      ensures choice.Some? ==> 1 <= choice.value <= n && input == old(input)[FirstAccepted(old(input), Choice(n)) + 1..]
      ensures choice.None? ==> input == []
    {
      var v := Ask(Choice(n));
      if v.None? {
        return None;
      }
      OptionAcceptedIff(v.value, n);
      return Some(Value(v.value));
    }

    /** `menu()` */
    method Menu() returns (r: Option<Ret>)
      modifies this
      ensures matches == old(matches) && rolled == old(rolled)
      ensures r.Some? ==> |input| < |old(input)|
      ensures r.Some? ==> r.value == Tag("classic") || r.value == Tag("history") || r.value == Tag("exit")
      ensures var k := FirstAccepted(old(input), Choice(3));
        && (r.Some? <==> k < |old(input)|)
        && (r.Some? ==> && AllDigits(old(input)[k])
                         && (r.value == Tag("classic") <==> Value(old(input)[k]) == 1)
                         && (r.value == Tag("history") <==> Value(old(input)[k]) == 2)
                         && (r.value == Tag("exit") <==> Value(old(input)[k]) == 3))
      ensures r.None? ==> input == []
      ensures r == Answer(MenuFrom(old(input))) && input == Left(MenuFrom(old(input)))
    {
      var choice := Options(3);
      if choice.None? {
        return None;
      }
      if choice.value == 1 {
        return Some(Tag("classic"));
      } else if choice.value == 2 {
        return Some(Tag("history"));
      } else {
        return Some(Tag("exit"));
      }
    }

    /**
     * One player of a team: a non-empty name, then ability points from 0 to `remaining`; the
     * last player is not asked and gets `remaining`.
     */
    method ReadPlayer(last: bool, remaining: int) returns (player: Option<Player>)
      modifies this
      ensures matches == old(matches) && rolled == old(rolled)
      ensures player.Some? ==> player.value.name != "" && |input| < |old(input)|
      ensures player.Some? && last ==> player.value.point == remaining
      ensures player.Some? && !last ==> 0 <= player.value.point <= remaining
      ensures player.Some? <==> PlayerFrom(old(input), last, remaining).Some?
      ensures player.Some? ==> PlayerFrom(old(input), last, remaining).value == (player.value, input)
      ensures player.None? ==> input == []
    {
      var name := Ask(PlayerName);
      if name.None? {
        return None;
      }
      if last {
        return Some(Player(name.value, remaining));
      }
      var answer := Ask(Points(remaining));
      if answer.None? {
        return None;
      }
      return Some(Player(name.value, Value(answer.value)));
    }

    /** The five players of one team: four take ability points from what remains, the fifth gets the rest. */
    method ReadTeam(name: string) returns (team: Option<Team>)
      requires name != ""
      modifies this
      ensures matches == old(matches) && rolled == old(rolled)
      ensures team.Some? ==> team.value.name == name && ValidTeam(team.value) && |input| < |old(input)|
      ensures team.Some? <==> PlayersFrom(old(input), TeamSize, Budget).Some?
      ensures team.Some? ==> PlayersFrom(old(input), TeamSize, Budget).value == (team.value.players, input)
      ensures team.None? ==> input == []
    {
      var players: seq<Player> := [];
      var remaining := Budget;
      ghost var read := PlayersFrom(input, TeamSize, Budget);
      ghost var left: nat := TeamSize;
      AfterEnds([], read, []);
      for i := 0 to TeamSize
        invariant matches == old(matches) && rolled == old(rolled)
        invariant |players| == i && left == TeamSize - i
        invariant read == After(players, PlayersFrom(input, left, remaining))
      {
        ghost var before := input;
        var player := ReadPlayer(i == TeamSize - 1, remaining);
        if player.None? {
          assert read.None? by {
            PlayersFromNone(before, left, remaining);
          }
          return None;
        }
        var p := player.value;
        ghost var readSoFar, share, count := players, remaining, left;
        players := players + [p];
        remaining := remaining - p.point;
        left := left - 1;
        assert read == After(players, PlayersFrom(input, left, remaining)) by {
          ReadStep(readSoFar, before, count, share, p, input, read, players, left, remaining);
        }
      }
      assert read == Some((players, input)) by {
        AfterEnds(players, None, input);
      }
      assert ValidTeam(Team(name, players)) by {
        PlayersFromValid(old(input), name);
      }
      return Some(Team(name, players));
    }

    /** One contest of `m`, drawing the next ten random picks; `m` with its result appended. */
    method PlayContest(m: Match) returns (m': Match)
      requires Playable(m)
      modifies this
      ensures m' == Played(m, Rolls(rng, old(rolled), 0), Rolls(rng, old(rolled), 1))
      ensures rolled == old(rolled) + 2 * TeamSize
      ensures matches == old(matches) && input == old(input)
    {
      var rollsA, rollsB := Rolls(rng, rolled, 0), Rolls(rng, rolled, 1);
      var scoreA, scoreB := Contest.Contest(m.teamA.players, m.teamB.players, rollsA, rollsB);
      m' := m.(results := m.results + [NewOutcome(scoreA, scoreB)]);
      rolled := rolled + 2 * TeamSize;
    }

    /** The rematch question and the return to the menu, ending both `classic()` and `rematch()`. */
    method AskAgain(id: int) returns (r: Option<Ret>)
      modifies this
      ensures matches == old(matches) && rolled == old(rolled)
      ensures r.Some? ==> (r.value == Tag("menu") || r.value == TagArg("rematch", id)) && |input| < |old(input)|
      ensures r.Some? ==> (r.value == TagArg("rematch", id) <==> IsYes(old(input)[0]))
      ensures r.None? ==> input == []
      ensures r == Answer(AgainFrom(old(input), id)) && input == Left(AgainFrom(old(input), id))
    {
      var again := Prompt();
      if again.None? {
        return None;
      }
      if IsYes(again.value) {
        return Some(TagArg("rematch", id));
      }
      var enter := Prompt();
      if enter.None? {
        return None;
      }
      return Some(Tag("menu"));
    }

    /** The reading part of `classic()`: two distinct team names, then the five players of each team. */
    method ReadMatch(id: int) returns (m: Option<Match>)
      modifies this
      ensures matches == old(matches) && rolled == old(rolled)
      ensures m.Some? ==> ValidRoster(m.value, id) && m.value.results == [] && |input| < |old(input)|
      ensures m.Some? <==> MatchFrom(old(input), id).Some?
      ensures m.Some? ==> MatchFrom(old(input), id).value == (m.value, input)
      ensures m.None? ==> input == []
    {
      ghost var read := MatchFrom(input, id);
      ghost var start := input;
      var name1 := Ask(TeamName);
      if name1.None? {
        return None;
      }
      assert read == SecondNameFrom(name1.value, input, id) by {
        FirstNameRead(start, id, name1.value, input);
      }
      ghost var afterFirst := input;
      var name2 := Ask(SecondTeamName(name1.value));
      if name2.None? {
        return None;
      }
      assert read == TeamsFrom(name1.value, name2.value, PlayersFrom(input, TeamSize, Budget), id) by {
        SecondNameRead(name1.value, afterFirst, id, name2.value, input);
      }
      var teamA := ReadTeam(name1.value);
      if teamA.None? {
        return None;
      }
      ghost var afterA := input;
      var teamB := ReadTeam(name2.value);
      if teamB.None? {
        return None;
      }
      m := Some(Match(id, Title(name1.value, name2.value), teamA.value, teamB.value, []));
      assert read == Some((m.value, input)) by {
        TeamsRead(name1.value, name2.value, teamA.value.players, afterA, id, teamB.value.players, input);
      }
    }

    /**
     * `classic()`: read a new match, play one contest and append the match under the next id;
     * then offer a rematch of it.
     */
    method Classic() returns (r: Option<Ret>)
      modifies this
      ensures Extends(old(matches), matches)
      ensures |old(matches)| <= |matches| <= |old(matches)| + 1
      ensures matches[..|old(matches)|] == old(matches)
      ensures var read := MatchFrom(old(input), |old(matches)| + 1);
        if read.None? then matches == old(matches) && rolled == old(rolled) && r.None?
        else
          var m := read.value.0;
          && matches == old(matches) + [Played(m, Rolls(rng, old(rolled), 0), Rolls(rng, old(rolled), 1))]
          && rolled == old(rolled) + 2 * TeamSize
          && |matches[|old(matches)|].results| == 1
          && matches[|old(matches)|].results[0] == ContestOutcome(m.teamA.players, m.teamB.players, Rolls(rng, old(rolled), 0), Rolls(rng, old(rolled), 1))
          && (r.Some? ==> |read.value.1| > 0 && (r.value == TagArg("rematch", |matches|) <==> IsYes(read.value.1[0])))
      ensures |matches| > |old(matches)| ==> ValidMatch(matches[|old(matches)|], |matches|)
      ensures ValidMatches(old(matches)) ==> ValidMatches(matches)
      ensures r.Some? ==> |matches| == |old(matches)| + 1 && |input| < |old(input)|
      ensures r.Some? ==> r.value == Tag("menu") || r.value == TagArg("rematch", |matches|)
      ensures r.None? ==> input == []
      ensures var after := ClassicFrom(World(old(matches), old(input), old(rolled)), rng);
        World(matches, input, rolled) == after.0 && r == after.1
    {
      ghost var start := World(matches, input, rolled);
      var id := |matches| + 1;
      var m := ReadMatch(id);
      if m.None? {
        assert ClassicFrom(start, rng) == (start.(input := []), None);
        assert World(matches, input, rolled) == start.(input := []);
        return None;
      }
      ClassicRead(start, rng, m.value, input);
      AddPlayed(m.value);
      r := AskAgain(id);
    }

    /** The end of creating a match in `classic()`: its first contest is played and the match appended. */
    method AddPlayed(m: Match)
      requires ValidRoster(m, |matches| + 1) && m.results == []
      modifies this
      ensures matches == old(matches) + [Played(m, Rolls(rng, old(rolled), 0), Rolls(rng, old(rolled), 1))]
      ensures rolled == old(rolled) + 2 * TeamSize && input == old(input)
      ensures |matches[|old(matches)|].results| == 1
      ensures matches[|old(matches)|].results[0] == ContestOutcome(m.teamA.players, m.teamB.players, Rolls(rng, old(rolled), 0), Rolls(rng, old(rolled), 1))
      ensures Extends(old(matches), matches) && matches[..|old(matches)|] == old(matches)
      ensures ValidMatch(matches[|old(matches)|], |matches|)
      ensures ValidMatches(old(matches)) ==> ValidMatches(matches)
    {
      var id := |matches| + 1;
      ghost var from := rolled;
      var played := PlayContest(m);
      PlayedKeepsRecord(m, Rolls(rng, from, 0), Rolls(rng, from, 1), id);
      AppendKeepsValid(matches, played);
      matches := matches + [played];
    }

    /**
     * `rematch(match_id)`: one more contest of an existing match, whose result is appended to
     * it; then offer another. A position that does not exist, or a team of fewer than five
     * players, raises and ends the process.
     */
    method Rematch(id: int) returns (r: Option<Ret>)
      modifies this
      ensures Extends(old(matches), matches) && |matches| == |old(matches)|
      ensures ValidMatches(old(matches)) ==> ValidMatches(matches)
      ensures var k := PyIndex(id, |old(matches)|);
        if k.Some? && Playable(old(matches)[k.value]) then
          && matches == old(matches)[k.value := Played(old(matches)[k.value], Rolls(rng, old(rolled), 0), Rolls(rng, old(rolled), 1))]
          && (r.None? ==> input == [])
        else matches == old(matches) && r.None?
      ensures r.Some? ==> (r.value == Tag("menu") || r.value == TagArg("rematch", id)) && |input| < |old(input)|
      ensures (World(matches, input, rolled), r) == RematchFrom(World(old(matches), old(input), old(rolled)), id, rng)
    {
      var k := PyIndex(id, |matches|);
      if k.None? || !Playable(matches[k.value]) {
        return None;
      }
      var i := k.value;
      var played := PlayContest(matches[i]);
      PlayedKeepsRecord(matches[i], Rolls(rng, old(rolled), 0), Rolls(rng, old(rolled), 1), i + 1);
      UpdateKeepsValid(matches, i, played);
      matches := matches[i := played];
      r := AskAgain(id);
    }

    /**
     * `history()`: the overview of every match, then a lookup that goes back to the menu ("m"),
     * asks for a rematch ("<id>r") or shows one match ("<id>").
     */
    method History() returns (r: Option<Ret>)
      modifies this
      ensures matches == old(matches) && rolled == old(rolled)
      ensures r.Some? ==> |input| < |old(input)|
      ensures r.Some? ==> r.value == Tag("menu") || (r.value.TagArg? && r.value.run == "rematch" && 1 <= r.value.arg <= |matches|)
      ensures matches == [] ==> r.Some? ==> r.value == Tag("menu")
      ensures var k := FirstAccepted(old(input), HistoryChoice(|matches|));
        matches != [] && r.Some? ==>
          && k < |old(input)|
          && (r.value.TagArg? <==> old(input)[k] != "m" && 'r' in old(input)[k])
          && (r.value.TagArg? ==> AllDigits(RemoveAll(old(input)[k], 'r'))
                                  && r.value.arg == Value(RemoveAll(old(input)[k], 'r')))
      ensures var k := FirstAccepted(old(input), HistoryChoice(|matches|));
        matches != [] && k < |old(input)| && (old(input)[k] == "m" || 'r' in old(input)[k]) ==> r.Some?
      ensures r.None? ==> input == []
      ensures r == Answer(LookupFrom(old(input), |matches|)) && input == Left(LookupFrom(old(input), |matches|))
    {
      var rows := Overview(matches);
      if matches == [] {
        var enter := Prompt();
        if enter.None? {
          return None;
        }
        return Some(Tag("menu"));
      }
      var choice := Ask(HistoryChoice(|matches|));
      if choice.None? {
        return None;
      }
      var c := choice.value;
      if c == "m" {
        return Some(Tag("menu"));
      }
      HistoryChoiceInRange(c, |matches|);
      if 'r' in c {
        return Some(TagArg("rematch", Value(RemoveAll(c, 'r'))));
      }
      var shown, winsA, winsB, draws := Details(Value(c));
      var enter := Prompt();
      if enter.None? {
        return None;
      }
      return Some(Tag("menu"));
    }

    /**
     * The detail view of `history()` for id `id`: the match at `matches[id - 1]` and the tally of
     * its winners, which on a valid match list adds up to its number of results.
     */
    method Details(id: int) returns (shown: Match, winsA: nat, winsB: nat, draws: nat)
      requires 1 <= id <= |matches|
      ensures shown == matches[id - 1]
      ensures winsA == CountWinner(shown.results, "team_a")
      ensures winsB == CountWinner(shown.results, "team_b")
      ensures draws == CountWinner(shown.results, "draw")
      ensures ValidMatches(matches) ==> winsA + winsB + draws == |shown.results|
    {
      shown := matches[id - 1];
      winsA, winsB, draws := Tally(shown.results);
      if ValidMatches(matches) {
        ValidMatchTally(shown, id);
      }
    }

    /** `func_map[run](arg)` or `func_map[run]()`: one handler call; only `rematch` takes the pending argument. */
    method Call(handler: Handler, given: Option<int>) returns (ret: Option<Ret>)
      modifies this
      ensures Extends(old(matches), matches)
      ensures ValidMatches(old(matches)) ==> ValidMatches(matches)
      ensures ret.Some? ==> |input| < |old(input)| && Expected(ret.value)
      ensures ret.Some? && ret.value.TagArg? && (handler == RematchH ==> given.Some? && 1 <= given.value <= |old(matches)|) ==>
                1 <= ret.value.arg <= |matches|
      ensures ret.None? && ValidMatches(old(matches)) && (handler == RematchH ==> given.Some? && 1 <= given.value <= |old(matches)|) ==>
                input == []
      ensures (World(matches, input, rolled), ret) == CallFrom(handler, given, World(old(matches), old(input), old(rolled)), rng, defaultId)
    {
      match handler {
        case MenuH => ret := Menu();
        case ClassicH => ret := Classic();
        case HistoryH => ret := History();
        case RematchH => ret := Rematch(if given.Some? then given.value else defaultId);
      }
    }

    /**
     * The run loop: call the handler `func_map` names for `run` until one returns "exit", and
     * report whether it got there and saved. Matches only ever grow, and a valid match list
     * stays valid. Started on a valid match list, the loop never raises: it ends without
     * saving only when the answers run out.
     */
    method Run() returns (saved: bool)
      modifies this
      ensures Extends(old(matches), matches)
      ensures old(ValidMatches(matches)) ==> ValidMatches(matches)
      ensures old(ValidMatches(matches)) && !saved ==> input == []
      ensures (World(matches, input, rolled), saved) == RunFrom(World(old(matches), old(input), old(rolled)), Some("menu"), None, rng, defaultId)
    {
      var run: Option<string> := Some("menu");
      var arg: Option<int> := None;
      ghost var total := RunFrom(World(matches, input, rolled), run, arg, rng, defaultId);
      while run != Some("exit")
        invariant RunFrom(World(matches, input, rolled), run, arg, rng, defaultId) == total
        invariant Extends(old(matches), matches)
        invariant old(ValidMatches(matches)) ==> ValidMatches(matches)
        invariant arg.Some? ==> run == Some("rematch") && 1 <= arg.value <= |matches|
        invariant run == Some("rematch") ==> arg.Some?
        decreases |input|, if FuncMap(Resolve(run)).None? then 1 else 0
      {
        match Route(run, arg) {
          case Redirect =>
            run := Some("menu");
          case Fail =>
            // only `rematch` is ever given an argument
            assert false;
            return false;
          case Invoke(handler, given) =>
            ghost var before := matches;
            var ret := Call(handler, given);
            if ret.None? {
              return false;
            }
            ExtendsTransitive(old(matches), before, matches);
            run, arg := Unpack(ret.value).0, Unpack(ret.value).1;
        }
      }
      return true;
    }
  }
}
