/**
 * One contest: five rounds in which each side draws one of its players' indices at random,
 * without replacement, and the two drawn players' points are compared.
 */
module Contest {
  import opened Wrappers
  import opened Records
  import opened Text

  /** The pool each side starts from: `[0, 1, 2, 3, 4]`. */
  const Indices: seq<nat> := [0, 1, 2, 3, 4]

  /**
   * `random.choice(pool)`, given the random value `roll` behind it: CPython returns
   * `pool[randbelow(len(pool))]`, and `roll % |pool|` stands for that index.
   */
  function Pick(pool: seq<nat>, roll: nat): (x: nat)
    requires pool != []
    ensures x in pool
  {
    pool[roll % |pool|]
  }

  /** No value occurs twice. */
  predicate Distinct(s: seq<nat>) {
    forall i, j :: 0 <= i < j < |s| ==> s[i] != s[j]
  }

  /** `pool.remove(x)`: the pool without the first occurrence of `x`. */
  function Remove(pool: seq<nat>, x: nat): (r: seq<nat>)
    requires x in pool
    ensures |r| == |pool| - 1
    decreases |pool|
  {
    if pool[0] == x then pool[1..] else [pool[0]] + Remove(pool[1..], x)
  }

  /** Removing keeps every other element, adds none, and in a pool without repeats leaves no `x`. */
  lemma {:induction false} RemoveFacts(pool: seq<nat>, x: nat)
    requires x in pool
    ensures forall z :: z in Remove(pool, x) ==> z in pool
    ensures forall z :: z in pool && z != x ==> z in Remove(pool, x)
    ensures Distinct(pool) ==> Distinct(Remove(pool, x)) && x !in Remove(pool, x)
    decreases |pool|
  {
    assert forall z :: z in pool ==> z == pool[0] || z in pool[1..];
    if pool[0] != x {
      RemoveFacts(pool[1..], x);
      assert Distinct(pool) ==> pool[0] !in pool[1..];
    }
  }

  /** The indices drawn round by round: each round picks with the next roll and removes the pick. */
  function Draws(pool: seq<nat>, rolls: seq<nat>): (order: seq<nat>)
    requires |rolls| <= |pool|
    ensures |order| == |rolls|
    decreases |rolls|
  {
    if rolls == [] then []
    else
      var x := Pick(pool, rolls[0]);
      [x] + Draws(Remove(pool, x), rolls[1..])
  }

  /**
   * Drawing without replacement: only pool elements are drawn, none twice from a pool without
   * repeats, and all of them when there are as many rounds as elements.
   */
  lemma {:induction false} DrawsFacts(pool: seq<nat>, rolls: seq<nat>)
    requires |rolls| <= |pool|
    ensures forall y :: y in Draws(pool, rolls) ==> y in pool
    ensures Distinct(pool) ==> Distinct(Draws(pool, rolls))
    ensures |rolls| == |pool| ==> forall y :: y in pool ==> y in Draws(pool, rolls)
    decreases |rolls|
  {
    if rolls != [] {
      var x := Pick(pool, rolls[0]);
      var rest := Remove(pool, x);
      RemoveFacts(pool, x);
      DrawsFacts(rest, rolls[1..]);
      var order := Draws(pool, rolls);
      assert order == [x] + Draws(rest, rolls[1..]);
      assert forall y :: y in order ==> y == x || y in Draws(rest, rolls[1..]);
    }
  }

  /** Over the five rounds every index 0..4 of a side is drawn, and none twice. */
  lemma DrawsEachIndexOnce(rolls: seq<nat>)
    requires |rolls| == TeamSize
    ensures |Draws(Indices, rolls)| == TeamSize
    ensures forall j :: 0 <= j < TeamSize ==> j in Draws(Indices, rolls)
    ensures Distinct(Draws(Indices, rolls))
  {
    DrawsFacts(Indices, rolls);
    forall j | 0 <= j < TeamSize ensures j in Indices {
      assert Indices[j] == j;
    }
  }

  /** How a round ends. */
  datatype Side = WinA | WinB | Tie

  /** The round's comparison: strictly more points wins, equal points is a draw round. */
  function RoundOutcome(pointA: int, pointB: int): (s: Side)
    ensures s == WinA <==> pointA > pointB
    ensures s == WinB <==> pointA < pointB
    ensures s == Tie <==> pointA == pointB
  {
    if pointA > pointB then WinA else if pointA < pointB then WinB else Tie
  }

  predicate InRange(order: seq<nat>, n: nat) {
    forall i :: 0 <= i < |order| ==> order[i] < n
  }

  /** The outcome of each round when round i pairs `a[orderA[i]]` with `b[orderB[i]]`. */
  function Rounds(a: seq<Player>, b: seq<Player>, orderA: seq<nat>, orderB: seq<nat>): (rs: seq<Side>)
    requires |orderA| == |orderB| && InRange(orderA, |a|) && InRange(orderB, |b|)
    ensures |rs| == |orderA|
    decreases |orderA|
  {
    if orderA == [] then []
    else
      var n := |orderA| - 1;
      Rounds(a, b, orderA[..n], orderB[..n]) + [RoundOutcome(a[orderA[n]].point, b[orderB[n]].point)]
  }

  /** Round `i` is the comparison of the players the two orders name at position `i`. */
  lemma {:induction false} RoundsAt(a: seq<Player>, b: seq<Player>, orderA: seq<nat>, orderB: seq<nat>)
    requires |orderA| == |orderB| && InRange(orderA, |a|) && InRange(orderB, |b|)
    ensures forall i :: 0 <= i < |orderA| ==>
              Rounds(a, b, orderA, orderB)[i] == RoundOutcome(a[orderA[i]].point, b[orderB[i]].point)
    decreases |orderA|
  {
    if orderA != [] {
      var n := |orderA| - 1;
      RoundsAt(a, b, orderA[..n], orderB[..n]);
    }
  }

  /** The rounds that ended as `side`. */
  function Count(rounds: seq<Side>, side: Side): nat
    decreases |rounds|
  {
    if rounds == [] then 0
    else Count(rounds[..|rounds| - 1], side) + (if rounds[|rounds| - 1] == side then 1 else 0)
  }

  /** Every round is won by one side or drawn: wins of A, wins of B and draw rounds add up to the rounds played. */
  lemma {:induction false} CountSides(rounds: seq<Side>)
    ensures Count(rounds, WinA) + Count(rounds, WinB) + Count(rounds, Tie) == |rounds|
    decreases |rounds|
  {
    if rounds != [] {
      CountSides(rounds[..|rounds| - 1]);
    }
  }

  /** Draws from a pool of indices below `n` are below `n`. */
  lemma {:induction false} DrawsBelow(pool: seq<nat>, rolls: seq<nat>, n: nat)
    requires |rolls| <= |pool| && InRange(pool, n)
    ensures InRange(Draws(pool, rolls), n)
    decreases |rolls|
  {
    if rolls != [] {
      var x := Pick(pool, rolls[0]);
      var rest := Remove(pool, x);
      RemoveFacts(pool, x);
      forall j | 0 <= j < |rest| ensures rest[j] < n {
        assert rest[j] in pool;
      }
      DrawsBelow(rest, rolls[1..], n);
    }
  }

  lemma DrawsInRange(rolls: seq<nat>)
    requires |rolls| == TeamSize
    ensures InRange(Draws(Indices, rolls), TeamSize)
  {
    assert InRange(Indices, TeamSize) && |Indices| == TeamSize;
    DrawsBelow(Indices, rolls, TeamSize);
  }

  /** The rounds of a contest between `a` and `b` under the given rolls. */
  function ContestRounds(a: seq<Player>, b: seq<Player>, rollsA: seq<nat>, rollsB: seq<nat>): (rs: seq<Side>)
    requires |a| >= TeamSize && |b| >= TeamSize
    requires |rollsA| == TeamSize && |rollsB| == TeamSize
    ensures |rs| == TeamSize
  {
    DrawsInRange(rollsA);
    DrawsInRange(rollsB);
    Rounds(a, b, Draws(Indices, rollsA), Draws(Indices, rollsB))
  }

  /** The draws so far followed by the draws still to come: one more round moves one pick across. */
  lemma DrawsAdvance(start: seq<nat>, pool: seq<nat>, rolls: seq<nat>, i: nat, drawn: seq<nat>)
    requires i < |rolls| && |rolls| - i <= |pool| && |rolls| <= |start|
    requires Draws(start, rolls) == drawn + Draws(pool, rolls[i..])
    ensures var x := Pick(pool, rolls[i]);
      Draws(start, rolls) == (drawn + [x]) + Draws(Remove(pool, x), rolls[i + 1..])
  {
    var x := Pick(pool, rolls[i]);
    assert rolls[i..][0] == rolls[i] && rolls[i..][1..] == rolls[i + 1..];
    var later := Draws(Remove(pool, x), rolls[i + 1..]);
    assert Draws(pool, rolls[i..]) == [x] + later;
    ConcatAssoc(drawn, [x], later);
  }

  /** One more pairing adds one more round outcome at the end. */
  lemma RoundsSnoc(a: seq<Player>, b: seq<Player>, orderA: seq<nat>, orderB: seq<nat>, x: nat, y: nat)
    requires |orderA| == |orderB| && InRange(orderA, |a|) && InRange(orderB, |b|)
    requires x < |a| && y < |b|
    ensures InRange(orderA + [x], |a|) && InRange(orderB + [y], |b|)
    ensures Rounds(a, b, orderA + [x], orderB + [y]) == Rounds(a, b, orderA, orderB) + [RoundOutcome(a[x].point, b[y].point)]
  {
    assert (orderA + [x])[..|orderA|] == orderA;
    assert (orderB + [y])[..|orderB|] == orderB;
  }

  lemma CountSnoc(rounds: seq<Side>, r: Side, side: Side)
    ensures Count(rounds + [r], side) == Count(rounds, side) + (if r == side then 1 else 0)
  {
    assert (rounds + [r])[..|rounds|] == rounds;
  }

  /**
   * Where one side stands after `i` rounds: `drawn` holds its picks so far, `pool` the indices
   * still to draw from, and the picks still to come are those of `pool` under the rest of the rolls.
   */
  ghost predicate DrawState(rolls: seq<nat>, pool: seq<nat>, drawn: seq<nat>, i: nat) {
    && i <= TeamSize && |rolls| == TeamSize
    && |pool| == TeamSize - i && InRange(pool, TeamSize)
    && |drawn| == i && InRange(drawn, TeamSize)
    && Draws(Indices, rolls) == drawn + Draws(pool, rolls[i..])
  }

  /** One round of drawing moves the pick from the pool to the drawn indices. */
  lemma DrawStep(rolls: seq<nat>, pool: seq<nat>, drawn: seq<nat>, i: nat)
    requires i < TeamSize && DrawState(rolls, pool, drawn, i)
    ensures pool[rolls[i] % |pool|] < TeamSize
    ensures var x := pool[rolls[i] % |pool|]; DrawState(rolls, Remove(pool, x), drawn + [x], i + 1)
  {
    var x := Pick(pool, rolls[i]);
    var rest := Remove(pool, x);
    assert Draws(Indices, rolls) == (drawn + [x]) + Draws(rest, rolls[i + 1..]) by {
      DrawsAdvance(Indices, pool, rolls, i, drawn);
    }
    assert InRange(rest, TeamSize) by {
      RemoveFacts(pool, x);
      forall j | 0 <= j < |rest| ensures rest[j] < TeamSize {
        assert rest[j] in pool;
      }
    }
    assert InRange(drawn + [x], TeamSize);
  }

  /** Before the first round nothing is drawn. */
  lemma DrawStateStart(rolls: seq<nat>)
    requires |rolls| == TeamSize
    ensures DrawState(rolls, Indices, [], 0)
  {
    assert rolls[0..] == rolls;
    assert [] + Draws(Indices, rolls) == Draws(Indices, rolls);
  }

  /** After the last round the drawn indices are all of the draws. */
  lemma DrawStateEnd(rolls: seq<nat>, pool: seq<nat>, drawn: seq<nat>)
    requires DrawState(rolls, pool, drawn, TeamSize)
    ensures drawn == Draws(Indices, rolls)
  {
    assert rolls[TeamSize..] == [];
    assert drawn + [] == drawn;
  }

  /**
   * The contest loop of `classic` and `rematch`: the returned scores are the rounds won by
   * each side when the pools are drawn from with the given rolls.
   */
  method Contest(a: seq<Player>, b: seq<Player>, rollsA: seq<nat>, rollsB: seq<nat>) returns (scoreA: nat, scoreB: nat)
    requires |a| >= TeamSize && |b| >= TeamSize
    requires |rollsA| == TeamSize && |rollsB| == TeamSize
    ensures scoreA == Count(ContestRounds(a, b, rollsA, rollsB), WinA)
    ensures scoreB == Count(ContestRounds(a, b, rollsA, rollsB), WinB)
  {
    var poolA: seq<nat>, poolB: seq<nat> := Indices, Indices;
    ghost var drawnA: seq<nat>, drawnB: seq<nat> := [], [];
    scoreA, scoreB := 0, 0;
    DrawStateStart(rollsA);
    DrawStateStart(rollsB);
    for i := 0 to TeamSize
      invariant DrawState(rollsA, poolA, drawnA, i) && DrawState(rollsB, poolB, drawnB, i)
      invariant scoreA == Count(Rounds(a, b, drawnA, drawnB), WinA)
      invariant scoreB == Count(Rounds(a, b, drawnA, drawnB), WinB)
    {
      DrawStep(rollsA, poolA, drawnA, i);
      DrawStep(rollsB, poolB, drawnB, i);
      var p1 := poolA[rollsA[i] % |poolA|];
      var p2 := poolB[rollsB[i] % |poolB|];
      var player1, player2 := a[p1], b[p2];
      if player1.point > player2.point {
        scoreA := scoreA + 1;
      } else if player1.point < player2.point {
        scoreB := scoreB + 1;
      }
      RoundsSnoc(a, b, drawnA, drawnB, p1, p2);
      CountSnoc(Rounds(a, b, drawnA, drawnB), RoundOutcome(player1.point, player2.point), WinA);
      CountSnoc(Rounds(a, b, drawnA, drawnB), RoundOutcome(player1.point, player2.point), WinB);
      poolA := Remove(poolA, p1);
      poolB := Remove(poolB, p2);
      drawnA, drawnB := drawnA + [p1], drawnB + [p2];
    }
    DrawStateEnd(rollsA, poolA, drawnA);
    DrawStateEnd(rollsB, poolB, drawnB);
  }

  /**
   * What a contest promises: each side plays every player exactly once, the scores count the
   * strictly won rounds, their sum is at most five, and the rest are draw rounds.
   */
  lemma ContestScores(a: seq<Player>, b: seq<Player>, rollsA: seq<nat>, rollsB: seq<nat>)
    requires |a| >= TeamSize && |b| >= TeamSize
    requires |rollsA| == TeamSize && |rollsB| == TeamSize
    ensures var rs := ContestRounds(a, b, rollsA, rollsB);
      && Count(rs, WinA) + Count(rs, WinB) <= TeamSize
      && Count(rs, Tie) == TeamSize - Count(rs, WinA) - Count(rs, WinB)
  {
    CountSides(ContestRounds(a, b, rollsA, rollsB));
  }

  /** The result entry a contest appends. */
  function ContestOutcome(a: seq<Player>, b: seq<Player>, rollsA: seq<nat>, rollsB: seq<nat>): (r: Outcome)
    requires |a| >= TeamSize && |b| >= TeamSize
    requires |rollsA| == TeamSize && |rollsB| == TeamSize
    ensures Consistent(r)
    ensures var rs := ContestRounds(a, b, rollsA, rollsB);
      && r == NewOutcome(Count(rs, WinA), Count(rs, WinB))
      && ParseScore(r.score) == Some((Count(rs, WinA), Count(rs, WinB)))
  {
    var rs := ContestRounds(a, b, rollsA, rollsB);
    ContestScores(a, b, rollsA, rollsB);
    NewOutcomeConsistent(Count(rs, WinA), Count(rs, WinB));
    NewOutcome(Count(rs, WinA), Count(rs, WinB))
  }

  /** A match whose teams both have the five players a contest draws from. */
  predicate Playable(m: Match) {
    |m.teamA.players| >= TeamSize && |m.teamB.players| >= TeamSize
  }

  /** A match after one more contest: the same record with one more result at the end. */
  function Played(m: Match, rollsA: seq<nat>, rollsB: seq<nat>): (m': Match)
    requires Playable(m)
    requires |rollsA| == TeamSize && |rollsB| == TeamSize
    ensures m'.id == m.id && m'.name == m.name && m'.teamA == m.teamA && m'.teamB == m.teamB
    ensures |m'.results| == |m.results| + 1 && m'.results[..|m.results|] == m.results
    ensures m'.results[|m.results|] == ContestOutcome(m.teamA.players, m.teamB.players, rollsA, rollsB)
  {
    m.(results := m.results + [ContestOutcome(m.teamA.players, m.teamB.players, rollsA, rollsB)])
  }

  /**
   * A contest leaves the match's id, name and both rosters as they were, appends exactly one
   * result and keeps the match valid.
   */
  lemma PlayedKeepsRecord(m: Match, rollsA: seq<nat>, rollsB: seq<nat>, id: int)
    requires Playable(m)
    requires |rollsA| == TeamSize && |rollsB| == TeamSize
    ensures var m' := Played(m, rollsA, rollsB);
      && m'.id == m.id && m'.name == m.name && m'.teamA == m.teamA && m'.teamB == m.teamB
      && |m'.results| == |m.results| + 1 && m'.results[..|m.results|] == m.results
      && Consistent(m'.results[|m.results|])
    ensures ValidRoster(m, id) && (forall j :: 0 <= j < |m.results| ==> Consistent(m.results[j])) ==>
              ValidMatch(Played(m, rollsA, rollsB), id)
  {
    var m' := Played(m, rollsA, rollsB);
    assert m'.results[..|m.results|] == m.results;
    if ValidRoster(m, id) && (forall j :: 0 <= j < |m.results| ==> Consistent(m.results[j])) {
      forall j | 0 <= j < |m'.results| ensures Consistent(m'.results[j]) {
        if j < |m.results| {
          assert m'.results[j] == m.results[j];
        }
      }
    }
  }
}
