/**
 * How a match record sits in the document: the nested dictionaries and lists that the match
 * creation writes under `matches`, and the schema-aware reading of them back.
 */
module Codec {
  import opened Wrappers
  import opened Json
  import opened Records

  function EncodeList<T>(xs: seq<T>, enc: T -> Value): seq<Value>
    decreases |xs|
  {
    if xs == [] then [] else [enc(xs[0])] + EncodeList(xs[1..], enc)
  }

  function DecodeList<T>(vs: seq<Value>, dec: Value -> Option<T>): Option<seq<T>>
    decreases |vs|
  {
    if vs == [] then Some([])
    else match (dec(vs[0]), DecodeList(vs[1..], dec))
      case (Some(x), Some(xs)) => Some([x] + xs)
      case _ => None
  }

  /** A list round-trips when each of its elements does. */
  lemma {:induction false} ListRoundTrip<T>(xs: seq<T>, enc: T -> Value, dec: Value -> Option<T>)
    requires forall x :: dec(enc(x)) == Some(x)
    ensures DecodeList(EncodeList(xs, enc), dec) == Some(xs)
    decreases |xs|
  {
    if xs != [] {
      ListRoundTrip(xs[1..], enc, dec);
      assert EncodeList(xs, enc)[1..] == EncodeList(xs[1..], enc);
      assert [xs[0]] + xs[1..] == xs;
    }
  }

  function StrAt(v: Value, key: string): Option<string> {
    if v.Obj? && key in v.fields && v.fields[key].Str? then Some(v.fields[key].s) else None
  }

  function NumAt(v: Value, key: string): Option<int> {
    if v.Obj? && key in v.fields && v.fields[key].Num? then Some(v.fields[key].n) else None
  }

  function ArrAt(v: Value, key: string): Option<seq<Value>> {
    if v.Obj? && key in v.fields && v.fields[key].Arr? then Some(v.fields[key].items) else None
  }

  function ObjAt(v: Value, key: string): Option<Value> {
    if v.Obj? && key in v.fields && v.fields[key].Obj? then Some(v.fields[key]) else None
  }

  /** `{"name": ..., "point": ...}` */
  function EncodePlayer(p: Player): Value {
    Obj(map["name" := Str(p.name), "point" := Num(p.point)])
  }

  function DecodePlayer(v: Value): Option<Player> {
    match (StrAt(v, "name"), NumAt(v, "point"))
    case (Some(n), Some(p)) => Some(Player(n, p))
    case _ => None
  }

  /** `{"name": ..., "players": [...]}` */
  function EncodeTeam(t: Team): Value {
    Obj(map["name" := Str(t.name), "players" := Arr(EncodeList(t.players, EncodePlayer))])
  }

  function DecodeTeam(v: Value): Option<Team> {
    match (StrAt(v, "name"), ArrAt(v, "players"))
    case (Some(n), Some(items)) =>
      (match DecodeList(items, DecodePlayer)
       case Some(ps) => Some(Team(n, ps))
       case None => None)
    case _ => None
  }

  /** `{"winner": ..., "score": ...}` */
  function EncodeOutcome(r: Outcome): Value {
    Obj(map["winner" := Str(r.winner), "score" := Str(r.score)])
  }

  function DecodeOutcome(v: Value): Option<Outcome> {
    match (StrAt(v, "winner"), StrAt(v, "score"))
    case (Some(w), Some(s)) => Some(Outcome(w, s))
    case _ => None
  }

  /** `{"id": ..., "name": ..., "teams": {"team_a": ..., "team_b": ...}, "result": [...]}` */
  function EncodeMatch(m: Match): Value {
    Obj(map[
      "id" := Num(m.id),
      "name" := Str(m.name),
      "teams" := Obj(map["team_a" := EncodeTeam(m.teamA), "team_b" := EncodeTeam(m.teamB)]),
      "result" := Arr(EncodeList(m.results, EncodeOutcome))
    ])
  }

  function DecodeMatch(v: Value): Option<Match> {
    match (NumAt(v, "id"), StrAt(v, "name"), ObjAt(v, "teams"), ArrAt(v, "result"))
    case (Some(id), Some(name), Some(teams), Some(items)) =>
      (match (ObjAt(teams, "team_a"), ObjAt(teams, "team_b"))
       case (Some(ta), Some(tb)) =>
         (match (DecodeTeam(ta), DecodeTeam(tb), DecodeList(items, DecodeOutcome))
          case (Some(a), Some(b), Some(rs)) => Some(Match(id, name, a, b, rs))
          case _ => None)
       case _ => None)
    case _ => None
  }

  /** The `matches` entry of the document. */
  function EncodeMatches(ms: seq<Match>): Value {
    Arr(EncodeList(ms, EncodeMatch))
  }

  function DecodeMatches(v: Value): Option<seq<Match>> {
    if v.Arr? then DecodeList(v.items, DecodeMatch) else None
  }

  lemma TeamRoundTrip(t: Team)
    ensures DecodeTeam(EncodeTeam(t)) == Some(t)
  {
    ListRoundTrip(t.players, EncodePlayer, DecodePlayer);
  }

  /** Reading back the dictionaries written for a match gives the same match. */
  lemma MatchRoundTrip(m: Match)
    ensures DecodeMatch(EncodeMatch(m)) == Some(m)
  {
    TeamRoundTrip(m.teamA);
    TeamRoundTrip(m.teamB);
    ListRoundTrip(m.results, EncodeOutcome, DecodeOutcome);
  }

  /** Reading back the `matches` list gives the same matches, in the same order. */
  lemma MatchesRoundTrip(ms: seq<Match>)
    ensures DecodeMatches(EncodeMatches(ms)) == Some(ms)
  {
    forall m ensures DecodeMatch(EncodeMatch(m)) == Some(m) {
      MatchRoundTrip(m);
    }
    ListRoundTrip(ms, EncodeMatch, DecodeMatch);
  }
}
