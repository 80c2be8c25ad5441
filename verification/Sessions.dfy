/** `Switchboard` of src/switchboard.rs: a table of sessions keyed by id. */
module Sessions {
  import opened Wrappers
  import opened Bytes

  datatype Session = Session(id: u64, userId: u64, userName: string)

  /** `SwitchboardConfig`: stored by the table, never consulted. */
  datatype SwitchboardConfig = SwitchboardConfig(maxSessionsPerAgent: nat, maxAgents: Option<nat>)

  datatype Switchboard = Switchboard(sessions: map<u64, Session>, cfg: SwitchboardConfig)

  /** `sessions_count`: how many distinct ids the table holds. */
  function SessionsCount(sb: Switchboard): nat
  {
    |sb.sessions|
  }

  /** `new`: an empty table keeping the configuration. */
  function New(cfg: SwitchboardConfig): (sb: Switchboard)
    ensures SessionsCount(sb) == 0
    ensures forall id: u64 :: id !in sb.sessions
    ensures sb.cfg == cfg
  {
    Switchboard(map[], cfg)
  }

  /**
   * `insert_new_session`: an upsert. The session is stored under its id,
   * replacing any earlier one; no limit is checked, so it never fails.
   */
  function InsertNewSession(sb: Switchboard, s: Session): (sb': Switchboard)
    ensures s.id in sb'.sessions && sb'.sessions[s.id] == s
    ensures sb'.sessions.Keys == sb.sessions.Keys + {s.id}
    ensures forall id | id in sb.sessions && id != s.id :: sb'.sessions[id] == sb.sessions[id]
    ensures SessionsCount(sb') == if s.id in sb.sessions then SessionsCount(sb) else SessionsCount(sb) + 1
    ensures sb'.cfg == sb.cfg
  {
    Switchboard(sb.sessions[s.id := s], sb.cfg)
  }

  /** Inserting the same session again changes nothing. */
  lemma InsertIdempotent(sb: Switchboard, s: Session)
    ensures InsertNewSession(InsertNewSession(sb, s), s) == InsertNewSession(sb, s)
  {
  }

  /** The stored limits play no part: the same sessions result under any configuration. */
  lemma InsertIgnoresConfig(sb: Switchboard, s: Session, cfg: SwitchboardConfig)
    ensures InsertNewSession(sb.(cfg := cfg), s).sessions == InsertNewSession(sb, s).sessions
  {
  }

  /** Inserting sessions one after the other, in order. */
  function InsertAll(sb: Switchboard, ss: seq<Session>): Switchboard
    decreases |ss|
  {
    if |ss| == 0 then sb else InsertNewSession(InsertAll(sb, ss[..|ss| - 1]), ss[|ss| - 1])
  }

  /** The ids of a run of sessions. */
  function Ids(ss: seq<Session>): set<u64> {
    set i | 0 <= i < |ss| :: ss[i].id
  }

  lemma IdsSnoc(ss: seq<Session>)
    requires |ss| > 0
    ensures Ids(ss) == Ids(ss[..|ss| - 1]) + {ss[|ss| - 1].id}
  {
  }

  /** The last session in `ss` with this id, if any: the one an upsert table keeps. */
  function LastWithId(ss: seq<Session>, id: u64): (o: Option<Session>)
    ensures o.Some? ==> o.value in ss && o.value.id == id
    ensures o.None? <==> id !in Ids(ss)
    decreases |ss|
  {
    if |ss| == 0 then None
    else if ss[|ss| - 1].id == id then Some(ss[|ss| - 1])
    else
      IdsSnoc(ss);
      LastWithId(ss[..|ss| - 1], id)
  }

  /**
   * A table built from empty by inserts is the last-write-wins view of the
   * inserted sessions, and its count is the number of distinct ids.
   */
  lemma {:induction false} InsertAllIsLastWriteWins(cfg: SwitchboardConfig, ss: seq<Session>)
    ensures InsertAll(New(cfg), ss).sessions.Keys == Ids(ss)
    ensures forall id | id in Ids(ss) :: LastWithId(ss, id) == Some(InsertAll(New(cfg), ss).sessions[id])
    ensures SessionsCount(InsertAll(New(cfg), ss)) == |Ids(ss)|
    decreases |ss|
  {
    if |ss| > 0 {
      var init, last := ss[..|ss| - 1], ss[|ss| - 1];
      InsertAllIsLastWriteWins(cfg, init);
      var before := InsertAll(New(cfg), init);
      var after := InsertAll(New(cfg), ss);
      assert after == InsertNewSession(before, last);
      IdsSnoc(ss);
      forall id | id in Ids(ss)
        ensures LastWithId(ss, id) == Some(after.sessions[id])
      {
        if id != last.id {
          assert LastWithId(ss, id) == LastWithId(init, id);
        }
      }
    } else {
      assert Ids(ss) == {};
    }
  }
}
