/**
 * The room-membership core of a multiplayer buzzer server: a game room keeps
 * an ordered roster of players and a designated host, and `AddPlayer` admits
 * a player unless the name is already taken.
 *
 * The file has two layers.  The first is a value-level specification of one
 * join (`Add`) and of a sequence of joins (`JoinAll`), with the invariants
 * they keep.  The second is the `Game` class, whose `AddPlayer` method scans
 * the roster in a loop and updates the fields in place, and is proved to
 * perform exactly the step `Add` describes.
 */
module Room {

  datatype Option<T> = None | Some(value: T)

  /** The part of a player that room membership looks at.  The websocket
      connection and the outbound mailbox are not modelled.  No operation of
      the room changes a player, so a player is a value here. */
  datatype Player = Player(isHost: bool, name: string)

  /** The error value returned for a rejected join. */
  datatype Error = Error(message: string)

  const NameDuplicate: Error := Error("name duplicate")

  /** What `AddPlayer` returns: `None` stands for a nil error. */
  type Status = Option<Error>

  /** The membership state of a room: its host (possibly absent) and its
      roster in join order. */
  datatype Roster = Roster(host: Option<Player>, players: seq<Player>)

  /** A freshly declared room: no host, nobody in it. */
  const Empty: Roster := Roster(None, [])

  /** Some player on the roster carries exactly this name
      (case-sensitive string equality). */
  predicate NameTaken(players: seq<Player>, name: string)
  {
    exists i :: 0 <= i < |players| && players[i].name == name
  }

  /** No two players on the roster share a name. */
  predicate DistinctNames(players: seq<Player>)
  {
    forall i, j :: 0 <= i < j < |players| ==> players[i].name != players[j].name
  }

  /** An empty room has no host; otherwise the host is the first joiner. */
  predicate HostIsFirst(r: Roster)
  {
    if r.players == [] then r.host == None else r.host == Some(r.players[0])
  }

  /** The invariant every room reachable from `Empty` keeps. */
  predicate WellFormed(r: Roster)
  {
    DistinctNames(r.players) && HostIsFirst(r)
  }

  /** One join: what `AddPlayer` does to the room, and what it returns. */
  function Add(r: Roster, p: Player): (res: (Roster, Status))
    // rejected exactly when the name is already on the roster
    ensures res.1.Some? <==> NameTaken(r.players, p.name)
    // a rejection reports the duplicate name and changes nothing
    ensures res.1.Some? ==> res.1.value == NameDuplicate && res.0 == r
    // an admission appends the player at the end, earlier entries untouched
    ensures res.1.None? ==> res.0.players == r.players + [p]
    // the first joiner becomes host; later joiners leave the host alone
    ensures res.1.None? && r.players == [] ==> res.0.host == Some(p)
    ensures res.1.None? && r.players != [] ==> res.0.host == r.host
    // distinct names and "host is the first joiner" are preserved
    ensures WellFormed(r) ==> WellFormed(res.0)
  {
    if NameTaken(r.players, p.name) then
      (r, Some(NameDuplicate))
    else
      (Roster(if r.players == [] then Some(p) else r.host, r.players + [p]), None)
  }

  /** The number of admissions in a sequence of join results. */
  function Successes(statuses: seq<Status>): nat
  {
    if statuses == [] then 0
    else (if statuses[0].None? then 1 else 0) + Successes(statuses[1..])
  }

  /** Joins `ps` one after another, in order, starting from `r`; yields the
      final room and the result of each join. */
  function JoinAll(r: Roster, ps: seq<Player>): (res: (Roster, seq<Status>))
    decreases |ps|
    ensures |res.1| == |ps|
    // the roster only grows at its end, by one player per admission
    ensures r.players <= res.0.players
    ensures |res.0.players| == |r.players| + Successes(res.1)
  {
    if ps == [] then
      (r, [])
    else
      var (r1, s) := Add(r, ps[0]);
      var (r2, ss) := JoinAll(r1, ps[1..]);
      assert ([s] + ss)[1..] == ss;
      (r2, [s] + ss)
  }

  /** Any sequence of joins preserves distinct names and the host rule. */
  lemma {:induction false} JoinAllKeepsWellFormed(r: Roster, ps: seq<Player>)
    requires WellFormed(r)
    ensures WellFormed(JoinAll(r, ps).0)
    decreases |ps|
  {
    if ps != [] {
      JoinAllKeepsWellFormed(Add(r, ps[0]).0, ps[1..]);
    }
  }

  /** Starting from an empty room, after any sequence of joins the names on
      the roster are pairwise distinct, and whenever the roster is non-empty
      the host is its first entry. */
  lemma FromEmptyWellFormed(ps: seq<Player>)
    ensures DistinctNames(JoinAll(Empty, ps).0.players)
    ensures JoinAll(Empty, ps).0.players != [] ==>
              JoinAll(Empty, ps).0.host == Some(JoinAll(Empty, ps).0.players[0])
  {
    JoinAllKeepsWellFormed(Empty, ps);
  }

  /** Joins whose names clash neither with each other nor with the roster all
      succeed, and the roster becomes the old roster followed by the joiners
      in join order. */
  lemma {:induction false} DistinctJoinsAllSucceed(r: Roster, ps: seq<Player>)
    requires DistinctNames(r.players + ps)
    ensures JoinAll(r, ps).0.players == r.players + ps
    ensures forall k :: 0 <= k < |ps| ==> JoinAll(r, ps).1[k] == None
    decreases |ps|
  {
    if ps != [] {
      var all := r.players + ps;
      forall i | 0 <= i < |r.players|
        ensures r.players[i].name != ps[0].name
      {
        assert all[i] == r.players[i] && all[|r.players|] == ps[0];
      }
      var r1 := Add(r, ps[0]).0;
      assert r1.players + ps[1..] == all;
      DistinctJoinsAllSucceed(r1, ps[1..]);
    }
  }

  /** From an empty room, joins under distinct names produce a roster of
      exactly those players in join order, with the first joiner as host. */
  lemma {:induction false} DistinctJoinsFromEmpty(ps: seq<Player>)
    requires DistinctNames(ps)
    ensures JoinAll(Empty, ps).0.players == ps
    ensures ps != [] ==> JoinAll(Empty, ps).0.host == Some(ps[0])
  {
    assert Empty.players + ps == ps;
    DistinctJoinsAllSucceed(Empty, ps);
    JoinAllKeepsWellFormed(Empty, ps);
  }

  /** Once `p` has tried to join, any player `q` under the same name is
      rejected, whatever its `isHost` flag, and the attempt changes nothing,
      whether or not the join of `p` succeeded. */
  lemma RejoinRejected(r: Roster, p: Player, q: Player)
    requires q.name == p.name
    ensures Add(Add(r, p).0, q) == (Add(r, p).0, Some(NameDuplicate))
  {
    var r1 := Add(r, p).0;
    if !NameTaken(r.players, p.name) {
      assert r1.players[|r.players|] == p;
    }
  }

  /** "Alice" joins and becomes host, "Bob" joins, "Alice" tries again and is
      rejected, leaving the roster at Alice then Bob.  No joiner's `isHost`
      flag is ever raised: the host is recorded only in the room. */
  lemma AliceBobScenario()
    ensures var alice, bob := Player(false, "Alice"), Player(false, "Bob");
            var (r, statuses) := JoinAll(Empty, [alice, bob, alice]);
            && r.players == [alice, bob]
            && r.host == Some(alice)
            && !r.host.value.isHost
            && statuses == [None, None, Some(NameDuplicate)]
  {
    var alice, bob := Player(false, "Alice"), Player(false, "Bob");
    var r1 := Add(Empty, alice).0;
    var r2 := Add(r1, bob).0;
    assert r1 == Roster(Some(alice), [alice]);
    assert r2 == Roster(Some(alice), [alice, bob]);
    assert r2.players[0].name == "Alice";
    assert Add(r2, alice) == (r2, Some(NameDuplicate));
    assert [alice, bob, alice][1..] == [bob, alice];
    assert [bob, alice][1..] == [alice];
    assert [alice][1..] == [];
    assert JoinAll(r2, []) == (r2, []);
    assert [Some(NameDuplicate)] + [] == [Some(NameDuplicate)];
    assert JoinAll(r2, [alice]) == (r2, [Some(NameDuplicate)]);
    assert Add(Empty, alice) == (r1, None);
    assert Add(r1, bob) == (r2, None);
    assert [None] + [Some(NameDuplicate)] == [None, Some(NameDuplicate)];
    assert [None] + [None, Some(NameDuplicate)] == [None, None, Some(NameDuplicate)];
    assert JoinAll(r1, [bob, alice]) == (r2, [None, Some(NameDuplicate)]);
    assert JoinAll(Empty, [alice, bob, alice]) == (r2, [None, None, Some(NameDuplicate)]);
  }

  /** A game room.  `host` and `players` are the room's membership state;
      `locked` is declared but no membership operation reads it.  `pumped`
      records, as ghost state, the players whose read and write pumps have
      been started. */
  class Game {
    var host: Option<Player>
    var players: seq<Player>
    var locked: bool
    ghost var pumped: set<Player>

    /** The membership state as a value. */
    ghost function View(): Roster
      reads this
    {
      Roster(host, players)
    }

    /** The room is well formed and every player on the roster has had its
        pumps started. */
    ghost predicate Valid()
      reads this
    {
      WellFormed(View()) && forall i :: 0 <= i < |players| ==> players[i] in pumped
    }

    /** The zero value of a game: no host, no players, not locked. */
    constructor ()
      ensures View() == Empty && !locked && pumped == {}
      ensures Valid()
    {
      host := None;
      players := [];
      locked := false;
      pumped := {};
    }

    /** Admits `player` unless its name is already on the roster.  The first
        player admitted becomes the host; every admitted player is appended
        and has its pumps started. */
    method AddPlayer(player: Player) returns (err: Status)
      modifies this
      ensures err.Some? <==> NameTaken(old(players), player.name)
      ensures err.Some? ==> err.value == NameDuplicate
      ensures err.Some? ==> players == old(players) && host == old(host) && pumped == old(pumped)
      ensures err.None? ==> players == old(players) + [player]
      ensures err.None? ==> host == (if old(players) == [] then Some(player) else old(host))
      ensures err.None? ==> pumped == old(pumped) + {player}
      ensures locked == old(locked)
      ensures (View(), err) == Add(old(View()), player)
      ensures old(Valid()) ==> Valid()
    {
      for i := 0 to |players|
        invariant forall k :: 0 <= k < i ==> players[k].name != player.name
      {
        if players[i].name == player.name {
          return Some(NameDuplicate);
        }
      }
      if |players| == 0 {
        host := Some(player);
      }
      players := players + [player];
      pumped := pumped + {player};
      return None;
    }
  }
}
