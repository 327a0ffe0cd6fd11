/**
 * The statistics kept for the web front end: one analytics record per room,
 * keyed by room id, and the totals recomputed from all records whenever a
 * record is added or removed. The recomputation the source defers to a task
 * runs inside the call here, over the snapshot it would take.
 */
module Statistics {
  import opened Wrappers
  import opened Bytes
  import opened LdnTypes
  import Hex
  import StringUtils
  import LanPlayServer

  const P2PMode := "P2P"
  const ProxyMode := "Master Server Proxy"
  const Joinable := "Joinable"
  const NotJoinable := "Not Joinable"
  const UnknownGame := "Unknown"

  /**
   * What the statistics record of one room. `isPublic` is set by whoever
   * builds the record (the room class carries no such flag).
   */
  datatype GameAnalytics = GameAnalytics(
    id: string,
    playerCount: nat,
    maxPlayerCount: nat,
    gameName: string,
    appId: string,
    appVersion: seq<byte>,
    mode: string,
    status: string,
    sceneId: nat,
    players: seq<seq<byte>>,
    isPublic: bool)

  /** The status label as `FromGame` writes it: "Joinable" for the policy that rejects everyone. */
  function StatusAsWritten(stationAcceptPolicy: byte): (s: string)
    ensures s == Joinable <==> stationAcceptPolicy == 1
  {
    if stationAcceptPolicy == 1 then Joinable else NotJoinable
  }

  /**
   * The status label as the API server writes it: a room rejecting every
   * joiner (policy 1) is "Not Joinable".
   */
  function Status(stationAcceptPolicy: byte): (s: string)
    ensures s == Joinable <==> stationAcceptPolicy != 1
    ensures s == Joinable || s == NotJoinable
  {
    if stationAcceptPolicy == 1 then NotJoinable else Joinable
  }

  /**
   * A room that scans report (its policy is not 1) is labelled "Not
   * Joinable" by the written label and so counted as in progress, and a
   * room that scans hide is labelled "Joinable".
   */
  lemma StatusAsWrittenIsReversed()
    ensures StatusAsWritten(0) == NotJoinable && Status(0) == Joinable
    ensures StatusAsWritten(1) == Joinable && Status(1) == NotJoinable
  {}

  /** The corrected label agrees with what a scan shows: joinable exactly when scans may list the room. */
  lemma StatusMatchesScan(policy: byte)
    ensures Status(policy) == Joinable <==> policy != 1
    ensures StatusAsWritten(policy) != Status(policy)
  {}

  lemma SixteenDigitsHoldU64(v: u64)
    ensures v < Pow2(4 * 16)
  {
    Pow2Of32();
    Pow2Add(32, 32);
  }

  /** The application id as sixteen lower-case hex digits, which read back as the id. */
  function AppIdText(v: u64): (s: string)
    ensures |s| == 16 && Hex.ValueOfDigits(s) == Some(v as nat)
  {
    SixteenDigitsHoldU64(v);
    Hex.LowerHexRoundTrip(v, 16);
    Hex.LowerHex(v, 16)
  }

  /** The user names of the slots, in slot order, each read up to its first NUL. */
  method PlayerNames(nodes: seq<NodeInfo>) returns (players: seq<seq<byte>>)
    ensures |players| == |nodes|
    ensures forall i :: 0 <= i < |nodes| ==> players[i] == StringUtils.BeforeNul(nodes[i].userName)
  {
    players := [];
    var i := 0;
    while i < |nodes|
      invariant 0 <= i <= |nodes|
      invariant |players| == i
      invariant forall j :: 0 <= j < i ==> players[j] == StringUtils.BeforeNul(nodes[j].userName)
    {
      var playerName := StringUtils.ReadUtf8String(nodes[i].userName);
      players := players + [playerName];
      i := i + 1;
    }
  }

  /**
   * `GameAnalytics.FromGame`: the room's id, its counts, the catalogue name
   * (or "Unknown" when the lookup misses), the application id as sixteen
   * lower-case hex digits, the mode, the status, and the user names of the
   * first `nodeCount` slots in slot order. `gameName` is the catalogue
   * lookup's result.
   */
  method FromGame(game: LanPlayServer.HostedGame, gameName: Option<string>, isPublic: bool) returns (a: GameAnalytics)
    requires game.info.nodeCount <= |game.info.nodes|
    ensures a.id == game.id && a.playerCount == game.info.nodeCount && a.maxPlayerCount == game.info.nodeCountMax
    ensures a.gameName == if gameName.Some? then gameName.value else UnknownGame
    ensures |a.appId| == 16 && Hex.ValueOfDigits(a.appId) == Some(game.info.localCommunicationId as nat)
    ensures a.appVersion == game.gameVersion && a.sceneId == game.info.sceneId && a.isPublic == isPublic
    ensures a.mode == P2PMode <==> game.isP2P
    ensures a.mode == P2PMode || a.mode == ProxyMode
    ensures a.status == Status(game.info.stationAcceptPolicy)
    ensures |a.players| == game.info.nodeCount
    ensures forall i :: 0 <= i < |a.players| ==> a.players[i] == StringUtils.BeforeNul(game.info.nodes[i].userName)
  {
    var info := game.info;
    var players := PlayerNames(info.nodes[..info.nodeCount]);
    a := GameAnalytics(game.id, info.nodeCount, info.nodeCountMax,
                       if gameName.Some? then gameName.value else UnknownGame,
                       AppIdText(info.localCommunicationId), game.gameVersion,
                       if game.isP2P then P2PMode else ProxyMode, Status(info.stationAcceptPolicy), info.sceneId,
                       players, isPublic);
  }

  // ---- Totals ----

  /** The counters `UpdateLdnAnalytics` accumulates. */
  datatype Totals = Totals(
    totalGameCount: nat,
    totalPlayerCount: nat,
    privateGameCount: nat,
    privatePlayerCount: nat,
    masterProxyCount: nat,
    inProgressCount: nat)

  const NoTotals := Totals(0, 0, 0, 0, 0, 0)

  /** A room relayed through the server rather than peer to peer. */
  predicate ViaProxy(g: GameAnalytics) {
    g.mode != P2PMode
  }

  /** A room whose label is not "Joinable". */
  predicate InProgress(g: GameAnalytics) {
    g.status != Joinable
  }

  /** What one record adds to the counters: nothing for a room without players. */
  function One(g: GameAnalytics): Totals {
    if g.playerCount == 0 then NoTotals
    else
      Totals(1, g.playerCount,
             if g.isPublic then 0 else 1,
             if g.isPublic then 0 else g.playerCount,
             if ViaProxy(g) then 1 else 0,
             if InProgress(g) then 1 else 0)
  }

  function Plus(a: Totals, b: Totals): Totals {
    Totals(a.totalGameCount + b.totalGameCount, a.totalPlayerCount + b.totalPlayerCount,
           a.privateGameCount + b.privateGameCount, a.privatePlayerCount + b.privatePlayerCount,
           a.masterProxyCount + b.masterProxyCount, a.inProgressCount + b.inProgressCount)
  }

  /** The counters over the records, in order. */
  function Tally(gs: seq<GameAnalytics>): Totals {
    if gs == [] then NoTotals else Plus(Tally(gs[..|gs| - 1]), One(gs[|gs| - 1]))
  }

  /** The players of every room, counted or not. */
  function SumPlayers(gs: seq<GameAnalytics>): nat {
    if gs == [] then 0 else SumPlayers(gs[..|gs| - 1]) + gs[|gs| - 1].playerCount
  }

  /** The number of rooms with at least one player. */
  function ActiveRooms(gs: seq<GameAnalytics>): (n: nat)
    ensures n <= |gs|
  {
    if gs == [] then 0 else ActiveRooms(gs[..|gs| - 1]) + (if gs[|gs| - 1].playerCount != 0 then 1 else 0)
  }

  /**
   * The total counts the rooms with players and all players (a room without
   * players adds none); every partial count is at most its total.
   */
  lemma {:induction false} TallyBounds(gs: seq<GameAnalytics>)
    ensures var t := Tally(gs);
      && t.totalGameCount == ActiveRooms(gs)
      && t.totalPlayerCount == SumPlayers(gs)
      && t.privateGameCount <= t.totalGameCount
      && t.privatePlayerCount <= t.totalPlayerCount
      && t.masterProxyCount <= t.totalGameCount
      && t.inProgressCount <= t.totalGameCount
  {
    if gs != [] {
      TallyBounds(gs[..|gs| - 1]);
    }
  }

  /** The counters over two runs of records add up. */
  lemma {:induction false} TallyConcat(a: seq<GameAnalytics>, b: seq<GameAnalytics>)
    ensures Tally(a + b) == Plus(Tally(a), Tally(b))
    decreases |b|
  {
    if b == [] {
      assert a + b == a;
    } else {
      var front := b[..|b| - 1];
      var last := b[|b| - 1];
      var ab := a + b;
      assert ab[..|ab| - 1] == a + front;
      assert ab[|ab| - 1] == last;
      TallyConcat(a, front);
      calc {
        Tally(ab);
        Plus(Tally(a + front), One(last));
        Plus(Plus(Tally(a), Tally(front)), One(last));
        { PlusAssociates(Tally(a), Tally(front), One(last)); }
        Plus(Tally(a), Plus(Tally(front), One(last)));
        Plus(Tally(a), Tally(b));
      }
    }
  }

  lemma PlusAssociates(x: Totals, y: Totals, z: Totals)
    ensures Plus(Plus(x, y), z) == Plus(x, Plus(y, z))
  {}

  lemma PlusSwaps(x: Totals, y: Totals, z: Totals)
    ensures Plus(Plus(x, y), z) == Plus(Plus(x, z), y)
  {}

  /** The counters over the first `n` records, by position. */
  function TallyPrefix(gs: seq<GameAnalytics>, n: nat): Totals
    requires n <= |gs|
  {
    if n == 0 then NoTotals else Plus(TallyPrefix(gs, n - 1), One(gs[n - 1]))
  }

  lemma {:induction false} TallyPrefixIsTally(gs: seq<GameAnalytics>, n: nat)
    requires n <= |gs|
    ensures TallyPrefix(gs, n) == Tally(gs[..n])
  {
    if n > 0 {
      TallyPrefixIsTally(gs, n - 1);
      assert gs[..n][..n - 1] == gs[..n - 1];
    }
  }

  lemma TallyOne(x: GameAnalytics)
    ensures Tally([x]) == One(x)
  {
    calc {
      Tally([x]);
      { assert [x][..0] == []; }
      Plus(Tally([]), One(x));
      Plus(NoTotals, One(x));
      { PlusNothing(One(x)); }
      One(x);
    }
  }

  lemma PlusNothing(t: Totals)
    ensures Plus(NoTotals, t) == t
  {}

  /** The last record of `a` sits somewhere in `b`; the rest of both hold the same records. */
  lemma FindLast(a: seq<GameAnalytics>, b: seq<GameAnalytics>) returns (left: seq<GameAnalytics>, right: seq<GameAnalytics>)
    requires a != [] && multiset(a) == multiset(b)
    ensures b == left + [a[|a| - 1]] + right
    ensures multiset(a[..|a| - 1]) == multiset(left + right)
  {
    var front := a[..|a| - 1];
    var x := a[|a| - 1];
    assert a == front + [x];
    assert x in multiset(b);
    var j :| 0 <= j < |b| && b[j] == x;
    left, right := b[..j], b[j + 1..];
    assert b == left + [x] + right;
    assert multiset(a) == multiset(front) + multiset{x};
    assert multiset(b) == multiset(left) + multiset{x} + multiset(right);
    assert multiset(left + right) == multiset(left) + multiset(right);
    assert multiset(front) == multiset(a) - multiset{x};
    assert multiset(left + right) == multiset(b) - multiset{x};
  }

  /** The order the records are enumerated in does not matter. */
  lemma {:induction false} TallyPermutation(a: seq<GameAnalytics>, b: seq<GameAnalytics>)
    requires multiset(a) == multiset(b)
    ensures Tally(a) == Tally(b)
    decreases |a|
  {
    if a != [] {
      var left, right := FindLast(a, b);
      TallyPermutation(a[..|a| - 1], left + right);
      TallyAround(left, a[|a| - 1], right);
    }
  }

  /** One record in the middle counts as if it came last. */
  lemma TallyAround(left: seq<GameAnalytics>, x: GameAnalytics, right: seq<GameAnalytics>)
    ensures Tally(left + [x] + right) == Plus(Tally(left + right), One(x))
  {
    TallyConcat(left + [x], right);
    TallyConcat(left, [x]);
    TallyConcat(left, right);
    TallyOne(x);
    calc {
      Tally(left + [x] + right);
      Plus(Plus(Tally(left), One(x)), Tally(right));
      { PlusSwaps(Tally(left), Tally(right), One(x)); }
      Plus(Plus(Tally(left), Tally(right)), One(x));
      Plus(Tally(left + right), One(x));
    }
  }

  /** The published totals, updated in place. */
  class LdnAnalytics {
    var totalGameCount: int
    var privateGameCount: int
    var publicGameCount: int
    var inProgressCount: int
    var masterProxyCount: int
    var totalPlayerCount: int
    var privatePlayerCount: int
    var publicPlayerCount: int

    constructor ()
      ensures totalGameCount == 0 && privateGameCount == 0 && publicGameCount == 0 && inProgressCount == 0
      ensures masterProxyCount == 0 && totalPlayerCount == 0 && privatePlayerCount == 0 && publicPlayerCount == 0
    {
      totalGameCount := 0;
      privateGameCount := 0;
      publicGameCount := 0;
      inProgressCount := 0;
      masterProxyCount := 0;
      totalPlayerCount := 0;
      privatePlayerCount := 0;
      publicPlayerCount := 0;
    }

    /** The published figures: each counter, and the public ones as total minus private. */
    ghost predicate Publishes(t: Totals)
      reads this
    {
      && totalGameCount == t.totalGameCount && privateGameCount == t.privateGameCount
      && publicGameCount == t.totalGameCount - t.privateGameCount
      && inProgressCount == t.inProgressCount && masterProxyCount == t.masterProxyCount
      && totalPlayerCount == t.totalPlayerCount && privatePlayerCount == t.privatePlayerCount
      && publicPlayerCount == t.totalPlayerCount - t.privatePlayerCount
    }
  }

  /** The records by room id, the event logs, and the published totals. */
  class StatisticsRegistry {
    var games: map<string, GameAnalytics>
    /** Rooms whose property changes update their record. */
    var subscribed: set<LanPlayServer.HostedGame>
    /** Each `GameAnalyticsChanged` event: the record and whether it was added. */
    var gameEvents: seq<(GameAnalytics, bool)>
    /** The number of `LdnAnalyticsChanged` events. */
    var ldnEvents: nat
    const ldnAnalytics: LdnAnalytics

    constructor ()
      ensures games == map[] && subscribed == {} && gameEvents == [] && ldnEvents == 0 && fresh(ldnAnalytics)
    {
      games := map[];
      subscribed := {};
      gameEvents := [];
      ldnEvents := 0;
      ldnAnalytics := new LdnAnalytics();
    }

    /** The records in the order of `order`, which lists every id once. */
    function Snapshot(order: seq<string>): (r: seq<GameAnalytics>)
      reads this
      requires forall k :: k in order ==> k in games
      ensures |r| == |order| && forall i :: 0 <= i < |order| ==> r[i] == games[order[i]]
    {
      var m := games;
      seq(|order|, i requires 0 <= i < |order| && order[i] in m => m[order[i]])
    }

    /**
     * Recomputes the totals from the records (rooms without players are
     * skipped), publishes them and raises the change event.
     */
    method UpdateLdnAnalytics(gs: seq<GameAnalytics>)
      modifies ldnAnalytics, this`ldnEvents
      ensures ldnAnalytics.Publishes(Tally(gs))
      ensures ldnEvents == old(ldnEvents) + 1
    {
      var totalGameCount: int, totalPlayerCount: int, privateGameCount: int, privatePlayerCount: int,
        masterProxyCount: int, inProgressCount: int := CountRooms(gs);
      ldnAnalytics.totalGameCount := totalGameCount;
      ldnAnalytics.privateGameCount := privateGameCount;
      ldnAnalytics.publicGameCount := totalGameCount - privateGameCount;
      ldnAnalytics.inProgressCount := inProgressCount;
      ldnAnalytics.masterProxyCount := masterProxyCount;
      ldnAnalytics.totalPlayerCount := totalPlayerCount;
      ldnAnalytics.privatePlayerCount := privatePlayerCount;
      ldnAnalytics.publicPlayerCount := totalPlayerCount - privatePlayerCount;
      ldnEvents := ldnEvents + 1;
    }

    /** The counting loop of `UpdateLdnAnalytics`: each counter ends as its tally over the records. */
    static method CountRooms(gs: seq<GameAnalytics>)
      returns (totalGameCount: nat, totalPlayerCount: nat, privateGameCount: nat, privatePlayerCount: nat,
               masterProxyCount: nat, inProgressCount: nat)
      ensures Tally(gs).totalGameCount == totalGameCount && Tally(gs).totalPlayerCount == totalPlayerCount
      ensures Tally(gs).privateGameCount == privateGameCount && Tally(gs).privatePlayerCount == privatePlayerCount
      ensures Tally(gs).masterProxyCount == masterProxyCount && Tally(gs).inProgressCount == inProgressCount
    {
      totalGameCount, totalPlayerCount, privateGameCount, privatePlayerCount, masterProxyCount, inProgressCount := 0, 0, 0, 0, 0, 0;
      var i := 0;
      while i < |gs|
        invariant 0 <= i <= |gs|
        invariant TallyPrefix(gs, i).totalGameCount == totalGameCount
        invariant TallyPrefix(gs, i).totalPlayerCount == totalPlayerCount
        invariant TallyPrefix(gs, i).privateGameCount == privateGameCount
        invariant TallyPrefix(gs, i).privatePlayerCount == privatePlayerCount
        invariant TallyPrefix(gs, i).masterProxyCount == masterProxyCount
        invariant TallyPrefix(gs, i).inProgressCount == inProgressCount
      {
        var game := gs[i];
        i := i + 1;
        if game.playerCount == 0 {
          continue;
        }
        if ViaProxy(game) {
          masterProxyCount := masterProxyCount + 1;
        }
        totalGameCount := totalGameCount + 1;
        if !game.isPublic {
          privateGameCount := privateGameCount + 1;
          privatePlayerCount := privatePlayerCount + game.playerCount;
        }
        if InProgress(game) {
          inProgressCount := inProgressCount + 1;
        }
        totalPlayerCount := totalPlayerCount + game.playerCount;
      }
      TallyPrefixIsTally(gs, |gs|);
      assert gs[..|gs|] == gs;
    }

    /**
     * Adds the room's record when its id has none: the room is subscribed,
     * the event raised and the totals recomputed. A known id changes
     * nothing. `order` is the enumeration order of the ids afterwards.
     */
    method AddGameAnalytics(game: LanPlayServer.HostedGame, gameName: Option<string>, isPublic: bool, order: seq<string>)
      requires game.info.nodeCount <= |game.info.nodes|
      requires forall k :: k in order <==> k in games || k == game.id
      modifies this`games, this`subscribed, this`gameEvents, this`ldnEvents, ldnAnalytics
      ensures game.id in old(games) ==>
        games == old(games) && subscribed == old(subscribed) && gameEvents == old(gameEvents) && ldnEvents == old(ldnEvents)
        && unchanged(ldnAnalytics)
      ensures game.id !in old(games) ==>
        && game.id in games && games == old(games)[game.id := games[game.id]]
        && games[game.id].id == game.id && games[game.id].playerCount == game.info.nodeCount
        && subscribed == old(subscribed) + {game}
        && gameEvents == old(gameEvents) + [(games[game.id], true)]
        && ldnEvents == old(ldnEvents) + 1
        && ldnAnalytics.Publishes(Tally(Snapshot(order)))
    {
      var analytics := FromGame(game, gameName, isPublic);
      if analytics.id !in games {
        games := games[analytics.id := analytics];
        subscribed := subscribed + {game};
        gameEvents := gameEvents + [(analytics, true)];
        UpdateLdnAnalytics(Snapshot(order));
      }
    }

    /**
     * Removes the room's record when there is one: the room is
     * unsubscribed, the event raised and the totals recomputed. `order` is
     * the enumeration order of the ids afterwards.
     */
    method RemoveGameAnalytics(game: LanPlayServer.HostedGame, order: seq<string>)
      requires forall k :: k in order <==> k in games && k != game.id
      modifies this`games, this`subscribed, this`gameEvents, this`ldnEvents, ldnAnalytics
      ensures game.id !in old(games) ==>
        games == old(games) && subscribed == old(subscribed) && gameEvents == old(gameEvents) && ldnEvents == old(ldnEvents)
        && unchanged(ldnAnalytics)
      ensures game.id in old(games) ==>
        && games == old(games) - {game.id}
        && subscribed == old(subscribed) - {game}
        && gameEvents == old(gameEvents) + [(old(games[game.id]), false)]
        && ldnEvents == old(ldnEvents) + 1
        && ldnAnalytics.Publishes(Tally(Snapshot(order)))
    {
      if game.id in games {
        var analytics := games[game.id];
        games := games - {game.id};
        subscribed := subscribed - {game};
        gameEvents := gameEvents + [(analytics, false)];
        UpdateLdnAnalytics(Snapshot(order));
      }
    }
  }
}
