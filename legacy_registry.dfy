/**
 * The older room registry (`LdnServer.cs` at the top of the repository):
 * rooms are keyed by the id exactly as given, a new room always replaces
 * (and closes) the one under its id, and a scan checks only the passphrase,
 * the accept policy and the filter. The older room class is not part of this
 * model: a room here is its id, its description, its passphrase and whether
 * it has been closed.
 */
module LegacyServer {
  import opened Bytes
  import opened LdnTypes
  import opened ScanFilters
  import LanPlayServer

  /** What the older registry reads and changes of a room. */
  class LegacyRoom {
    const id: string
    var info: NetworkInfo
    var passphrase: seq<byte>
    var closed: bool

    constructor (id: string, info: NetworkInfo)
      ensures this.id == id && this.info == info && !closed
    {
      this.id := id;
      this.info := info;
      passphrase := [];
      closed := false;
    }

    method Close()
      modifies this`closed
      ensures closed
    {
      closed := true;
    }
  }

  /** What a scan reads of one room. */
  datatype LegacyView = LegacyView(passphrase: seq<byte>, info: NetworkInfo)

  function ViewOf(g: LegacyRoom): (v: LegacyView)
    reads g
    ensures v.passphrase == g.passphrase && v.info == g.info
  {
    LegacyView(g.passphrase, g.info)
  }

  /** Same passphrase, not rejecting every joiner (policy 1), and passing the filter. */
  predicate LegacyVisible(v: LegacyView, filter: ScanFilter, passphrase: seq<byte>) {
    && v.passphrase == passphrase
    && v.info.stationAcceptPolicy != 1
    && FieldsMatch(v.info, filter)
  }

  /** The descriptions of the visible rooms, in enumeration order. */
  function LegacyListed(views: seq<LegacyView>, filter: ScanFilter, passphrase: seq<byte>): (r: seq<NetworkInfo>)
    ensures |r| <= |views|
  {
    if views == [] then []
    else
      var v := views[|views| - 1];
      LegacyListed(views[..|views| - 1], filter, passphrase) + (if LegacyVisible(v, filter, passphrase) then [v.info] else [])
  }

  /** Every visible room is listed. */
  lemma {:induction false} LegacyVisibleAreListed(views: seq<LegacyView>, filter: ScanFilter, passphrase: seq<byte>)
    ensures forall i :: 0 <= i < |views| && LegacyVisible(views[i], filter, passphrase) ==>
      views[i].info in LegacyListed(views, filter, passphrase)
    decreases |views|
  {
    if views != [] {
      var front := views[..|views| - 1];
      LegacyVisibleAreListed(front, filter, passphrase);
      assert forall i :: 0 <= i < |front| ==> front[i] == views[i];
    }
  }

  /** Everything listed is the description of a visible room. */
  lemma {:induction false} LegacyListedAreVisible(views: seq<LegacyView>, filter: ScanFilter, passphrase: seq<byte>)
    ensures forall x :: x in LegacyListed(views, filter, passphrase) ==>
      exists i :: 0 <= i < |views| && LegacyVisible(views[i], filter, passphrase) && views[i].info == x
    decreases |views|
  {
    if views != [] {
      var front := views[..|views| - 1];
      LegacyListedAreVisible(front, filter, passphrase);
      assert forall i :: 0 <= i < |front| ==> front[i] == views[i];
    }
  }

  /** Every room the newer scan reports the older one reports too. */
  lemma NewerScanIsNarrower(v: LanPlayServer.RoomView, filter: ScanFilter, passphrase: seq<byte>, exclude: LanPlayServer.HostedGame?)
    requires LanPlayServer.Visible(v, filter, passphrase, exclude)
    ensures LegacyVisible(LegacyView(passphrase, v.info), filter, passphrase)
  {}

  /**
   * An empty room, or the scanner's own, is reported by the older scan and
   * never by the newer one.
   */
  lemma OlderScanListsEmptyRooms(v: LanPlayServer.RoomView, filter: ScanFilter, passphrase: seq<byte>)
    requires v.passphrase.Some? && LegacyVisible(LegacyView(v.passphrase.value, v.info), filter, passphrase)
    requires v.playerCount == 0
    ensures !LanPlayServer.Visible(v, filter, passphrase, null)
    ensures !LanPlayServer.Visible(v.(playerCount := 1), filter, passphrase, v.room)
    ensures LanPlayServer.Visible(v.(playerCount := 1), filter, passphrase, null)
  {}

  lemma LegacyListedStep(views: seq<LegacyView>, i: nat, filter: ScanFilter, passphrase: seq<byte>)
    requires i < |views|
    ensures LegacyListed(views[..i + 1], filter, passphrase) == LegacyListed(views[..i], filter, passphrase)
      + (if LegacyVisible(views[i], filter, passphrase) then [views[i].info] else [])
  {
    assert views[..i + 1][..i] == views[..i];
  }

  /** A listing of the first `n` rooms is a prefix of the listing of them all. */
  lemma {:induction false} LegacyListedPrefix(views: seq<LegacyView>, n: nat, filter: ScanFilter, passphrase: seq<byte>)
    requires n <= |views|
    ensures LegacyListed(views[..n], filter, passphrase) <= LegacyListed(views, filter, passphrase)
    decreases |views|
  {
    if n < |views| {
      var front := views[..|views| - 1];
      LegacyListedPrefix(front, n, filter, passphrase);
      assert front[..n] == views[..n];
    } else {
      assert views[..n] == views;
    }
  }

  /** A visible room is listed at the number of descriptions before it. */
  lemma LegacyListedAt(views: seq<LegacyView>, i: nat, filter: ScanFilter, passphrase: seq<byte>)
    requires i < |views| && LegacyVisible(views[i], filter, passphrase)
    ensures var p := |LegacyListed(views[..i], filter, passphrase)|;
      p < |LegacyListed(views, filter, passphrase)| && LegacyListed(views, filter, passphrase)[p] == views[i].info
  {
    LegacyListedStep(views, i, filter, passphrase);
    LegacyListedPrefix(views, i + 1, filter, passphrase);
  }

  /**
   * Visible rooms are listed in enumeration order: the room at `i` at the
   * number of descriptions before it, and a later visible room at `j` at a
   * later position.
   */
  lemma LegacyVisibleListedInOrder(views: seq<LegacyView>, i: nat, j: nat, filter: ScanFilter, passphrase: seq<byte>)
    requires i < j < |views|
    requires LegacyVisible(views[i], filter, passphrase) && LegacyVisible(views[j], filter, passphrase)
    ensures var all := LegacyListed(views, filter, passphrase);
      var p := |LegacyListed(views[..i], filter, passphrase)|;
      var q := |LegacyListed(views[..j], filter, passphrase)|;
      p < q < |all| && all[p] == views[i].info && all[q] == views[j].info
  {
    LegacyListedAt(views, i, filter, passphrase);
    LegacyListedAt(views, j, filter, passphrase);
    LegacyListedAt(views[..j], i, filter, passphrase);
    assert views[..j][..i] == views[..i];
    assert views[..j][i] == views[i];
  }


  class LegacyLdnServer {
    /** Rooms by id, exactly as given. */
    var hostedGames: map<string, LegacyRoom>

    constructor ()
      ensures hostedGames == map[]
    {
      hostedGames := map[];
    }

    /** The room under exactly this id, or null. */
    function FindGame(id: string): (g: LegacyRoom?)
      reads this
      ensures g != null <==> id in hostedGames
      ensures g != null ==> g == hostedGames[id]
    {
      if id in hostedGames then hostedGames[id] else null
    }

    /** What a scan reads of the rooms under the keys, in key order. */
    function Rooms(keys: seq<string>): (r: seq<LegacyView>)
      reads this, hostedGames.Values
      requires forall k :: k in keys ==> k in hostedGames
      ensures |r| == |keys| && forall i :: 0 <= i < |keys| ==> r[i] == ViewOf(hostedGames[keys[i]])
    {
      var games := hostedGames;
      seq(|keys|, i requires 0 <= i < |keys| reads games.Values => ViewOf(games[keys[i]]))
    }

    /**
     * Installs a new room under the id and returns it; a room already under
     * the id is closed, whoever owns it. No other room changes.
     */
    method CreateGame(id: string, info: NetworkInfo) returns (game: LegacyRoom)
      modifies this`hostedGames, hostedGames.Values`closed
      ensures fresh(game) && game.id == id && game.info == info && !game.closed
      ensures hostedGames == old(hostedGames)[id := game]
      ensures id in old(hostedGames) ==> old(hostedGames[id]).closed
      ensures forall g :: g in old(hostedGames).Values && (id !in old(hostedGames) || g != old(hostedGames[id])) ==>
        g.closed == old(g.closed)
    {
      game := new LegacyRoom(id, info);
      if id in hostedGames {
        var oldGame := hostedGames[id];
        assert oldGame in old(hostedGames).Values;
        oldGame.Close();
      }
      hostedGames := hostedGames[id := game];
    }

    /** Removes the room under exactly this id and closes it; nothing happens when there is none. */
    method CloseGame(id: string)
      modifies this`hostedGames, hostedGames.Values`closed
      ensures hostedGames == old(hostedGames) - {id}
      ensures id in old(hostedGames) ==> old(hostedGames[id]).closed
      ensures forall g :: g in old(hostedGames).Values && (id !in old(hostedGames) || g != old(hostedGames[id])) ==>
        g.closed == old(g.closed)
    {
      if id in hostedGames {
        var removed := hostedGames[id];
        assert removed in old(hostedGames).Values;
        hostedGames := hostedGames - {id};
        removed.Close();
      }
    }

    /**
     * Copies the description of every visible room into the buffer, in key
     * order, growing it by one slot whenever it is full. `keys` is the
     * snapshot of the registry's keys, each once.
     */
    method Scan(buffer: array<NetworkInfo>, filter: ScanFilter, passphrase: seq<byte>, keys: seq<string>)
      returns (result: array<NetworkInfo>, count: nat)
      requires forall k :: k in keys <==> k in hostedGames
      requires forall i, j :: 0 <= i < j < |keys| ==> keys[i] != keys[j]
      modifies buffer
      ensures count <= result.Length && result[..count] == old(LegacyListed(Rooms(keys), filter, passphrase))
      ensures result.Length == if count <= buffer.Length then buffer.Length else count
      ensures count <= buffer.Length ==> result == buffer
      ensures buffer.Length < count ==> fresh(result)
    {
      var rooms := Rooms(keys);
      result, count := CollectVisible(buffer, rooms, filter, passphrase);
    }

    /** The loop of a scan, over what it reads of each room in turn. */
    static method CollectVisible(buffer: array<NetworkInfo>, rooms: seq<LegacyView>, filter: ScanFilter, passphrase: seq<byte>)
      returns (result: array<NetworkInfo>, count: nat)
      modifies buffer
      ensures count <= result.Length && result[..count] == LegacyListed(rooms, filter, passphrase)
      ensures result.Length == if count <= buffer.Length then buffer.Length else count
      ensures count <= buffer.Length ==> result == buffer
      ensures buffer.Length < count ==> fresh(result)
    {
      result := buffer;
      count := 0;
      var i := 0;
      while i < |rooms|
        invariant 0 <= i <= |rooms|
        invariant count == |LegacyListed(rooms[..i], filter, passphrase)| && count <= result.Length
        invariant result[..count] == LegacyListed(rooms[..i], filter, passphrase)
        invariant result.Length == if count <= buffer.Length then buffer.Length else count
        invariant result == buffer || fresh(result)
        invariant result != buffer ==> buffer.Length < count
      {
        LegacyListedStep(rooms, i, filter, passphrase);
        if LegacyVisible(rooms[i], filter, passphrase) {
          result := LanPlayServer.LdnServer.Place(result, count, rooms[i].info);
          count := count + 1;
        }
        i := i + 1;
      }
      assert rooms[..i] == rooms;
    }
  }
}
