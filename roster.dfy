/** The registry of joined players, in join order; the order is also the turn
    order, and a player's seat number is their 1-based position. */
module Roster {

  /** A joined player: the chat user's id and user name. */
  datatype Player = Player(id: int, username: string)

  /** The ids of the roster, in roster order. */
  function Ids(roster: seq<Player>): (ids: seq<int>)
  {
    seq(|roster|, k requires 0 <= k < |roster| => roster[k].id)
  }

  /** No id joined twice. */
  predicate UniqueIds(roster: seq<Player>)
  {
    forall i, j :: 0 <= i < j < |roster| ==> roster[i].id != roster[j].id
  }

  /** Being among the ids means holding some seat of the roster. */
  lemma IdsMembership(roster: seq<Player>, id: int)
    ensures id in Ids(roster) <==> exists k :: 0 <= k < |roster| && roster[k].id == id
  {
    if id in Ids(roster) {
      var k :| 0 <= k < |roster| && Ids(roster)[k] == id;
      assert roster[k].id == id;
    }
    if exists k :: 0 <= k < |roster| && roster[k].id == id {
      var k :| 0 <= k < |roster| && roster[k].id == id;
      assert Ids(roster)[k] == id;
    }
  }

  /** Appending a player whose id is not yet present keeps ids unique. */
  lemma AppendKeepsUnique(roster: seq<Player>, p: Player)
    requires UniqueIds(roster) && p.id !in Ids(roster)
    ensures UniqueIds(roster + [p])
  {
    var r := roster + [p];
    forall i, j | 0 <= i < j < |r| ensures r[i].id != r[j].id {
      if j == |roster| {
        assert Ids(roster)[i] == r[i].id;
      }
    }
  }

  /** A player who joins with a new id holds the last seat and no other:
      no earlier entry carries that id. */
  lemma {:induction false} JoinedSeatOnly(roster: seq<Player>, p: Player, k: nat)
    requires p.id !in Ids(roster)
    requires k < |roster + [p]| && (roster + [p])[k].id == p.id
    ensures k == |roster|
  {
    IdsMembership(roster, p.id);
  }
}
