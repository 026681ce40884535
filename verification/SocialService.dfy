/** The two stateful forms of the social relations, each proved against its step functions. */
module SocialService {
  import opened SocialGraph

  /** Relations kept in dictionaries of the service itself. */
  class DictionaryService {
    var friends: Buckets
    var pending: set<(Key, Key)>
    var blocks: Buckets

    function View(): Graph
      reads this
    {
      Graph(friends, pending, blocks)
    }

    constructor ()
      ensures View() == EMPTY_GRAPH
    {
      friends, pending, blocks := map[], {}, map[];
    }

    method Befriend(a: Key, b: Key)
      modifies this`friends
      ensures friends == SocialGraph.Befriend(old(friends), a, b)
    {
      for i := 0 to 2
        invariant friends == [old(friends), Join(old(friends), a, b), SocialGraph.Befriend(old(friends), a, b)][i]
      {
        var (owner, target) := if i == 0 then (a, b) else (b, a);
        if owner !in friends {
          friends := friends[owner := {}];
        }
        friends := friends[owner := friends[owner] + {target}];
      }
    }

    method RequestFriend(a: Key, b: Key) returns (r: RelationResult)
      modifies this
      ensures (View(), r) == SocialGraph.RequestFriend(old(View()), a, b)
    {
      if a == "" || b == "" {
        return Refused(MissingPersona);
      }
      if a == b {
        return Refused(SameIdentity);
      }
      if b in Bucket(blocks, a) || a in Bucket(blocks, b) {
        return Refused(Blocked);
      }
      if b in Bucket(friends, a) {
        return RelationResult(true, AlreadyFriends, false);
      }
      if (b, a) in pending {
        pending := pending - {(b, a)};
        Befriend(a, b);
        return RelationResult(true, Accepted, true);
      } else if (a, b) in pending {
        return RelationResult(true, AlreadyPending, false);
      }
      pending := pending + {(a, b)};
      return RelationResult(true, Requested, true);
    }

    method RespondFriend(a: Key, b: Key, accept: bool) returns (r: RelationResult)
      modifies this
      ensures (View(), r) == SocialGraph.RespondFriend(old(View()), a, b, accept)
    {
      if a == "" || b == "" {
        return Refused(MissingPersona);
      }
      var pair := (b, a);
      if pair !in pending {
        return Refused(RequestNotFound);
      }
      pending := pending - {pair};
      if accept {
        Befriend(a, b);
        return RelationResult(true, Accepted, true);
      }
      return RelationResult(true, Declined, true);
    }

    /** Both directions of friendship and request are dropped; `removed` tells whether any was there. */
    method Drop(a: Key, b: Key, keepEmpty: bool) returns (removed: bool)
      modifies this`friends, this`pending
      ensures View() == Unlink(old(View()), a, b, keepEmpty)
      ensures removed == Linked(old(View()), a, b)
    {
      removed := DropOne(a, b, keepEmpty);
      var other := DropOne(b, a, keepEmpty);
      assert pending == old(pending) - {(a, b), (b, a)};
      removed := removed || other;
    }

    method DropOne(a: Key, b: Key, keepEmpty: bool) returns (removed: bool)
      modifies this`friends, this`pending
      ensures friends == Leave(old(friends), a, b, keepEmpty) && pending == old(pending) - {(a, b)}
      ensures removed == (b in Bucket(old(friends), a) || (a, b) in old(pending))
    {
      removed := false;
      if a in friends && b in friends[a] {
        friends := friends[a := friends[a] - {b}];
        removed := true;
        if friends[a] == {} && !keepEmpty {
          friends := friends - {a};
        }
      }
      if (a, b) in pending {
        pending := pending - {(a, b)};
        removed := true;
      }
    }

    method RemoveFriend(a: Key, b: Key) returns (r: RelationResult)
      modifies this
      ensures (View(), r) == SocialGraph.RemoveFriend(old(View()), a, b)
    {
      if a == "" || b == "" {
        return Refused(MissingPersona);
      }
      var changed := Drop(a, b, false);
      return RelationResult(true, if changed then Removed else NotPresent, changed);
    }

    /** Emptied block buckets never stay behind. */
    method SetBlocked(a: Key, b: Key, blocked: bool) returns (r: RelationResult)
      modifies this
      ensures (View(), r) == SetBlock(old(View()), a, b, blocked)
    {
      if a == "" || b == "" {
        return Refused(MissingPersona);
      }
      if a == b {
        return Refused(SameIdentity);
      }
      var bucket := Bucket(blocks, a);
      var changed := false;
      if blocked {
        if b !in bucket {
          bucket := bucket + {b};
          changed := true;
        }
        assert bucket == Bucket(old(blocks), a) + {b};
        var dropped := Drop(a, b, true);
        changed := changed || dropped;
      } else if b in bucket {
        bucket := bucket - {b};
        changed := true;
      }
      assert !blocked ==> bucket == Bucket(old(blocks), a) - {b};
      if bucket == {} {
        blocks := blocks - {a};
      } else {
        blocks := blocks[a := bucket];
      }
      assert !blocked ==> blocks == Unblock(old(blocks), a, b);
      assert blocked ==> blocks == Join(old(blocks), a, b);
      return RelationResult(true, if blocked then Blocked else Unblocked, changed);
    }
  }

  /** Relations kept in the table of the shared database; every method is one transaction. */
  class TableService {
    const personas: map<Key, int>
    var rows: Table

    constructor (personas: map<Key, int>)
      ensures this.personas == personas && rows == {}
    {
      this.personas := personas;
      rows := {};
    }

    method RequestFriend(a: Key, b: Key) returns (r: RelationResult)
      modifies this
      ensures (rows, r) == TableRequest(personas, old(rows), a, b)
    {
      if a == "" || b == "" {
        return Refused(MissingPersona);
      }
      if a == b {
        return Refused(SameIdentity);
      }
      if a !in personas || b !in personas {
        return Refused(TargetNotFound);
      }
      var x, y := personas[a], personas[b];
      if Row(x, y, Block) in rows || Row(y, x, Block) in rows {
        return Refused(Blocked);
      }
      if Row(x, y, Friend) in rows {
        return RelationResult(true, AlreadyFriends, false);
      }
      var reverse, outgoing := Row(y, x, Pending) in rows, Row(x, y, Pending) in rows;
      if reverse {
        rows := rows - {Row(x, y, Pending), Row(y, x, Pending)};
        rows := rows + {Row(x, y, Friend), Row(y, x, Friend)};
        r := RelationResult(true, Accepted, true);
      } else if outgoing {
        r := RelationResult(true, AlreadyPending, false);
      } else {
        rows := rows + {Row(x, y, Pending)};
        r := RelationResult(true, Requested, true);
      }
    }

    method RespondFriend(a: Key, b: Key, accept: bool) returns (r: RelationResult)
      modifies this
      ensures (rows, r) == TableRespond(personas, old(rows), a, b, accept)
    {
      if a == "" || b == "" {
        return Refused(MissingPersona);
      }
      if a !in personas || b !in personas {
        return Refused(TargetNotFound);
      }
      var x, y := personas[a], personas[b];
      if Row(y, x, Pending) !in rows {
        return Refused(RequestNotFound);
      }
      rows := rows - {Row(y, x, Pending)};
      if accept {
        rows := rows + {Row(x, y, Friend), Row(y, x, Friend)};
      }
      return RelationResult(true, if accept then Accepted else Declined, true);
    }

    method RemoveFriend(a: Key, b: Key) returns (r: RelationResult)
      modifies this
      ensures (rows, r) == TableRemove(personas, old(rows), a, b)
    {
      if a == "" || b == "" {
        return Refused(MissingPersona);
      }
      if a !in personas || b !in personas {
        return RelationResult(true, NotPresent, false);
      }
      var before := rows;
      rows := rows - Links(personas[a], personas[b]);
      var changed := |before - rows| > 0;
      assert before - rows == before * Links(personas[a], personas[b]);
      assert rows == before - before * Links(personas[a], personas[b]);
      return RelationResult(true, if changed then Removed else NotPresent, changed);
    }

    method SetBlocked(a: Key, b: Key, blocked: bool) returns (r: RelationResult)
      modifies this
      ensures (rows, r) == TableSetBlock(personas, old(rows), a, b, blocked)
    {
      if a == "" || b == "" {
        return Refused(MissingPersona);
      }
      if a == b {
        return Refused(SameIdentity);
      }
      if a !in personas || b !in personas {
        return Refused(TargetNotFound);
      }
      var x, y := personas[a], personas[b];
      var changes := if blocked != (Row(x, y, Block) in rows) then 1 else 0;
      if blocked {
        rows := rows + {Row(x, y, Block)};
        changes := changes + |rows * Links(x, y)|;
        assert rows * Links(x, y) == old(rows) * Links(x, y);
        rows := rows - Links(x, y);
        assert rows == old(rows) + {Row(x, y, Block)} - old(rows) * Links(x, y);
      } else {
        rows := rows - {Row(x, y, Block)};
      }
      return RelationResult(true, if blocked then Blocked else Unblocked, changes > 0);
    }
  }
}
