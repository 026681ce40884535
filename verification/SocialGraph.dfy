/**
 Friend requests, friendships and blocks (server/common/social.py): the dictionaries of
 one service and the relation table of the other, over persona keys ("" when missing).
 */
module SocialGraph {
  type Key = string

  datatype Reason =
    | MissingPersona | SameIdentity | TargetNotFound | RequestNotFound | Blocked | Unblocked
    | AlreadyFriends | AlreadyPending | Requested | Accepted | Declined | Removed | NotPresent

  datatype RelationResult = RelationResult(accepted: bool, reason: Reason, changed: bool)

  function Refused(reason: Reason): RelationResult {
    RelationResult(false, reason, false)
  }

  datatype Operation =
    | Request(owner: Key, target: Key)
    | Respond(owner: Key, target: Key, accept: bool)
    | Remove(owner: Key, target: Key)
    | SetBlocked(owner: Key, target: Key, blocked: bool)

  // ----- dictionaries

  type Buckets = map<Key, set<Key>>

  datatype Graph = Graph(friends: Buckets, pending: set<(Key, Key)>, blocks: Buckets)

  const EMPTY_GRAPH := Graph(map[], {}, map[])

  function Bucket(buckets: Buckets, owner: Key): set<Key> {
    if owner in buckets then buckets[owner] else {}
  }

  function Join(buckets: Buckets, owner: Key, target: Key): Buckets {
    buckets[owner := Bucket(buckets, owner) + {target}]
  }

  /** `discard` in a bucket that need not exist; whether an emptied bucket stays is up to the caller. */
  function Leave(buckets: Buckets, owner: Key, target: Key, keepEmpty: bool): Buckets {
    if target !in Bucket(buckets, owner) then buckets
    else
      var rest := buckets[owner] - {target};
      if rest == {} && !keepEmpty then buckets - {owner} else buckets[owner := rest]
  }

  /** `discard` in a bucket that is made when missing, and dropped when it ends up empty. */
  function Unblock(blocks: Buckets, owner: Key, target: Key): Buckets {
    var rest := Bucket(blocks, owner) - {target};
    if rest == {} then blocks - {owner} else blocks[owner := rest]
  }

  function Befriend(friends: Buckets, a: Key, b: Key): Buckets {
    Join(Join(friends, a, b), b, a)
  }

  predicate HasFriend(g: Graph, a: Key, b: Key) {
    b in Bucket(g.friends, a)
  }

  predicate HasBlocked(g: Graph, a: Key, b: Key) {
    b in Bucket(g.blocks, a)
  }

  predicate IsBlocked(g: Graph, a: Key, b: Key) {
    HasBlocked(g, a, b) || HasBlocked(g, b, a)
  }

  predicate Linked(g: Graph, a: Key, b: Key) {
    HasFriend(g, a, b) || HasFriend(g, b, a) || (a, b) in g.pending || (b, a) in g.pending
  }

  /** Friendship and requests between the two, in both directions, are gone. */
  function Unlink(g: Graph, a: Key, b: Key, keepEmpty: bool): Graph {
    g.(friends := Leave(Leave(g.friends, a, b, keepEmpty), b, a, keepEmpty), pending := g.pending - {(a, b), (b, a)})
  }

  function RequestFriend(g: Graph, a: Key, b: Key): (Graph, RelationResult) {
    if a == "" || b == "" then (g, Refused(MissingPersona))
    else if a == b then (g, Refused(SameIdentity))
    else if IsBlocked(g, a, b) then (g, Refused(Blocked))
    else if HasFriend(g, a, b) then (g, RelationResult(true, AlreadyFriends, false))
    else if (b, a) in g.pending then
      (g.(friends := Befriend(g.friends, a, b), pending := g.pending - {(b, a)}), RelationResult(true, Accepted, true))
    else if (a, b) in g.pending then (g, RelationResult(true, AlreadyPending, false))
    else (g.(pending := g.pending + {(a, b)}), RelationResult(true, Requested, true))
  }

  function RespondFriend(g: Graph, a: Key, b: Key, accept: bool): (Graph, RelationResult) {
    if a == "" || b == "" then (g, Refused(MissingPersona))
    else if (b, a) !in g.pending then (g, Refused(RequestNotFound))
    else if accept then
      (g.(friends := Befriend(g.friends, a, b), pending := g.pending - {(b, a)}), RelationResult(true, Accepted, true))
    else (g.(pending := g.pending - {(b, a)}), RelationResult(true, Declined, true))
  }

  function RemoveFriend(g: Graph, a: Key, b: Key): (Graph, RelationResult) {
    if a == "" || b == "" then (g, Refused(MissingPersona))
    else (Unlink(g, a, b, false),
      RelationResult(true, if Linked(g, a, b) then Removed else NotPresent, Linked(g, a, b)))
  }

  function SetBlock(g: Graph, a: Key, b: Key, blocked: bool): (Graph, RelationResult) {
    if a == "" || b == "" then (g, Refused(MissingPersona))
    else if a == b then (g, Refused(SameIdentity))
    else if blocked then
      (Unlink(g, a, b, true).(blocks := Join(g.blocks, a, b)),
       RelationResult(true, Blocked, !HasBlocked(g, a, b) || Linked(g, a, b)))
    else
      (g.(blocks := Unblock(g.blocks, a, b)), RelationResult(true, Unblocked, HasBlocked(g, a, b)))
  }

  function GraphStep(g: Graph, op: Operation): (Graph, RelationResult) {
    match op
    case Request(a, b) => RequestFriend(g, a, b)
    case Respond(a, b, accept) => RespondFriend(g, a, b, accept)
    case Remove(a, b) => RemoveFriend(g, a, b)
    case SetBlocked(a, b, blocked) => SetBlock(g, a, b, blocked)
  }

  // ----- the relation table

  datatype Relation = Friend | Pending | Block
  datatype Row = Row(source: int, target: int, relation: Relation)
  type Table = set<Row>

  function Links(x: int, y: int): Table {
    {Row(x, y, Friend), Row(y, x, Friend), Row(x, y, Pending), Row(y, x, Pending)}
  }

  function TableRequest(personas: map<Key, int>, t: Table, a: Key, b: Key): (Table, RelationResult) {
    if a == "" || b == "" then (t, Refused(MissingPersona))
    else if a == b then (t, Refused(SameIdentity))
    else if a !in personas || b !in personas then (t, Refused(TargetNotFound))
    else
      var (x, y) := (personas[a], personas[b]);
      if Row(x, y, Block) in t || Row(y, x, Block) in t then (t, Refused(Blocked))
      else if Row(x, y, Friend) in t then (t, RelationResult(true, AlreadyFriends, false))
      else if Row(y, x, Pending) in t then
        (t - {Row(x, y, Pending), Row(y, x, Pending)} + {Row(x, y, Friend), Row(y, x, Friend)},
          RelationResult(true, Accepted, true))
      else if Row(x, y, Pending) in t then (t, RelationResult(true, AlreadyPending, false))
      else (t + {Row(x, y, Pending)}, RelationResult(true, Requested, true))
  }

  function TableRespond(personas: map<Key, int>, t: Table, a: Key, b: Key, accept: bool): (Table, RelationResult) {
    if a == "" || b == "" then (t, Refused(MissingPersona))
    else if a !in personas || b !in personas then (t, Refused(TargetNotFound))
    else
      var (x, y) := (personas[a], personas[b]);
      if Row(y, x, Pending) !in t then (t, Refused(RequestNotFound))
      else if accept then
        (t - {Row(y, x, Pending)} + {Row(x, y, Friend), Row(y, x, Friend)}, RelationResult(true, Accepted, true))
      else (t - {Row(y, x, Pending)}, RelationResult(true, Declined, true))
  }

  function TableRemove(personas: map<Key, int>, t: Table, a: Key, b: Key): (Table, RelationResult) {
    if a == "" || b == "" then (t, Refused(MissingPersona))
    else if a !in personas || b !in personas then (t, RelationResult(true, NotPresent, false))
    else
      var doomed := t * Links(personas[a], personas[b]);
      (t - doomed, RelationResult(true, if doomed != {} then Removed else NotPresent, doomed != {}))
  }

  function TableSetBlock(personas: map<Key, int>, t: Table, a: Key, b: Key, blocked: bool): (Table, RelationResult) {
    if a == "" || b == "" then (t, Refused(MissingPersona))
    else if a == b then (t, Refused(SameIdentity))
    else if a !in personas || b !in personas then (t, Refused(TargetNotFound))
    else
      var block := Row(personas[a], personas[b], Block);
      if blocked then
        var doomed := t * Links(personas[a], personas[b]);
        (t + {block} - doomed, RelationResult(true, Blocked, block !in t || doomed != {}))
      else (t - {block}, RelationResult(true, Unblocked, block in t))
  }

  function TableStep(personas: map<Key, int>, t: Table, op: Operation): (Table, RelationResult) {
    match op
    case Request(a, b) => TableRequest(personas, t, a, b)
    case Respond(a, b, accept) => TableRespond(personas, t, a, b, accept)
    case Remove(a, b) => TableRemove(personas, t, a, b)
    case SetBlocked(a, b, blocked) => TableSetBlock(personas, t, a, b, blocked)
  }

  // ----- what every reachable graph satisfies

  ghost predicate Consistent(g: Graph) {
    forall a, b :: ConsistentPair(g, a, b)
  }

  predicate ConsistentPair(g: Graph, a: Key, b: Key) {
    && (HasFriend(g, a, b) ==>
      a != b && HasFriend(g, b, a) && (a, b) !in g.pending && !HasBlocked(g, a, b) && !HasBlocked(g, b, a))
    && ((a, b) in g.pending ==> a != b && (b, a) !in g.pending && !HasBlocked(g, a, b) && !HasBlocked(g, b, a))
    && (HasBlocked(g, a, b) ==> a != b)
  }

  lemma Joined(buckets: Buckets, owner: Key, target: Key)
    ensures forall a, b ::
      b in Bucket(Join(buckets, owner, target), a) <==> b in Bucket(buckets, a) || (a == owner && b == target)
  {
  }

  lemma Left(buckets: Buckets, owner: Key, target: Key, keepEmpty: bool)
    ensures forall a, b ::
      b in Bucket(Leave(buckets, owner, target, keepEmpty), a) <==>
        b in Bucket(buckets, a) && !(a == owner && b == target)
  {
  }

  predicate SamePair(a: Key, b: Key, x: Key, y: Key) {
    (a == x && b == y) || (a == y && b == x)
  }

  lemma Befriended(friends: Buckets, x: Key, y: Key)
    ensures forall a, b :: b in Bucket(Befriend(friends, x, y), a) <==> b in Bucket(friends, a) || SamePair(a, b, x, y)
  {
    Joined(friends, x, y);
    Joined(Join(friends, x, y), y, x);
  }

  lemma Unlinked(g: Graph, x: Key, y: Key, keepEmpty: bool)
    ensures forall a, b :: HasFriend(Unlink(g, x, y, keepEmpty), a, b) <==> HasFriend(g, a, b) && !SamePair(a, b, x, y)
    ensures forall a, b :: (a, b) in Unlink(g, x, y, keepEmpty).pending <==>
      (a, b) in g.pending && !SamePair(a, b, x, y)
  {
    Left(g.friends, x, y, keepEmpty);
    Left(Leave(g.friends, x, y, keepEmpty), y, x, keepEmpty);
  }

  /** The relations after an operation, pair by pair, whatever the buckets look like. */
  predicate FriendAfter(g: Graph, op: Operation, r: RelationResult, a: Key, b: Key) {
    var same := SamePair(a, b, op.owner, op.target);
    if same && r.reason == Accepted then true
    else if same && (op.Remove? || op.SetBlocked?) && (r.reason == Removed || r.reason == Blocked) then false
    else HasFriend(g, a, b)
  }

  predicate PendingAfter(g: Graph, op: Operation, r: RelationResult, a: Key, b: Key) {
    if a == op.target && b == op.owner && (r.reason == Accepted || r.reason == Declined) then false
    else if a == op.owner && b == op.target && r.reason == Requested then true
    else if SamePair(a, b, op.owner, op.target) && (op.Remove? || op.SetBlocked?)
      && (r.reason == Removed || r.reason == Blocked) then false
    else (a, b) in g.pending
  }

  predicate BlockedAfter(g: Graph, op: Operation, r: RelationResult, a: Key, b: Key) {
    if op.SetBlocked? && r.accepted && a == op.owner && b == op.target then op.blocked
    else HasBlocked(g, a, b)
  }

  lemma UnblockedLeft(blocks: Buckets, x: Key, y: Key)
    ensures forall a, b :: b in Bucket(Unblock(blocks, x, y), a) <==> b in Bucket(blocks, a) && !(a == x && b == y)
  {
  }

  lemma PairAfter(g: Graph, op: Operation)
    ensures var (h, r) := GraphStep(g, op);
      && (forall a, b :: HasFriend(h, a, b) <==> FriendAfter(g, op, r, a, b))
      && (forall a, b :: (a, b) in h.pending <==> PendingAfter(g, op, r, a, b))
      && (forall a, b :: HasBlocked(h, a, b) <==> BlockedAfter(g, op, r, a, b))
  {
    var (x, y) := (op.owner, op.target);
    match op
    case Request(_, _) => Befriended(g.friends, x, y);
    case Respond(_, _, _) => Befriended(g.friends, x, y);
    case Remove(_, _) => Unlinked(g, x, y, false);
    case SetBlocked(_, _, _) =>
      Unlinked(g, x, y, true);
      Joined(g.blocks, x, y);
      UnblockedLeft(g.blocks, x, y);
  }

  /** Friendship stays symmetric, a pair is never pending both ways, and the three relations stay exclusive. */
  lemma StaysConsistent(g: Graph, op: Operation)
    requires Consistent(g)
    ensures Consistent(GraphStep(g, op).0)
  {
    var (h, r) := GraphStep(g, op);
    PairAfter(g, op);
    forall a, b ensures ConsistentPair(h, a, b) {
      assert ConsistentPair(g, a, b) && ConsistentPair(g, b, a);
      assert ConsistentPair(g, op.owner, op.target) && ConsistentPair(g, op.target, op.owner);
    }
  }
}
