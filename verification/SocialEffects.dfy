/**
 What an operation does to the relations, and what it answers, from the relations before it
 (server/common/social.py).
 */
module SocialEffects {
  import opened SocialGraph

  predicate Named(op: Operation) {
    op.owner != "" && op.target != ""
  }

  /** The target has asked the owner. */
  predicate Awaited(g: Graph, op: Operation) {
    (op.target, op.owner) in g.pending
  }

  /** A request that nothing stands in the way of. */
  predicate MayRequest(g: Graph, op: Operation) {
    && op.Request? && Named(op) && op.owner != op.target
    && !HasBlocked(g, op.owner, op.target) && !HasBlocked(g, op.target, op.owner)
  }

  /** The two become friends: by a request that meets the other's, or by accepting it. */
  predicate Befriends(g: Graph, op: Operation) {
    Awaited(g, op) && if op.Respond? then Named(op) && op.accept else MayRequest(g, op)
  }

  predicate Declines(g: Graph, op: Operation) {
    op.Respond? && Named(op) && !op.accept && Awaited(g, op)
  }

  /** A request between two who are neither friends nor waiting for each other. */
  predicate Asks(g: Graph, op: Operation) {
    && MayRequest(g, op) && !HasFriend(g, op.owner, op.target)
    && (op.owner, op.target) !in g.pending && !Awaited(g, op)
  }

  /** Removing a friend and blocking somebody end friendship and requests. */
  predicate Ends(op: Operation) {
    Named(op) && (op.Remove? || (op.SetBlocked? && op.blocked && op.owner != op.target))
  }

  predicate OwnPair(op: Operation, a: Key, b: Key) {
    SamePair(a, b, op.owner, op.target)
  }

  /** The relations of every pair after an operation. */
  ghost predicate RelationsAfter(g: Graph, op: Operation, h: Graph, a: Key, b: Key) {
    && (HasFriend(h, a, b) <==>
          if OwnPair(op, a, b) && Befriends(g, op) then true
          else if OwnPair(op, a, b) && Ends(op) then false else HasFriend(g, a, b))
    && ((a, b) in h.pending <==>
          if a == op.owner && b == op.target && Asks(g, op) then true
          else if OwnPair(op, a, b) && (Befriends(g, op) || Declines(g, op) || Ends(op)) then false
          else (a, b) in g.pending)
    && (HasBlocked(h, a, b) <==>
          if op.SetBlocked? && Named(op) && op.owner != op.target && a == op.owner && b == op.target then op.blocked
          else HasBlocked(g, a, b))
  }

  lemma EffectOf(g: Graph, op: Operation, a: Key, b: Key)
    requires Consistent(g)
    ensures RelationsAfter(g, op, GraphStep(g, op).0, a, b)
  {
    PairAfter(g, op);
    assert ConsistentPair(g, op.owner, op.target) && ConsistentPair(g, op.target, op.owner);
    assert ConsistentPair(g, a, b);
  }

  /** When an operation is accepted. */
  lemma AcceptedIff(g: Graph, op: Operation)
    requires Consistent(g)
    ensures GraphStep(g, op).1.accepted <==>
      match op
      case Request(_, _) => MayRequest(g, op)
      case Respond(_, _, _) => Named(op) && Awaited(g, op)
      case Remove(_, _) => Named(op)
      case SetBlocked(_, _, _) => Named(op) && op.owner != op.target
  {
  }

  /** It reports a change exactly when some relation changed. */
  lemma ChangedIff(g: Graph, op: Operation)
    requires Consistent(g)
    ensures var (h, r) := GraphStep(g, op);
      r.changed <==> exists a, b :: Differ(g, h, a, b)
  {
    var (h, r) := GraphStep(g, op);
    var (x, y) := (op.owner, op.target);
    forall a, b ensures RelationsAfter(g, op, h, a, b) {
      EffectOf(g, op, a, b);
    }
    assert ConsistentPair(g, x, y) && ConsistentPair(g, y, x);
    if r.changed {
      assert Differ(g, h, x, y) || Differ(g, h, y, x);
    }
    if exists a, b :: Differ(g, h, a, b) {
      var a, b :| Differ(g, h, a, b);
      assert RelationsAfter(g, op, h, a, b);
    }
  }

  predicate Differ(g: Graph, h: Graph, a: Key, b: Key) {
    || HasFriend(g, a, b) != HasFriend(h, a, b)
    || ((a, b) in g.pending) != ((a, b) in h.pending)
    || HasBlocked(g, a, b) != HasBlocked(h, a, b)
  }

  /** The reason of every answer. */
  lemma ReasonIff(g: Graph, op: Operation)
    requires Consistent(g)
    ensures var reason := GraphStep(g, op).1.reason;
      && (reason == MissingPersona <==> !Named(op))
      && (reason == SameIdentity <==> Named(op) && op.owner == op.target && (op.Request? || op.SetBlocked?))
      && (reason == RequestNotFound <==> op.Respond? && Named(op) && !Awaited(g, op))
      && (reason == Accepted <==> Befriends(g, op)) && (reason == Declined <==> Declines(g, op))
      && (reason == Requested <==> Asks(g, op))
      && (reason == AlreadyFriends <==> MayRequest(g, op) && HasFriend(g, op.owner, op.target))
      && (reason == AlreadyPending <==> MayRequest(g, op) && (op.owner, op.target) in g.pending)
      && (reason == Removed <==> op.Remove? && Named(op) && Linked(g, op.owner, op.target))
      && (reason == NotPresent <==> op.Remove? && Named(op) && !Linked(g, op.owner, op.target))
      && (reason == Unblocked <==> op.SetBlocked? && Named(op) && op.owner != op.target && !op.blocked)
      && reason != TargetNotFound
  {
    assert ConsistentPair(g, op.owner, op.target) && ConsistentPair(g, op.target, op.owner);
  }
}
