/** A token is what the events of its run made it: its fields, its existence and its acceptance, told by
    the history of token handlers (backend/app/routers/tokens.py). */
module TokenHistory {
  import opened Prelude
  import opened OperationIdentity
  import opened SchemaSync
  import opened Authorization
  import opened AuthorizationSafety
  import Matcher = OperationMatcher

  predicate Creates(event: Event, tokenId: string) {
    event.Create? && event.tokenId == tokenId
  }

  /** The owner's PATCH of the token. */
  predicate Patches(event: Event, owner: int, tokenId: string) {
    event.Update? && event.tokenId == tokenId && event.user == owner
  }

  predicate Revokes(event: Event, owner: int, tokenId: string) {
    event.Revoke? && event.tokenId == tokenId && event.user == owner
  }

  predicate Deletes(event: Event, owner: int, tokenId: string) {
    event.Delete? && event.tokenId == tokenId && event.user == owner
  }

  /** The event gives the token a name, or an expiry. */
  predicate SetsName(event: Event, owner: int, tokenId: string) {
    Creates(event, tokenId) || (Patches(event, owner, tokenId) && event.patch.name.Some?)
  }

  function NameGiven(event: Event): string
    requires event.Create? || (event.Update? && event.patch.name.Some?)
  {
    if event.Create? then event.name else event.patch.name.value
  }

  predicate SetsExpiry(event: Event, owner: int, tokenId: string) {
    Creates(event, tokenId) || (Patches(event, owner, tokenId) && event.patch.expiresAt.Some?)
  }

  function ExpiryGiven(event: Event): Option<int>
    requires event.Create? || (event.Update? && event.patch.expiresAt.Some?)
  {
    if event.Create? then event.expiresAt else event.patch.expiresAt.value
  }

  // ---------- one step ----------

  /** A created token holds what its request said, and is neither revoked nor used. */
  lemma {:induction false} CreateStep(s: State, event: Event)
    requires event.Create?
    ensures var tokens := Step(s, event).tokens;
      && tokens.Keys == s.tokens.Keys + {event.tokenId}
      && tokens[event.tokenId].userId == event.user && tokens[event.tokenId].name == event.name
      && tokens[event.tokenId].tokenHash == event.raw && tokens[event.tokenId].expiresAt == event.expiresAt
      && tokens[event.tokenId].revokedAt.None? && tokens[event.tokenId].lastUsedAt.None?
      && forall id <- s.tokens :: id != event.tokenId ==> tokens[id] == s.tokens[id]
  {
  }

  /** A token stays, unless its owner deletes it revoked; an event creates no other one. */
  lemma {:induction false} StayStep(s: State, event: Event, tokenId: string)
    requires !Creates(event, tokenId)
    ensures tokenId in Step(s, event).tokens <==>
      && tokenId in s.tokens
      && !(Deletes(event, s.tokens[tokenId].userId, tokenId) && s.tokens[tokenId].revokedAt.Some?)
  {
  }

  /** What any other event makes of a token that stays. */
  lemma {:induction false} FieldsStep(s: State, event: Event, tokenId: string)
    requires !Creates(event, tokenId) && tokenId in s.tokens && tokenId in Step(s, event).tokens
    ensures var t, t' := s.tokens[tokenId], Step(s, event).tokens[tokenId];
      && t'.userId == t.userId && t'.tokenHash == t.tokenHash
      && t'.name == (if SetsName(event, t.userId, tokenId) then NameGiven(event) else t.name)
      && t'.expiresAt == (if SetsExpiry(event, t.userId, tokenId) then ExpiryGiven(event) else t.expiresAt)
      && t'.revokedAt == (if t.revokedAt.None? && Revokes(event, t.userId, tokenId) then Some(event.now) else t.revokedAt)
      && t'.lastUsedAt == (if event.Responded? && event.tokenId == tokenId then Some(event.now) else t.lastUsedAt)
  {
  }

  // ---------- over a run ----------

  /** Event c created the token, and no later one did again. */
  ghost predicate Created(events: seq<Event>, c: int, tokenId: string) {
    0 <= c < |events| && Creates(events[c], tokenId) && forall k :: c < k < |events| ==> !Creates(events[k], tokenId)
  }

  ghost predicate NamedBy(events: seq<Event>, k: int, owner: int, tokenId: string) {
    && 0 <= k < |events| && SetsName(events[k], owner, tokenId)
    && forall j :: k < j < |events| ==> !SetsName(events[j], owner, tokenId)
  }

  ghost predicate ExpiresBy(events: seq<Event>, k: int, owner: int, tokenId: string) {
    && 0 <= k < |events| && SetsExpiry(events[k], owner, tokenId)
    && forall j :: k < j < |events| ==> !SetsExpiry(events[j], owner, tokenId)
  }

  /** Event r is the first after event c by which the owner revokes the token. */
  ghost predicate RevokedBy(events: seq<Event>, c: int, r: int, owner: int, tokenId: string) {
    && 0 <= c < r < |events| && Revokes(events[r], owner, tokenId)
    && forall k :: c < k < r ==> !Revokes(events[k], owner, tokenId)
  }

  ghost predicate NeverRevoked(events: seq<Event>, c: int, owner: int, tokenId: string)
    requires 0 <= c
  {
    forall k :: c < k < |events| ==> !Revokes(events[k], owner, tokenId)
  }

  /** The token before the last event, if that event did not create it. */
  lemma {:induction false} Earlier(events: seq<Event>, tokenId: string)
    requires events != [] && tokenId in After(events).tokens && !Creates(events[|events| - 1], tokenId)
    ensures tokenId in After(events[..|events| - 1]).tokens
    ensures After(events[..|events| - 1]).tokens[tokenId].userId == After(events).tokens[tokenId].userId
  {
    var n := |events| - 1;
    StayStep(After(events[..n]), events[n], tokenId);
    FieldsStep(After(events[..n]), events[n], tokenId);
  }

  /** Owner and hash are those of the creation. */
  lemma {:induction false} CreationOf(events: seq<Event>, tokenId: string) returns (c: nat)
    requires tokenId in After(events).tokens
    ensures Created(events, c, tokenId)
    ensures After(events).tokens[tokenId].userId == events[c].user
    ensures After(events).tokens[tokenId].tokenHash == events[c].raw
  {
    var n := |events| - 1;
    var s := After(events[..n]);
    if Creates(events[n], tokenId) {
      CreateStep(s, events[n]);
      c := n;
    } else {
      Earlier(events, tokenId);
      FieldsStep(s, events[n], tokenId);
      c := CreationOf(events[..n], tokenId);
    }
  }

  /** The name is the one last given, by the creation or the owner. */
  lemma {:induction false} NameOf(events: seq<Event>, tokenId: string) returns (k: nat)
    requires tokenId in After(events).tokens
    ensures NamedBy(events, k, After(events).tokens[tokenId].userId, tokenId)
    ensures After(events).tokens[tokenId].name == NameGiven(events[k])
  {
    var n := |events| - 1;
    var s := After(events[..n]);
    if Creates(events[n], tokenId) {
      CreateStep(s, events[n]);
      k := n;
    } else {
      Earlier(events, tokenId);
      FieldsStep(s, events[n], tokenId);
      if SetsName(events[n], s.tokens[tokenId].userId, tokenId) {
        k := n;
      } else {
        k := NameOf(events[..n], tokenId);
      }
    }
  }

  /** The expiry is the one of the owner's most recent PATCH that carries one, else of the creation. */
  lemma {:induction false} ExpiryOf(events: seq<Event>, tokenId: string) returns (k: nat)
    requires tokenId in After(events).tokens
    ensures ExpiresBy(events, k, After(events).tokens[tokenId].userId, tokenId)
    ensures After(events).tokens[tokenId].expiresAt == ExpiryGiven(events[k])
  {
    var n := |events| - 1;
    var s := After(events[..n]);
    if Creates(events[n], tokenId) {
      CreateStep(s, events[n]);
      k := n;
    } else {
      Earlier(events, tokenId);
      FieldsStep(s, events[n], tokenId);
      if SetsExpiry(events[n], s.tokens[tokenId].userId, tokenId) {
        k := n;
      } else {
        k := ExpiryOf(events[..n], tokenId);
      }
    }
  }

  /** The revocation is the owner's first one since the creation, if there is any. */
  ghost predicate RevocationIs(events: seq<Event>, c: int, owner: int, tokenId: string, revokedAt: Option<int>)
    requires 0 <= c
  {
    match revokedAt
    case None => NeverRevoked(events, c, owner, tokenId)
    case Some(t) => exists r :: RevokedBy(events, c, r, owner, tokenId) && events[r].now == t
  }

  lemma {:induction false} RevocationLater(events: seq<Event>, c: nat, owner: int, tokenId: string, before: Option<int>)
    requires events != [] && c < |events| - 1
    requires RevocationIs(events[..|events| - 1], c, owner, tokenId, before)
    ensures var event := events[|events| - 1];
      RevocationIs(events, c, owner, tokenId,
                   if before.None? && Revokes(event, owner, tokenId) then Some(event.now) else before)
  {
    var n := |events| - 1;
    if before.Some? {
      var r :| RevokedBy(events[..n], c, r, owner, tokenId) && events[..n][r].now == before.value;
      assert RevokedBy(events, c, r, owner, tokenId);
    } else if Revokes(events[n], owner, tokenId) {
      assert RevokedBy(events, c, n, owner, tokenId);
    }
  }

  lemma {:induction false} RevocationOf(events: seq<Event>, c: nat, tokenId: string)
    requires tokenId in After(events).tokens && Created(events, c, tokenId)
    ensures RevocationIs(events, c, After(events).tokens[tokenId].userId, tokenId, After(events).tokens[tokenId].revokedAt)
  {
    var n := |events| - 1;
    var s := After(events[..n]);
    if c == n {
      CreateStep(s, events[n]);
    } else {
      Earlier(events, tokenId);
      FieldsStep(s, events[n], tokenId);
      RevocationOf(events[..n], c, tokenId);
      RevocationLater(events, c, s.tokens[tokenId].userId, tokenId, s.tokens[tokenId].revokedAt);
    }
  }

  /** Event r revokes the token after its creation, and a later event d deletes it. */
  ghost predicate Ended(events: seq<Event>, c: int, r: int, d: int, owner: int, tokenId: string) {
    0 <= c < r < d < |events| && Revokes(events[r], owner, tokenId) && Deletes(events[d], owner, tokenId)
  }

  /** A created token that is gone was revoked and then deleted by its owner. */
  lemma {:induction false} GoneWasEnded(events: seq<Event>, c: nat, tokenId: string) returns (r: int, d: int)
    requires Created(events, c, tokenId) && tokenId !in After(events).tokens
    ensures Ended(events, c, r, d, events[c].user, tokenId)
  {
    var n := |events| - 1;
    var s := After(events[..n]);
    if c == n {
      CreateStep(s, events[n]);
      assert false;
    } else if tokenId in s.tokens {
      StayStep(s, events[n], tokenId);
      var c' := CreationOf(events[..n], tokenId);
      assert c' == c;
      RevocationOf(events[..n], c, tokenId);
      r :| RevokedBy(events[..n], c, r, events[c].user, tokenId);
      d := n;
    } else {
      r, d := GoneWasEnded(events[..n], c, tokenId);
    }
  }

  /** Without a later creation, a token that is gone stays away. */
  lemma {:induction false} StaysGone(events: seq<Event>, i: nat, tokenId: string)
    requires i <= |events| && tokenId !in After(events[..i]).tokens
    requires forall k :: i <= k < |events| ==> !Creates(events[k], tokenId)
    ensures tokenId !in After(events).tokens
    decreases |events|
  {
    var n := |events| - 1;
    if i <= n {
      assert events[..n][..i] == events[..i];
      StaysGone(events[..n], i, tokenId);
      StayStep(After(events[..n]), events[n], tokenId);
    } else {
      assert events[..i] == events;
    }
  }

  lemma {:induction false} EndedIsGone(events: seq<Event>, c: nat, r: int, d: int, tokenId: string)
    requires Created(events, c, tokenId) && Ended(events, c, r, d, events[c].user, tokenId)
    ensures tokenId !in After(events).tokens
  {
    var before := events[..d];
    assert events[..d + 1][..d] == before;
    if tokenId in After(before).tokens {
      var c' := CreationOf(before, tokenId);
      assert before[c] == events[c] && c' == c;
      RevocationOf(before, c, tokenId);
      assert before[r] == events[r];
      assert After(before).tokens[tokenId].revokedAt.Some?;
    }
    StayStep(After(before), events[d], tokenId);
    StaysGone(events, d + 1, tokenId);
  }

  /** Exactly the tokens of a reachable state: those created and not since revoked and then deleted by
      their owner. */
  lemma {:induction false} ExistsIff(events: seq<Event>, tokenId: string)
    ensures tokenId in After(events).tokens <==>
      exists c: nat :: Created(events, c, tokenId) && forall r, d :: !Ended(events, c, r, d, events[c].user, tokenId)
  {
    if tokenId in After(events).tokens {
      var c := CreationOf(events, tokenId);
      forall r, d
        ensures !Ended(events, c, r, d, events[c].user, tokenId)
      {
        if Ended(events, c, r, d, events[c].user, tokenId) {
          EndedIsGone(events, c, r, d, tokenId);
        }
      }
    } else {
      forall c: nat | Created(events, c, tokenId)
        ensures exists r, d :: Ended(events, c, r, d, events[c].user, tokenId)
      {
        var r, d := GoneWasEnded(events, c, tokenId);
      }
    }
  }

  // ---------- acceptance ----------

  /** Event c created the token with the value of the header, its owner never revoked it since, and the
      expiry that event k gave last has not come. */
  ghost predicate Accepted(events: seq<Event>, c: nat, k: nat, header: Option<string>, now: int, tokenId: string) {
    && Created(events, c, tokenId) && Bears(header, events[c].raw)
    && NeverRevoked(events, c, events[c].user, tokenId)
    && ExpiresBy(events, k, events[c].user, tokenId)
    && (ExpiryGiven(events[k]).None? || now < ExpiryGiven(events[k]).value)
  }

  lemma {:induction false} PresentedIsAccepted(events: seq<Event>, header: Option<string>, now: int, tokenId: string)
    returns (c: nat, k: nat)
    requires tokenId in After(events).tokens && Presents(header, After(events).tokens[tokenId], now)
    ensures Accepted(events, c, k, header, now, tokenId)
  {
    c := CreationOf(events, tokenId);
    k := ExpiryOf(events, tokenId);
    RevocationOf(events, c, tokenId);
  }

  lemma {:induction false} AcceptedIsPresented(events: seq<Event>, c: nat, k: nat,
                                               header: Option<string>, now: int, tokenId: string)
    requires Accepted(events, c, k, header, now, tokenId)
    ensures tokenId in After(events).tokens && Presents(header, After(events).tokens[tokenId], now)
  {
    if tokenId !in After(events).tokens {
      var r, d := GoneWasEnded(events, c, tokenId);
    }
    var c' := CreationOf(events, tokenId);
    var k' := ExpiryOf(events, tokenId);
    assert c' == c && k' == k;
    RevocationOf(events, c, tokenId);
  }

  /** Over every run: a header is accepted for a token exactly when its creation issued the value, its
      owner has not revoked it, and the expiry in force - of the owner's most recent PATCH that carries
      one, else of the creation - has not come. */
  lemma {:induction false} AcceptedByHistoryIff(events: seq<Event>, header: Option<string>, now: int, tokenId: string)
    requires FreshTokens(events)
    ensures Authenticate(After(events).tokens, header, now) == Authenticated(tokenId) <==>
      exists c, k :: Accepted(events, c, k, header, now, tokenId)
  {
    AuthenticatedIff(events, header, now, tokenId);
    if tokenId in After(events).tokens && Presents(header, After(events).tokens[tokenId], now) {
      var c, k := PresentedIsAccepted(events, header, now, tokenId);
    }
    if c, k :| Accepted(events, c, k, header, now, tokenId) {
      AcceptedIsPresented(events, c, k, header, now, tokenId);
    }
  }

  /** Exactly the requests that are forwarded, by the history of the run alone: an accepted header, a
      matched operation, and a grant of it that stands. */
  lemma {:induction false} ForwardedByHistoryIff(finder: Matcher.Finder, events: seq<Event>, request: Request,
                                                 tokenId: string, operationId: string)
    requires FreshTokens(events) && Lists(request.order, After(events).operations)
    ensures Decide(finder, After(events), request) == Forwarded(tokenId, operationId) <==>
      && (exists c, k :: Accepted(events, c, k, request.header, request.now, tokenId))
      && Resolve(finder, After(events).cache, After(events).operations, request) == Some(operationId)
      && (exists i :: MayForward(events, i, tokenId, operationId))
  {
    ForwardedIff(finder, events, request, tokenId, operationId);
    AcceptedByHistoryIff(events, request.header, request.now, tokenId);
    AuthenticatedIff(events, request.header, request.now, tokenId);
  }
}
