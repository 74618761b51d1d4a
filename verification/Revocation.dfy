/** Revocation of session tokens with a blacklist that is cleaned up as entries expire. Times are in seconds. */
module Revocation {

  const JWT_EXPIRY_SECONDS := 86_400

  datatype Option<T> = None | Some(value: T)

  /** The claims of a verified token that revocation looks at; an empty jti cannot be revoked. */
  datatype Token = Token(jti: string, exp: int)

  type Blacklist = map<string, int>

  function Issue(now: int, lifetime: Option<int>, jti: string): Token {
    Token(jti, now + if lifetime.Some? then lifetime.value else JWT_EXPIRY_SECONDS)
  }

  /** A missing or zero expiry means the default lifetime from now. */
  function ExpiryOf(now: int, exp: Option<int>): int {
    if exp.Some? && exp.value != 0 then exp.value else now + JWT_EXPIRY_SECONDS
  }

  datatype Event =
    | Revoke(now: int, jti: string, exp: Option<int>)
    | Cleanup(now: int)

  function CleanedUp(b: Blacklist, now: int): Blacklist {
    map jti | jti in b && b[jti] > now :: b[jti]
  }

  function Next(b: Blacklist, ev: Event): Blacklist {
    match ev
    case Revoke(now, jti, exp) => b[jti := ExpiryOf(now, exp)]
    case Cleanup(now) => CleanedUp(b, now)
  }

  function Run(b: Blacklist, events: seq<Event>): Blacklist {
    if events == [] then b else Next(Run(b, events[..|events| - 1]), events[|events| - 1])
  }

  /** The blacklist that is never cleaned. */
  function RunFull(b: Blacklist, events: seq<Event>): Blacklist {
    if events == [] then b
    else
      var full := RunFull(b, events[..|events| - 1]);
      if events[|events| - 1].Cleanup? then full else Next(full, events[|events| - 1])
  }

  predicate Accepts(b: Blacklist, now: int, t: Token) {
    t.exp > now && !(t.jti != "" && t.jti in b)
  }

  /** All events happen in order, none before `from` and none after `until`. */
  predicate Timed(events: seq<Event>, from: int, until: int) {
    && (forall i | 0 <= i < |events| :: from <= events[i].now <= until)
    && (forall i, j | 0 <= i < j < |events| :: events[i].now <= events[j].now)
  }

  /** Every revocation of the token's id is kept at least as long as the token lives. */
  predicate Covered(events: seq<Event>, t: Token) {
    forall i | 0 <= i < |events| ::
      events[i].Revoke? && events[i].jti == t.jti ==> ExpiryOf(events[i].now, events[i].exp) >= t.exp
  }

  lemma {:induction false} CleaningInvisible(events: seq<Event>, from: int, now: int, t: Token)
    requires Timed(events, from, now) && Covered(events, t) && now < t.exp
    ensures t.jti in Run(map[], events) <==> t.jti in RunFull(map[], events)
    ensures t.jti in Run(map[], events) ==> Run(map[], events)[t.jti] >= t.exp
    decreases |events|
  {
    if events != [] {
      CleaningInvisible(events[..|events| - 1], from, now, t);
    }
  }

  /** For such a token, the cleaned blacklist gives every answer of one that is never cleaned. */
  lemma CleanedBehavesLikeFull(events: seq<Event>, from: int, now: int, t: Token)
    requires Timed(events, from, now) && Covered(events, t)
    ensures Accepts(Run(map[], events), now, t) <==> Accepts(RunFull(map[], events), now, t)
  {
    if now < t.exp { CleaningInvisible(events, from, now, t); }
  }

  // ---------------------------------------------------------------- the blacklist against its history

  /** Until when a revocation is kept: the given time, or a day if it is missing or zero. */
  function KeptUntil(ev: Event): int
    requires ev.Revoke?
  {
    match ev.exp
    case Some(until) => if until == 0 then ev.now + 86_400 else until
    case None => ev.now + 86_400
  }

  /** The last revocation of the token id is event `k`, and no later cleanup found it expired. */
  predicate ListedSince(events: seq<Event>, jti: string, k: nat) {
    && k < |events| && events[k].Revoke? && events[k].jti == jti
    && (forall j | k < j < |events| && events[j].Revoke? :: events[j].jti != jti)
    && (forall j | k < j < |events| && events[j].Cleanup? :: events[j].now < KeptUntil(events[k]))
  }

  lemma {:induction false} ListedStep(events: seq<Event>, jti: string, k: nat)
    requires events != [] && k < |events| - 1
    ensures var last := events[|events| - 1];
            ListedSince(events, jti, k) <==>
            && ListedSince(events[..|events| - 1], jti, k)
            && !(last.Revoke? && last.jti == jti) && (last.Cleanup? ==> last.now < KeptUntil(events[k]))
  {
    var n := |events| - 1;
    var init := events[..n];
    assert forall j | 0 <= j < n :: init[j] == events[j];
    if ListedSince(events, jti, k) {
      assert forall j | k < j < n :: init[j] == events[j] && j < |events|;
    }
  }

  lemma {:induction false} ListedIsKept(events: seq<Event>, jti: string, k: nat)
    requires ListedSince(events, jti, k)
    ensures jti in Run(map[], events) && Run(map[], events)[jti] == KeptUntil(events[k])
    decreases |events|
  {
    var n := |events| - 1;
    if k < n {
      ListedStep(events, jti, k);
      ListedIsKept(events[..n], jti, k);
    }
  }

  lemma {:induction false} ListedHasOrigin(events: seq<Event>, jti: string) returns (k: nat)
    requires jti in Run(map[], events)
    ensures ListedSince(events, jti, k)
    decreases |events|
  {
    var n := |events| - 1;
    if events[n].Revoke? && events[n].jti == jti {
      k := n;
    } else {
      k := ListedHasOrigin(events[..n], jti);
      ListedIsKept(events[..n], jti, k);
      ListedStep(events, jti, k);
    }
  }

  /** Every run: an id is listed iff it was revoked and no cleanup came after the time it was last to be kept. */
  lemma {:induction false} ListedExactly(events: seq<Event>, jti: string)
    ensures jti in Run(map[], events) <==> exists k: nat :: ListedSince(events, jti, k)
  {
    if jti in Run(map[], events) {
      var k := ListedHasOrigin(events, jti);
    }
    if exists k: nat :: ListedSince(events, jti, k) {
      var k: nat :| ListedSince(events, jti, k);
      ListedIsKept(events, jti, k);
    }
  }

  /** Every answer of every run: a token passes iff it has not expired and its id, if it has one, is not listed. */
  lemma AcceptedExactly(events: seq<Event>, now: int, t: Token)
    ensures Accepts(Run(map[], events), now, t) <==>
            now < t.exp && (t.jti == "" || !exists k: nat :: ListedSince(events, t.jti, k))
  {
    ListedExactly(events, t.jti);
  }

  /** An issued token passes for its lifetime, a day unless another was given, until its id is listed. */
  lemma IssuedExactly(events: seq<Event>, issued: int, lifetime: Option<int>, jti: string, now: int)
    ensures Accepts(Run(map[], events), now, Issue(issued, lifetime, jti)) <==>
            && now < issued + (match lifetime case None => 86_400 case Some(seconds) => seconds)
            && (jti == "" || !exists k: nat :: ListedSince(events, jti, k))
  {
    AcceptedExactly(events, now, Issue(issued, lifetime, jti));
  }

  predicate NoRevokeOf(events: seq<Event>, jti: string) {
    forall i | 0 <= i < |events| :: !(events[i].Revoke? && events[i].jti == jti)
  }

  lemma {:induction false} EntrySurvives(b: Blacklist, events: seq<Event>, jti: string, exp: int)
    requires NoRevokeOf(events, jti) && jti in b && b[jti] >= exp
    requires forall i | 0 <= i < |events| :: events[i].now < exp
    ensures jti in Run(b, events) && Run(b, events)[jti] == b[jti]
    decreases |events|
  {
    if events != [] { EntrySurvives(b, events[..|events| - 1], jti, exp); }
  }

  /** The token is refused at every later moment, whatever else happens, until its id is revoked again. */
  ghost predicate RefusedForGood(b: Blacklist, at: int, t: Token) {
    forall events, now | Timed(events, at, now) && at <= now && NoRevokeOf(events, t.jti) :: !Accepts(Run(b, events), now, t)
  }

  /**
   * Revocation, exactly: after revoking a token at time `at`, it is refused for good iff the entry is kept
   * at least until the token expires, or the token has expired already.
   */
  lemma RefusedExactly(b: Blacklist, at: int, exp: Option<int>, t: Token)
    requires t.jti != ""
    ensures RefusedForGood(Next(b, Revoke(at, t.jti, exp)), at, t) <==> ExpiryOf(at, exp) >= t.exp || t.exp <= at
  {
    var b', kept := Next(b, Revoke(at, t.jti, exp)), ExpiryOf(at, exp);
    if kept >= t.exp || t.exp <= at {
      forall events, now | Timed(events, at, now) && at <= now && NoRevokeOf(events, t.jti)
        ensures !Accepts(Run(b', events), now, t)
      {
        if now < t.exp { EntrySurvives(b', events, t.jti, t.exp); }
      }
    } else {
      var when := if at <= kept then kept else at;
      var events := [Cleanup(when)];
      assert events[..0] == [] && Run(b', events) == CleanedUp(b', when);
      assert Timed(events, at, when) && NoRevokeOf(events, t.jti) && Accepts(Run(b', events), when, t);
    }
  }

  /** Revoking by the default covers every token issued with at most the default lifetime. */
  lemma DefaultRevocationSuffices(b: Blacklist, issued: int, lifetime: Option<int>, jti: string, at: int)
    requires jti != "" && issued <= at && (lifetime.Some? ==> lifetime.value <= JWT_EXPIRY_SECONDS)
    ensures RefusedForGood(Next(b, Revoke(at, jti, None)), at, Issue(issued, lifetime, jti))
  {
    RefusedExactly(b, at, None, Issue(issued, lifetime, jti));
  }

  /**
   * Only the latest revocation counts: revoking again, at any later time, replaces the entry. A token that was
   * refused for good stays so iff the new entry is kept until the token expires, or it has expired by then.
   */
  lemma LatestRevocationDecides(b: Blacklist, at: int, between: seq<Event>, later: int, exp: Option<int>, t: Token)
    requires t.jti != "" && t.exp != 0 && at <= later && Timed(between, at, later)
    ensures RefusedForGood(Next(b, Revoke(at, t.jti, Some(t.exp))), at, t)
    ensures var b' := Run(Next(b, Revoke(at, t.jti, Some(t.exp))), between);
            RefusedForGood(Next(b', Revoke(later, t.jti, exp)), later, t) <==> ExpiryOf(later, exp) >= t.exp || t.exp <= later
  {
    RefusedExactly(b, at, Some(t.exp), t);
    RefusedExactly(Run(Next(b, Revoke(at, t.jti, Some(t.exp))), between), later, exp, t);
  }

  /** In particular a shorter expiry, given before the token expires, brings it back. */
  lemma ShorterRevocationUndoes(b: Blacklist, at: int, between: seq<Event>, later: int, exp: int, t: Token)
    requires t.jti != "" && t.exp != 0 && exp != 0 && at <= later && Timed(between, at, later)
    requires exp < t.exp && later < t.exp
    ensures RefusedForGood(Next(b, Revoke(at, t.jti, Some(t.exp))), at, t)
    ensures !RefusedForGood(Next(Run(Next(b, Revoke(at, t.jti, Some(t.exp))), between), Revoke(later, t.jti, Some(exp))), later, t)
  {
    LatestRevocationDecides(b, at, between, later, Some(exp), t);
  }

  class Store {
    var blacklist: Blacklist

    constructor ()
      ensures blacklist == map[]
    {
      blacklist := map[];
    }

    method RevokeToken(now: int, jti: string, exp: Option<int>)
      modifies this
      ensures blacklist == Next(old(blacklist), Revoke(now, jti, exp))
    {
      var expiry := if exp.Some? && exp.value != 0 then exp.value else now + JWT_EXPIRY_SECONDS;
      blacklist := blacklist[jti := expiry];
    }

    /** The periodic sweep over all entries. */
    method CleanUp(now: int)
      modifies this
      ensures blacklist == Next(old(blacklist), Cleanup(now))
    {
      var left := blacklist.Keys;
      while left != {}
        invariant left <= old(blacklist).Keys
        invariant blacklist == map jti | jti in old(blacklist) && (jti in left || old(blacklist)[jti] > now) :: old(blacklist)[jti]
        decreases left
      {
        var jti :| jti in left;
        if blacklist[jti] <= now {
          blacklist := blacklist - {jti};
        }
        left := left - {jti};
      }
    }

    method Verify(now: int, t: Token) returns (ok: bool)
      ensures ok == Accepts(blacklist, now, t)
    {
      if t.exp <= now { return false; }
      if t.jti != "" && t.jti in blacklist { return false; }
      return true;
    }
  }
}
