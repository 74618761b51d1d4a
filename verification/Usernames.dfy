/** Username claims that arrive over the network: first come, first served by claim time. */
module Usernames {

  datatype Option<T> = None | Some(value: T)

  /** The claim columns of an account row. */
  datatype Row = Row(username: Option<string>, isClaimed: bool, updatedAt: int)

  datatype Claim = Claim(peer: string, username: Option<string>, claimedAt: int)

  /** A claim and the local clock when it is applied. */
  datatype Arrival = Arrival(claim: Claim, now: int)

  type Rows = map<string, Row>

  function FoldChar(c: char): char {
    if 'A' <= c <= 'Z' then (c as int + 32) as char else c
  }

  /** Letter case is ignored, for ASCII letters. */
  function Key(name: string): string {
    seq(|name|, i requires 0 <= i < |name| => FoldChar(name[i]))
  }

  predicate Holds(rows: Rows, p: string, key: string) {
    p in rows && rows[p].username.Some? && Key(rows[p].username.value) == key
  }

  /** The unique index on usernames. */
  ghost predicate NoSharedNames(rows: Rows) {
    forall p, q, key | Holds(rows, p, key) && Holds(rows, q, key) :: p == q
  }

  /** Some account other than `p` holds the name. */
  ghost predicate Contested(rows: Rows, p: string, key: string) {
    exists q :: q != p && Holds(rows, q, key)
  }

  ghost function Rival(rows: Rows, p: string, key: string): (q: string)
    requires Contested(rows, p, key)
    ensures q != p && Holds(rows, q, key)
  {
    var q :| q != p && Holds(rows, q, key); q
  }

  datatype Result = Applied(rows: Rows) | Rejected(rows: Rows) | Violation(rows: Rows)

  /** A row that has just lost its name. */
  function Cleared(now: int): Row {
    Row(None, false, now)
  }

  /** The UPDATE that installs a claim; the unique index refuses a name that is still held. */
  ghost function Install(rows: Rows, c: Claim, now: int): Result {
    if c.username.Some? && Contested(rows, c.peer, Key(c.username.value))
    then Violation(if c.peer in rows then rows else rows[c.peer := Row(None, false, now)])
    else Applied(rows[c.peer := Row(c.username, true, c.claimedAt)])
  }

  ghost function Apply(rows: Rows, a: Arrival): Result {
    var c := a.claim;
    if c.username.Some? && c.username.value != "" && Contested(rows, c.peer, Key(c.username.value)) then
      var q := Rival(rows, c.peer, Key(c.username.value));
      if rows[q].updatedAt <= c.claimedAt then Rejected(rows)
      else Install(rows[q := Cleared(a.now)], c, a.now)
    else
      Install(rows, c, a.now)
  }

  /** Whether `p` holds `key` after an applied claim: the claimant holds what it claimed, and nobody else does. */
  ghost predicate HoldsAfter(rows: Rows, c: Claim, p: string, key: string) {
    var claimed := c.username.Some? && Key(c.username.value) == key;
    if p == c.peer then claimed else Holds(rows, p, key) && !claimed
  }

  lemma InstallHolds(rows: Rows, c: Claim, now: int, p: string, key: string)
    requires Install(rows, c, now).Applied?
    ensures Holds(Install(rows, c, now).rows, p, key) <==> HoldsAfter(rows, c, p, key)
  {
    if c.username.Some? && Key(c.username.value) == key && p != c.peer {
      assert !Holds(rows, p, key);
    }
  }

  lemma InstallRefused(rows: Rows, c: Claim, now: int, p: string, key: string)
    requires !Install(rows, c, now).Applied?
    ensures Holds(Install(rows, c, now).rows, p, key) <==> Holds(rows, p, key)
  {
  }

  /** Clearing the rival frees the name. */
  lemma ClearRival(rows: Rows, c: Claim, now: int, p: string, key: string)
    requires NoSharedNames(rows) && c.username.Some? && Contested(rows, c.peer, Key(c.username.value))
    ensures var q := Rival(rows, c.peer, Key(c.username.value)); var freed := rows[q := Cleared(now)];
            && !Contested(freed, c.peer, Key(c.username.value))
            && (Holds(freed, p, key) <==> Holds(rows, p, key) && p != q)
  {
    var k := Key(c.username.value);
    var q := Rival(rows, c.peer, k);
    var freed := rows[q := Cleared(now)];
    forall x | x != c.peer
      ensures !Holds(freed, x, k)
    {
      if x != q { assert Holds(freed, x, k) == Holds(rows, x, k); }
    }
  }

  /** The names after a claim, whether it is applied, rejected or refused by the index. */
  lemma ApplyHolds(rows: Rows, a: Arrival, p: string, key: string)
    requires NoSharedNames(rows)
    ensures Holds(Apply(rows, a).rows, p, key) <==>
            if Apply(rows, a).Applied? then HoldsAfter(rows, a.claim, p, key) else Holds(rows, p, key)
    ensures Apply(rows, a).Rejected? ==> Apply(rows, a).rows == rows
  {
    var c := a.claim;
    if c.username.Some? && c.username.value != "" && Contested(rows, c.peer, Key(c.username.value)) {
      var q := Rival(rows, c.peer, Key(c.username.value));
      if rows[q].updatedAt > c.claimedAt {
        var freed := rows[q := Cleared(a.now)];
        ClearRival(rows, c, a.now, p, key);
        InstallHolds(freed, c, a.now, p, key);
      }
    } else if Install(rows, c, a.now).Applied? {
      InstallHolds(rows, c, a.now, p, key);
    } else {
      InstallRefused(rows, c, a.now, p, key);
    }
  }

  /** A named claim is turned down exactly when an account with an older or equal time holds the name. */
  lemma ApplyVerdict(rows: Rows, a: Arrival)
    requires NoSharedNames(rows) && a.claim.username != Some("")
    ensures Apply(rows, a).Applied? <==>
            !(a.claim.username.Some? && exists q ::
                q != a.claim.peer && Holds(rows, q, Key(a.claim.username.value)) && rows[q].updatedAt <= a.claim.claimedAt)
    ensures Apply(rows, a).Applied? ==>
              && a.claim.peer in Apply(rows, a).rows && Apply(rows, a).rows[a.claim.peer].updatedAt == a.claim.claimedAt
              && forall p, key | p != a.claim.peer && Holds(Apply(rows, a).rows, p, key) ::
                   p in rows && Apply(rows, a).rows[p] == rows[p]
    ensures !Apply(rows, a).Applied? ==> Apply(rows, a).rows == rows
  {
    var c := a.claim;
    if c.username.Some? && Contested(rows, c.peer, Key(c.username.value)) {
      ClearRival(rows, c, a.now, c.peer, "");
      assert forall q | q != c.peer && Holds(rows, q, Key(c.username.value)) :: q == Rival(rows, c.peer, Key(c.username.value));
    }
  }

  /** No claim ever gives two accounts the same name. */
  lemma ApplyKeepsNamesApart(rows: Rows, a: Arrival)
    requires NoSharedNames(rows)
    ensures NoSharedNames(Apply(rows, a).rows)
  {
    forall p, q, key | Holds(Apply(rows, a).rows, p, key) && Holds(Apply(rows, a).rows, q, key)
      ensures p == q
    {
      ApplyHolds(rows, a, p, key);
      ApplyHolds(rows, a, q, key);
    }
  }

  ghost function ApplyAll(rows: Rows, log: seq<Arrival>): Rows {
    if log == [] then rows else Apply(ApplyAll(rows, log[..|log| - 1]), log[|log| - 1]).rows
  }

  lemma {:induction false} NamesStayApart(rows: Rows, log: seq<Arrival>)
    requires NoSharedNames(rows)
    ensures NoSharedNames(ApplyAll(rows, log))
    decreases |log|
  {
    if log != [] {
      NamesStayApart(rows, log[..|log| - 1]);
      ApplyKeepsNamesApart(ApplyAll(rows, log[..|log| - 1]), log[|log| - 1]);
    }
  }

  // ---------------------------------------------------------------- letter case

  /** The same character, or an ASCII capital and its small letter. */
  predicate SameLetter(a: char, b: char) {
    || a == b
    || ('A' <= a <= 'Z' && b as int == a as int + 32)
    || ('A' <= b <= 'Z' && a as int == b as int + 32)
  }

  predicate SameName(a: string, b: string) {
    |a| == |b| && forall i | 0 <= i < |a| :: SameLetter(a[i], b[i])
  }

  lemma FoldExactly(a: char, b: char)
    ensures FoldChar(a) == FoldChar(b) <==> SameLetter(a, b)
  {
  }

  /** Two names have the same key iff they differ in ASCII letter case at most. */
  lemma {:induction false} KeyExactly(a: string, b: string)
    ensures Key(a) == Key(b) <==> SameName(a, b)
  {
    forall i | 0 <= i < |a| && i < |b|
      ensures FoldChar(a[i]) == FoldChar(b[i]) <==> SameLetter(a[i], b[i])
    {
      FoldExactly(a[i], b[i]);
    }
    if Key(a) == Key(b) {
      assert |Key(a)| == |a| && |Key(b)| == |b|;
      assert forall i | 0 <= i < |a| :: Key(a)[i] == FoldChar(a[i]) && Key(b)[i] == FoldChar(b[i]);
    }
  }

  /** Account `p` has a name that differs from `name` in letter case at most. */
  predicate Named(rows: Rows, p: string, name: string) {
    p in rows && rows[p].username.Some? && SameName(rows[p].username.value, name)
  }

  ghost predicate NoTwoNamed(rows: Rows) {
    forall p, q, name | Named(rows, p, name) && Named(rows, q, name) :: p == q
  }

  lemma {:induction false} NamedExactly(rows: Rows, p: string, name: string)
    ensures Named(rows, p, name) <==> Holds(rows, p, Key(name))
  {
    if p in rows && rows[p].username.Some? { KeyExactly(rows[p].username.value, name); }
  }

  lemma {:induction false} NoTwoNamedExactly(rows: Rows)
    ensures NoTwoNamed(rows) <==> NoSharedNames(rows)
  {
    if NoTwoNamed(rows) {
      forall p, q, key | Holds(rows, p, key) && Holds(rows, q, key)
        ensures p == q
      {
        NamedExactly(rows, p, rows[p].username.value);
        NamedExactly(rows, q, rows[p].username.value);
      }
    }
    if NoSharedNames(rows) {
      forall p, q, name | Named(rows, p, name) && Named(rows, q, name)
        ensures p == q
      {
        NamedExactly(rows, p, name);
        NamedExactly(rows, q, name);
      }
    }
  }

  /** No sequence of claims gives two accounts names that differ in letter case only. */
  lemma NoTwoHolders(rows: Rows, log: seq<Arrival>)
    requires NoTwoNamed(rows)
    ensures NoTwoNamed(ApplyAll(rows, log))
  {
    NoTwoNamedExactly(rows);
    NamesStayApart(rows, log);
    NoTwoNamedExactly(ApplyAll(rows, log));
  }

  /**
   * A claim of a name that another account has, up to letter case, is rejected iff that account's time is
   * not later; otherwise the other account loses the name and the claimant gets it.
   */
  lemma {:induction false} ContestedClaim(rows: Rows, p: string, name: string, a: Arrival)
    requires NoTwoNamed(rows) && p != a.claim.peer && a.claim.username == Some(name) && name != "" && Named(rows, p, name)
    ensures Apply(rows, a) ==
            if rows[p].updatedAt <= a.claim.claimedAt then Rejected(rows)
            else Applied(rows[p := Row(None, false, a.now)][a.claim.peer := Row(Some(name), true, a.claim.claimedAt)])
  {
    NoTwoNamedExactly(rows);
    NamedExactly(rows, p, name);
    ClearRival(rows, a.claim, a.now, p, Key(name));
    assert Rival(rows, a.claim.peer, Key(name)) == p;
  }

  /** A claim of a name that nobody else has, up to letter case, changes the claimant's row only. */
  lemma {:induction false} FreeClaim(rows: Rows, a: Arrival)
    requires a.claim.username.Some? ==> forall q | Named(rows, q, a.claim.username.value) :: q == a.claim.peer
    ensures Apply(rows, a) == Applied(rows[a.claim.peer := Row(a.claim.username, true, a.claim.claimedAt)])
  {
    if a.claim.username.Some? {
      forall q | q != a.claim.peer
        ensures !Holds(rows, q, Key(a.claim.username.value))
      {
        NamedExactly(rows, q, a.claim.username.value);
      }
    }
  }

  /** The index refuses an empty name that somebody else has; the claimant's row may have been created by then. */
  lemma {:induction false} EmptyClaim(rows: Rows, p: string, a: Arrival)
    requires p != a.claim.peer && a.claim.username == Some("") && Named(rows, p, "")
    ensures Apply(rows, a) ==
            Violation(if a.claim.peer in rows then rows else rows[a.claim.peer := Row(None, false, a.now)])
  {
    NamedExactly(rows, p, "");
  }

  // ---------------------------------------------------------------- convergence

  /** One claim per peer; a claimed name is not empty. */
  ghost predicate Pool(pool: map<string, Claim>) {
    forall p | p in pool :: pool[p].peer == p && (pool[p].username.Some? ==> pool[p].username.value != "")
  }

  predicate Wants(pool: map<string, Claim>, p: string, key: string) {
    p in pool && pool[p].username.Some? && Key(pool[p].username.value) == key
  }

  ghost predicate From(log: seq<Arrival>, pool: map<string, Claim>) {
    forall i | 0 <= i < |log| :: log[i].claim.peer in pool && pool[log[i].claim.peer] == log[i].claim
  }

  function Peers(log: seq<Arrival>): set<string> {
    set i | 0 <= i < |log| :: log[i].claim.peer
  }

  /** The log brings every claim of the pool that is not among those of `seen`; it may repeat any. */
  ghost predicate Delivers(log: seq<Arrival>, pool: map<string, Claim>, seen: set<string>) {
    From(log, pool) && pool.Keys <= seen + Peers(log)
  }

  /** After the claims of `seen`: names are held by their claimants, as of their claim, each by an earliest one. */
  ghost predicate Settled(rows: Rows, pool: map<string, Claim>, seen: set<string>) {
    && NoSharedNames(rows)
    && (forall p, key | Holds(rows, p, key) :: p in seen && Wants(pool, p, key) && rows[p].updatedAt == pool[p].claimedAt)
    && (forall p, key | p in seen && Wants(pool, p, key) ::
          exists h :: Holds(rows, h, key) && h in pool && pool[h].claimedAt <= pool[p].claimedAt)
  }

  lemma SettledStep(rows: Rows, pool: map<string, Claim>, seen: set<string>, a: Arrival)
    requires Pool(pool) && Settled(rows, pool, seen) && a.claim.peer in pool && pool[a.claim.peer] == a.claim
    ensures Settled(Apply(rows, a).rows, pool, seen + {a.claim.peer})
  {
    var c, rows' := a.claim, Apply(rows, a).rows;
    ApplyKeepsNamesApart(rows, a);
    ApplyVerdict(rows, a);
    forall p, key | Holds(rows', p, key)
      ensures p in seen + {c.peer} && Wants(pool, p, key) && rows'[p].updatedAt == pool[p].claimedAt
    {
      ApplyHolds(rows, a, p, key);
    }
    forall p, key | p in seen + {c.peer} && Wants(pool, p, key)
      ensures exists h :: Holds(rows', h, key) && h in pool && pool[h].claimedAt <= pool[p].claimedAt
    {
      SettledName(rows, pool, seen, a, p, key);
    }
  }

  lemma SettledName(rows: Rows, pool: map<string, Claim>, seen: set<string>, a: Arrival, p: string, key: string)
    requires Pool(pool) && Settled(rows, pool, seen) && a.claim.peer in pool && pool[a.claim.peer] == a.claim
    requires p in seen + {a.claim.peer} && Wants(pool, p, key)
    ensures exists h :: Holds(Apply(rows, a).rows, h, key) && h in pool && pool[h].claimedAt <= pool[p].claimedAt
  {
    var c, rows' := a.claim, Apply(rows, a).rows;
    ApplyVerdict(rows, a);
    if !Apply(rows, a).Applied? {
      // the claim lost to an earlier holder
      if p == c.peer {
        var h :| h != c.peer && Holds(rows, h, Key(c.username.value)) && rows[h].updatedAt <= c.claimedAt;
        assert Holds(rows', h, key);
      }
    } else {
      ApplyHolds(rows, a, c.peer, key);
      if p in seen && p != c.peer {
        var h :| Holds(rows, h, key) && h in pool && pool[h].claimedAt <= pool[p].claimedAt;
        ApplyHolds(rows, a, h, key);
        if !Holds(rows', h, key) {
          // replaced by a strictly earlier claim, or a renewed claim of the same peer
          assert Holds(rows', c.peer, key);
          assert pool[c.peer].claimedAt <= pool[h].claimedAt;
        }
      } else {
        assert Holds(rows', c.peer, key);
      }
    }
  }

  lemma PeersSnoc(log: seq<Arrival>)
    requires log != []
    ensures Peers(log) == Peers(log[..|log| - 1]) + {log[|log| - 1].claim.peer}
  {
  }

  lemma {:induction false} SettledAfter(rows: Rows, pool: map<string, Claim>, seen: set<string>, log: seq<Arrival>)
    requires Pool(pool) && Settled(rows, pool, seen) && From(log, pool)
    ensures Settled(ApplyAll(rows, log), pool, seen + Peers(log))
    decreases |log|
  {
    if log == [] {
      assert seen + Peers(log) == seen;
    } else {
      var init, last := log[..|log| - 1], log[|log| - 1];
      SettledAfter(rows, pool, seen, init);
      PeersSnoc(log);
      SettledStep(ApplyAll(rows, init), pool, seen + Peers(init), last);
      assert seen + Peers(log) == seen + Peers(init) + {last.claim.peer};
    }
  }

  /** A directory without names is settled before any claim has arrived. */
  lemma NamelessIsSettled(rows: Rows, pool: map<string, Claim>)
    requires forall p | p in rows :: rows[p].username.None?
    ensures Settled(rows, pool, {})
  {
  }

  ghost predicate Earliest(pool: map<string, Claim>, p: string, key: string) {
    Wants(pool, p, key) && forall q | Wants(pool, q, key) :: pool[p].claimedAt <= pool[q].claimedAt
  }

  /** Once every claim has arrived, in any order and with any repetitions, each name is with one of its earliest claimants. */
  lemma {:induction false} HolderIsEarliest(rows: Rows, pool: map<string, Claim>, seen: set<string>, log: seq<Arrival>, key: string)
    requires Pool(pool) && Settled(rows, pool, seen) && Delivers(log, pool, seen)
    ensures NoSharedNames(ApplyAll(rows, log))
    ensures forall p | Holds(ApplyAll(rows, log), p, key) :: Earliest(pool, p, key)
    ensures (exists p :: Wants(pool, p, key)) ==> exists p :: Holds(ApplyAll(rows, log), p, key)
  {
    SettledAfter(rows, pool, seen, log);
    var end := ApplyAll(rows, log);
    forall p | Holds(end, p, key)
      ensures Earliest(pool, p, key)
    {
      forall q | Wants(pool, q, key)
        ensures pool[p].claimedAt <= pool[q].claimedAt
      {
        var h :| Holds(end, h, key) && h in pool && pool[h].claimedAt <= pool[q].claimedAt;
        assert h == p;
      }
    }
  }

  /** One of the earliest claimants of the name has it already. */
  ghost predicate Decided(rows: Rows, pool: map<string, Claim>, key: string) {
    exists h :: Earliest(pool, h, key) && Holds(rows, h, key)
  }

  /** No name is still open between claims that tie for the earliest time. */
  ghost predicate NoOpenTies(rows: Rows, pool: map<string, Claim>) {
    forall p, q, key | Earliest(pool, p, key) && Earliest(pool, q, key) :: p == q || Decided(rows, pool, key)
  }

  ghost predicate SameHolders(a: Rows, b: Rows) {
    forall p, key :: Holds(a, p, key) <==> Holds(b, p, key)
  }

  /** An earliest claimant that holds its name keeps it. */
  lemma EarliestKeepsName(rows: Rows, pool: map<string, Claim>, seen: set<string>, a: Arrival, p: string, key: string)
    requires Pool(pool) && Settled(rows, pool, seen) && a.claim.peer in pool && pool[a.claim.peer] == a.claim
    requires Earliest(pool, p, key) && Holds(rows, p, key)
    ensures Holds(Apply(rows, a).rows, p, key)
  {
  }

  lemma {:induction false} EarliestKeepsForGood(
      rows: Rows, pool: map<string, Claim>, seen: set<string>, log: seq<Arrival>, p: string, key: string)
    requires Pool(pool) && Settled(rows, pool, seen) && From(log, pool)
    requires Earliest(pool, p, key) && Holds(rows, p, key)
    ensures Holds(ApplyAll(rows, log), p, key)
    decreases |log|
  {
    if log != [] {
      var init := log[..|log| - 1];
      EarliestKeepsForGood(rows, pool, seen, init, p, key);
      SettledAfter(rows, pool, seen, init);
      EarliestKeepsName(ApplyAll(rows, init), pool, seen + Peers(init), log[|log| - 1], p, key);
    }
  }

  lemma {:induction false} AgreementWithoutTies(
      rows: Rows, pool: map<string, Claim>, seen: set<string>, q: seq<Arrival>, r: seq<Arrival>)
    requires Pool(pool) && Settled(rows, pool, seen) && NoOpenTies(rows, pool)
    requires Delivers(q, pool, seen) && Delivers(r, pool, seen)
    ensures SameHolders(ApplyAll(rows, q), ApplyAll(rows, r))
  {
    forall p, key
      ensures Holds(ApplyAll(rows, q), p, key) <==> Holds(ApplyAll(rows, r), p, key)
    {
      HolderIsEarliest(rows, pool, seen, q, key);
      HolderIsEarliest(rows, pool, seen, r, key);
      if Decided(rows, pool, key) {
        var h :| Earliest(pool, h, key) && Holds(rows, h, key);
        EarliestKeepsForGood(rows, pool, seen, q, h, key);
        EarliestKeepsForGood(rows, pool, seen, r, h, key);
      }
    }
  }

  /** An earliest claim takes an undecided name. */
  lemma EarliestTakesName(rows: Rows, pool: map<string, Claim>, seen: set<string>, a: Arrival, key: string)
    requires Pool(pool) && Settled(rows, pool, seen) && a.claim.peer in pool && pool[a.claim.peer] == a.claim
    requires Earliest(pool, a.claim.peer, key) && !Decided(rows, pool, key)
    ensures Holds(Apply(rows, a).rows, a.claim.peer, key)
  {
    ApplyVerdict(rows, a);
    ApplyHolds(rows, a, a.claim.peer, key);
    forall h | Holds(rows, h, key)
      ensures a.claim.claimedAt < rows[h].updatedAt
    {
      assert !Earliest(pool, h, key);
    }
  }

  /** Whoever of the earliest claimants arrives first keeps an undecided name for good. */
  lemma {:induction false} FirstArrivalKeeps(
      rows: Rows, pool: map<string, Claim>, seen: set<string>, log: seq<Arrival>, key: string)
    requires Pool(pool) && Settled(rows, pool, seen) && From(log, pool) && !Decided(rows, pool, key)
    requires log != [] && Earliest(pool, log[0].claim.peer, key)
    ensures Holds(ApplyAll(rows, log), log[0].claim.peer, key)
    decreases |log|
  {
    var init, last := log[..|log| - 1], log[|log| - 1];
    if init == [] {
      assert ApplyAll(rows, init) == rows;
      EarliestTakesName(rows, pool, seen, last, key);
    } else {
      FirstArrivalKeeps(rows, pool, seen, init, key);
      SettledAfter(rows, pool, seen, init);
      EarliestKeepsName(ApplyAll(rows, init), pool, seen + Peers(init), last, log[0].claim.peer, key);
    }
  }

  lemma DeliverOneMore(pool: map<string, Claim>, p: string, log: seq<Arrival>)
    requires Pool(pool) && p in pool && Delivers(log, pool - {p}, {})
    ensures Delivers(log + [Arrival(pool[p], 0)], pool, {})
  {
    var all := log + [Arrival(pool[p], 0)];
    PeersSnoc(all);
    assert all[..|log|] == log;
    assert pool.Keys == (pool - {p}).Keys + {p};
  }

  ghost function Enumerate(pool: map<string, Claim>): (log: seq<Arrival>)
    requires Pool(pool)
    ensures Delivers(log, pool, {})
    decreases |pool|
  {
    if pool.Keys == {} then []
    else
      var p :| p in pool.Keys;
      var log := Enumerate(pool - {p});
      DeliverOneMore(pool, p, log);
      log + [Arrival(pool[p], 0)]
  }

  lemma DeliversAfter(pool: map<string, Claim>, seen: set<string>, p: string, rest: seq<Arrival>)
    requires Pool(pool) && p in pool && Delivers(rest, pool, {})
    ensures Delivers([Arrival(pool[p], 0)] + rest, pool, seen)
  {
    var log := [Arrival(pool[p], 0)] + rest;
    assert forall i | 0 <= i < |rest| :: log[i + 1] == rest[i];
    assert log[0].claim.peer == p;
    assert Peers(log) == {p} + Peers(rest);
  }

  /**
   * Agreement, exactly: from any directory left by the claims of `seen`, every two deliveries of the others
   * give the same holders iff no name is still open between tied earliest claims.
   */
  lemma {:induction false} UsernamesConvergeExactly(rows: Rows, pool: map<string, Claim>, seen: set<string>)
    requires Pool(pool) && Settled(rows, pool, seen)
    ensures NoOpenTies(rows, pool) <==>
            forall q, r | Delivers(q, pool, seen) && Delivers(r, pool, seen) ::
              SameHolders(ApplyAll(rows, q), ApplyAll(rows, r))
  {
    if NoOpenTies(rows, pool) {
      forall q: seq<Arrival>, r: seq<Arrival> | Delivers(q, pool, seen) && Delivers(r, pool, seen)
        ensures SameHolders(ApplyAll(rows, q), ApplyAll(rows, r))
      {
        AgreementWithoutTies(rows, pool, seen, q, r);
      }
    } else {
      var q, r := TiesDisagree(rows, pool, seen);
    }
  }

  lemma {:induction false} TiesDisagree(rows: Rows, pool: map<string, Claim>, seen: set<string>)
      returns (q: seq<Arrival>, r: seq<Arrival>)
    requires Pool(pool) && Settled(rows, pool, seen) && !NoOpenTies(rows, pool)
    ensures Delivers(q, pool, seen) && Delivers(r, pool, seen)
    ensures !SameHolders(ApplyAll(rows, q), ApplyAll(rows, r))
  {
    var p, p', key :|
      Earliest(pool, p, key) && Earliest(pool, p', key) && p != p' && !Decided(rows, pool, key);
    var rest := Enumerate(pool);
    q, r := [Arrival(pool[p], 0)] + rest, [Arrival(pool[p'], 0)] + rest;
    DeliversAfter(pool, seen, p, rest);
    DeliversAfter(pool, seen, p', rest);
    FirstArrivalKeeps(rows, pool, seen, q, key);
    FirstArrivalKeeps(rows, pool, seen, r, key);
    NamesStayApart(rows, q);
  }

  // ---------------------------------------------------------------- other writers of updated_at

  /** What a balance change or a ban does to the claim columns. */
  function Touch(rows: Rows, p: string, now: int): Rows {
    if p in rows then rows[p := rows[p].(updatedAt := now)] else rows
  }

  /**
   * The holder's claim time lives in a column that every balance change overwrites: after such a write at
   * `now`, a rival takes the name iff it claimed before `now`, however late that is.
   */
  lemma TouchForgetsClaimTime(rows: Rows, p: string, key: string, now: int, a: Arrival)
    requires NoSharedNames(rows) && Holds(rows, p, key)
    requires a.claim.peer != p && a.claim.username.Some? && a.claim.username.value != "" && Key(a.claim.username.value) == key
    ensures Holds(Apply(Touch(rows, p, now), a).rows, p, key) <==> now <= a.claim.claimedAt
    ensures Holds(Apply(Touch(rows, p, now), a).rows, a.claim.peer, key) <==> a.claim.claimedAt < now
  {
    var t := Touch(rows, p, now);
    assert Holds(t, p, key);
    assert NoSharedNames(t) by {
      forall x, y, k | Holds(t, x, k) && Holds(t, y, k)
        ensures x == y
      {
        assert Holds(rows, x, k) && Holds(rows, y, k);
      }
    }
    ApplyVerdict(t, a);
    ApplyHolds(t, a, p, key);
    ApplyHolds(t, a, a.claim.peer, key);
  }

  class Directory {
    var rows: Rows

    constructor ()
      ensures rows == map[]
    {
      rows := map[];
    }

    /** The rows that hold the name, other than the claimant's. */
    function Rivals(p: string, key: string): (r: set<string>)
      reads this
      ensures (r != {}) <==> Contested(rows, p, key)
    {
      var r := set q | q in rows && q != p && Holds(rows, q, key);
      assert forall q | q != p && Holds(rows, q, key) :: q in r;
      r
    }

    method ApplyRemoteClaim(c: Claim, now: int) returns (verdict: Verdict)
      requires NoSharedNames(rows)
      modifies this
      ensures NoSharedNames(rows)
      ensures match Apply(old(rows), Arrival(c, now))
              case Applied(after) => rows == after && verdict == Ok
              case Rejected(after) => rows == after && verdict == Lost
              case Violation(after) => rows == after && verdict == Threw
    {
      ghost var before := rows;
      ApplyKeepsNamesApart(before, Arrival(c, now));
      if c.username.Some? && c.username.value != "" {
        var key := Key(c.username.value);
        var rivals := Rivals(c.peer, key);
        if rivals != {} {
          var existing :| existing in rivals;
          assert Holds(before, Rival(before, c.peer, key), key);
          if rows[existing].updatedAt <= c.claimedAt {
            return Lost;
          }
          rows := rows[existing := Row(None, false, now)];
          ClearRival(before, c, now, "", "");
        }
      }
      ghost var freed := rows;
      assert Apply(before, Arrival(c, now)) == Install(freed, c, now);
      // the unique index looks at every row but the claimant's own
      var clash := if c.username.Some? then Rivals(c.peer, Key(c.username.value)) else {};
      if c.peer !in rows {
        rows := rows[c.peer := Row(None, false, now)];
      }
      if clash != {} {
        return Threw;
      }
      rows := rows[c.peer := Row(c.username, true, c.claimedAt)];
      assert rows == Install(freed, c, now).rows;
      return Ok;
    }
  }

  datatype Verdict = Ok | Lost | Threw
}
