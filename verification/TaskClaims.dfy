/** Several nodes claim the same task; each resolves the conflict locally by (claimedAt, peerId). */
module TaskClaims {
  import opened Strings

  datatype Status = Open | Claimed | InProgress | Review | Done | Rejected | Archived | Expired

  /** A node's own row for the task; "" and 0 stand for absent values. */
  datatype Task = Task(status: Status, claimedByNode: string, claimedAt: int)

  predicate ValidTransition(a: Status, b: Status) {
    match a
    case Open => b in {Claimed, Rejected, Done, Expired}
    case Claimed => b in {InProgress, Open, Done, Rejected}
    case InProgress => b in {Review, Open, Done, Rejected}
    case Review => b in {Done, Rejected}
    case Done => b in {Rejected, Archived}
    case Rejected => b == Archived
    case Archived => false
    case Expired => b == Archived
  }

  function UpdateRemoteStatus(t: Task, status: Status, claimedByNode: string): Task {
    if t.status == status || !ValidTransition(t.status, status) then t
    else t.(status := status, claimedByNode := if claimedByNode != "" then claimedByNode else t.claimedByNode)
  }

  function ForceRelease(t: Task): Task {
    if t.status != Claimed && t.status != InProgress then t else Task(Open, "", 0)
  }

  /** The claim of `p` at time `i` wins over the claim of `q` at time `j`. */
  predicate Wins(i: int, p: string, j: int, q: string) {
    i < j || (i == j && Less(p, q))
  }

  predicate OwnClaim(t: Task, me: string) {
    (t.status == Claimed || t.status == InProgress) && t.claimedByNode == me
  }

  /** The handler of a `claimed` event from another node. */
  function OnClaimed(t: Task, me: string, from: string, at: int): Task {
    if OwnClaim(t, me) then
      if Wins(t.claimedAt, me, at, from) then t
      else UpdateRemoteStatus(ForceRelease(t), Claimed, from)
    else
      UpdateRemoteStatus(t, Claimed, from)
  }

  /** The handler on any row: keep a better claim of one's own, take over the other claim from it or an open task. */
  lemma ClaimedExactly(t: Task, me: string, from: string, at: int)
    requires from != ""
    ensures var own := t.claimedByNode == me && (t.status == Claimed || t.status == InProgress);
            var better := t.claimedAt < at || (t.claimedAt == at && Less(me, from));
            OnClaimed(t, me, from, at) ==
            if own && !better then Task(Claimed, from, 0)
            else if t.status == Open then t.(status := Claimed, claimedByNode := from)
            else t
  {
  }

  // ---------------------------------------------------------------- the life of a task under remote updates

  /** The transitions that remote updates are allowed to make. */
  lemma TransitionTable(a: Status, b: Status)
    ensures ValidTransition(a, b) <==>
            (a, b) in {(Open, Claimed), (Open, Rejected), (Open, Done), (Open, Expired),
                       (Claimed, InProgress), (Claimed, Open), (Claimed, Done), (Claimed, Rejected),
                       (InProgress, Review), (InProgress, Open), (InProgress, Done), (InProgress, Rejected),
                       (Review, Done), (Review, Rejected), (Done, Rejected), (Done, Archived),
                       (Rejected, Archived), (Expired, Archived)}
  {
  }

  /** The status after a sequence of remote updates, each refused unless it is a valid transition. */
  function StatusAfter(a: Status, updates: seq<Status>): Status {
    if updates == [] then a
    else UpdateRemoteStatus(Task(StatusAfter(a, updates[..|updates| - 1]), "", 0), updates[|updates| - 1], "").status
  }

  /** A task in review is decided, a decided one is at most corrected and archived, and an expired one archived. */
  predicate CanBecome(a: Status, b: Status) {
    match a
    case Review => b in {Review, Done, Rejected, Archived}
    case Done => b in {Done, Rejected, Archived}
    case Rejected => b in {Rejected, Archived}
    case Expired => b in {Expired, Archived}
    case Archived => b == Archived
    case _ => true
  }

  lemma {:induction false} StaysWithin(a: Status, updates: seq<Status>)
    ensures CanBecome(a, StatusAfter(a, updates))
  {
    if updates != [] { StaysWithin(a, updates[..|updates| - 1]); }
  }

  lemma {:induction false} StatusConcat(a: Status, u: seq<Status>, v: seq<Status>)
    ensures StatusAfter(a, u + v) == StatusAfter(StatusAfter(a, u), v)
    decreases |v|
  {
    if v == [] {
      assert u + v == u;
    } else {
      assert (u + v)[..|u + v| - 1] == u + v[..|v| - 1];
      StatusConcat(a, u, v[..|v| - 1]);
    }
  }

  lemma {:induction false} OneUpdate(a: Status, b: Status)
    requires a == b || ValidTransition(a, b)
    ensures StatusAfter(a, [b]) == b
  {
    assert [b][..0] == [];
  }

  lemma {:induction false} SomeUpdates(a: Status, b: Status) returns (updates: seq<Status>)
    requires CanBecome(a, b)
    ensures StatusAfter(a, updates) == b
    decreases if a == Claimed || a == InProgress then 1 else 0, if b == InProgress || b == Archived then 1 else if b == Review then 2 else 0
  {
    if a == b || ValidTransition(a, b) {
      OneUpdate(a, b);
      updates := [b];
    } else {
      var via := if a == Claimed || a == InProgress then Open
                 else if b == InProgress then Claimed else if b == Review then InProgress
                 else if a == Review || a == Open then Rejected else Done;
      if a == Claimed || a == InProgress {
        OneUpdate(a, via);
        var rest := SomeUpdates(via, b);
        updates := [via] + rest;
        StatusConcat(a, [via], rest);
      } else {
        var first := SomeUpdates(a, via);
        OneUpdate(via, b);
        updates := first + [b];
        StatusConcat(a, first, [b]);
      }
    }
  }

  /** What a task can become under remote updates, exactly: work is never reopened once it is in review or decided. */
  lemma {:induction false} LifecycleExactly(a: Status, b: Status)
    ensures (exists updates :: StatusAfter(a, updates) == b) <==> CanBecome(a, b)
  {
    if CanBecome(a, b) {
      var updates := SomeUpdates(a, b);
    }
    forall updates | StatusAfter(a, updates) == b
      ensures CanBecome(a, b)
    {
      StaysWithin(a, updates);
    }
  }

  // ---------------------------------------------------------------- runs of all claimants

  datatype Step =
    | Deliver(from: string, to: string)   // the claim of `from` reaches `to`, possibly again
    | Begin(node: string)                 // a node starts work on its own claim

  type Tasks = map<string, Task>

  /** Everyone has claimed; `claims` gives the claim times. */
  function Start(claims: map<string, int>): Tasks {
    map p | p in claims :: Task(Claimed, p, claims[p])
  }

  predicate Among(claims: map<string, int>, steps: seq<Step>) {
    forall i | 0 <= i < |steps| ::
      match steps[i]
      case Deliver(from, to) => from in claims && to in claims && from != to
      case Begin(n) => n in claims
  }

  function Next(claims: map<string, int>, ts: Tasks, step: Step): Tasks
    requires Among(claims, [step]) && ts.Keys == claims.Keys
  {
    assert [step][0] == step;
    match step
    case Deliver(from, to) => ts[to := OnClaimed(ts[to], to, from, claims[from])]
    case Begin(n) => if ts[n].status == Claimed && ts[n].claimedByNode == n then ts[n := ts[n].(status := InProgress)] else ts
  }

  function Run(claims: map<string, int>, steps: seq<Step>): (ts: Tasks)
    requires Among(claims, steps)
    ensures ts.Keys == claims.Keys
  {
    if steps == [] then Start(claims)
    else
      assert steps[|steps| - 1] == [steps[|steps| - 1]][0];
      Next(claims, Run(claims, steps[..|steps| - 1]), steps[|steps| - 1])
  }

  predicate Beats(claims: map<string, int>, p: string, q: string)
    requires p in claims && q in claims
  {
    Wins(claims[p], p, claims[q], q)
  }

  /** The first claim delivered to `n` that beats its own, or "". */
  function FirstBeater(claims: map<string, int>, steps: seq<Step>, n: string): string
    requires Among(claims, steps) && n in claims
  {
    if steps == [] then ""
    else
      var earlier, last := FirstBeater(claims, steps[..|steps| - 1], n), steps[|steps| - 1];
      if earlier != "" then earlier
      else if last.Deliver? && last.to == n && Beats(claims, last.from, n) then last.from
      else ""
  }

  lemma BeatsTotal(claims: map<string, int>, p: string, q: string)
    requires p in claims && q in claims
    ensures p == q || Beats(claims, p, q) || Beats(claims, q, p)
    ensures !(Beats(claims, p, q) && Beats(claims, q, p)) && !Beats(claims, p, p)
  {
    LessTotal(p, q);
    LessTotal(p, p);
  }

  lemma BeatsTransitive(claims: map<string, int>, p: string, q: string, r: string)
    requires p in claims && q in claims && r in claims && Beats(claims, p, q) && Beats(claims, q, r)
    ensures Beats(claims, p, r)
  {
    if claims[p] == claims[q] == claims[r] { LessTransitive(p, q, r); }
  }

  /**
   * What every node's row is, at every moment of every run: its own claim as long as nothing better has
   * been delivered, and from then on the first better claim, whatever arrives later.
   */
  lemma {:induction false} RowIsFirstBeater(claims: map<string, int>, steps: seq<Step>, n: string)
    requires Among(claims, steps) && n in claims && "" !in claims
    ensures var t, first := Run(claims, steps)[n], FirstBeater(claims, steps, n);
            && (first == "" ==> t == Task(if Begin(n) in steps then InProgress else Claimed, n, claims[n]))
            && (first != "" ==> first in claims && first != n && t == Task(Claimed, first, 0))
    decreases |steps|
  {
    if steps != [] {
      var init, last := steps[..|steps| - 1], steps[|steps| - 1];
      RowIsFirstBeater(claims, init, n);
      assert Begin(n) in steps <==> Begin(n) in init || last == Begin(n);
      if last.Deliver? && last.to == n {
        BeatsTotal(claims, last.from, n);
      }
    }
  }

  lemma {:induction false} BeaterWasDelivered(claims: map<string, int>, steps: seq<Step>, n: string)
    requires Among(claims, steps) && n in claims && "" !in claims
    ensures FirstBeater(claims, steps, n) != "" <==>
            exists from :: from in claims && Deliver(from, n) in steps && Beats(claims, from, n)
    decreases |steps|
  {
    if steps != [] {
      var init, last := steps[..|steps| - 1], steps[|steps| - 1];
      BeaterWasDelivered(claims, init, n);
      assert forall s :: s in steps <==> s in init || s == last;
    }
  }

  /** A node releases its claim exactly when a better claim has been delivered to it. */
  lemma ReleasedExactly(claims: map<string, int>, steps: seq<Step>, n: string)
    requires Among(claims, steps) && n in claims && "" !in claims
    ensures OwnClaim(Run(claims, steps)[n], n) <==>
            !exists from :: from in claims && Deliver(from, n) in steps
                            && (claims[from] < claims[n] || (claims[from] == claims[n] && Less(from, n)))
  {
    RowIsFirstBeater(claims, steps, n);
    BeaterWasDelivered(claims, steps, n);
  }

  ghost predicate Winner(claims: map<string, int>, w: string) {
    w in claims && forall q | q in claims && q != w :: Beats(claims, w, q)
  }

  lemma {:induction false} WinnerExists(claims: map<string, int>) returns (w: string)
    requires claims.Keys != {}
    ensures Winner(claims, w)
    decreases |claims|
  {
    var p :| p in claims.Keys;
    var rest := claims - {p};
    if rest.Keys == {} {
      assert forall q | q in claims && q != p :: q in rest.Keys;
      w := p;
    } else {
      var v := WinnerExists(rest);
      assert forall q | q in claims && q != p && q != v :: q in rest && Beats(rest, v, q) && Beats(claims, v, q);
      BeatsTotal(claims, p, v);
      if Beats(claims, v, p) {
        w := v;
      } else {
        forall q | q in claims && q != p
          ensures Beats(claims, p, q)
        {
          if q != v { BeatsTransitive(claims, p, v, q); }
        }
        w := p;
      }
    }
  }

  /** Every claim has reached every other claimant at least once. */
  ghost predicate AllDelivered(claims: map<string, int>, steps: seq<Step>) {
    forall p, q | p in claims && q in claims && p != q :: Deliver(p, q) in steps
  }

  /** The claimant with the least (claimedAt, peerId) never gives its claim up, in any run. */
  lemma WinnerNeverReleases(claims: map<string, int>, steps: seq<Step>, w: string)
    requires Among(claims, steps) && "" !in claims && Winner(claims, w)
    ensures OwnClaim(Run(claims, steps)[w], w)
  {
    ReleasedExactly(claims, steps, w);
    forall from | from in claims && Deliver(from, w) in steps
      ensures !Beats(claims, from, w)
    {
      BeatsTotal(claims, from, w);
    }
  }

  /** Agreement: once every claim has been delivered, exactly the winner still holds its claim. */
  lemma ExactlyOneHolder(claims: map<string, int>, steps: seq<Step>, w: string, n: string)
    requires Among(claims, steps) && "" !in claims && Winner(claims, w) && AllDelivered(claims, steps) && n in claims
    ensures OwnClaim(Run(claims, steps)[n], n) <==> n == w
  {
    WinnerNeverReleases(claims, steps, w);
    if n != w {
      ReleasedExactly(claims, steps, n);
      assert Deliver(w, n) in steps && Beats(claims, w, n);
    }
  }

  /** Who that is, in numbers: the claimant with the earliest time, and among equal times the least peer id. */
  lemma EarliestClaimHolds(claims: map<string, int>, steps: seq<Step>, n: string)
    requires Among(claims, steps) && "" !in claims && AllDelivered(claims, steps) && n in claims
    ensures OwnClaim(Run(claims, steps)[n], n) <==>
            forall q | q in claims && q != n :: claims[n] < claims[q] || (claims[n] == claims[q] && Less(n, q))
  {
    var w := WinnerExists(claims);
    ExactlyOneHolder(claims, steps, w, n);
    if n != w {
      assert Beats(claims, w, n);
      BeatsTotal(claims, w, n);
    }
  }

  /** A loser may go on naming another loser: it keeps the first better claim, not the best one. */
  lemma LoserKeepsFirstBeater(claims: map<string, int>, w: string, mid: string, n: string)
    requires "" !in claims && w in claims && mid in claims && n in claims && w != n
    requires Beats(claims, w, mid) && Beats(claims, mid, n)
    ensures Among(claims, [Deliver(mid, n), Deliver(w, n)])
    ensures Run(claims, [Deliver(mid, n), Deliver(w, n)])[n].claimedByNode == mid
  {
    BeatsTotal(claims, mid, n);
    var steps := [Deliver(mid, n), Deliver(w, n)];
    assert steps[..1] == [Deliver(mid, n)] && steps[..1][..0] == [];
    assert FirstBeater(claims, steps[..1], n) == mid;
    RowIsFirstBeater(claims, steps, n);
  }

  class Queue {
    const me: string
    var task: Task

    constructor (me: string, now: int)
      ensures this.me == me && task == Task(Claimed, me, now)
    {
      this.me := me;
      task := Task(Claimed, me, now);
    }

    method Release()
      modifies this
      ensures task == ForceRelease(old(task))
    {
      if task.status != Claimed && task.status != InProgress { return; }
      task := Task(Open, "", 0);
    }

    method UpdateRemote(status: Status, claimedByNode: string) returns (updated: bool)
      modifies this
      ensures task == UpdateRemoteStatus(old(task), status, claimedByNode)
      ensures updated == (old(task).status == status || ValidTransition(old(task).status, status))
    {
      if task.status == status { return true; }
      if !ValidTransition(task.status, status) { return false; }
      task := task.(status := status);
      if claimedByNode != "" {
        task := task.(claimedByNode := claimedByNode);
      }
      return true;
    }

    method HandleClaimed(from: string, remoteClaimedAt: int)
      modifies this
      ensures task == OnClaimed(old(task), me, from, remoteClaimedAt)
    {
      if (task.status == Claimed || task.status == InProgress) && task.claimedByNode == me {
        var weWin := false;
        if task.claimedAt < remoteClaimedAt {
          weWin := true;
        } else if task.claimedAt == remoteClaimedAt {
          weWin := Less(me, from);
        }
        if !weWin {
          Release();
          var _ := UpdateRemote(Claimed, from);
        }
      } else {
        var _ := UpdateRemote(Claimed, from);
      }
    }
  }
}
