/** The one-time-use ledger of login nonces. */
module Nonce {

  /** Nanoseconds. */
  const TTL: int := 600_000_000_000

  datatype Call = Call(nonce: string, now: int)

  type Ledger = map<string, int>

  function Evict(used: Ledger, now: int): Ledger
  {
    map k | k in used && now - used[k] <= TTL :: used[k]
  }

  predicate Accepts(used: Ledger, c: Call)
  {
    c.nonce != "" && c.nonce !in Evict(used, c.now)
  }

  function After(used: Ledger, c: Call): Ledger
  {
    if c.nonce == "" then used
    else if c.nonce in Evict(used, c.now) then Evict(used, c.now)
    else Evict(used, c.now)[c.nonce := c.now]
  }

  class NonceLedger {
    var used: Ledger

    constructor ()
      ensures used == map[]
    {
      used := map[];
    }

    /** Evict stale entries in any order, then test and record. */
    method Consume(nonce: string, now: int) returns (ok: bool)
      modifies this
      ensures ok <==> Accepts(old(used), Call(nonce, now))
      ensures used == After(old(used), Call(nonce, now))
    {
      if nonce == "" {
        return false;
      }
      var left := used.Keys;
      while left != {}
        invariant left <= old(used).Keys
        invariant forall k :: k in used <==> k in old(used) && (k in left || now - old(used)[k] <= TTL)
        invariant forall k | k in used :: used[k] == old(used)[k]
        decreases |left|
      {
        var k :| k in left;
        left := left - {k};
        if now - used[k] > TTL {
          used := used - {k};
        }
      }
      assert used == Evict(old(used), now);
      if nonce in used {
        return false;
      }
      used := used[nonce := now];
      return true;
    }
  }

  // ---------------------------------------------------------------- whole runs

  /** The ledger after a run of calls that starts empty. */
  function Replayed(calls: seq<Call>): Ledger
  {
    if calls == [] then map[] else After(Replayed(calls[..|calls| - 1]), calls[|calls| - 1])
  }

  /** The i-th call of the run was accepted. */
  predicate Accepted(calls: seq<Call>, i: nat)
    requires i < |calls|
  {
    Accepts(Replayed(calls[..i]), calls[i])
  }

  /** Some call after the i-th, before the n-th, looked at the ledger when the
      i-th was more than ten minutes old. */
  ghost predicate Swept(calls: seq<Call>, i: nat, n: nat)
    requires i < n <= |calls|
  {
    exists m :: i < m < n && calls[m].nonce != "" && calls[m].now - calls[i].now > TTL
  }

  /** The i-th call put nonce k in the ledger at time t, and it is still there. */
  ghost predicate Recorded(calls: seq<Call>, i: nat, k: string, t: int)
    requires i < |calls|
  {
    Accepted(calls, i) && calls[i] == Call(k, t) && !Swept(calls, i, |calls|)
  }

  /** Every entry is an accepted call that was not swept out since. */
  ghost predicate EntriesAccepted(calls: seq<Call>, used: Ledger)
  {
    forall k | k in used :: exists i: nat | i < |calls| :: Recorded(calls, i, k, used[k])
  }

  /** Every accepted call is still in the ledger, or was swept out. */
  ghost predicate AcceptedKept(calls: seq<Call>, used: Ledger)
  {
    forall i: nat | i < |calls| && Accepted(calls, i) ::
      Swept(calls, i, |calls|) || (calls[i].nonce in used && used[calls[i].nonce] == calls[i].now)
  }

  lemma PrefixAccepted(calls: seq<Call>, n: nat, i: nat)
    requires i < n <= |calls|
    ensures Accepted(calls[..n], i) <==> Accepted(calls, i)
    ensures Swept(calls[..n], i, n) <==> Swept(calls, i, n)
  {
    assert calls[..n][..i] == calls[..i];
  }

  lemma SweptSnoc(calls: seq<Call>, i: nat, n: nat)
    requires i < n < |calls|
    ensures Swept(calls, i, n + 1) <==>
            Swept(calls, i, n) || (calls[n].nonce != "" && calls[n].now - calls[i].now > TTL)
  {
    if Swept(calls, i, n) {
      var m :| i < m < n && calls[m].nonce != "" && calls[m].now - calls[i].now > TTL;
    }
  }

  /** Whatever the clock does, over every run: the ledger holds exactly the
      accepted calls that no later call has swept out. */
  lemma {:induction false} LedgerInvariant(calls: seq<Call>)
    ensures EntriesAccepted(calls, Replayed(calls))
    ensures AcceptedKept(calls, Replayed(calls))
  {
    hide Accepted;
    if calls != [] {
      var n := |calls| - 1;
      LedgerInvariant(calls[..n]);
      KeepEntries(calls);
      KeepAccepted(calls);
    }
  }

  lemma KeepEntries(calls: seq<Call>)
    requires calls != [] && EntriesAccepted(calls[..|calls| - 1], Replayed(calls[..|calls| - 1]))
    ensures EntriesAccepted(calls, Replayed(calls))
  {
    hide Accepted, Replayed, After, Swept;
    var n := |calls| - 1;
    var before, used := Replayed(calls[..n]), Replayed(calls);
    ReplayedSnoc(calls);
    forall k | k in used
      ensures exists i: nat | i < |calls| :: Recorded(calls, i, k, used[k])
    {
      AfterHolds(before, calls[n], k);
      if k in before && used[k] == before[k] && (calls[n].nonce == "" || calls[n].now - before[k] <= TTL) {
        var i: nat :| i < n && Recorded(calls[..n], i, k, before[k]);
        PrefixAccepted(calls, n, i);
        SweptSnoc(calls, i, n);
        assert Recorded(calls, i, k, used[k]);
      } else {
        NeverSwept(calls);
        assert Recorded(calls, n, k, used[k]);
      }
    }
  }

  /** Where an entry of the ledger comes from. */
  lemma AfterHolds(used: Ledger, c: Call, k: string)
    requires k in After(used, c)
    ensures || (k in used && After(used, c)[k] == used[k] && (c.nonce == "" || c.now - used[k] <= TTL))
            || (Accepts(used, c) && c == Call(k, After(used, c)[k]))
  {}

  lemma NeverSwept(calls: seq<Call>)
    requires calls != []
    ensures !Swept(calls, |calls| - 1, |calls|)
    ensures Accepted(calls, |calls| - 1) <==> Accepts(Replayed(calls[..|calls| - 1]), calls[|calls| - 1])
  {}

  lemma KeepAccepted(calls: seq<Call>)
    requires calls != [] && AcceptedKept(calls[..|calls| - 1], Replayed(calls[..|calls| - 1]))
    ensures AcceptedKept(calls, Replayed(calls))
  {
    hide Accepted, Replayed, After, Swept;
    var n := |calls| - 1;
    var before, used := Replayed(calls[..n]), Replayed(calls);
    ReplayedSnoc(calls);
    forall i: nat | i < |calls| && Accepted(calls, i)
      ensures Swept(calls, i, |calls|) || (calls[i].nonce in used && used[calls[i].nonce] == calls[i].now)
    {
      if i < n {
        PrefixAccepted(calls, n, i);
        SweptSnoc(calls, i, n);
        assert calls[..n][i] == calls[i];
        if calls[i].nonce in before { AfterKeeps(before, calls[n], calls[i].nonce); }
      } else {
        NowRecorded(calls);
      }
    }
  }

  lemma ReplayedSnoc(calls: seq<Call>)
    requires calls != []
    ensures Replayed(calls) == After(Replayed(calls[..|calls| - 1]), calls[|calls| - 1])
  {}

  /** A call keeps every entry as it is, unless it sweeps it out. */
  lemma AfterKeeps(used: Ledger, c: Call, k: string)
    requires k in used
    ensures || (c.nonce != "" && c.now - used[k] > TTL)
            || (k in After(used, c) && After(used, c)[k] == used[k])
  {}

  lemma NowRecorded(calls: seq<Call>)
    requires calls != [] && Accepted(calls, |calls| - 1)
    ensures var c := calls[|calls| - 1]; c.nonce in Replayed(calls) && Replayed(calls)[c.nonce] == c.now
  {}

  /** A remembered nonce was accepted by a call that nothing has swept out. */
  lemma RememberedMeansAccepted(calls: seq<Call>, j: nat) returns (i: nat)
    requires j < |calls| && calls[j].nonce in Evict(Replayed(calls[..j]), calls[j].now)
    ensures i < j && Accepted(calls, i) && calls[i].nonce == calls[j].nonce && !Swept(calls, i, j + 1)
  {
    hide Replayed, Accepted, Swept;
    LedgerInvariant(calls[..j]);
    var used := Replayed(calls[..j]);
    i :| i < j && Recorded(calls[..j], i, calls[j].nonce, used[calls[j].nonce]);
    PrefixAccepted(calls, j, i);
    SweptSnoc(calls, i, j);
  }

  lemma AcceptedMeansRemembered(calls: seq<Call>, i: nat, j: nat)
    requires i < j < |calls| && Accepted(calls, i) && calls[i].nonce == calls[j].nonce != ""
    requires !Swept(calls, i, j + 1)
    ensures calls[j].nonce in Evict(Replayed(calls[..j]), calls[j].now)
  {
    hide Replayed, Accepted, Swept;
    LedgerInvariant(calls[..j]);
    PrefixAccepted(calls, j, i);
    SweptSnoc(calls, i, j);
    assert calls[..j][i] == calls[i];
  }

  /** Exactly when a call is accepted, after any run and whatever the clock has
      done: the nonce is not empty, and every call that accepted it has been
      swept out by a later call, this one included. */
  lemma AcceptedIff(calls: seq<Call>, j: nat)
    requires j < |calls|
    ensures Accepted(calls, j) <==>
            && calls[j].nonce != ""
            && forall i: nat | i < j && Accepted(calls, i) && calls[i].nonce == calls[j].nonce ::
                 Swept(calls, i, j + 1)
  {
    hide Replayed, Evict, Swept;
    if calls[j].nonce in Evict(Replayed(calls[..j]), calls[j].now) {
      var i := RememberedMeansAccepted(calls, j);
    } else {
      forall i: nat | i < j && Accepted(calls, i) && calls[i].nonce == calls[j].nonce != ""
        ensures Swept(calls, i, j + 1)
      {
        if !Swept(calls, i, j + 1) { AcceptedMeansRemembered(calls, i, j); }
      }
    }
  }

  /** The clock never reads more than d less than it once did. */
  ghost predicate ClockWithin(calls: seq<Call>, d: nat)
  {
    forall i, j | 0 <= i < j < |calls| :: calls[i].now - calls[j].now <= d
  }

  /** With a clock that does not go back: accepted if and only if the nonce is
      not empty and no call accepted it within the last ten minutes. */
  lemma SteadyClockAcceptedIff(calls: seq<Call>, j: nat)
    requires ClockWithin(calls, 0) && j < |calls|
    ensures Accepted(calls, j) <==>
            && calls[j].nonce != ""
            && forall i: nat | i < j && Accepted(calls, i) && calls[i].nonce == calls[j].nonce ::
                 calls[j].now - calls[i].now > 600_000_000_000
  {
    hide Accepted;
    AcceptedIff(calls, j);
    forall i: nat | i < j && calls[j].nonce != ""
      ensures Swept(calls, i, j + 1) <==> calls[j].now - calls[i].now > TTL
    {
      if Swept(calls, i, j + 1) {
        var m :| i < m < j + 1 && calls[m].nonce != "" && calls[m].now - calls[i].now > TTL;
        assert m == j || calls[m].now <= calls[j].now;
      }
    }
  }

  /** A clock that goes back by at most d shortens the ten minutes by at most d. */
  lemma AcceptancesApart(calls: seq<Call>, d: nat, i: nat, j: nat)
    requires ClockWithin(calls, d) && i < j < |calls|
    requires Accepted(calls, i) && Accepted(calls, j) && calls[i].nonce == calls[j].nonce
    ensures calls[j].now - calls[i].now > 600_000_000_000 - d
  {
    hide Accepted;
    AcceptedIff(calls, j);
    assert Swept(calls, i, j + 1);
    var m :| i < m < j + 1 && calls[m].nonce != "" && calls[m].now - calls[i].now > TTL;
    assert m == j || calls[m].now - calls[j].now <= d;
  }

  /** The clock is read before the lock is taken, so the ledger may see calls out
      of clock order: at minutes 0, 11 and 9 a nonce is accepted twice within
      nine minutes. */
  lemma OutOfOrderReuse()
    ensures var minute := 60_000_000_000;
            var calls := [Call("n", 0), Call("m", 11 * minute), Call("n", 9 * minute)];
            Accepted(calls, 0) && Accepted(calls, 2)
  {
    hide Accepted;
    var minute := 60_000_000_000;
    var calls := [Call("n", 0), Call("m", 11 * minute), Call("n", 9 * minute)];
    AcceptedIff(calls, 0);
    AcceptedIff(calls, 2);
    assert calls[1].nonce != "" && calls[1].now - calls[0].now > TTL;
    assert Swept(calls, 0, 3);
  }

  /** After a call with a non-empty nonce no entry is older than ten minutes. */
  lemma NoStaleEntries(calls: seq<Call>)
    requires calls != [] && calls[|calls| - 1].nonce != ""
    ensures var used := Replayed(calls);
            forall k | k in used :: calls[|calls| - 1].now - used[k] <= 600_000_000_000
  {}
}
