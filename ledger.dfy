/**
 * The capacity of a ledger: a run credits each (speed, row) pair at most once, and
 * there are three speeds and eight rows, so at most 24 intruders can be detected.
 */
module Ledger {
  import opened Arena

  /** The number of distinct entries a run can credit: three intruder classes times the rows. */
  const Capacity: nat := 3 * BoardHeight

  /** Every entry of the ledger is creditable. */
  predicate CreditableLedger(s: seq<Entry>)
  {
    forall i :: 0 <= i < |s| ==> Creditable(s[i])
  }

  /** A distinct slot in [0, Capacity) for every creditable entry. */
  function Slot(e: Entry): (n: int)
    requires Creditable(e)
    ensures 0 <= n < Capacity
  {
    (if e.speed == 4.0 then 0 else if e.speed == 1.0 then 1 else 2) * BoardHeight + e.row
  }

  /** Different creditable entries occupy different slots. */
  lemma SlotInjective(a: Entry, b: Entry)
    requires Creditable(a) && Creditable(b)
    ensures Slot(a) == Slot(b) ==> a == b
  {
  }

  /** The slots occupied by the entries of a ledger. */
  ghost function Slots(s: seq<Entry>): set<int>
    requires forall i :: 0 <= i < |s| ==> Creditable(s[i])
  {
    if |s| == 0 then {} else Slots(s[..|s| - 1]) + {Slot(s[|s| - 1])}
  }

  lemma {:induction false} SlotsMembers(s: seq<Entry>)
    requires forall i :: 0 <= i < |s| ==> Creditable(s[i])
    ensures forall n :: n in Slots(s) ==> 0 <= n < Capacity && exists i :: 0 <= i < |s| && Slot(s[i]) == n
  {
    if |s| > 0 {
      var prefix := s[..|s| - 1];
      SlotsMembers(prefix);
      forall n | n in Slots(prefix)
        ensures exists i :: 0 <= i < |s| && Slot(s[i]) == n
      {
        var i :| 0 <= i < |prefix| && Slot(prefix[i]) == n;
        assert s[i] == prefix[i];
      }
    }
  }

  /** A ledger without duplicates occupies as many slots as it has entries. */
  lemma {:induction false} SlotsSize(s: seq<Entry>)
    requires forall i :: 0 <= i < |s| ==> Creditable(s[i])
    requires NoDup(s)
    ensures |Slots(s)| == |s|
  {
    if |s| > 0 {
      var prefix := s[..|s| - 1];
      assert NoDup(prefix) by {
        forall i, j | 0 <= i < j < |prefix|
          ensures prefix[i] != prefix[j]
        {
          assert prefix[i] == s[i] && prefix[j] == s[j];
        }
      }
      SlotsSize(prefix);
      SlotsMembers(prefix);
      forall i | 0 <= i < |prefix|
        ensures Slot(prefix[i]) != Slot(s[|s| - 1])
      {
        assert prefix[i] == s[i] != s[|s| - 1];
        SlotInjective(prefix[i], s[|s| - 1]);
      }
      assert Slot(s[|s| - 1]) !in Slots(prefix);
    }
  }

  /** A set of integers drawn from [0, n) has at most n elements. */
  lemma {:induction false} BoundedSetSize(ns: set<int>, n: nat)
    requires forall k :: k in ns ==> 0 <= k < n
    ensures |ns| <= n
  {
    if n == 0 {
      assert forall k :: k !in ns;
      assert ns == {};
    } else {
      var rest := ns - {n - 1};
      BoundedSetSize(rest, n - 1);
      assert ns <= rest + {n - 1};
    }
  }

  /** A duplicate-free ledger of creditable entries has at most Capacity entries. */
  lemma LedgerCapacity(s: seq<Entry>)
    requires CreditableLedger(s)
    requires NoDup(s)
    ensures |s| <= Capacity
  {
    SlotsSize(s);
    SlotsMembers(s);
    BoundedSetSize(Slots(s), Capacity);
  }
}
