/**
 The action log: every admin action and every automatic warning or removal is
 written to the front of a list that keeps only the most recent entries.
 */
module History {

  /** How many entries the log keeps. */
  const Capacity: nat := 100

  function Min(a: int, b: int): int
  {
    if a <= b then a else b
  }

  /** add_to_history: the new entry goes first, the earlier ones follow in
      their order, and the list is cut to Capacity. */
  function Record<T>(log: seq<T>, entry: T): (r: seq<T>)
    ensures |r| == Min(|log| + 1, Capacity)
    ensures r[0] == entry
    ensures forall i :: 1 <= i < |r| ==> r[i] == log[i - 1]
  {
    ([entry] + log)[..Min(|log| + 1, Capacity)]
  }

  /** Records `entries` one after another, oldest first. */
  function RecordAll<T>(log: seq<T>, entries: seq<T>): seq<T>
    decreases |entries|
  {
    if entries == [] then log
    else RecordAll(Record(log, entries[0]), entries[1..])
  }

  function Reverse<T>(s: seq<T>): (r: seq<T>)
    ensures |r| == |s|
    ensures forall i :: 0 <= i < |s| ==> r[i] == s[|s| - 1 - i]
    decreases |s|
  {
    if s == [] then [] else Reverse(s[1..]) + [s[0]]
  }

  /** The log only ever holds at most Capacity entries once written. */
  lemma {:induction false} RecordAllBounded<T>(log: seq<T>, entries: seq<T>)
    requires entries != []
    ensures |RecordAll(log, entries)| <= Capacity
    decreases |entries|
  {
    if entries[1..] != [] {
      RecordAllBounded(Record(log, entries[0]), entries[1..]);
    }
  }

  /** After any run of actions the log holds the newest ones first, followed by
      what was there before, cut to Capacity. */
  lemma {:induction false} NewestFirst<T>(log: seq<T>, entries: seq<T>)
    requires |log| <= Capacity
    ensures RecordAll(log, entries) == (Reverse(entries) + log)[..Min(|entries| + |log|, Capacity)]
    decreases |entries|
  {
    if entries == [] {
      assert Reverse(entries) + log == log;
    } else {
      var e, es := entries[0], entries[1..];
      var once := Record(log, e);
      NewestFirst(once, es);
      var n := Min(|entries| + |log|, Capacity);
      assert n == Min(|es| + |once|, Capacity);
      var lhs := (Reverse(es) + once)[..n];
      var rhs := (Reverse(entries) + log)[..n];
      assert Reverse(entries) == Reverse(es) + [e];
      forall i | 0 <= i < n
        ensures lhs[i] == rhs[i]
      {
        if i > |es| {
          assert lhs[i] == once[i - |es|] == log[i - |es| - 1];
        }
      }
      assert lhs == rhs;
    }
  }
}
