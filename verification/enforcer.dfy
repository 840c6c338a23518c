/**
 One pass of the background checker over the store. Every record with less
 than a day left triggers a warning to the admin (at most once per cooldown
 per user); every expired record is kicked from the channel and, once the
 kick went through, deleted from the store and from the warning memo.

 The pass walks the store while deleting from it, so the step after a
 deletion raises and the whole pass is abandoned by its outer handler: a pass
 revokes at most one record, and records after it wait for the next pass.

 Telegram is replaced by an oracle saying, per user, whether each call
 succeeds; the store's iteration order is an explicit sequence of its keys.
 */
module Enforcer {
  import opened Store
  import Reports

  /** A warning is due when less than this is left (one day). */
  const WarnWindow: int := DaySeconds

  /** A user is not warned again until this long after the last warning (12 h). */
  const Cooldown: int := 43200

  /** When each user was last warned; kept in memory only. */
  type Memo = map<UserId, Instant>

  /** Which Telegram calls succeed for which user during this pass. */
  datatype Oracle = Oracle(
    warnSent: UserId -> bool,
    banOk: UserId -> bool,
    unbanOk: UserId -> bool,
    noticeSent: UserId -> bool)

  /** What a pass does to the outside world. A kick attempt is recorded
      whatever its outcome; Warned and Noticed mean the admin's message was
      delivered (and the action log gained an entry). */
  datatype Effect = Warned(id: UserId) | KickTried(id: UserId, outcome: Kick) | Noticed(id: UserId)

  datatype Outcome = Outcome(users: Users, memo: Memo, effects: seq<Effect>)

  predicate InWarnWindow(remaining: int)
  {
    0 < remaining < WarnWindow
  }

  /** A warning is due when the user was never warned or the last warning is
      more than Cooldown old; a stamp of 0 tests as false in the source, so it
      also counts as never warned. */
  predicate WarnDue(memo: Memo, id: UserId, now: Instant)
  {
    id !in memo || memo[id] == 0 || now - memo[id] > Cooldown
  }

  /** Every id of `order` has a record. */
  predicate Within(order: seq<UserId>, users: Users)
  {
    forall k :: k in order ==> k in users
  }

  /** `order` lists every key of the store exactly once. */
  predicate Enumerates(order: seq<UserId>, users: Users)
  {
    Distinct(order) && Within(order, users) && forall k :: k in users ==> k in order
  }

  /** The record has expired and both halves of the kick succeed. */
  predicate Revocable(users: Users, now: Instant, o: Oracle, k: UserId)
    requires k in users
  {
    users[k] - now <= 0 && o.banOk(k) && o.unbanOk(k)
  }

  /** Position in `order` of the first record the pass can revoke, or |order|
      when there is none. */
  function FirstRevocable(users: Users, now: Instant, o: Oracle, order: seq<UserId>): (i: nat)
    requires Within(order, users)
    ensures i <= |order|
    ensures forall j :: 0 <= j < i ==> !Revocable(users, now, o, order[j])
    ensures i < |order| ==> Revocable(users, now, o, order[i])
    decreases |order|
  {
    if order == [] then 0
    else if Revocable(users, now, o, order[0]) then 0
    else 1 + FirstRevocable(users, now, o, order[1..])
  }

  /** The scan over the store's records in iteration order. The store only
      loses the first revocable record; nothing else in it changes. */
  function Scan(users: Users, memo: Memo, now: Instant, order: seq<UserId>, o: Oracle): (t: Outcome)
    requires Within(order, users)
    ensures var i := FirstRevocable(users, now, o, order);
      t.users == if i < |order| then users - {order[i]} else users
    decreases |order|
  {
    if order == [] then Outcome(users, memo, [])
    else
      var k := order[0];
      var remaining := users[k] - now;
      if InWarnWindow(remaining) && WarnDue(memo, k, now) && o.warnSent(k) then
        // the memo is stamped only once the warning was delivered
        var rest := Scan(users, memo[k := now], now, order[1..], o);
        Outcome(rest.users, rest.memo, [Warned(k)] + rest.effects)
      else if remaining <= 0 then
        var kick := AttemptKick(o.banOk(k), o.unbanOk(k));
        if kick == KickedOut then
          // deleted from memo and store; the next iteration step raises
          var notice := if o.noticeSent(k) then [Noticed(k)] else [];
          Outcome(users - {k}, memo - {k}, [KickTried(k, kick)] + notice)
        else
          var rest := Scan(users, memo, now, order[1..], o);
          Outcome(rest.users, rest.memo, [KickTried(k, kick)] + rest.effects)
      else
        Scan(users, memo, now, order[1..], o)
  }

  /** How many records the effects say were revoked. */
  function Revocations(effects: seq<Effect>): nat
    decreases |effects|
  {
    if effects == [] then 0
    else (if effects[0].KickTried? && effects[0].outcome == KickedOut then 1 else 0) + Revocations(effects[1..])
  }

  /** The record the pass revokes, if it revokes one. */
  predicate RevokedBy(users: Users, now: Instant, o: Oracle, order: seq<UserId>, k: UserId)
    requires Within(order, users)
  {
    var i := FirstRevocable(users, now, o, order);
    i < |order| && order[i] == k
  }

  /** The ids the pass looks at before it stops: those before the revoked
      record, and the revoked record itself. */
  function Reached(users: Users, now: Instant, o: Oracle, order: seq<UserId>): seq<UserId>
    requires Within(order, users)
  {
    var i := FirstRevocable(users, now, o, order);
    order[..if i < |order| then i + 1 else i]
  }

  /** A warning is sent to `k`: its record is reached before the pass stops,
      is inside the warning window, its cooldown has passed, and the message
      goes through. */
  predicate ShouldWarn(users: Users, memo: Memo, now: Instant, o: Oracle, order: seq<UserId>, k: UserId)
    requires Within(order, users)
  {
    && k in order[..FirstRevocable(users, now, o, order)]
    && k in users
    && InWarnWindow(users[k] - now)
    && WarnDue(memo, k, now)
    && o.warnSent(k)
  }

  lemma DistinctTail(order: seq<UserId>)
    requires Distinct(order) && order != []
    ensures Distinct(order[1..])
    ensures order[0] !in order[1..]
  {
    forall j | 0 <= j < |order[1..]|
      ensures order[1..][j] != order[0]
    {
      assert order[1..][j] == order[j + 1];
    }
  }

  /** Past a record it cannot revoke, the pass goes on to the rest. */
  lemma ReachedStep(users: Users, now: Instant, o: Oracle, order: seq<UserId>)
    requires Within(order, users) && order != [] && !Revocable(users, now, o, order[0])
    ensures Reached(users, now, o, order) == [order[0]] + Reached(users, now, o, order[1..])
    ensures forall k :: RevokedBy(users, now, o, order, k) <==> RevokedBy(users, now, o, order[1..], k)
  {
    var i := FirstRevocable(users, now, o, order[1..]);
    assert FirstRevocable(users, now, o, order) == i + 1;
    var n := if i < |order[1..]| then i + 1 else i;
    assert order[..n + 1] == [order[0]] + order[1..][..n];
  }

  lemma PrefixStep(order: seq<UserId>, n: nat)
    requires order != [] && n < |order|
    ensures forall k :: k in order[..n + 1] <==> k == order[0] || k in order[1..][..n]
  {
    assert order[..n + 1] == [order[0]] + order[1..][..n];
  }

  /** Exactly the users ShouldWarn names are warned. */
  lemma {:induction false} ScanWarns(users: Users, memo: Memo, now: Instant, order: seq<UserId>, o: Oracle)
    requires Within(order, users) && Distinct(order)
    ensures forall k :: Warned(k) in Scan(users, memo, now, order, o).effects <==> ShouldWarn(users, memo, now, o, order, k)
    decreases |order|
  {
    if order != [] {
      var k0, rest := order[0], order[1..];
      DistinctTail(order);
      var remaining := users[k0] - now;
      var t := Scan(users, memo, now, order, o);
      if InWarnWindow(remaining) && WarnDue(memo, k0, now) && o.warnSent(k0) {
        var memo' := memo[k0 := now];
        ScanWarns(users, memo', now, rest, o);
        var j := FirstRevocable(users, now, o, rest);
        PrefixStep(order, j);
        forall k
          ensures Warned(k) in t.effects <==> ShouldWarn(users, memo, now, o, order, k)
        {
          if k != k0 {
            assert WarnDue(memo', k, now) == WarnDue(memo, k, now);
          }
        }
      } else if remaining <= 0 && AttemptKick(o.banOk(k0), o.unbanOk(k0)) == KickedOut {
        assert FirstRevocable(users, now, o, order) == 0;
      } else {
        ScanWarns(users, memo, now, rest, o);
        var j := FirstRevocable(users, now, o, rest);
        PrefixStep(order, j);
      }
    }
  }

  /** The memo afterwards: stamped with `now` for every warned user, cleared
      for the revoked one, untouched otherwise. */
  lemma {:induction false} ScanMemo(users: Users, memo: Memo, now: Instant, order: seq<UserId>, o: Oracle)
    requires Within(order, users) && Distinct(order)
    ensures var t := Scan(users, memo, now, order, o);
      forall k :: k in t.memo <==>
        (k in memo || ShouldWarn(users, memo, now, o, order, k)) && !RevokedBy(users, now, o, order, k)
    ensures var t := Scan(users, memo, now, order, o);
      forall k :: k in t.memo ==>
        t.memo[k] == if ShouldWarn(users, memo, now, o, order, k) then now else memo[k]
    decreases |order|
  {
    if order != [] {
      var k0, rest := order[0], order[1..];
      DistinctTail(order);
      var remaining := users[k0] - now;
      var t := Scan(users, memo, now, order, o);
      if InWarnWindow(remaining) && WarnDue(memo, k0, now) && o.warnSent(k0) {
        var memo' := memo[k0 := now];
        ScanMemo(users, memo', now, rest, o);
        var j := FirstRevocable(users, now, o, rest);
        PrefixStep(order, j);
        var t' := Scan(users, memo', now, rest, o);
        assert t == Outcome(t'.users, t'.memo, [Warned(k0)] + t'.effects);
        ReachedStep(users, now, o, order);
        forall k
          ensures k in t.memo <==>
            (k in memo || ShouldWarn(users, memo, now, o, order, k)) && !RevokedBy(users, now, o, order, k)
          ensures k in t.memo ==>
            t.memo[k] == if ShouldWarn(users, memo, now, o, order, k) then now else memo[k]
        {
          if k == k0 {
            assert ShouldWarn(users, memo, now, o, order, k0);
            assert k0 !in rest[..j];
            assert !RevokedBy(users, now, o, rest, k0);
          } else {
            assert WarnDue(memo', k, now) == WarnDue(memo, k, now);
            assert ShouldWarn(users, memo', now, o, rest, k) == ShouldWarn(users, memo, now, o, order, k);
          }
        }
      } else if remaining <= 0 && AttemptKick(o.banOk(k0), o.unbanOk(k0)) == KickedOut {
        assert FirstRevocable(users, now, o, order) == 0;
      } else {
        ScanMemo(users, memo, now, rest, o);
        var j := FirstRevocable(users, now, o, rest);
        PrefixStep(order, j);
      }
    }
  }

  /** The kicks and notices of a pass: every record reached that has expired
      gets a kick attempt with the outcome its ban and unban give (so a user
      left banned shows up as LeftBanned), at most one kick succeeds (the
      record FirstRevocable picks), a notice follows only that one, and no
      effect concerns an id the pass did not reach. */
  lemma {:induction false} ScanEffects(users: Users, memo: Memo, now: Instant, order: seq<UserId>, o: Oracle)
    requires Within(order, users) && Distinct(order)
    ensures var t := Scan(users, memo, now, order, o);
      Revocations(t.effects) == if FirstRevocable(users, now, o, order) < |order| then 1 else 0
    ensures var t := Scan(users, memo, now, order, o);
      forall k :: KickTried(k, KickedOut) in t.effects <==> RevokedBy(users, now, o, order, k)
    ensures var t := Scan(users, memo, now, order, o);
      forall k, c :: KickTried(k, c) in t.effects <==>
        k in Reached(users, now, o, order) && k in users && users[k] - now <= 0 && c == AttemptKick(o.banOk(k), o.unbanOk(k))
    ensures var t := Scan(users, memo, now, order, o);
      forall k :: Noticed(k) in t.effects <==> RevokedBy(users, now, o, order, k) && o.noticeSent(k)
    ensures var t := Scan(users, memo, now, order, o);
      forall e :: e in t.effects ==> e.id in Reached(users, now, o, order)
    decreases |order|
  {
    if order != [] {
      var k0, rest := order[0], order[1..];
      DistinctTail(order);
      var remaining := users[k0] - now;
      var t := Scan(users, memo, now, order, o);
      if InWarnWindow(remaining) && WarnDue(memo, k0, now) && o.warnSent(k0) {
        ScanEffects(users, memo[k0 := now], now, rest, o);
        ReachedStep(users, now, o, order);
        assert t.effects[1..] == Scan(users, memo[k0 := now], now, rest, o).effects;
        assert Revocations(t.effects) == Revocations(t.effects[1..]);
        assert FirstRevocable(users, now, o, order) == 1 + FirstRevocable(users, now, o, rest);
      } else if remaining <= 0 && AttemptKick(o.banOk(k0), o.unbanOk(k0)) == KickedOut {
        assert FirstRevocable(users, now, o, order) == 0;
        assert Reached(users, now, o, order) == [k0];
        assert t.effects[1..] == if o.noticeSent(k0) then [Noticed(k0)] else [];
        assert Revocations(t.effects[1..]) == 0 by {
          if o.noticeSent(k0) {
            assert t.effects[1..][1..] == [];
          }
        }
      } else if remaining <= 0 {
        ScanEffects(users, memo, now, rest, o);
        ReachedStep(users, now, o, order);
        assert t.effects[1..] == Scan(users, memo, now, rest, o).effects;
      } else {
        ScanEffects(users, memo, now, rest, o);
        ReachedStep(users, now, o, order);
      }
    }
  }

  /** One pass of background_checker over the whole store. */
  function Tick(users: Users, memo: Memo, now: Instant, order: seq<UserId>, o: Oracle): (t: Outcome)
    requires Enumerates(order, users)
    // the store only loses records; the rest keep their expiry
    ensures t.users.Keys <= users.Keys
    ensures forall k :: k in t.users ==> t.users[k] == users[k]
    // a record goes only when it expired and the kick went through
    ensures forall k :: k in users && k !in t.users ==>
      Revocable(users, now, o, k) && k !in t.memo && KickTried(k, KickedOut) in t.effects
    ensures forall k :: k in users && !Revocable(users, now, o, k) ==> k in t.users
    ensures Revocations(t.effects) <= 1
    ensures (exists k :: k in users && Revocable(users, now, o, k)) ==> |t.users| == |users| - 1
    // warnings go only to due users inside the window, and stamp the memo
    ensures forall k :: Warned(k) in t.effects ==>
      k in users && InWarnWindow(users[k] - now) && WarnDue(memo, k, now) && o.warnSent(k)
      && k in t.memo && t.memo[k] == now
    // when nothing was revoked, every due user inside the window was warned
    ensures t.users == users ==> forall k :: k in users ==>
      (Warned(k) in t.effects <==> InWarnWindow(users[k] - now) && WarnDue(memo, k, now) && o.warnSent(k))
    ensures forall e :: e in t.effects ==> e.id in users
  {
    ScanWarns(users, memo, now, order, o);
    ScanMemo(users, memo, now, order, o);
    ScanEffects(users, memo, now, order, o);
    TickFacts(users, memo, now, order, o);
    Scan(users, memo, now, order, o)
  }

  lemma TickFacts(users: Users, memo: Memo, now: Instant, order: seq<UserId>, o: Oracle)
    requires Enumerates(order, users)
    ensures var t := Scan(users, memo, now, order, o);
      t.users == users <==> FirstRevocable(users, now, o, order) == |order|
    ensures (exists k :: k in users && Revocable(users, now, o, k)) ==> FirstRevocable(users, now, o, order) < |order|
    ensures FirstRevocable(users, now, o, order) < |order| ==>
      |Scan(users, memo, now, order, o).users| == |users| - 1
  {
    var i := FirstRevocable(users, now, o, order);
    if exists k :: k in users && Revocable(users, now, o, k) {
      var k :| k in users && Revocable(users, now, o, k);
      var j :| 0 <= j < |order| && order[j] == k;
      assert i <= j;
    }
    if i < |order| {
      assert order[i] in users;
      assert Scan(users, memo, now, order, o).users.Keys == users.Keys - {order[i]};
    }
  }

  /** The warning window is exactly where /stats and /check disagree: the
      records warned about are active for /stats and expired for /check. */
  lemma WarnWindowIsDisagreement(expiry: Instant, now: Instant)
    ensures InWarnWindow(expiry - now) <==>
      Reports.ActiveInStats(expiry, now) && !Reports.ActiveInCheck(expiry, now)
  {
    Reports.CheckStricterThanStats(expiry, now);
  }

  /** A second pass at the same instant neither kicks nor notifies about a
      record the first pass revoked, and does not warn anyone again. This
      assumes the first pass's save went through: the second pass starts from
      the store the first one left. Scenarios.UnsavedRevocationRepeats shows
      what happens when that save fails. */
  lemma SecondTickAtSameInstant(users: Users, memo: Memo, now: Instant, order1: seq<UserId>, o1: Oracle, order2: seq<UserId>, o2: Oracle)
    requires Enumerates(order1, users)
    requires Enumerates(order2, Tick(users, memo, now, order1, o1).users)
    requires now != 0
    ensures var t1 := Tick(users, memo, now, order1, o1);
      var t2 := Tick(t1.users, t1.memo, now, order2, o2);
      forall e :: e in t2.effects ==> e.id in t1.users
    ensures var t1 := Tick(users, memo, now, order1, o1);
      var t2 := Tick(t1.users, t1.memo, now, order2, o2);
      forall k :: Warned(k) in t1.effects ==> Warned(k) !in t2.effects
  {
    var t1 := Tick(users, memo, now, order1, o1);
    var t2 := Tick(t1.users, t1.memo, now, order2, o2);
    forall k | Warned(k) in t1.effects
      ensures Warned(k) !in t2.effects
    {
      assert !WarnDue(t1.memo, k, now);
    }
  }

  // ------------------------------------------------- the intended full pass

  /** The scan the checker evidently means to perform: the same per-record
      steps over a snapshot of the records, so a revocation does not end the
      pass. */
  function SnapshotScan(users: Users, memo: Memo, now: Instant, order: seq<UserId>, o: Oracle): (t: Outcome)
    requires Within(order, users)
    ensures forall k :: k in t.users <==> k in users && !(k in order && Revocable(users, now, o, k))
    ensures forall k :: k in t.users ==> t.users[k] == users[k]
    decreases |order|
  {
    if order == [] then Outcome(users, memo, [])
    else
      var k := order[0];
      var remaining := users[k] - now;
      if InWarnWindow(remaining) && WarnDue(memo, k, now) && o.warnSent(k) then
        var rest := SnapshotScan(users, memo[k := now], now, order[1..], o);
        Outcome(rest.users, rest.memo, [Warned(k)] + rest.effects)
      else if remaining <= 0 then
        var kick := AttemptKick(o.banOk(k), o.unbanOk(k));
        if kick == KickedOut then
          var rest := SnapshotScan(users, memo - {k}, now, order[1..], o);
          var notice := if o.noticeSent(k) then [Noticed(k)] else [];
          Outcome(rest.users - {k}, rest.memo, [KickTried(k, kick)] + notice + rest.effects)
        else
          var rest := SnapshotScan(users, memo, now, order[1..], o);
          Outcome(rest.users, rest.memo, [KickTried(k, kick)] + rest.effects)
      else
        SnapshotScan(users, memo, now, order[1..], o)
  }

  /** The records a pass over the whole store can revoke. */
  ghost function RevocableIds(users: Users, now: Instant, o: Oracle): set<UserId>
  {
    set k | k in users && Revocable(users, now, o, k)
  }

  /** The corrected scan warns every record of `order` that is inside the
      window, due and whose message goes through: a revocation no longer cuts
      the warnings short. */
  lemma {:induction false} SnapshotWarns(users: Users, memo: Memo, now: Instant, order: seq<UserId>, o: Oracle)
    requires Within(order, users) && Distinct(order)
    ensures forall k :: Warned(k) in SnapshotScan(users, memo, now, order, o).effects <==>
      k in order && InWarnWindow(users[k] - now) && WarnDue(memo, k, now) && o.warnSent(k)
    decreases |order|
  {
    if order != [] {
      var k0, rest := order[0], order[1..];
      DistinctTail(order);
      var remaining := users[k0] - now;
      var t := SnapshotScan(users, memo, now, order, o);
      if InWarnWindow(remaining) && WarnDue(memo, k0, now) && o.warnSent(k0) {
        var memo' := memo[k0 := now];
        SnapshotWarns(users, memo', now, rest, o);
        forall k | k != k0
          ensures WarnDue(memo', k, now) == WarnDue(memo, k, now)
        {
        }
      } else if remaining <= 0 {
        var kick := AttemptKick(o.banOk(k0), o.unbanOk(k0));
        var memo' := if kick == KickedOut then memo - {k0} else memo;
        SnapshotWarns(users, memo', now, rest, o);
        var r := SnapshotScan(users, memo', now, rest, o);
        var notice := if kick == KickedOut && o.noticeSent(k0) then [Noticed(k0)] else [];
        assert t.effects == [KickTried(k0, kick)] + notice + r.effects;
        forall k | k != k0
          ensures WarnDue(memo', k, now) == WarnDue(memo, k, now)
        {
        }
      } else {
        SnapshotWarns(users, memo, now, rest, o);
      }
    }
  }

  /** The intended pass: every expired record whose kick succeeds is revoked,
      every other record stays as it was, and every due user inside the
      warning window whose message goes through is warned. */
  function IntendedTick(users: Users, memo: Memo, now: Instant, order: seq<UserId>, o: Oracle): (t: Outcome)
    requires Enumerates(order, users)
    ensures t.users.Keys == users.Keys - RevocableIds(users, now, o)
    ensures forall k :: k in t.users ==> t.users[k] == users[k]
    ensures forall k :: Warned(k) in t.effects <==>
      k in users && InWarnWindow(users[k] - now) && WarnDue(memo, k, now) && o.warnSent(k)
  {
    SnapshotWarns(users, memo, now, order, o);
    var t := SnapshotScan(users, memo, now, order, o);
    forall k
      ensures k in t.users <==> k in users && k !in RevocableIds(users, now, o)
    {
      if k in users {
        assert k in order;
      }
    }
    t
  }

  /** The record the pass as written revokes is one of the revocable ones, and
      it revokes none only when there is none. */
  lemma FirstRevocableIsRevocable(users: Users, now: Instant, o: Oracle, order: seq<UserId>)
    requires Enumerates(order, users)
    ensures var i := FirstRevocable(users, now, o, order);
      i < |order| ==> order[i] in RevocableIds(users, now, o)
    ensures FirstRevocable(users, now, o, order) == |order| ==> RevocableIds(users, now, o) == {}
  {
    var i := FirstRevocable(users, now, o, order);
    if i == |order| {
      forall y | y in users
        ensures !Revocable(users, now, o, y)
      {
        assert y in order;
        var j :| 0 <= j < |order| && order[j] == y;
      }
      var r := RevocableIds(users, now, o);
      assert (forall z :: z !in r) ==> r == {};
    }
  }

  /** A set with at most one element that holds x is {x}; one with more holds
      something else too. */
  lemma SingleOrMore(r: set<UserId>, x: UserId)
    requires x in r
    ensures |r| <= 1 ==> r == {x}
    ensures |r| > 1 ==> exists y :: y in r && y != x
  {
    if |r| <= 1 {
      forall y | y in r
        ensures y == x
      {
        if y != x {
          Reports.Subcount({x, y}, r);
        }
      }
    } else {
      var rest := r - {x};
      assert |rest| == |r| - 1;
      assert (forall z :: z !in rest) ==> rest == {};
    }
  }

  lemma SameKeysSameMap(a: Users, b: Users, users: Users)
    requires a.Keys == b.Keys
    requires forall k :: k in a ==> k in users && a[k] == users[k]
    requires forall k :: k in b ==> k in users && b[k] == users[k]
    ensures a == b
  {
    assert forall k :: k in a ==> a[k] == b[k];
  }

  /** The pass as written and the intended pass leave the same store exactly
      when at most one record is revocable. */
  lemma TickMatchesIntendedIff(users: Users, memo: Memo, now: Instant, order: seq<UserId>, o: Oracle)
    requires Enumerates(order, users)
    ensures Tick(users, memo, now, order, o).users == IntendedTick(users, memo, now, order, o).users
      <==> |RevocableIds(users, now, o)| <= 1
  {
    var r := RevocableIds(users, now, o);
    var written := Scan(users, memo, now, order, o).users;
    var intended := IntendedTick(users, memo, now, order, o).users;
    assert Tick(users, memo, now, order, o).users == written;
    var i := FirstRevocable(users, now, o, order);
    FirstRevocableIsRevocable(users, now, o, order);
    if i < |order| {
      var x := order[i];
      assert written == users - {x};
      SingleOrMore(r, x);
      if |r| > 1 {
        var y :| y in r && y != x;
        assert y in written && y !in intended;
      } else {
        assert intended.Keys == users.Keys - {x};
        SameKeysSameMap(written, intended, users);
      }
    } else {
      assert written == users;
      SameKeysSameMap(written, intended, users);
    }
  }
}
