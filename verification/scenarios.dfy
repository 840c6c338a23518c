/**
 End-to-end runs of the store, the reports and one checker pass on concrete
 values: a grant, an extension and an automatic revocation; an already
 expired record revoked once; a corrupt users file recovering to an empty
 store.
 */
module Scenarios {
  import opened Store
  import Reports
  import opened Enforcer

  const Start: Instant := 1700000000

  /** Every Telegram call succeeds. */
  const AllOk := Oracle(_ => true, _ => true, _ => true, _ => true)

  /** Grant 30 days to 111, extend by 10, and run a pass 41 days later: the
      record is gone, the memo has no entry for it, and exactly one kick was
      made, for 111. */
  lemma GrantExtendExpire()
    ensures var granted := Grant(map[], 111, 30, Start);
      var extended := Extend(granted, 111, 10);
      && extended.Ok?
      && extended.value == map[111 := Start + 40 * DaySeconds]
      && var t := Tick(extended.value, map[], Start + 41 * DaySeconds, [111], AllOk);
      && t.users == map[]
      && 111 !in t.memo
      && t.effects == [KickTried(111, KickedOut), Noticed(111)]
  {
    var granted := Grant(map[], 111, 30, Start);
    assert granted == map[111 := Start + 30 * DaySeconds];
    var extended := Extend(granted, 111, 10).value;
    assert extended == map[111 := Start + 40 * DaySeconds];
    var now := Start + 41 * DaySeconds;
    assert Revocable(extended, now, AllOk, 111);
    assert Scan(extended, map[], now, [111], AllOk).effects == [KickTried(111, KickedOut), Noticed(111)];
  }

  /** A record already 5 s past expiry is revoked by the first pass, and,
      when the first pass's save went through, a second pass at the same
      instant does nothing at all (UnsavedRevocationRepeats shows the other
      case). */
  lemma ExpiredRevokedOnce()
    ensures var t1 := Tick(map[222 := Start - 5], map[], Start, [222], AllOk);
      && t1.users == map[]
      && t1.effects == [KickTried(222, KickedOut), Noticed(222)]
      && Tick(t1.users, t1.memo, Start, [], AllOk).effects == []
  {
    var users := map[222 := Start - 5];
    assert Revocable(users, Start, AllOk, 222);
    assert users - {222} == map[];
  }

  /** A kick that fails leaves the record in place and the pass goes on to warn
      the next user. */
  lemma FailedKickKeepsRecord()
    ensures var users := map[1 := Start - 5, 2 := Start + 3600];
      var banFails := Oracle(_ => true, _ => false, _ => true, _ => true);
      var t := Tick(users, map[], Start, [1, 2], banFails);
      && t.users == users
      && t.memo == map[2 := Start]
      && t.effects == [KickTried(1, BanFailed), Warned(2)]
  {
    var users := map[1 := Start - 5, 2 := Start + 3600];
    var banFails := Oracle(_ => true, _ => false, _ => true, _ => true);
    assert !Revocable(users, Start, banFails, 1);
    assert Scan(users, map[], Start, [2], banFails) == Outcome(users, map[2 := Start], [Warned(2)]);
  }

  /** A corrupt users file reads as an empty store; a grant still succeeds and,
      once saved, the file reads back as exactly that grant. */
  lemma CorruptFileRecovers()
    ensures Load(Malformed) == map[]
    ensures var users := Grant(Load(Malformed), 111, 30, Start);
      Load(Save(Malformed, users, Written)) == map[111 := Start + 30 * DaySeconds]
  {
    var users := Grant(Load(Malformed), 111, 30, Start);
    assert users == map[111 := Start + 30 * DaySeconds];
  }

  /** At the instant of a 30-day grant /check lists the user with 30 days
      left. */
  lemma GrantShowsThirtyDays()
    ensures var users := Grant(map[], 111, 30, Start);
      Reports.DaysLeft(users[111], Start) == 30
  {
    Reports.FreshGrantShowsItsDays(Start, 30);
  }

  /** /check reads the clock again, so one second after a 30-day grant it
      already lists the user with 29 days left. */
  lemma GrantShowsTwentyNineASecondLater()
    ensures var users := Grant(map[], 111, 30, Start);
      Reports.DaysLeft(users[111], Start + 1) == 29
  {
    Reports.ElapsedGrantShowsFewerDays(Start, 30, 1);
  }

  /** The save after a revocation is swallowed when it fails. If the file
      could not even be opened, the next pass reloads the revoked record, and
      kicks and reports it again. */
  lemma UnsavedRevocationRepeats()
    ensures var users := map[222 := Start - 5];
      var t1 := Tick(users, map[], Start, [222], AllOk);
      var kept := Load(Save(Json(users), t1.users, OpenFailed));
      && t1.effects == [KickTried(222, KickedOut), Noticed(222)]
      && kept == users
      && Tick(kept, t1.memo, Start, [222], AllOk).effects == [KickTried(222, KickedOut), Noticed(222)]
  {
    var users := map[222 := Start - 5];
    assert Revocable(users, Start, AllOk, 222);
    var t1 := Tick(users, map[], Start, [222], AllOk);
    assert t1.effects == [KickTried(222, KickedOut), Noticed(222)];
  }

  /** Two records expired 5 s and 10 s ago, one an hour before expiry. */
  const Mixed: Users := map[1 := Start - 5, 2 := Start - 10, 3 := Start + 3600]

  /** The pass as written stops after its first revocation: of two expired
      records it revokes only the first, and it never reaches the warning due
      to the third. */
  lemma TwoExpiredNeedTwoPasses()
    ensures var t := Tick(Mixed, map[], Start, [1, 2, 3], AllOk);
      && t.users == map[2 := Start - 10, 3 := Start + 3600]
      && t.effects == [KickTried(1, KickedOut), Noticed(1)]
  {
    assert Revocable(Mixed, Start, AllOk, 1);
    assert Mixed - {1} == map[2 := Start - 10, 3 := Start + 3600];
  }

  /** If the save after that revocation fails once the file is open, the
      next load finds no subscriber at all, although two records were still
      live. */
  lemma CutOffSaveLosesStore()
    ensures var t := Tick(Mixed, map[], Start, [1, 2, 3], AllOk);
      && t.users == map[2 := Start - 10, 3 := Start + 3600]
      && Load(Save(Json(Mixed), t.users, CutOff)) == map[]
  {
    TwoExpiredNeedTwoPasses();
  }

  /** The intended pass over the same records revokes both expired ones and
      warns about the third. */
  lemma IntendedPassRevokesBoth()
    ensures var t := IntendedTick(Mixed, map[], Start, [1, 2, 3], AllOk);
      && t.users == map[3 := Start + 3600]
      && t.effects == [KickTried(1, KickedOut), Noticed(1), KickTried(2, KickedOut), Noticed(2), Warned(3)]
  {
    var none: Memo := map[];
    assert none - {1} == none && none - {2} == none;
    var last := SnapshotScan(Mixed, map[], Start, [3], AllOk);
    assert [3][1..] == [];
    assert last.effects == [Warned(3)];
    var middle := SnapshotScan(Mixed, map[], Start, [2, 3], AllOk);
    assert [2, 3][1..] == [3];
    assert middle.effects == [KickTried(2, KickedOut), Noticed(2), Warned(3)];
    var t := SnapshotScan(Mixed, map[], Start, [1, 2, 3], AllOk);
    assert [1, 2, 3][1..] == [2, 3];
    assert t.effects == [KickTried(1, KickedOut), Noticed(1)] + middle.effects;
    assert t.users.Keys == {3};
  }
}
