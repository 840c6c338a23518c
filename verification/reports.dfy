/**
 The two read-only reports over the store: /stats counts records as active,
 expiring soon or expired using fractional days left, and /check lists the
 records sorted by expiry, classing each by its days left truncated to a
 whole number. The two do not agree on a record with less than a day left.
 */
module Reports {
  import opened Store

  /** /stats calls a record "expiring soon" up to this many days before expiry. */
  const SoonDays: int := 3

  /** Days left as /check shows them: the fractional days left truncated
      toward zero. */
  function DaysLeft(expiry: Instant, now: Instant): (d: int)
    ensures expiry - now >= 0 ==> d * DaySeconds <= expiry - now < (d + 1) * DaySeconds
    ensures expiry - now < 0 ==> (d - 1) * DaySeconds < expiry - now <= d * DaySeconds
  {
    var remaining := expiry - now;
    if remaining >= 0 then remaining / DaySeconds
    else -((-remaining) / DaySeconds)
  }

  /** /stats: a record is active while any fraction of a day is left. */
  predicate ActiveInStats(expiry: Instant, now: Instant)
  {
    expiry - now > 0
  }

  /** /check: a record is active while at least one whole day is left. */
  predicate ActiveInCheck(expiry: Instant, now: Instant)
  {
    DaysLeft(expiry, now) > 0
  }

  /** /check is strictly stricter than /stats, and they disagree exactly on
      the records with less than one day left. */
  lemma CheckStricterThanStats(expiry: Instant, now: Instant)
    ensures ActiveInCheck(expiry, now) <==> expiry - now >= DaySeconds
    ensures ActiveInCheck(expiry, now) ==> ActiveInStats(expiry, now)
    ensures ActiveInStats(expiry, now) && !ActiveInCheck(expiry, now) <==> 0 < expiry - now < DaySeconds
  {
    var d := DaysLeft(expiry, now);
    if expiry - now >= DaySeconds {
      assert d * DaySeconds > 0;
    }
  }

  /** A record granted for `days` days shows exactly that many days left in
      /check at the moment of the grant. */
  lemma FreshGrantShowsItsDays(now: Instant, days: int)
    ensures DaysLeft(now + days * DaySeconds, now) == days
  {
    var d := DaysLeft(now + days * DaySeconds, now);
    if days >= 0 {
      assert d * DaySeconds <= days * DaySeconds < (d + 1) * DaySeconds;
    } else {
      assert (d - 1) * DaySeconds < days * DaySeconds <= d * DaySeconds;
    }
  }

  /** /check reads the clock itself, so once any time has passed since a
      grant of a positive number of days, one day less is shown: the days left
      are truncated. A grant of zero or fewer days shows its own count, since
      truncation of a negative remainder rounds up. */
  lemma ElapsedGrantShowsFewerDays(now: Instant, days: int, elapsed: int)
    requires 0 < elapsed < DaySeconds
    ensures DaysLeft(now + days * DaySeconds, now + elapsed) == if days > 0 then days - 1 else days
  {
    var d := DaysLeft(now + days * DaySeconds, now + elapsed);
    var r := days * DaySeconds - elapsed;
    assert (days - 1) * DaySeconds < r < days * DaySeconds;
    if days > 0 {
      assert r >= 0;
      assert d * DaySeconds <= r < (d + 1) * DaySeconds;
    } else {
      assert r < 0;
      assert (d - 1) * DaySeconds < r <= d * DaySeconds;
    }
  }

  // ---------------------------------------------------------------- /stats

  /** The three counters /stats keeps. Soon is a sub-count of Active. */
  datatype Bucket = Active | Soon | Expired

  predicate InBucket(b: Bucket, remaining: int)
  {
    match b
    case Active => remaining > 0
    case Soon => 0 < remaining <= SoonDays * DaySeconds
    case Expired => remaining <= 0
  }

  /** The ids among `ids` whose record falls in bucket `b`. */
  ghost function Tally(users: Users, ids: set<UserId>, now: Instant, b: Bucket): set<UserId>
  {
    set k | k in ids && k in users && InBucket(b, users[k] - now)
  }

  lemma TallyGrows(users: Users, ids: set<UserId>, k: UserId, now: Instant, b: Bucket)
    requires k in users && k !in ids
    ensures InBucket(b, users[k] - now) ==> Tally(users, ids + {k}, now, b) == Tally(users, ids, now, b) + {k}
    ensures InBucket(b, users[k] - now) ==> |Tally(users, ids + {k}, now, b)| == |Tally(users, ids, now, b)| + 1
    ensures !InBucket(b, users[k] - now) ==> Tally(users, ids + {k}, now, b) == Tally(users, ids, now, b)
  {
  }

  /** Active and expired split the store; expiring-soon records are active. */
  lemma BucketsPartition(users: Users, now: Instant)
    ensures Tally(users, users.Keys, now, Active) + Tally(users, users.Keys, now, Expired) == users.Keys
    ensures Tally(users, users.Keys, now, Active) !! Tally(users, users.Keys, now, Expired)
    ensures |Tally(users, users.Keys, now, Active)| + |Tally(users, users.Keys, now, Expired)| == |users|
    ensures Tally(users, users.Keys, now, Soon) <= Tally(users, users.Keys, now, Active)
  {
    var a, e := Tally(users, users.Keys, now, Active), Tally(users, users.Keys, now, Expired);
    forall k | k in users.Keys
      ensures k in a + e
    {
      if users[k] - now > 0 {
        assert k in a;
      } else {
        assert k in e;
      }
    }
    assert a + e == users.Keys;
    assert a !! e by {
      forall k | k in a
        ensures k !in e
      {
      }
    }
    assert |a + e| == |a| + |e|;
    forall k | k in Tally(users, users.Keys, now, Soon)
      ensures k in a
    {
    }
  }

  datatype Stats = Stats(total: nat, active: nat, expiringSoon: nat, expired: nat)

  /** show_stats: counts every record of the store into its buckets. */
  method CountStats(users: Users, now: Instant) returns (s: Stats)
    ensures s.total == |users|
    ensures s.active == |Tally(users, users.Keys, now, Active)|
    ensures s.expiringSoon == |Tally(users, users.Keys, now, Soon)|
    ensures s.expired == |Tally(users, users.Keys, now, Expired)|
    ensures s.active + s.expired == s.total
    ensures s.expiringSoon <= s.active
  {
    var rest := users.Keys;
    var active, soon, expired := 0, 0, 0;
    while rest != {}
      invariant rest <= users.Keys
      invariant active == |Tally(users, users.Keys - rest, now, Active)|
      invariant soon == |Tally(users, users.Keys - rest, now, Soon)|
      invariant expired == |Tally(users, users.Keys - rest, now, Expired)|
      decreases rest
    {
      assert (forall x :: x !in rest) ==> rest == {};
      var k :| k in rest;
      var seen := users.Keys - rest;
      assert users.Keys - (rest - {k}) == seen + {k};
      TallyGrows(users, seen, k, now, Active);
      TallyGrows(users, seen, k, now, Soon);
      TallyGrows(users, seen, k, now, Expired);
      var remaining := users[k] - now;
      if remaining > 0 {
        active := active + 1;
        if remaining <= SoonDays * DaySeconds {
          soon := soon + 1;
        }
      } else {
        expired := expired + 1;
      }
      rest := rest - {k};
    }
    assert users.Keys - rest == users.Keys;
    BucketsPartition(users, now);
    Subcount(Tally(users, users.Keys, now, Soon), Tally(users, users.Keys, now, Active));
    s := Stats(|users|, active, soon, expired);
  }

  lemma Subcount(a: set<UserId>, b: set<UserId>)
    requires a <= b
    ensures |a| <= |b|
  {
    assert b == a + (b - a);
  }

  // ---------------------------------------------------------------- /check

  /** One line of the /check listing. */
  datatype Row = Row(id: UserId, expiry: Instant, daysLeft: int)

  datatype Listing = EmptyStore | Listing(active: seq<Row>, expired: seq<Row>)

  predicate SortedByExpiry(rows: seq<Row>)
  {
    forall i, j :: 0 <= i < j < |rows| ==> rows[i].expiry <= rows[j].expiry
  }

  /** The row /check builds for a stored record. */
  ghost predicate RowOf(users: Users, now: Instant, r: Row)
  {
    r.id in users && r.expiry == users[r.id] && r.daysLeft == DaysLeft(r.expiry, now)
  }

  /** A row no later than every row of a sorted list can go in front of it. */
  lemma SortedCons(a: Row, rows: seq<Row>)
    requires SortedByExpiry(rows)
    requires forall x :: x in rows ==> a.expiry <= x.expiry
    ensures SortedByExpiry([a] + rows)
  {
    forall i, j | 0 <= i < j < |[a] + rows|
      ensures ([a] + rows)[i].expiry <= ([a] + rows)[j].expiry
    {
      assert ([a] + rows)[j] == rows[j - 1];
      if i > 0 {
        assert ([a] + rows)[i] == rows[i - 1];
      }
    }
  }

  function Insert(row: Row, rows: seq<Row>): (r: seq<Row>)
    requires SortedByExpiry(rows)
    ensures SortedByExpiry(r)
    ensures multiset(r) == multiset(rows) + multiset{row}
    decreases |rows|
  {
    if rows == [] || row.expiry <= rows[0].expiry then
      SortedCons(row, rows);
      [row] + rows
    else
      var head, later := rows[0], rows[1..];
      assert rows == [head] + later;
      assert SortedByExpiry(later);
      var tail := Insert(row, later);
      forall x | x in tail
        ensures head.expiry <= x.expiry
      {
        assert x in multiset(tail);
        if x != row {
          assert x in multiset(later);
          var j :| 0 <= j < |later| && later[j] == x;
          assert rows[j + 1] == x;
        }
      }
      SortedCons(head, tail);
      [head] + tail
  }

  /** The rows in ascending order of expiry, as /check lists them. */
  function SortByExpiry(rows: seq<Row>): (r: seq<Row>)
    ensures SortedByExpiry(r)
    ensures multiset(r) == multiset(rows)
    decreases |rows|
  {
    if rows == [] then []
    else
      assert rows == [rows[0]] + rows[1..];
      Insert(rows[0], SortByExpiry(rows[1..]))
  }

  /** The rows of `rows` that /check puts in the active (or expired) list, in order. */
  function Keep(rows: seq<Row>, active: bool): (r: seq<Row>)
    ensures forall x :: x in r <==> x in rows && (x.daysLeft > 0) == active
    ensures |r| <= |rows|
    decreases |rows|
  {
    if rows == [] then []
    else if (rows[0].daysLeft > 0) == active then [rows[0]] + Keep(rows[1..], active)
    else Keep(rows[1..], active)
  }

  /** Every row lands in exactly one of the two lists, as often as it occurs
      in the input. */
  lemma {:induction false} KeepPartitions(rows: seq<Row>)
    ensures multiset(Keep(rows, true)) + multiset(Keep(rows, false)) == multiset(rows)
    decreases |rows|
  {
    if rows != [] {
      KeepPartitions(rows[1..]);
      assert rows == [rows[0]] + rows[1..];
    }
  }

  /** Rows sorted by expiry and classed by their own days left have every
      expired row before every active one, so the two lists of /check, put
      back together, give back the sorted listing. */
  lemma {:induction false} SortedSplit(rows: seq<Row>, now: Instant)
    requires SortedByExpiry(rows)
    requires forall x :: x in rows ==> x.daysLeft == DaysLeft(x.expiry, now)
    ensures Keep(rows, false) + Keep(rows, true) == rows
    decreases |rows|
  {
    if rows != [] {
      var x, later := rows[0], rows[1..];
      SortedTail(rows);
      SortedSplit(later, now);
      if x.daysLeft > 0 {
        AllActive(later, x.expiry, now);
        assert Keep(rows, true) == [x] + later;
      }
    }
  }

  /** The tail of a sorted list is sorted and expires no earlier than its head. */
  lemma SortedTail(rows: seq<Row>)
    requires SortedByExpiry(rows) && rows != []
    ensures SortedByExpiry(rows[1..])
    ensures forall y :: y in rows[1..] ==> rows[0].expiry <= y.expiry
    ensures rows == [rows[0]] + rows[1..]
  {
    var later := rows[1..];
    forall i, j | 0 <= i < j < |later|
      ensures later[i].expiry <= later[j].expiry
    {
      assert later[i] == rows[i + 1] && later[j] == rows[j + 1];
    }
    forall y | y in later
      ensures rows[0].expiry <= y.expiry
    {
      var j :| 0 <= j < |later| && later[j] == y;
      assert rows[j + 1] == y;
    }
  }

  /** Once one row is active, every later (no earlier expiring) row is too. */
  lemma {:induction false} AllActive(rows: seq<Row>, from: Instant, now: Instant)
    requires forall x :: x in rows ==> x.daysLeft == DaysLeft(x.expiry, now) && from <= x.expiry
    requires DaysLeft(from, now) > 0
    ensures Keep(rows, false) == [] && Keep(rows, true) == rows
    decreases |rows|
  {
    if rows != [] {
      CheckStricterThanStats(from, now);
      CheckStricterThanStats(rows[0].expiry, now);
      AllActive(rows[1..], from, now);
    }
  }

  function IdsOf(rows: seq<Row>): set<UserId>
  {
    set r | r in rows :: r.id
  }

  lemma IdsOfSnoc(rows: seq<Row>, row: Row)
    ensures IdsOf(rows + [row]) == IdsOf(rows) + {row.id}
  {
    forall id | id in IdsOf(rows)
      ensures id in IdsOf(rows + [row])
    {
      var r :| r in rows && r.id == id;
      assert r in rows + [row];
    }
    assert row in rows + [row];
  }

  /** Moving k from the ids still to visit to the ids seen adds one seen id. */
  lemma TakeOne(all: set<UserId>, rest: set<UserId>, k: UserId)
    requires rest <= all && k in rest
    ensures all - (rest - {k}) == (all - rest) + {k}
    ensures |all - (rest - {k})| == |all - rest| + 1
  {
    assert all - (rest - {k}) == (all - rest) + {k};
  }

  /** Collects one row per stored record, in no particular order. */
  method Rows(users: Users, now: Instant) returns (rows: seq<Row>)
    ensures |rows| == |users|
    ensures IdsOf(rows) == users.Keys
    ensures forall r :: r in rows ==> RowOf(users, now, r)
  {
    var rest := users.Keys;
    rows := [];
    while rest != {}
      invariant rest <= users.Keys
      invariant IdsOf(rows) == users.Keys - rest
      invariant |rows| == |users.Keys - rest|
      invariant forall r :: r in rows ==> RowOf(users, now, r)
      decreases rest
    {
      assert (forall x :: x !in rest) ==> rest == {};
      var k :| k in rest;
      var row := Row(k, users[k], DaysLeft(users[k], now));
      TakeOne(users.Keys, rest, k);
      IdsOfSnoc(rows, row);
      rows := rows + [row];
      rest := rest - {k};
    }
    assert users.Keys - rest == users.Keys;
  }

  /** check_users: an empty store is reported as such; otherwise every record
      appears once, with its days left, in the active list when at least one
      whole day is left and in the expired list otherwise; each list is in
      ascending expiry order, and every expired row expires no later than
      every active row. */
  method CheckUsers(users: Users, now: Instant) returns (listing: Listing)
    ensures listing.EmptyStore? <==> users == map[]
    ensures listing.Listing? ==> SortedByExpiry(listing.expired + listing.active)
    ensures listing.Listing? ==> |listing.expired| + |listing.active| == |users|
    ensures listing.Listing? ==> IdsOf(listing.expired + listing.active) == users.Keys
    ensures listing.Listing? ==> forall r :: r in listing.expired + listing.active ==> RowOf(users, now, r)
    ensures listing.Listing? ==> forall r :: r in listing.active ==> r.daysLeft > 0
    ensures listing.Listing? ==> forall r :: r in listing.expired ==> r.daysLeft <= 0
  {
    if users == map[] {
      return EmptyStore;
    }
    var rows := Rows(users, now);
    var sorted := SortByExpiry(rows);
    assert forall r :: r in sorted <==> r in rows by {
      forall r ensures r in sorted <==> r in rows {
        assert r in sorted <==> r in multiset(sorted);
        assert r in rows <==> r in multiset(rows);
      }
    }
    assert |sorted| == |rows| by {
      assert |multiset(sorted)| == |multiset(rows)|;
    }
    SortedSplit(sorted, now);
    listing := Listing(Keep(sorted, true), Keep(sorted, false));
    assert listing.expired + listing.active == sorted;
  }
}
