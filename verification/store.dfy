/**
 The subscription store of the channel-access bot: a map from user id to the
 instant the subscription expires, and the pure map updates performed by the
 admin commands (/adduser, /extend, /remove, /addall). Instants are whole
 seconds since the epoch; the bot itself keeps fractional seconds, which only
 matters for rendering.
 */
module Store {

  /** Seconds in one day: both a grant of n days and the stored expiry use it. */
  const DaySeconds: int := 86400

  type UserId = int
  type Instant = int
  type Users = map<UserId, Instant>

  /** What the users file holds at the moment it is read. An empty or cut-off
      file is Malformed: it does not parse. */
  datatype StoredFile = Absent | Malformed | Json(contents: Users)

  /** How a save ends. Opening the file for writing empties it first, so a
      write that fails after the open leaves an empty or cut-off file; one
      that fails to open leaves the previous file. Both failures are logged
      and swallowed. */
  datatype Write = Written | OpenFailed | CutOff

  datatype Error = NotFound(id: UserId) | ListingFailed

  datatype Result<T> = Ok(value: T) | Err(error: Error)

  /** load_data: reading never fails; a missing or unparsable file reads as an
      empty store. */
  function Load(f: StoredFile): (users: Users)
    ensures f.Json? ==> users == f.contents
    ensures !f.Json? ==> users == map[]
  {
    match f
    case Json(users) => users
    case _ => map[]
  }

  /** save_data: the file after a save of `users` over `f`. */
  function Save(f: StoredFile, users: Users, w: Write): (r: StoredFile)
    ensures w == Written ==> Load(r) == users
    ensures w == OpenFailed ==> Load(r) == Load(f)
    ensures w == CutOff ==> Load(r) == map[]
  {
    match w
    case Written => Json(users)
    case OpenFailed => f
    case CutOff => Malformed
  }

  /** Outcome of the ban-then-unban pair that removes someone from the
      channel; the unban is only attempted once the ban went through. */
  datatype Kick = KickedOut | LeftBanned | BanFailed

  function AttemptKick(banOk: bool, unbanOk: bool): (k: Kick)
    ensures k == KickedOut <==> banOk && unbanOk
    ensures k == LeftBanned <==> banOk && !unbanOk
    ensures k == BanFailed <==> !banOk
  {
    if !banOk then BanFailed
    else if !unbanOk then LeftBanned
    else KickedOut
  }

  /** `a` and `b` hold the same keys with the same values, except possibly `id`. */
  ghost predicate SameElsewhere(a: Users, b: Users, id: UserId)
  {
    && (forall k :: k in a && k != id ==> k in b && a[k] == b[k])
    && (forall k :: k in b && k != id ==> k in a)
  }

  /** /adduser: a new id gets now + days; an id already present is extended
      from its stored expiry, not from now. */
  function Grant(users: Users, id: UserId, days: int, now: Instant): (r: Users)
    ensures id in r && SameElsewhere(r, users, id)
    ensures id in users ==> r[id] - users[id] == days * DaySeconds
    ensures id !in users ==> r[id] - now == days * DaySeconds
  {
    if id in users then users[id := users[id] + days * DaySeconds]
    else users[id := now + days * DaySeconds]
  }

  /** /extend: only a stored id can be extended, always from its stored
      expiry, even when that lies in the past. */
  function Extend(users: Users, id: UserId, days: int): (r: Result<Users>)
    ensures r.Ok? <==> id in users
    ensures r.Err? ==> r.error == NotFound(id)
    ensures r.Ok? ==> id in r.value && SameElsewhere(r.value, users, id)
    ensures r.Ok? ==> r.value[id] - users[id] == days * DaySeconds
  {
    if id !in users then Err(NotFound(id))
    else Ok(users[id := users[id] + days * DaySeconds])
  }

  /** Two extensions add up: extending by a then b is extending by a + b. */
  lemma ExtendIsAdditive(users: Users, id: UserId, a: int, b: int)
    requires id in users
    ensures Extend(users, id, a).Ok?
    ensures Extend(Extend(users, id, a).value, id, b) == Extend(users, id, a + b)
  {
    var once := Extend(users, id, a).value;
    assert once[id] + b * DaySeconds == users[id] + (a + b) * DaySeconds;
    assert once[id := once[id] + b * DaySeconds] == users[id := users[id] + (a + b) * DaySeconds];
  }

  /** Extensions commute. */
  lemma ExtendCommutes(users: Users, id: UserId, a: int, b: int)
    requires id in users
    ensures Extend(Extend(users, id, a).value, id, b) == Extend(Extend(users, id, b).value, id, a)
  {
    ExtendIsAdditive(users, id, a, b);
    ExtendIsAdditive(users, id, b, a);
  }

  /** On a stored id /adduser behaves exactly like /extend; on a new one it
      starts from now. */
  lemma GrantExistingIsExtend(users: Users, id: UserId, days: int, now: Instant)
    ensures id in users ==> Extend(users, id, days) == Ok(Grant(users, id, days, now))
    ensures id !in users ==> Extend(users, id, days) == Err(NotFound(id))
    ensures id !in users ==> Grant(users, id, days, now) == users[id := now + days * DaySeconds]
  {
  }

  datatype Removal = Removal(users: Users, channel: Kick)

  /** /remove: an unknown id is reported; a known one is deleted from the store
      whatever the channel kick did. */
  function Remove(users: Users, id: UserId, banOk: bool, unbanOk: bool): (r: Result<Removal>)
    ensures r.Ok? <==> id in users
    ensures r.Err? ==> r.error == NotFound(id)
    ensures r.Ok? ==> r.value.users.Keys == users.Keys - {id}
    ensures r.Ok? ==> forall k :: k in r.value.users ==> r.value.users[k] == users[k]
    ensures r.Ok? ==> r.value.channel == AttemptKick(banOk, unbanOk)
  {
    if id !in users then Err(NotFound(id))
    else
      var channel := AttemptKick(banOk, unbanOk);
      Ok(Removal(users - {id}, channel))
  }

  /** Removing a freshly granted id gives back the store as it was, and a
      second removal reports the id as unknown. */
  lemma RemoveUndoesGrant(users: Users, id: UserId, days: int, now: Instant, banOk: bool, unbanOk: bool)
    requires id !in users
    ensures Remove(Grant(users, id, days, now), id, banOk, unbanOk) == Ok(Removal(users, AttemptKick(banOk, unbanOk)))
    ensures Remove(users, id, banOk, unbanOk) == Err(NotFound(id))
  {
    var granted := Grant(users, id, days, now);
    assert granted - {id} == users;
  }

  /** The channel member listing seen by /addall: either complete, or broken
      off by an error (which the handler turns into an error reply). */
  datatype Members = Listed(ids: seq<UserId>) | Unavailable

  datatype BulkGrant = BulkGrant(users: Users, added: nat, updated: nat)

  /** The ids /addall writes: every listed member except the bot itself. */
  function Grantees(ids: seq<UserId>, bot: UserId): (g: set<UserId>)
    ensures forall k :: k in g <==> k in ids && k != bot
    decreases |ids|
  {
    if ids == [] then {}
    else (if ids[0] == bot then {} else {ids[0]}) + Grantees(ids[1..], bot)
  }

  /** How many listed entries /addall processes (the bot's own entry is skipped). */
  function Processed(ids: seq<UserId>, bot: UserId): nat
  {
    if ids == [] then 0
    else (if ids[0] == bot then 0 else 1) + Processed(ids[1..], bot)
  }

  /** The /addall loop: walk the listing and reset each member to `end`,
      counting ids that were new (`added`) and already stored (`updated`).
      Every listed member other than the bot ends at `end`; nothing else
      changes. ResetAllCounts states what the counters come to. */
  function ResetAll(users: Users, ids: seq<UserId>, bot: UserId, end: Instant, added: nat, updated: nat): (r: BulkGrant)
    ensures r.users.Keys == users.Keys + Grantees(ids, bot)
    ensures forall k :: k in Grantees(ids, bot) ==> r.users[k] == end
    ensures forall k :: k in users && k !in Grantees(ids, bot) ==> r.users[k] == users[k]
    decreases |ids|
  {
    if ids == [] then BulkGrant(users, added, updated)
    else
      var id := ids[0];
      var later := Grantees(ids[1..], bot);
      assert Grantees(ids, bot) == (if id == bot then {} else {id}) + later;
      if id == bot then ResetAll(users, ids[1..], bot, end, added, updated)
      else
        var r := ResetAll(users[id := end], ids[1..], bot, end, if id in users then added else added + 1,
          if id in users then updated + 1 else updated);
        ResetStep(users, id, later, end, r.users);
        r
  }

  /** `added` grows by the number of distinct members not stored before, and
      `added + updated` by the number of non-bot entries walked, repeats
      included. */
  lemma {:induction false} ResetAllCounts(users: Users, ids: seq<UserId>, bot: UserId, end: Instant, added: nat, updated: nat)
    ensures ResetAll(users, ids, bot, end, added, updated).added == added + |Grantees(ids, bot) - users.Keys|
    ensures ResetAll(users, ids, bot, end, added, updated).added + ResetAll(users, ids, bot, end, added, updated).updated
      == added + updated + Processed(ids, bot)
    decreases |ids|, 1
  {
    if ids != [] {
      if ids[0] == bot {
        ResetAllCounts(users, ids[1..], bot, end, added, updated);
      } else {
        CountsStep(users, ids, bot, end, added, updated);
      }
    }
  }

  /** One member of the listing other than the bot: it counts as added when
      it was not stored before, as updated otherwise. */
  lemma {:induction false} CountsStep(users: Users, ids: seq<UserId>, bot: UserId, end: Instant, added: nat, updated: nat)
    requires ids != [] && ids[0] != bot
    ensures ResetAll(users, ids, bot, end, added, updated).added == added + |Grantees(ids, bot) - users.Keys|
    ensures ResetAll(users, ids, bot, end, added, updated).added + ResetAll(users, ids, bot, end, added, updated).updated
      == added + updated + Processed(ids, bot)
    decreases |ids|, 0
  {
    var id, rest := ids[0], ids[1..];
    var later := Grantees(rest, bot);
    var added', updated' := if id in users then added else added + 1, if id in users then updated + 1 else updated;
    var r := ResetAll(users[id := end], rest, bot, end, added', updated');
    assert ResetAll(users, ids, bot, end, added, updated) == r;
    assert Grantees(ids, bot) == {id} + later;
    ResetAllCounts(users[id := end], rest, bot, end, added', updated');
    if id in users {
      StoredGranteeStep(users, id, later, end);
    } else {
      NewGranteeStep(users, id, later, end);
    }
  }

  /** What the rest of the loop does after resetting `id` is what the whole
      loop does from the store before it. */
  lemma ResetStep(users: Users, id: UserId, later: set<UserId>, end: Instant, r: Users)
    requires r.Keys == users[id := end].Keys + later
    requires forall k :: k in later ==> r[k] == end
    requires forall k :: k in users[id := end] && k !in later ==> r[k] == users[id := end][k]
    ensures r.Keys == users.Keys + ({id} + later)
    ensures forall k :: k in {id} + later ==> r[k] == end
    ensures forall k :: k in users && k !in {id} + later ==> r[k] == users[k]
  {
  }

  /** Resetting a stored id leaves the "to be added" set as it was. */
  lemma StoredGranteeStep(users: Users, id: UserId, later: set<UserId>, end: Instant)
    requires id in users
    ensures ({id} + later) - users.Keys == later - users[id := end].Keys
    ensures users[id := end].Keys == users.Keys
  {
  }

  /** Granting a new id first moves it from the "to be added" set into the store. */
  lemma NewGranteeStep(users: Users, id: UserId, later: set<UserId>, end: Instant)
    requires id !in users
    ensures ({id} + later) - users.Keys == (later - users[id := end].Keys) + {id}
    ensures id !in later - users[id := end].Keys
    ensures |({id} + later) - users.Keys| == |later - users[id := end].Keys| + 1
  {
  }

  /** /addall: every listed member except the bot ends at exactly now + days,
      whatever it held before; nothing is saved if the listing fails. */
  function AddAll(users: Users, members: Members, bot: UserId, now: Instant, days: int): (r: Result<BulkGrant>)
    ensures members.Unavailable? ==> r == Err(ListingFailed)
    ensures members.Listed? ==> r.Ok?
    ensures r.Ok? ==> r.value.users.Keys == users.Keys + Grantees(members.ids, bot)
    ensures r.Ok? ==> forall k :: k in Grantees(members.ids, bot) ==> r.value.users[k] - now == days * DaySeconds
    ensures r.Ok? ==> forall k :: k in users && k !in Grantees(members.ids, bot) ==> r.value.users[k] == users[k]
    ensures r.Ok? ==> r.value.added == |Grantees(members.ids, bot) - users.Keys|
    ensures r.Ok? ==> r.value.added + r.value.updated == Processed(members.ids, bot)
  {
    match members
    case Unavailable => Err(ListingFailed)
    case Listed(ids) =>
      var end := now + days * DaySeconds;
      var b := ResetAll(users, ids, bot, end, 0, 0);
      ResetAllCounts(users, ids, bot, end, 0, 0);
      assert b.added == |Grantees(ids, bot) - users.Keys|;
      Ok(b)
  }

  predicate Distinct(ids: seq<UserId>)
  {
    forall i, j :: 0 <= i < j < |ids| ==> ids[i] != ids[j]
  }

  /** Without repeated entries, every processed member is counted once. */
  lemma {:induction false} ProcessedDistinct(ids: seq<UserId>, bot: UserId)
    requires Distinct(ids)
    ensures Processed(ids, bot) == |Grantees(ids, bot)|
    decreases |ids|
  {
    if ids != [] {
      assert Distinct(ids[1..]) by {
        forall i, j | 0 <= i < j < |ids[1..]| ensures ids[1..][i] != ids[1..][j] {
          assert ids[1..][i] == ids[i + 1] && ids[1..][j] == ids[j + 1];
        }
      }
      ProcessedDistinct(ids[1..], bot);
      forall j | 0 <= j < |ids[1..]|
        ensures ids[1..][j] != ids[0]
      {
        assert ids[1..][j] == ids[j + 1];
      }
      assert ids[0] !in ids[1..];
      assert Grantees(ids, bot) == (if ids[0] == bot then {} else {ids[0]}) + Grantees(ids[1..], bot);
    }
  }

  /** With a listing free of repeats, `updated` is exactly the number of
      members already in the store. */
  lemma AddAllCountsDistinct(users: Users, ids: seq<UserId>, bot: UserId, now: Instant, days: int)
    requires Distinct(ids)
    ensures AddAll(users, Listed(ids), bot, now, days).value.updated == |Grantees(ids, bot) * users.Keys|
  {
    var g := Grantees(ids, bot);
    ProcessedDistinct(ids, bot);
    assert g == (g - users.Keys) + (g * users.Keys);
    assert (g - users.Keys) !! (g * users.Keys);
  }
}
