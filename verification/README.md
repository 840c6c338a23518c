# Subscription bookkeeping of a channel-access Telegram bot

This project models, in Dafny, the bookkeeping core of a single-admin Telegram
bot that sells time-limited access to a channel (`bot.py`). The bot keeps a
*store* mapping each subscriber's user id to the instant the subscription
expires. The admin changes it with `/adduser`, `/extend`, `/remove` and
`/addall`, and reads it with `/stats` and `/check`. Every action goes to a
capped *action log*. A background checker runs every 300 s. It warns the admin
about subscribers with less than a day left (once per 12 h per user), and it
removes expired subscribers from the channel and from the store.

Modules:

- `Store` (store.dfy): the store as `map<int, int>` with instants in whole
  seconds. It covers the fail-soft load and the save whose failure is
  swallowed (leaving the old file, or an empty or cut-off one), the grant,
  extend, remove and bulk-grant updates, and the ban-then-unban kick outcome.
- `History` (history.dfy): the action log. The newest entry goes first and the
  log keeps at most 100 entries.
- `Reports` (reports.dfy): the `/stats` counters and the `/check` listing. The
  listing is sorted by expiry and uses days left truncated to whole days.
- `Enforcer` (enforcer.dfy): one pass of the background checker. It is a pure
  function of the store, the in-memory warning memo, the current instant, the
  store's iteration order and an oracle. The oracle says which Telegram calls
  succeed. The module also has the corrected pass described under Findings.
- `Scenarios` (scenarios.dfy): concrete runs. They cover a grant, an extension
  and an automatic revocation; an expired record revoked once; a failed kick; a
  corrupt file; a save that fails after a revocation; the days /check shows
  just after a grant; and the two passes compared.

Modelling choices:

- Timestamps are integer seconds. The source's comparisons, additions and
  `days * 86400` are then exact. A new grant's expiry is taken to be exactly
  now + days·86400; "## Left out" says where the source can differ.
- Each Telegram call becomes an oracle value (a boolean per user). A ban that
  succeeds followed by an unban that fails leaves the user banned. This is
  `Kick.LeftBanned`, and the record is kept.
- In the source, `get_user_info` never raises: it returns placeholders. So the
  only calls that can fail a step are the sends, the ban and the unban.
- Python dicts iterate in insertion order. The checker pass therefore takes the
  store's iteration order as a sequence `order` listing every key once
  (`Enumerates`). `/stats` and `/check` pick keys in any order: `/stats` only
  counts, and `/check` sorts.
- `not last_notified` is also true for a stored stamp of 0. So `WarnDue` treats
  a memo value of 0 as "never warned". This is why
  `SecondTickAtSameInstant` assumes `now != 0`.
- The source deletes from the dict it is iterating over (bot.py:684 and
  bot.py:727). In CPython, the next iteration step then raises `RuntimeError`,
  and the handler at bot.py:749 ends the pass. So `Scan` stops right after the
  first successful revocation.
- Three behaviours of the code a reader may not expect; the model follows the code:
  - `/remove` of an unknown id reports "not found"; it is not a silent no-op.
  - `/adduser` on a stored id adds the days to the stored expiry.
  - `/addall` resets every member to now + days.

## Model

| member | source | states |
|---|---|---|
| Store.Load | bot.py:30-39 | A file holding a store loads as exactly that store. A missing or unparsable file loads as the empty store; loading never fails. |
| Store.Save | bot.py:41-47 | Read back with Load: a completed save gives exactly the saved store. A save whose open fails gives what the old file held. A save that fails after the open emptied the file gives the empty store. |
| Store.AttemptKick | bot.py:359-364 | The kick succeeds exactly when the ban and the unban both succeed. A failed unban after a successful ban leaves the user banned. A failed ban means no kick at all. |
| Store.Grant | bot.py:168-180 | The id is in the result. A new id gets now + days·86400. A stored id gets its old expiry + days·86400 (additive, not reset). Every other key keeps its value, and no key appears or disappears. |
| Store.Extend | bot.py:290-308 | It succeeds exactly when the id is stored; otherwise the error is NotFound(id) and no new store is produced. On success the id's expiry grows by exactly days·86400, even if the expiry is in the past. Every other key is unchanged. |
| Store.ExtendIsAdditive | bot.py:306-308 | Extending by a and then by b gives the same store as extending by a + b. |
| Store.ExtendCommutes | bot.py:306-308 | Two extensions give the same store in either order. |
| Store.GrantExistingIsExtend | bot.py:168-180 | On a stored id, /adduser gives exactly the /extend result. On a new id, /extend reports NotFound while /adduser starts from now. |
| Store.Remove | bot.py:344-368 | It succeeds exactly when the id is stored; otherwise the error is NotFound(id). On success exactly that key is deleted and the other values are unchanged, whatever the kick outcome. The reported channel outcome is the ban/unban result. |
| Store.RemoveUndoesGrant | bot.py:347-368 | Removing a freshly granted id restores the previous store. Removing an absent id reports NotFound. |
| Store.Grantees | bot.py:224-232 | The ids /addall writes are exactly the listed members other than the bot. |
| Store.ResetAll | bot.py:224-240 | After the loop, the keys are the old keys plus every listed non-bot member. Each of those members holds exactly the new end instant, and other keys are untouched. |
| Store.ResetAllCounts | bot.py:224-240 | `added` grows by the number of distinct members not stored before. `added + updated` grows by the number of non-bot entries processed, repeats included. |
| Store.AddAll | bot.py:218-269 | A failed member listing gives ListingFailed and nothing is saved. Otherwise every non-bot member ends at exactly now + days·86400 (reset semantics). Other records are unchanged. `added` counts previously absent ids, and `added + updated` equals the number of members processed. |
| Store.ProcessedDistinct | bot.py:224-240 | With a listing free of repeats, the number of processed entries equals the number of distinct non-bot members. |
| Store.AddAllCountsDistinct | bot.py:235-240 | With a listing free of repeats, `updated` is exactly the number of listed non-bot members already in the store. |
| History.Record | bot.py:55-71 | The new entry is at index 0, and the earlier entries follow in their order. The length is min(old length + 1, 100). |
| History.RecordAllBounded | bot.py:68-69 | After at least one action the log never holds more than 100 entries. |
| History.NewestFirst | bot.py:60-69 | After any run of actions on a log of at most 100 entries, the log holds the actions newest first. The earlier contents follow, and the whole is cut to 100. |
| Reports.DaysLeft | bot.py:405 | Days left is the fractional days left truncated toward zero. For a non-negative remainder r, d·86400 ≤ r < (d+1)·86400. For a negative one, (d−1)·86400 < r ≤ d·86400. |
| Reports.CheckStricterThanStats | bot.py:405-427 | /check calls a record active exactly when at least 86400 s are left. /check-active implies /stats-active. The two disagree exactly when 0 < remaining < 86400. |
| Reports.FreshGrantShowsItsDays | bot.py:405 | A record expiring now + days·86400 shows exactly `days` days left at `now`. |
| Reports.ElapsedGrantShowsFewerDays | bot.py:396-405 | Between 1 s and one day after the grant instant, a grant of days > 0 shows days − 1 days left, and a grant of days ≤ 0 shows `days`. |
| Reports.BucketsPartition | bot.py:606-614 | Active and expired records are disjoint and together make up the store, so their counts add up to the store size. Expiring-soon records are a subset of the active ones. |
| Reports.CountStats | bot.py:599-614 | `active` counts the records with remaining > 0. `expiringSoon` counts those with 0 < remaining ≤ 3·86400. `expired` counts those with remaining ≤ 0, so remaining == 0 is expired. active + expired = total, and expiringSoon ≤ active. |
| Reports.Insert | bot.py:401 | Inserting a row into a list sorted by expiry keeps it sorted and adds exactly that row. |
| Reports.SortByExpiry | bot.py:401 | The result is sorted ascending by expiry and is a permutation of the input. |
| Reports.Keep | bot.py:424-427 | A row is in the active (or expired) list exactly when it is in the input and its days left are > 0 (or ≤ 0). |
| Reports.KeepPartitions | bot.py:424-427 | Every input row lands in exactly one of the two lists, as many times as it occurs in the input. |
| Reports.SortedSplit | bot.py:401-427 | In a listing sorted by expiry, every expired row precedes every active one. The expired list followed by the active list is the whole sorted listing. |
| Reports.Rows | bot.py:401-422 | It builds exactly one row per stored record, with that record's expiry and days left. |
| Reports.CheckUsers | bot.py:383-427 | An empty store is reported as empty. Otherwise every record appears exactly once, with its days left. Rows with days left > 0 are in the active list and the others in the expired list. Expired followed by active is sorted by expiry. |
| Enforcer.FirstRevocable | bot.py:717-727 | This is the position of the first record in iteration order that has expired and whose ban and unban both succeed, or the length of the order if there is none. |
| Enforcer.Scan | bot.py:684-750 | The pass removes from the store exactly the first revocable record in iteration order, or nothing if there is none. No value changes. |
| Enforcer.ScanWarns | bot.py:686-714 | A user is warned exactly when their record is reached before the pass stops and 0 < remaining < 86400. The user must also have no memo entry, a zero entry, or one older than 43200 s, and the send must succeed. |
| Enforcer.ScanMemo | bot.py:690-724 | The memo gets `now` for exactly the users warned, only after a successful send. The revoked user's entry is deleted, and every other entry is untouched. |
| Enforcer.ScanEffects | bot.py:717-750 | Every expired record the pass reaches gets exactly one kick attempt, whose outcome is what its ban and unban give (a user left banned shows as LeftBanned); no other record gets one. At most one record is revoked per pass: the first revocable one. A confirmation is delivered only for it, and only when that send succeeds. Every effect concerns a record up to and including the revoked one. |
| Enforcer.Tick | bot.py:679-750 | Over the whole store: records are only removed, and only when expired with both kick halves succeeding. A failed kick keeps the record. At most one revocation happens, and exactly one when some record is revocable. Warnings go only to due users inside the window and stamp the memo. If nothing was revoked, every due user inside the window whose send succeeds is warned. |
| Enforcer.TickFacts | bot.py:717-728 | The pass leaves the store unchanged exactly when no record is revocable. Otherwise the store shrinks by exactly one record. |
| Enforcer.WarnWindowIsDisagreement | bot.py:689 | The warning window 0 < remaining < 86400 is exactly the set of records that /stats calls active and /check calls expired. |
| Enforcer.SecondTickAtSameInstant | bot.py:690-727 | If the first pass's store was saved, a second pass at the same nonzero instant has no effect on a record the first pass revoked. It does not warn again anyone the first pass warned. |
| Enforcer.SnapshotScan | bot.py:684-747 | The corrected scan keeps a record exactly when it is not revocable, and values are unchanged. |
| Enforcer.SnapshotWarns | bot.py:686-714 | The corrected scan warns a user exactly when their record is in the order, 0 < remaining < 86400, the warning is due and the send succeeds; a revocation earlier in the order no longer stops it. |
| Enforcer.IntendedTick | bot.py:679-750 | The corrected pass removes exactly the set of revocable records and keeps every other value. It warns exactly the stored users inside the window whose warning is due and whose send succeeds. |
| Enforcer.FirstRevocableIsRevocable | bot.py:717-727 | The record the pass as written revokes is revocable. It revokes none only when no record is revocable. |
| Enforcer.TickMatchesIntendedIff | bot.py:684-750 | The pass as written and the corrected pass leave the same store exactly when at most one record is revocable. |
| Scenarios.GrantExtendExpire | bot.py:168-180 | Grant 111 for 30 days, then extend by 10: the store is {111: start + 40 days}. A pass at start + 41 days revokes 111 with one kick and one confirmation, and leaves the store and memo without it. |
| Scenarios.ExpiredRevokedOnce | bot.py:717-747 | A record 5 s past expiry is revoked by one pass. When that pass's save went through, a second pass at the same instant does nothing. |
| Scenarios.FailedKickKeepsRecord | bot.py:717-747 | A failed ban keeps the expired record, and the pass goes on to warn the next user. |
| Scenarios.CorruptFileRecovers | bot.py:30-39 | A malformed file loads as empty. A grant then succeeds and, once saved, reads back as exactly that grant. |
| Scenarios.GrantShowsThirtyDays | bot.py:405 | At the instant of a 30-day grant, /check shows 30 days left. |
| Scenarios.GrantShowsTwentyNineASecondLater | bot.py:396-405 | One second after a 30-day grant, /check shows 29 days left. |
| Scenarios.UnsavedRevocationRepeats | bot.py:41-47 | When the save after a revocation cannot open the file, the next pass reloads the record, and kicks and reports the same user again. |
| Scenarios.CutOffSaveLosesStore | bot.py:41-47 | When the save after a revocation fails after opening the file, the next load finds an empty store although two records were still stored. |
| Scenarios.TwoExpiredNeedTwoPasses | bot.py:684-750 | With two expired records and one due for a warning, the pass as written revokes only the first. It never warns the third. |
| Scenarios.IntendedPassRevokesBoth | bot.py:684-747 | On the same records, the corrected pass revokes both expired records and warns the third. |

## Left out

- Telegram transport: command parsing, the admin check (one equality test), message text, Markdown, `strftime` rendering, and batching replies every 5 or 10 lines. These are I/O and presentation. Calls that can fail are boolean oracles.
- JSON encoding and the file system: load is "stored map, or empty when missing or corrupt", and save is "persist, keep the old file when it cannot be opened, or leave a file that does not parse". Non-numeric keys or values in a hand-edited file are not modelled.
- The asyncio event loop, the 300 s sleep and the race between handlers and the checker: this is concurrency. A pass is one atomic function.
- Float timestamps: instants are whole seconds. Truncation is modelled exactly for integer remainders.
- `datetime` range limits: `timedelta(days = n)` raises for very large `n`, and the model's integers are unbounded.
- Reports.CheckUsers: always lists every record. In the source, an expiry outside the range `datetime.fromtimestamp` accepts (bot.py:406), which repeated /extend can reach, makes /check raise before it lists anything. The range is platform-dependent.
- Store.Grant: a new id gets exactly now + days·86400. The source adds `timedelta(days)` to a naive local time and converts back (bot.py:177-178), so across a daylight-saving change in the server's zone the stored instant is off by the change, usually ±3600 s. Time zones are not modelled.
- Store.AddAll: the same daylight-saving shift applies to the reset value (bot.py:233-236); the model states exactly now + days·86400.
- Enforcer.SecondTickAtSameInstant: assumes the first pass's save went through, so the second pass starts from the store the first one left. When that save fails, the next pass reloads the old file (bot.py:681); Scenarios.UnsavedRevocationRepeats shows the repeated kick and notice.
- Store.AddAll: uses one `now` for the whole loop, while the source reads the clock again for every member. Its inner per-member `try` has no failing step in the model.
- Reports.CheckUsers: the order of rows with equal expiry is not stated. Python's `sorted` is stable over dict order, and the model's store has no order. The display caps (50 active, 20 expired rows) and the yellow marker for ≤ 1 day are rendering and are left out.
- The history file itself: `add_to_history` reads it with the same fail-soft load (bot.py:57-61), and a file with no action list starts an empty log. `History.Record` takes the log as a sequence; reading and writing the file are as for the users file.
- `/history` display (`show_history`), `/getids`, `/start` and `/ignore`: they change no state. `/ignore` only appends to the log, which `History.Record` covers.
- The action-log entries written by the checker are represented by the `Warned` and `Noticed` effects. Command handlers append to the log after saving; that sequencing is not modelled.

## Findings

| source | as written | input that shows it | evidently intended | confidence | as-written member | corrected member |
|---|---|---|---|---|---|---|
| bot.py:684-750 | The pass iterates over `data.items()` and runs `del data[user_id_str]` inside the loop (bot.py:727). The next iteration step raises `RuntimeError`, which the outer handler (bot.py:749) catches. So the pass ends after its first revocation. | A store with two expired records and a third with one hour left, with every call succeeding. Only the first expired record is revoked. The second waits 300 s for the next pass, and the third is not warned in this pass. | Revoke every expired record and warn every due user in one pass, for example by iterating over a snapshot of the items. | high; not executed | Scenarios.TwoExpiredNeedTwoPasses (on Enforcer.Tick) | Enforcer.IntendedTick (with Enforcer.SnapshotWarns, Enforcer.TickMatchesIntendedIff and Scenarios.IntendedPassRevokesBoth) |
