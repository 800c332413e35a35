# Session, user-plane and balance state of a mobile core

This project models the stateful parts of four services and proves what they promise over every
input, every run and every interleaving of their requests.

* **SMF, in memory** (`cmd/smf/main.go`). The UE address pool is built by incrementing byte arrays;
  a cursor hands addresses out; a map holds one session per IMSI; two GTPv2-C handlers (Create
  Session, sections 7.2.1 and 7.2.2, and Delete Session, sections 7.2.9 and 7.2.10 of 3GPP TS 29.274)
  work on it in several separate steps.
* **SMF, Redis-backed** (`pkg/smf/session.go`). Records in a keyed store that expire after 24 hours,
  read, changed and written back whole, with no lock taken.
* **UPF** (`upf/pkg/upf/upf.go`). A table of PFCP sessions by SEID, one goroutine for each datagram
  (sections 7.5.2 to 7.5.7 of 3GPP TS 29.244).
* **BSS** (`bss/main.go`). Prepaid balances in wrapping 64-bit integers.

## How it is built

| file | what it holds |
|---|---|
| `ByteOrder.dfy`, `AddressPool.dfy` | byte strings as big-endian numbers, the carry loop, the address range |
| `SmfSpec.dfy` | the session table as one atomic object, and laws of its histories |
| `SessionManager.dfy` | the `SessionManager` and `Session` classes, proved to refine the atomic table |
| `SmfHandlers.dfy`, `SmfInvariants.dfy`, `SmfTheorems.dfy`, `SmfResponses.dfy`, `SmfClocks.dfy`, `SmfProgress.dfy`, `SmfLiveness.dfy` | any number of handlers, one shared access or lock operation a step: the transition system, its invariants, the theorems, what each handler sends and reports, which clock readings are kept, what a handler does alone, and why nobody blocks anybody for good |
| `RedisSpec.dfy`, `RedisManager.dfy`, `RedisExpiry.dfy`, `RedisHandlers.dfy`, `RedisResults.dfy` | the store, the class, the 24 h window, unlocked handlers side by side, and what each of them reports |
| `ManagersAgree.dfy` | the two session managers on the same requests |
| `PfcpTable.dfy`, `PfcpOrder.dfy`, `UserPlane.dfy` | traces of PFCP messages, what their order decides, and the `UPF` class that replays them |
| `Ledger.dfy`, `Billing.dfy` | the books, and the `BSS` class whose balances follow them |

A schedule names the thread that moves next; a thread that has to wait for a lock stays where it is
when it is scheduled. A theorem about `Run(s, schedule)` for every schedule is therefore one about
every interleaving. The proof is by rely and guarantee: each step keeps `Guarantee` towards the
other threads, and each thread's assertion `Good` survives it.

## Where the code does not do what it seems to promise

* `createSession` holds the manager's mutex when it calls `allocateIP`, which takes it again. Go's
  mutex is not reentrant. With the calls exactly as written (`AsWritten`), no schedule ever allocates
  an address, records a session or sends a response (`AsWrittenServesNobody`), and a create that
  reaches `allocateIP` stays there for good with the lock (`BlockedForGood`, `CreateAloneBlocks`).
  All other results hold for the reading in which the body of `allocateIP` runs under the caller's
  lock (`Meant`), and the invariants are proved for both readings.
* The delete handler looks a session up, answers, and then deletes by IMSI. It can take a later
  session off record (`DeleteCanHitALaterSession`). It removes the session it looked up exactly when
  no other deletion of that IMSI took effect in between (`DeletesWhatItFound`).
* A lookup does not restart the 24 h window of a Redis record, so creates less than 24 h apart can
  still change the session (`LookupsDoNotRestartTheWindow`). The exact condition is that each create
  reaches the store less than 24 h after the latest *write* and before any deletion
  (`SameSessionWhileTimely`). A lookup that fails for another reason than absence makes the create
  handler replace a live session (`FailedReadReplacesTheSession`).
* A record deleted from Redis can come back, because a modify handler read it before the deletion and
  writes it afterwards (`DeletedRecordComesBack`). Without a create, a record that cannot be read any
  more, deleted or expired, can come back exactly when such a modify is pending
  (`ComesBackOnlyThroughAPendingModify`).
* In the same way an old session's record can be written over a newer session
  (`NewerSessionIsOverwritten`): the session on record can give way to another without a create
  exactly when some modify handler still holds another session's record
  (`OverwrittenOnlyByAStaleModify`).
* `pkg/smf/session.go` declares a mutex and never takes it. Two creates for one new subscriber can
  return two sessions with nothing failing (`TwoCreatesTwoSessions`). However many creates there are,
  as long as nobody deletes, no create fails and 24 h have not passed, they all return one session
  exactly when at no moment two of them are past their lookup and have not written
  (`CreatesAgreeUnlessTheyOverlap`).
* Answers alike all along do not make the two SMF session managers equal: only Redis forgets a session
  after 24 h (`ForgottenSubscriber`). `ManagersAgreeFromTheStart` says when they have the same
  subscribers.
* The order in which the UPF's goroutines run can change which SEIDs are left exactly when some SEID
  is both established and deleted (`OrderDecidesSEIDsOnlyInConflict`), and which responses are sent
  exactly when some SEID is both established and modified (`OrderDecidesAnswersOnlyForModified`),
  because a modification that arrives first is not answered.

## Modelling decisions

* Lines 84-85 of `cmd/smf/main.go` name the pool bounds differently from lines 36-37; they are read
  as the same. `sessionManager` (line 197) is one shared manager.
* Start and end of the pool are byte arrays of one length, which is 4 once `To4` has succeeded.
* The lock lets new readers in while a writer waits. Go keeps them out, so the safety results cover
  more interleavings than Go has. Progress does not carry over by itself: the results of
  `SmfLiveness.dfy` let every turn decide whether a reader is kept out while some thread is at a call
  of `Lock`, which covers Go's rule and its absence.
* A clock value is a parameter of each step. Nothing needs the clock to advance.
* A send either goes through and is logged, or fails and changes nothing. A Redis write may also
  take effect although its reply is lost. JSON is the identity on the stored fields, and SessionIDs
  come from a source that does not repeat.
* IMSIs are strings of single-byte characters, so their length in the BSS is the length of the string.
* A Redis record can be read strictly before its expiry time; at that time it is gone.
* A handler's `net.IP`, `*Session` and `*Subscriber` values are arrays and objects in the classes,
  and indices of a heap in the transition system.

## Model

| member | source | states |
|---|---|---|
| `AddressPool.NextIP` | cmd/smf/main.go:92-102 | Returns a fresh array whose big-endian value is the argument's plus one modulo 256 to the length, for any length; the argument is not written. |
| `ByteOrder.SuccessorValue` | cmd/smf/main.go:95-100 | The right-to-left carry on bytes is addition of one modulo 256^n. |
| `ByteOrder.AdvanceValue` | cmd/smf/main.go:87-100 | k carries add k modulo 256^n. |
| `AddressPool.InitIPPool` | cmd/smf/main.go:83-90 | Terminates for every pair of bounds, with measure (end - ip) modulo 256^n; entry k holds the k-th address from start; all entries are fresh arrays, pairwise distinct. |
| `AddressPool.RangeProperties` | cmd/smf/main.go:87-89 | The range has (end - start) modulo 256^n entries, entry k has value start + k modulo 256^n, no entry repeats and the end is absent, also when the range wraps. |
| `InMemorySmf.SessionManager.constructor` | cmd/smf/main.go:75-90 | Starts as the unused atomic table over that range, in fresh arrays. |
| `InMemorySmf.SessionManager.AllocateIP` | cmd/smf/main.go:104-114 | Takes exactly the head of the unissued suffix, or nothing when it is empty. |
| `InMemorySmf.SessionManager.CreateSession` | cmd/smf/main.go:116-147 | Refines the atomic create: the same object for a live IMSI, a fresh INITIALIZING one with the next address otherwise, no change when the pool is used up. |
| `InMemorySmf.SessionManager.GetSession` | cmd/smf/main.go:149-154 | Refines the atomic lookup and returns the recorded object. |
| `InMemorySmf.SessionManager.DeleteSession` | cmd/smf/main.go:156-160 | Refines the atomic deletion; the cursor does not move. |
| `InMemorySmf.SessionManager.HandleCreateSessionRequest` | cmd/smf/main.go:234-276 | Which outcome and which response a create request gets, that the session turns ACTIVE only when the response goes out and a new one stays INITIALIZING when it does not, and that no other session object changes. |
| `InMemorySmf.SessionManager.RespondAndActivate` | cmd/smf/main.go:251-272 | The response describes the session; the session is then ACTIVE and touched. |
| `InMemorySmf.SessionManager.HandleDeleteSessionRequest` | cmd/smf/main.go:279-312 | Which outcome a delete request gets; the session goes only when the response is out. |
| `InMemorySmf.CreatedSessionsAreSeparate` | cmd/smf/main.go:111-145 | No two sessions ever built, live or deleted, share an object, an address array or an address; the k-th has the k-th address, byte for byte. |
| `SmfSpec.Conservation` | cmd/smf/main.go:104-147 | After any history the pool is the addresses issued, in order, followed by those not issued. |
| `SmfSpec.OnlyIssuedSessions` | cmd/smf/main.go:116-154 | Every session on record and every session returned was built in the history. |
| `SmfSpec.BuiltAsRequested` | cmd/smf/main.go:126-145 | The k-th session built has the k-th address and the IMSI, TEID, peer and time of its request. |
| `SmfSpec.OneAddressOneSession` | cmd/smf/main.go:104-147 | Any two replies with the same address carry the same session, whatever was deleted in between. |
| `SmfSpec.ExhaustionLaw` | cmd/smf/main.go:104-128 | Sessions built are the smaller of the pool size and the creates that found no live session. |
| `SmfSpec.ExhaustionIsPermanent` | cmd/smf/main.go:108-128 | A refused create changes nothing, and no later create builds a session, deletions or not. |
| `SmfSpec.Retransmission` | cmd/smf/main.go:120-123 | A repeated create returns the first one's session and uses no address exactly when the IMSI was not deleted in between, whatever else arrives. |
| `SmfSpec.StillTheSameSession` | cmd/smf/main.go:116-160 | The session on record is still the same one exactly when its IMSI was not deleted since. |
| `SmfHandlers.Next` | cmd/smf/main.go:104-312 | One step of one handler; pointers held by handlers and the map stay valid. |
| `SmfInvariants.CreateEffectApplies` | cmd/smf/main.go:120-147 | The step of a create that decides its reply changes map, heap and cursor the way the atomic create changes the table, with that reply. |
| `SmfInvariants.DeleteEffectApplies` | cmd/smf/main.go:149-160 | The same for the lookup and the deletion of a delete handler. |
| `SmfInvariants.Undisturbed` | cmd/smf/main.go:234-312 | No handler's assertion is disturbed by a step of another handler. |
| `SmfInvariants.NextKeepsInvariant` | cmd/smf/main.go:234-312 | Every step of every handler keeps the whole invariant. |
| `SmfInvariants.RunKeepsInvariant` | cmd/smf/main.go:234-312 | So does every schedule. |
| `SmfTheorems.LockExclusion` | cmd/smf/main.go:105-158 | On every schedule a handler inside the write lock excludes every other holder, writer or reader. |
| `SmfTheorems.OneAddressOneSubscriber` | cmd/smf/main.go:234-312 | On every schedule, two accepted create responses carry the same address exactly when they describe the same session, and then the same IMSI and F-TEID. |
| `SmfTheorems.ResponsesAreFaithful` | cmd/smf/main.go:251-301 | Every response sent repeats the sequence number and TEID of its request and describes the session it was built from. |
| `SmfTheorems.AddressConservation` | cmd/smf/main.go:68-147 | In every reachable state, whoever holds the lock, the cursor counts the sessions ever built, plus one exactly while a create has taken an address and not yet stored its session; they occupy the pool's prefix one to one; live sessions lie in it. |
| `SmfTheorems.Linearizable` | cmd/smf/main.go:104-160 | On every schedule the calls' effects form a legal atomic history that ends in the present state; each event belongs to one call; every call that has returned has its event there, recorded after it began and before it returned; it returned what the event says, and a finished handler reports accordingly. |
| `SmfTheorems.RealTimeOrder` | cmd/smf/main.go:116-160 | A call that took effect before another began precedes it in that history, for good. |
| `SmfTheorems.ReturnedBeforeBegun` | cmd/smf/main.go:116-160 | A call that returned before another began precedes it in that history. |
| `SmfTheorems.LifeCycle` | cmd/smf/main.go:132-143 | Sessions are INITIALIZING or ACTIVE, ACTIVE only after an accepted response is in the log, never back, and keep their identity. |
| `SmfTheorems.ExhaustionOverRuns` | cmd/smf/main.go:104-128 | The exhaustion law on every schedule of concurrent handlers. |
| `SmfTheorems.RetransmissionOverRuns` | cmd/smf/main.go:116-123 | Two concurrent create handlers for one IMSI get the same session object exactly when no deletion of the IMSI took effect between them. |
| `SmfTheorems.DeletesWhatItFound` | cmd/smf/main.go:290-309 | A delete handler removes the session it looked up exactly when no other deletion of the IMSI took effect since its lookup. |
| `SmfResponses.OneResponseEach` | cmd/smf/main.go:251-301 | On every schedule a handler has exactly one response in the log from the moment its send went through, and none before or after a failed send; it answers the handler's request and describes its session, with bearer 5, QCI 9 and ARP 1. A create that ends accepted left its session ACTIVE. |
| `SmfResponses.DeletionsAreAnswered` | cmd/smf/main.go:290-309 | Every deletion in the history is that of a delete handler for the IMSI whose response was in the log before; a handler that ends otherwise than accepted deleted nothing. |
| `SmfResponses.OutcomeLaw` | cmd/smf/main.go:239-309 | How a handler ends: missing IMSI, no address left, not found or accepted, each exactly when its request, its first call's reply and its response say so. |
| `SmfResponses.TheSendDecides` | cmd/smf/main.go:266-306 | A handler ends with a failed send exactly when it came to its send and that failed, and is past its response exactly when that went through. |
| `SmfClocks.MadeByOneStep` | cmd/smf/main.go:126-145 | Every session on the heap was made by one storing step of one create, with the next address, its request's IMSI, TEID and peer, bearer 5, QCI 9, ARP 1, INITIALIZING, created and updated at that step's clock reading. |
| `SmfClocks.UpdatedWhenTouched` | cmd/smf/main.go:132-272 | A session's last update is the clock reading of the last step that stored or touched it. |
| `SmfClocks.AcceptedCreatesTouch` | cmd/smf/main.go:270-272 | A create that ends accepted touched its session. |
| `SmfClocks.RecordedByOneStep` | cmd/smf/main.go:104-160 | Every event was recorded by a step of the handler that owns it; a create's event keeps that step's clock reading. |
| `SmfProgress.DeleteCanHitALaterSession` | cmd/smf/main.go:290-309 | A run in which two deletes answered for the first session and the second of them removes the next one. |
| `SmfProgress.CreateAloneCompletes` | cmd/smf/main.go:234-276 | With the lock free and an address left or the IMSI live, a create alone ends accepted, ACTIVE and with the lock released. |
| `SmfProgress.AsWrittenServesNobody` | cmd/smf/main.go:104-126 | With the mutex taken twice, every reachable state has an empty table, cursor 0 and an empty log. |
| `SmfProgress.BlockedForGood` | cmd/smf/main.go:104-126 | A create that reached the second acquisition never moves again, and nobody waiting for the lock ever gets it. |
| `SmfProgress.CreateAloneBlocks` | cmd/smf/main.go:116-126 | With the lock free and nothing else running, every create for an IMSI not on record gets there in three steps. |
| `SmfLiveness.DeadlockFree` | cmd/smf/main.go:104-312 | With the mutex taken once, a reachable state has an unfinished handler exactly when some handler's step changes the state, even if readers are kept out whenever a writer is at the lock. |
| `SmfLiveness.BoundedWork` | cmd/smf/main.go:104-312 | On every schedule, N handlers together change the state at most 11 N times. |
| `SmfLiveness.FairRunsFinish` | cmd/smf/main.go:104-312 | With the mutex taken once, from every reachable state on all N handlers finish within 11 N rounds in each of which every handler gets a turn, whichever readers are kept out while a writer is at the lock. |
| `SmfLiveness.TurnsAreARun` | cmd/smf/main.go:104-312 | What a run that keeps readers out reaches, some schedule without that rule reaches. |
| `SmfLiveness.AllCanFinish` | cmd/smf/main.go:104-312 | With the mutex taken once, every state that keeps the invariant has a schedule on which all handlers finish. |
| `RedisManager.SessionManager.StoreSession` | pkg/smf/session.go:136-144 | Unless the write failed, the session is what a read of its IMSI finds at every time less than 24 h after the store, and nothing from then on; every other IMSI reads what it did. |
| `RedisSpec.StoredIsReadBack` | pkg/smf/session.go:105-144 | The same law of the store: until when, and under which IMSI only, what was written is read back. |
| `RedisManager.SessionManager.CreateSession` | pkg/smf/session.go:85-102 | Stores and returns a fresh INITIALIZING session with the request's fields, created and updated at the time of the call, or an error when the write is not confirmed. |
| `RedisManager.SessionManager.GetSession` | pkg/smf/session.go:105-121 | Returns a fresh object equal to the record, only while it has not expired and the store answers. |
| `RedisManager.SessionManager.UpdateSession` | pkg/smf/session.go:124-127 | Touches the object and writes it back whole. |
| `RedisManager.SessionManager.DeleteSession` | pkg/smf/session.go:130-133 | Unless the deletion failed, a read of the IMSI finds nothing at any time; every other IMSI reads what it did. |
| `RedisSpec.RemovedIsGone` | pkg/smf/session.go:105-133 | The same law of the store. |
| `RedisSpec.WhatARequestDoes` | pkg/smf/session.go:85-224 | For each request: which outcome it has, and what any read of any IMSI at any time finds after it. |
| `RedisManager.SessionManager.HandleCreateSessionRequest` | pkg/smf/session.go:147-173 | Returns the record it can read, untouched; otherwise a new session, field by field, exactly when the write is confirmed. |
| `RedisManager.SessionManager.HandleDeleteSessionRequest` | pkg/smf/session.go:176-198 | Succeeds exactly when a record can be read and its deletion is confirmed, and then nothing can be read for the IMSI at any time; DELETING reaches only the handler's own copy. |
| `RedisManager.SessionManager.HandleModifyBearerRequest` | pkg/smf/session.go:201-224 | Succeeds exactly when a record can be read and the write is confirmed; that record is then read as MODIFYING and touched for the next 24 h. |
| `RedisExpiry.SameSessionWhileTimely` | pkg/smf/session.go:105-224 | All creates of a run of any length return the recorded SessionID exactly when each reaches the store less than 24 h after the latest write of the record and before any deletion that takes effect. |
| `RedisExpiry.SameSessionFromTheStart` | pkg/smf/session.go:147-173 | The same from the create that made the record. |
| `RedisExpiry.LookupsDoNotRestartTheWindow` | pkg/smf/session.go:105-121 | Creates at 0, 23 and 30 hours do not all get one session; with a modify at 23 hours they do. |
| `RedisExpiry.FailedReadReplacesTheSession` | pkg/smf/session.go:154-163 | For a live record, a create keeps it exactly when the store answers the read or takes no write. |
| `RedisHandlers.AloneIsHandle` | pkg/smf/session.go:147-224 | A handler with nothing in between does what the sequential operation does. |
| `RedisHandlers.RecordsAreNeverMixed` | pkg/smf/session.go:85-224 | However handlers interleave and fail, a stored record's IMSI, SessionID, TEID, AMF address and creation time are those of one minting step of one create for that IMSI, the time being that step's clock reading; it is INITIALIZING or MODIFYING, never DELETING. |
| `RedisHandlers.ResultsAreNeverMixed` | pkg/smf/session.go:85-224 | What a handler returns has, as a whole, the identity fixed by one minting step of one create for the IMSI it was asked for; equal SessionIDs mean equal identities. |
| `RedisHandlers.ComesBackOnlyThroughAPendingModify` | pkg/smf/session.go:176-224 | A record that cannot be read, deleted or expired, can be read again without a create exactly when some modify of that IMSI has read and not yet written; schedules in which the clock does not go back. |
| `RedisHandlers.OverwrittenOnlyByAStaleModify` | pkg/smf/session.go:201-224 | The session on record can give way to another without a create exactly when some modify handler is about to write another session's record. |
| `RedisHandlers.DeletedRecordComesBack` | pkg/smf/session.go:176-224 | A run in which a confirmed deletion is undone by a modify. |
| `RedisHandlers.NewerSessionIsOverwritten` | pkg/smf/session.go:147-224 | A run in which a modify replaces the session of a completed new attach by the deleted one. |
| `RedisHandlers.CreatesAgreeUnlessTheyOverlap` | pkg/smf/session.go:147-224 | Any number of creates for a subscriber without a session, among any modifies for it that have not read yet and any requests for others, with no deletion for it, no failing create and no expiry: they all return one SessionID exactly when at no moment two of them are past their lookup and before their write. |
| `RedisHandlers.TwoCreatesTwoSessions` | pkg/smf/session.go:147-173 | A run from the start in which two creates return two sessions and nothing fails. |
| `RedisResults.WhatACreateReports` | pkg/smf/session.go:147-173 | On every schedule a create returns the record its lookup found, or the session it minted exactly when its write was confirmed, with the clock readings of those steps. |
| `RedisResults.WhatAModifyReports` | pkg/smf/session.go:201-224 | On every schedule a modify succeeds exactly when its lookup found a record and its write was confirmed, and returns that record MODIFYING. |
| `RedisResults.WhatADeleteReports` | pkg/smf/session.go:176-198 | On every schedule a delete succeeds exactly when its lookup found a record and its deletion was confirmed; right after that step nothing can be read for the IMSI at any time. |
| `RedisResults.WritesAreSeen` | pkg/smf/session.go:124-144 | What any read finds after any step: only a handler's writing step changes it, for its own IMSI and for 24 h. |
| `ManagersAgree.AgreeExactlyWhenItFits` | pkg/smf/session.go:85-198 | The two managers answer every request of a run alike exactly when no request meets a session older than 24 h and no new session lacks an address. |
| `ManagersAgree.ManagersAgreeFromTheStart` | cmd/smf/main.go:116-160 | The same from empty managers; at any time after a run answered alike, both have a session for the same subscribers exactly when none of those the in-memory manager still has is 24 h old. |
| `ManagersAgree.ForgottenSubscriber` | pkg/smf/session.go:136-144 | A run answered alike throughout, after which only the in-memory manager has the first subscriber. |
| `ManagersAgree.WhatTheManagersAnswer` | pkg/smf/session.go:147-198 | What each answer compared means in terms of the sessions either manager has. |
| `UserPlane.UPF.HandlePFCP` | upf/pkg/upf/upf.go:193-329 | The session objects hold the replay of all messages handled; which response each message gets, with its own SEID and sequence number, or none; only a modified session's object is written. |
| `UserPlane.UPF.HandleSessionEstablishmentRequest` | upf/pkg/upf/upf.go:243-275 | Puts a session on the table, replacing one with the same SEID, and accepts. |
| `UserPlane.UPF.HandleSessionModificationRequest` | upf/pkg/upf/upf.go:278-306 | Touches and accepts for a known SEID; otherwise changes and answers nothing. |
| `UserPlane.UPF.HandleSessionDeletionRequest` | upf/pkg/upf/upf.go:309-329 | Takes the SEID off the table and accepts, known or not. |
| `UserPlane.UPF.GetSessionCount` | upf/pkg/upf/upf.go:110-114 | Returns the number of SEIDs whose last establishment or deletion was an establishment. |
| `PfcpTable.ReplayLaw` | upf/pkg/upf/upf.go:243-329 | A SEID is in the table exactly when its last establishment or deletion is an establishment. |
| `PfcpTable.RecordLaw` | upf/pkg/upf/upf.go:248-285 | A record dates from the last establishment of its SEID and was last updated by the last message for it. |
| `PfcpTable.CountLaw` | upf/pkg/upf/upf.go:110-114 | The table's keys and size in terms of the trace. |
| `PfcpTable.DuplicatesAreHarmless` | upf/pkg/upf/upf.go:243-329 | Any message delivered twice in a row leaves the same SEIDs as once, whatever follows. |
| `PfcpTable.SameProjectionsSameTable` | upf/pkg/upf/upf.go:168-329 | Traces with the same events per SEID leave the same table. |
| `PfcpTable.Confluence` | upf/pkg/upf/upf.go:168-329 | Traces with the same messages per SEID, at any times, leave the same SEIDs and count. |
| `PfcpOrder.EveryMessageIsAnswered` | upf/pkg/upf/upf.go:211-329 | Over any trace each response is sent as often as a message asks for it, with that message's SEID and sequence number; a modification asks only while its SEID's last establishment or deletion is an establishment. |
| `PfcpOrder.OrderDecidesSEIDsOnlyInConflict` | upf/pkg/upf/upf.go:168-329 | Every order of a trace leaves the same SEIDs exactly when no SEID is both established and deleted. |
| `PfcpOrder.OrderDecidesAnswersOnlyForModified` | upf/pkg/upf/upf.go:168-329 | Every order of a trace sends each response equally often exactly when no SEID is both established and modified. |
| `PfcpOrder.OrderMattersOnlyInConflict` | upf/pkg/upf/upf.go:168-329 | Every order sends the same responses and leaves the same SEIDs exactly when no established SEID is also modified or deleted. |
| `Billing.BSS.Handle` | bss/main.go:118-192 | The subscriber objects hold the balances of the requests so far, the status is that of the request, and only the topped-up subscriber is written. |
| `Billing.BSS.RegisterHandler` | bss/main.go:118-152 | Refuses short and known IMSIs, otherwise records a fresh subscriber with the opening balance, created and updated now. |
| `Billing.BSS.TopUpHandler` | bss/main.go:154-192 | Refuses non-positive amounts and unknown IMSIs, otherwise adds with 64-bit wrap-around. |
| `Ledger.BalanceIsOwnBookings` | bss/main.go:138-175 | A balance is the subscriber's opening balance plus its own accepted top-ups, wrapped, and equals the plain sum exactly while that fits. |
| `Ledger.Conservation` | bss/main.go:118-192 | All balances add up to what was booked modulo 2^64, and exactly if and only if no subscriber's bookings overflow. |

## Left out

- Sockets, servers, routing, middleware, logging, signals and configuration: plumbing around the modelled state.
- Encoding and parsing of GTPv2, PFCP and GTP-U messages: done in libraries that are not part of this model. Messages are datatypes with the fields the handlers use; APN restriction and Bearer QoS values other than QCI and ARP are constants nothing depends on.
- Encoding of JSON bodies in the BSS: a body that does not decode is one request of its own.
- Token of a BSS subscriber, `getSubscriberHandler`: stored or shown unchanged.
- The second `time.Now()` reading at a session's creation: creation and last update get one clock value there.
- Fields of a Redis record that no code sets (bearer, QoS, APN, UPF, PFCP).
- Missing IMSI in the concurrent Redis handlers: covered by the sequential methods only.
- PfcpOrder.OrderMattersOnlyInConflict: does not compare the times inside records, because they are the times of handling and differ with any order.
- Which of several waiting writers gets the lock is up to the schedule; the queue inside Go's mutex is not modelled.
- `amf`, `udm`, `ocs`, `imsi-switch-receiver`, `smf/main.go` and the remaining UPF files: single lookups, last-write-wins stores, stubs and library wrappers, which would only add easy members.
