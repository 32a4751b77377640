# Verified model of a disposable-mail service

The service hands out mailboxes over HTTP, receives their mail over SMTP and keeps everything in one
SQLite database. This project models its stateful kernel in Dafny and proves what every run of it keeps.

| part | modules |
|---|---|
| the relational store: keys, cascades, case-insensitive uniqueness, AUTOINCREMENT, the inbound-message transaction, expiry in whole seconds | `Schema`, `StoreRuns`, `Ordering`, `Queries`, `UnreadAccounting`, `Repository` |
| mailbox requests, sessions and their isolation | `Mailbox`, `Isolation`, `NonInterference`, `Interleaving`, `SessionTraces`, `SessionCleanups`, `Cleanup`, `Requests` |
| the cache of enabled domains over a changing table | `DomainCache`, `Coherence` |
| the fixed-window rate limiter and the Retry-After it advertises | `RateLimit`, `RateLimitTraces` |
| inbound SMTP: the bounded read, the MIME part loop, the command state machine, recipients' domains, what is stored | `Mime`, `Smtp`, `SmtpRuns`, `RecipientDomains`, `Deliveries` |
| registration, the choice of a domain, the limit on attempts | `Registration`, `RegistrationLimits` |
| the admin area: first-run password, sessions, domains | `AdminSetup`, `AdminSessions`, `AdminDomains` |
| shared vocabulary | `Outcome`, `Clock`, `Text` |

The store has a single connection (`internal/repository/sqlite.go:40`), so a statement, and the whole
inbound-message transaction, is one atomic step. A statement is a function on the value `Db` in `Schema`.
Classes (`Repository.SQLite`, `Mailbox.App`, `DomainCache.Cache`, `RateLimit.FixedWindowLimiter`, `Smtp.Session`,
`AdminSessions.AdminSessionStore` and others) have the fields of the Go types, and the methods that branch, loop or
combine statements have their control flow and are proved against a function on the state. A repository method
that issues a single INSERT or UPDATE applies that statement's function, states the rows it leaves and its errors,
and keeps the store valid; one that selects looks for a row by the query's condition and is proved to find the
row under that key; one that lists fetches row after row from a cursor; one that deletes removes the parent rows
and then orphans table by table. The theorems are about runs of these functions. Instants are integers counting
nanoseconds, and time columns are floored to seconds.
A clock reading, a fresh token, a bcrypt hash, the outcome of address and MIME decoding, and the failure of
a statement are parameters of the step that uses them.

`dafny verify dfyconfig.toml` checks the whole project.

## Where the code differs from its documentation

- `README.md:61` promises that mailboxes on a disabled domain keep receiving mail. RCPT turns such mail away
  (`internal/smtp/session.go:42-48`). `RecipientDomains.AcceptedIff` says exactly when a mailbox is reached,
  `RecipientDomains.MailboxOnDisabledDomain` shows one that is not, and `RecipientDomains.LastingDisablingIsFelt`
  bounds how long mail still gets through.
- `internal/smtp/domaincache.go:10-14` promises that a change takes effect within the cache's time to live.
  A lookup that read the table before the change and writes the cache after it breaks this.
  `Coherence.StaleBeyondTtlIff` gives the exact condition, `Coherence.LateAnswerIsStale` a run that does it, and
  `Coherence.ChangesTakeEffect` the bound that does hold.
- `internal/web/admin.go:247-250` promises that a second concurrent setup is turned away. The check and the
  write are two steps, so this holds exactly when no acceptable setup has passed its check already:
  `AdminSetup.OverwriteIff`. `AdminSetup.SecondSetupOverwrites` is a run in which two setups succeed.
- `internal/web/middleware.go:95-100` says an inbox lands on an enabled domain or is refused. When no domain is
  enabled the bootstrap seed is used, also when an admin has disabled it (`internal/web/routes.go:119-122`):
  `Registration.ResolvedEnabledIff`, `Registration.DisabledSeedIsUsed`.
- The limiter reads its clock before it takes its lock, so readings can reach it out of order. The sliding-window
  bound survives readings that are late by one nanosecond, and with a limit of one any order of readings; it fails
  under every larger skew: `RateLimitTraces.BoundHoldsIff`. With a limit of two or more and unbounded skew there is
  no bound at all: `RateLimitTraces.DisorderDefeatsTheBound`.
- The Retry-After header rounds to the nearest second and can advertise up to half a second too little:
  `RateLimitTraces.HeaderSufficesIff` says exactly when it is enough.

## Model

| member | source | states |
|---|---|---|
| `Coherence.AnswersAreRecent` | internal/smtp/backend.go:36-48 | Bounded staleness under every interleaving of lookups, table changes and ticks: each answer is the table's value at an instant less than ttl plus one lookup's read-to-write delay before it, and that lookup is exhibited |
| `Coherence.ChangesTakeEffect` | internal/smtp/backend.go:36-48 | If lookups write at most `delay` after they read, an answer ttl + delay or more after a change that has not been undone since reflects it |
| `Coherence.StaleBeyondTtlIff` | internal/smtp/domaincache.go:10-57 | From a state on, a wrong answer ttl or more later is possible if and only if a lookup in flight holds the old value |
| `Coherence.OldValueDiesOut` | internal/smtp/domaincache.go:38-57 | Without such a lookup, the old value never gets back into flight and every entry holding it expires within ttl |
| `Coherence.EntriesAreBounded` | internal/smtp/domaincache.go:49-57 | In every reachable state no cache entry lasts longer than ttl from now |
| `Coherence.OverlapSteps` | internal/smtp/backend.go:36-48 | The overlap of two lookups around a disabling is a run of the protocol |
| `Coherence.SlowLookupOverwrites` | internal/smtp/domaincache.go:49-57 | After it, the slower lookup replaces the fresher entry by the older value, which is wrong |
| `Coherence.LateAnswerIsStale` | internal/smtp/domaincache.go:10-57 | A run of the protocol that still answers yes when ttl has passed since the domain was disabled |
| `Coherence.UninterruptedLookup` | internal/smtp/backend.go:36-48 | The three steps of a miss, with nothing in between, answer the table's value and remember it for ttl |
| `Text.FoldIff` | migrations/001_initial.sql:7 | NOCASE equality holds exactly if the lengths agree and at each place the characters are equal or the two cases of one ASCII letter |
| `Text.LowerMeans` | internal/smtp/backend.go:37 | Lower case has no capital left, replaces each capital by its own small letter and keeps everything else |
| `Text.TrimMeans` | internal/web/auth_handlers.go:228 | Trimming cuts off white space at both ends, and all of it |
| `Text.SplitMeans` | internal/smtp/session.go:37 | Splitting cuts at every separator and nowhere else: no part has one, and joined they give the string back |
| `DomainCache.Cache.Get` | internal/smtp/domaincache.go:38-47 | Answers exactly from an entry whose expiry lies after the reading |
| `DomainCache.Cache.Set` | internal/smtp/domaincache.go:49-57 | Replaces the one entry, good for ttl from the reading |
| `DomainCache.Backend.DomainAllowed` | internal/smtp/backend.go:36-48 | On a hit the table is not asked; on a miss its answer is cached and returned; a failed lookup caches nothing |
| `DomainCache.StoredAnswerIsUsed` | internal/smtp/domaincache.go:38-57 | A stored answer is used for exactly ttl from its storing, and no other name's answer changes |
| `DomainCache.SecondLookup` | internal/smtp/backend.go:36-48 | Within ttl a second lookup of a domain, in any case, repeats the first answer without the table; afterwards it asks again; a failure is answered as one and never cached |
| `RecipientDomains.RecipientDomainIff` | internal/smtp/session.go:37-40 | The domain asked about is what follows the address's only '@', and there is one exactly if something does |
| `RecipientDomains.AcceptedIff` | internal/smtp/session.go:42-59 | A well-formed recipient with an inbox is accepted exactly if the lookups succeed and the cache says yes or, knowing nothing, the table does |
| `RecipientDomains.MailboxOnDisabledDomain` | internal/smtp/session.go:42-48 | For every address: its mailbox on a disabled domain exists in a valid store, and RCPT to it is turned away |
| `RecipientDomains.LastingDisablingIsFelt` | internal/smtp/backend.go:36-48 | If lookups take at most `delay`, every RCPT whose lookup ends ttl + delay or more after a lasting disabling is rejected, under every interleaving |
| `StoreRuns.RunIsSound` | migrations/001_initial.sql:5-49 | After every run of operations: ids below never-decreasing counters, every foreign key resolves, addresses unique ignoring case, tokens unique; ids are never given out twice and a surviving row is the same row |
| `StoreRuns.StepKeepsConsistent` | internal/repository/sqlite.go:101-577 | Each operation keeps the keys, the foreign keys and the uniqueness rules |
| `StoreRuns.StepEvolves` | internal/repository/sqlite.go:101-577 | Each operation changes nothing of a surviving row but is_read, last_accessed_at and a domain's switch, and never clears is_read |
| `StoreRuns.InboxDeletionIsExact` | migrations/001_initial.sql:35-48 | Deleting inboxes and then, table by table, the rows whose parent is gone removes exactly the inboxes, their emails, those emails' attachments and their sessions; the rest is unchanged |
| `StoreRuns.EmailDeletionIsExact` | internal/repository/sqlite.go:297-307 | Deleting an email, with that cascade, removes exactly it and its attachments; the rest is unchanged |
| `StoreRuns.CascadeFromInboxes` | migrations/001_initial.sql:35-48 | In a valid store the cascade from deleted inboxes, table by table, is one filter over the ancestors |
| `StoreRuns.SettingReadsBack` | internal/repository/sqlite.go:553-577 | A setting reads back as last written after every run that does not write it again |
| `Repository.SQLite.SaveInboundMessage` | internal/repository/sqlite.go:186-213 | All or nothing: whichever statement fails, all tables are as before; otherwise one email and all its attachments are stored. It fails exactly if a statement fails or the inbox is gone |
| `Queries.DeliveryAddsOneEmail` | internal/repository/sqlite.go:605-634 | A saved message is one new row under a fresh id with the submitted fields; every old email and every other table is unchanged |
| `Queries.DeliveryReadsBack` | internal/repository/sqlite.go:313-339 | Round trip: listing the new email's attachments gives the submitted ones, in order with equal contents; other emails' listings do not change |
| `Queries.PagesArePrefix` | internal/repository/sqlite.go:215-251 | The first n pages concatenate to the first n * limit rows of the ordered listing |
| `Queries.PagesCoverTheInbox` | internal/repository/sqlite.go:215-251 | Far enough pages give every email of the inbox exactly once, by falling time of receipt and then falling id |
| `Queries.PageIsStretch` | internal/repository/sqlite.go:215-251 | A page is the stretch of the ordered listing from the offset on, limit rows long as far as there are any; 50 without a limit, from the start for a negative offset |
| `Queries.FirstPageIsNewest` | internal/repository/sqlite.go:228-231 | The first page has the inbox's newest emails: whatever of it is left out is older than every row shown |
| `Ordering.ArrangedIsUnique` | internal/repository/sqlite.go:215-251 | ORDER BY under a strict total order has one possible result |
| `UnreadAccounting.UnreadBalances` | internal/repository/sqlite.go:270-307 | Over every run that keeps the inbox: unread count = start + unread deliveries - first views - unread deletions |
| `UnreadAccounting.StepBalances` | internal/repository/sqlite.go:270-307 | One operation moves the count by exactly its own contribution |
| `Repository.SQLite.CreateInbox` | internal/repository/sqlite.go:101-130 | Conflict, leaving the store alone, exactly if the address, up to case, or the token is taken; else the row, with the times in whole seconds, under the next id and nothing else |
| `Repository.SQLite.GetInboxByAddress` | internal/repository/sqlite.go:143-150 | Found exactly if some inbox's address differs from the argument in the case of ASCII letters at most, and then it is that row |
| `Repository.SQLite.UpdateLastAccessed` | internal/repository/sqlite.go:152-163 | Sets the one time stamp, or not found |
| `Repository.SQLite.DeleteExpiredInboxes` | internal/repository/sqlite.go:165-180 | Removes exactly the inboxes expired in whole seconds, with the cascade table by table, and counts them |
| `Repository.SQLite.GetEmailsByInboxID` | internal/repository/sqlite.go:215-251 | Fetching row after row, dropping `offset` and stopping at `limit`, gives that page of the ordered listing, with the defaults for limit and offset |
| `Repository.SQLite.GetEmailByID` | internal/repository/sqlite.go:253-268 | Found exactly if the email exists and is that inbox's, and then it is the row under that id |
| `Repository.SQLite.MarkEmailAsRead` | internal/repository/sqlite.go:270-281 | Sets is_read of that id, whoever owns it, or not found |
| `Repository.SQLite.GetUnreadCount` | internal/repository/sqlite.go:283-295 | The number of rows selected is the number of the inbox's unread ids, whose balance over runs `UnreadAccounting.UnreadBalances` gives; zero exactly if every listed email is read |
| `Repository.SQLite.DeleteEmail` | internal/repository/sqlite.go:297-307 | Removes the inbox's own email with its attachments by the cascade, or not found |
| `Repository.SQLite.GetAttachmentsByEmailID` | internal/repository/sqlite.go:313-339 | Fetching row after row gives all of the email's attachments by ascending id |
| `Repository.SQLite.GetAttachment` | internal/repository/sqlite.go:341-348 | The row under that id, whoever owns it; not found exactly if there is none |
| `Repository.SQLite.CreateDomain` | internal/repository/sqlite.go:350-371 | Stores the normalised name enabled under the next id; conflict exactly if a name that differs in case at most is there |
| `Repository.SQLite.GetDomain` | internal/repository/sqlite.go:405-412 | The domain whose name matches ignoring case, or not found |
| `Repository.SQLite.SetDomainEnabled` | internal/repository/sqlite.go:414-425 | Sets the switch of the domains of that name, up to case, and of no other; not found exactly if there is none |
| `Repository.SQLite.IsDomainEnabled` | internal/repository/sqlite.go:427-442 | Yes exactly if looking the domain up by name finds it, enabled; an unknown name is no error, a failing statement is |
| `Repository.SQLite.CreateSession` | internal/repository/sqlite.go:444-465 | Stores the session with both times in seconds; conflict exactly if the token is taken, failure if the inbox is gone, and then nothing changes |
| `Repository.SQLite.GetSession` | internal/repository/sqlite.go:469-507 | Found exactly if the token has a session whose expiry in seconds lies after the reading; it comes with the row of the session's own inbox, which is always there |
| `Repository.SQLite.DeleteSession` | internal/repository/sqlite.go:509-519 | Removes the one session, or not found |
| `Repository.SQLite.TouchSession` | internal/repository/sqlite.go:521-532 | Moves the expiry of the one session, or not found |
| `Repository.SQLite.DeleteExpiredSessions` | internal/repository/sqlite.go:534-549 | Removes the sessions expired in whole seconds and counts them |
| `Repository.SQLite.SetSetting` | internal/repository/sqlite.go:567-577 | Inserts or replaces the one value |
| `Mailbox.App.HandleIndex` | internal/web/handlers.go:58-87 | Reads the first page and the unread count; `Requests.IndexShows` says what this answers and leaves |
| `Mailbox.App.HandleViewEmail` | internal/web/handlers.go:89-139 | Looks the email up for the inbox, marks it and lists its attachments; `Requests.ViewShows` says what this answers and leaves |
| `Mailbox.App.HandleAttachment` | internal/web/handlers.go:141-189 | Looks the email up for the inbox, then the attachment by id, and compares; `Requests.DownloadServes` says what this answers and leaves |
| `Mailbox.App.HandleDeleteEmail` | internal/web/handlers.go:191-215 | Deletes for the inbox; `Requests.DiscardRemoves` says what this answers and leaves |
| `Mailbox.App.HandleAPIEmails` | internal/web/handlers.go:217-260 | Reads the first page and the unread count and builds one summary per row; `Requests.ApiShows` says what this answers and leaves |
| `Mailbox.App.HandleApp` | internal/web/middleware.go:39-72 | A live session is slid forward and the request served for its inbox; otherwise nothing happens but the demand to log in |
| `Mailbox.RequestKeepsConsistent` | internal/web/middleware.go:39-72 | No request breaks the store's invariant |
| `Requests.DiscardRemoves` | internal/web/handlers.go:191-215 | Deleting through a live session removes exactly the inbox's own email and its attachments and redirects; any other id removes nothing and is not found |
| `Requests.ViewShows` | internal/web/handlers.go:89-139 | Viewing shows the inbox's own email as read with all its attachments by ascending id, leaves it read and changes no other mail |
| `Requests.DownloadServes` | internal/web/handlers.go:141-189 | Downloading serves the four fields of the row exactly if it is an attachment of the named email and that is the inbox's own |
| `Requests.IndexShows` | internal/web/handlers.go:58-87 | The index shows the inbox, the number of its unread emails and its newest 50 in order |
| `Requests.ApiShows` | internal/web/handlers.go:217-260 | The API gives address and expiry, the number of unread emails and the newest 50, field by field |
| `Requests.OthersAreTurnedAway` | internal/web/middleware.go:42-56 | Without a live session nothing changes and the answer is the demand to log in |
| `Isolation.ResponsesDependOnOwnRowsOnly` | internal/web/handlers.go:58-260 | Unwinding: stores that agree on inbox A's rows answer every request of A's sessions alike and still agree on them afterwards |
| `Isolation.RequestsStayHome` | internal/web/handlers.go:89-260 | No request changes a row of any inbox but its session's, although two lookups are by id alone |
| `Isolation.OthersAreInvisible` | internal/web/middleware.go:39-72 | Non-interference over every run: leaving out all requests of other sessions changes nothing that A's sessions are answered |
| `Isolation.RequestsTouchMailOnly` | internal/web/middleware.go:39-72 | No request changes a domain, a setting or an id counter; without a live session nothing changes at all |
| `NonInterference.OnlyIdsLeak` | internal/repository/sqlite.go:101-577 | Non-interference over every run of requests and statements, deliveries, registrations, logins, logouts and cleanups included: leaving out all that is not about inbox A, and skipping the ids it used up, changes nothing that A's sessions are answered |
| `NonInterference.OthersStay` | internal/repository/sqlite.go:101-577 | A statement that is not about an existing inbox changes none of its rows |
| `NonInterference.OwnAgrees` | internal/repository/sqlite.go:101-577 | A statement about an inbox does the same to its rows in any two stores that agree on them and on the next ids |
| `Interleaving.LateMarkIsHarmless` | internal/web/handlers.go:101-119 | With any operations between lookup and marking, the email marked is that inbox's own, or nothing is marked |
| `Interleaving.LateAttachmentsAreOwn` | internal/web/handlers.go:121-126 | With any operations in between, the attachments listed are that inbox's own |
| `Interleaving.LateDownloadIsOwn` | internal/web/handlers.go:157-182 | With any operations between the ownership check and the fetch by id, the file served is that inbox's own |
| `Interleaving.LateDeliveryIsExact` | internal/smtp/session.go:50-83 | With any operations between RCPT and DATA (deletion and re-registration of the address included), the message goes into the row found at RCPT exactly if that row is still there, and nowhere else |
| `Interleaving.LoggedOutForGood` | internal/web/auth_handlers.go:97-105 | At the level of statements: after a logout no statements, a late TouchSession of a request in flight included, make the token open a mailbox again |
| `SessionTraces.TokenOpensIff` | internal/web/middleware.go:48-69 | In every run, a token opens a mailbox exactly if it was handed out, not logged out, its inbox exists, and the floored gap since the last sign of life is below the time to live; and it opens that mailbox |
| `SessionTraces.VisitMovesOneExpiry` | internal/web/middleware.go:58-66 | A request moves its own session's expiry, if it gets in, and no other account data |
| `SessionTraces.EventReplies` | internal/web/middleware.go:42-69 | What a login, a lookup and a request are answered, in terms of the tables |
| `SessionTraces.EventTracks` | internal/repository/sqlite.go:444-549 | Every event keeps the sessions table in step with the history of each token |
| `SessionTraces.StartSession` | internal/web/auth_handlers.go:178-189 | A login with a fresh token stores a session of the inbox that expires the configured days, in whole seconds, from now |
| `SessionTraces.HandleLogout` | internal/web/auth_handlers.go:97-105 | A logout removes the session of its cookie, if any, and always leads home |
| `SessionCleanups.CleanupsAreInvisible` | internal/worker/cleanup.go:61-81 | Session cleanups anywhere in a run change no reply to any login, request, lookup or logout |
| `SessionCleanups.SimilarRuns` | internal/worker/cleanup.go:61-81 | Stores that differ only in sessions already expired answer a run, with and without its cleanups, alike |
| `Cleanup.RunCleanup` | internal/worker/cleanup.go:61-81 | Expired inboxes go first, then expired sessions; a failure of the first ends the run |
| `Cleanup.CleanupIsExact` | internal/worker/cleanup.go:61-81 | What is left is exactly the unexpired inboxes, their mail, and those of their sessions that are unexpired |
| `RateLimit.FixedWindowLimiter.Allow` | internal/ratelimit/fixed_window.go:36-73 | The call's decision and the new table, whose meaning `InactiveAllowsAll`, `RemainingIsExact`, `RetryAfterIsExact` and `BoundHoldsIff` give |
| `RateLimitTraces.InactiveAllowsAll` | internal/ratelimit/fixed_window.go:37-39 | Without a limit or a window, over every run: all calls are allowed at once and nothing is counted |
| `RateLimitTraces.RemainingIsExact` | internal/ratelimit/fixed_window.go:66-72 | After an allowed call, exactly the advertised number of further calls of the key get through before the window ends |
| `RateLimitTraces.KeysAreIndependent` | internal/ratelimit/fixed_window.go:36-73 | A key's entry and decisions are those of a limiter that sees only that key's calls |
| `RateLimitTraces.WindowsStayApart` | internal/ratelimit/fixed_window.go:46-72 | In every order of clock readings: counts stay in 1..limit, and a key's window start stays or moves on by a whole window |
| `RateLimitTraces.SlidingWindowBound` | internal/ratelimit/fixed_window.go:46-72 | With readings in order, or late by a nanosecond at most, or a limit of one: fewer than (k + 1) * limit calls of a key get through in any half-open stretch of k windows |
| `RateLimitTraces.BoundIsReached` | internal/ratelimit/fixed_window.go:46-72 | That bound is exact: a run with readings in order reaches (k + 1) * limit - 1 |
| `RateLimitTraces.BoundHoldsIff` | internal/ratelimit/fixed_window.go:41-72 | For every stretch of k windows: all runs whose readings are late by at most d keep to the bound if and only if the limit is one or d is at most a nanosecond |
| `RateLimitTraces.DisorderDefeatsTheBound` | internal/ratelimit/fixed_window.go:41-72 | With a limit of two or more and readings late by any amount, every number of calls with readings in one window can get through |
| `RateLimitTraces.RetryAfterIsExact` | internal/ratelimit/fixed_window.go:54-63 | After a denial at t with RetryAfter r > 0, calls of the key are denied until the first reading at t + r or later, and that one is allowed; r is at most a window if readings were in order |
| `RateLimitTraces.DenialNamesWindowEnd` | internal/ratelimit/fixed_window.go:54-63 | A denial changes nothing and points at the end of the full window |
| `RateLimitTraces.HeaderIsClose` | internal/web/security.go:119-125 | The advertised wait (section 10.2.3 of RFC 9110) is at least a second and at most half a second short, so one second more is always enough |
| `RateLimitTraces.HeaderSufficesIff` | internal/web/security.go:119-125 | It is enough by itself exactly if the wait is at most a second, whole seconds, or rounded up |
| `RateLimitTraces.HeaderCanBeTooShort` | internal/web/security.go:119-125 | A wait of 1.4 seconds is advertised as one |
| `Mime.Reader.Read` | internal/smtp/session.go:242-254 | What a stream may do on one read: hand out some next bytes, and end with or after the last |
| `Mime.ReadRawMessage` | internal/smtp/session.go:242-254 | However the stream is split into reads: exactly its bytes if they fit, too-large otherwise; a stream that ends in a failure gives read-failed if its bytes fit and too-large if they exceed the limit by two or more (one over, it depends on whether the failure comes with the last bytes); the stream is drained in every case |
| `Mime.ReadAttachment` | internal/smtp/session.go:197-228 | A whole attachment within the limit, made from the part's name, type and bytes with defaults for an empty name or type, or the reason against it |
| `Mime.ParseParts` | internal/smtp/session.go:145-195 | The loop computes the function whose meaning `ParseMeans` and `AttachmentsInOrder` give |
| `Mime.FaultIff` | internal/smtp/session.go:150-220 | Which parts are refused as too large, which as unreadable, and which are sound |
| `Mime.ParseMeans` | internal/smtp/session.go:145-228 | Success exactly if every part is sound, else the error of the first that is not; each body is, byte for byte, the first non-empty inline part of its type in whatever case, or empty; attachments are whole and within the limit |
| `Mime.AttachmentsInOrder` | internal/smtp/session.go:181-186 | Every attachment part yields exactly one attachment, made from it, in part order, and there are no others |
| `Smtp.Session.Mail` | internal/smtp/session.go:26-29 | Sets the sender and nothing else |
| `Smtp.Session.Rcpt` | internal/smtp/session.go:31-61 | Goes through the domain cache and resolves the address to an inbox row; the reply codes of every failure; a malformed address does not reach the cache |
| `Smtp.Session.Data` | internal/smtp/session.go:63-143 | Drains the stream and does what `Deliveries.AcceptedIsStoredWhole` and `Deliveries.DataReplies` describe; a failed read stores nothing and is answered 451 if the bytes fit, 552 if they exceed the limit by two or more |
| `Smtp.Session.Reset` | internal/smtp/session.go:88-92 | Back to the state of a new session (section 4.1.1.5 of RFC 5321) |
| `SmtpRuns.RecipientReply` | internal/smtp/session.go:31-61 | The reply code to every RCPT, in the order of the checks; a rejected one changes nothing; the inbox held after an accepted one has the recipient's address up to case |
| `SmtpRuns.RunIsSane` | internal/smtp/session.go:31-92 | After every run, whatever happens to the store: an inbox is held exactly if there is a recipient, at most one, and it matches that recipient ignoring case |
| `SmtpRuns.AcceptedMeansOneEmail` | internal/smtp/session.go:63-143 | At any point of any run, an accepted DATA adds exactly one unread email to the recipient's inbox and touches no other; a rejected one changes nothing |
| `Deliveries.AcceptedIsStoredWhole` | internal/smtp/session.go:63-143 | At any point of any run: every field of the email an accepted DATA stores, from header, parts, envelope, byte count and clock, and its attachments, one per attachment part, in order, each with its own name, type and bytes |
| `Deliveries.DataReplies` | internal/smtp/session.go:63-86 | At any point of any run: the reply code to DATA for every way of failing, in the order of the checks, and accepted exactly if none applies |
| `Registration.ValidateLocalPart` | internal/web/auth_handlers.go:227-241 | Accepts exactly 3 to 64 lower-case letters and digits, after trimming and lower-casing |
| `Registration.LocalPartIff` | internal/web/auth_handlers.go:227-241 | A name is accepted exactly if, trimmed, it is 3 to 64 ASCII letters and digits, and it is taken over with its capitals made small |
| `Registration.LocalPartIsNormal` | internal/web/auth_handlers.go:227-241 | An accepted name has no '@' and validates to itself |
| `Registration.DomainAcceptedIff` | internal/domainutil/domainutil.go:15-29 | A domain is accepted exactly if, normalised, it has no '@', no white space and no empty label between dots |
| `Registration.DomainIsNormal` | internal/domainutil/domainutil.go:15-29 | Normalisation is idempotent |
| `Registration.NoEmptyLabelIff` | internal/domainutil/domainutil.go:24-26 | The three dot checks together say exactly that no label is empty |
| `Registration.ResolvedEnabledIff` | internal/web/routes.go:114-123 | The chosen domain is enabled exactly if some domain is; otherwise it is the seed |
| `Registration.ResolvedDomain` | internal/web/middleware.go:133-145 | The requested domain is used exactly if it is enabled, up to case and outer space; otherwise the enabled domain added first, or the seed if there is none |
| `Registration.ProvisionIff` | internal/web/middleware.go:109-127 | An inbox is created exactly if there is a domain and neither address, up to case, nor token is taken; every field of its row; otherwise nothing changes, and which refusal it is |
| `Registration.NeverExpiresIn9999` | internal/web/routes.go:29 | The expiry given to inboxes is the first instant of the year 9999 |
| `Registration.DisabledSeedIsUsed` | internal/web/routes.go:119-122 | A seed that is disabled is still handed out |
| `Registration.ResolvedIsNormal` | internal/web/middleware.go:133-145 | The chosen domain is a normalised one, or there is none |
| `Registration.AddedDomainsAreNormal` | internal/web/admin.go:324-330 | Adding a domain keeps all names in the table normalised |
| `Registration.Registrar.CreateInbox` | internal/web/middleware.go:101-128 | One attempt behind the limiter, as `ProvisionIff` and the lemmas of `RegistrationLimits` describe it; a call over the limit creates nothing and reports the limiter's wait |
| `RegistrationLimits.NoLimitNoRefusal` | internal/web/middleware.go:102-107 | With the limit set to 0, no run of attempts is ever turned away for its rate |
| `RegistrationLimits.RefusalTellsTheWait` | internal/web/middleware.go:102-107 | An attempt turned away changes nothing in the store and tells the exact wait: the client is turned away until then, whatever others do, and not for its rate at the first attempt from then on |
| `RegistrationLimits.RegistrationsAreLimited` | internal/web/middleware.go:102-107 | With a limit, fewer than (k + 1) * limit attempts of a client get through in k windows, over every run |
| `Registration.CleanupReachesIff` | internal/web/routes.go:25-29 | A cleanup removes a registered inbox exactly from the year 9999 on |
| `Registration.AccountSurvives` | internal/web/routes.go:25-29 | No run without such a cleanup removes it |
| `Registration.CaseVariantSplits` | internal/smtp/session.go:37-40 | An address in other letter case splits at the '@' into the same parts |
| `Registration.RegisteredAddressReceives` | internal/smtp/session.go:37-59 | Round trip: in every later state before the year 9999, RCPT to any address that differs from a registered one in the case of ASCII letters at most, with its domain answered enabled, resolves to that one inbox |
| `AdminSetup.HandleAdminSetup` | internal/web/admin.go:251-296 | Without interruption: logs in only with a confirmed password of at least 12 bytes whose hash is then the stored one and where none was before; otherwise changes nothing |
| `AdminSetup.SetupReplies` | internal/web/admin.go:256-295 | Which reply every uninterrupted setup gets, exactly, and what it leaves |
| `AdminSetup.RepliesInRuns` | internal/web/admin.go:256-295 | The same along every interleaving: a setup that finishes began when no hash was set, and is logged in exactly for a confirmed long enough password that was hashed and written, which is then the stored one |
| `AdminSetup.HashComesFromAForm` | internal/web/admin.go:271-288 | Along every interleaving, the stored hash comes from a confirmed password of at least 12 bytes |
| `AdminSetup.OverwriteIff` | internal/web/admin.go:247-288 | A hash that is set can still change if and only if an acceptable setup with another hash is in flight |
| `AdminSetup.SecondSetupOverwrites` | internal/web/admin.go:247-288 | From an empty store, any two acceptable setups that both pass the check both succeed, and the later hash stays |
| `AdminSetup.HashStays` | internal/web/admin.go:256-288 | With none in flight, no later interleaving of setup steps changes the hash |
| `AdminSetup.FirstSetupWins` | internal/web/admin.go:251-296 | With uninterrupted handlers the first successful setup's hash is there for good |
| `AdminSessions.AdminSessionStore.Create` | internal/web/admin.go:60-64 | Registers the token with its expiry |
| `AdminSessions.AdminSessionStore.Validate` | internal/web/admin.go:66-81 | True and slid forward exactly if the expiry lies after the reading; an expired token is dropped |
| `AdminSessions.AdminSessionStore.Delete` | internal/web/admin.go:83-87 | Forgets the one token |
| `AdminSessions.ValidIff` | internal/web/admin.go:60-87 | validate succeeds exactly if the last create or successful validate set an expiry after now and no delete followed |
| `AdminSessions.EagerRemovalIsInvisible` | internal/web/admin.go:66-81 | Dropping expired entries early changes no later answer |
| `AdminSessions.OtherTokensUnaffected` | internal/web/admin.go:60-87 | No event on one token touches another's entry |
| `AdminDomains.HandleAdminAddDomain` | internal/web/admin.go:318-341 | Adds a valid new domain, enabled, under the next id with its time of creation and changes nothing else; an invalid or existing one changes nothing |
| `AdminDomains.HandleAdminToggleDomain` | internal/web/admin.go:343-363 | Flips the named domain's switch; missing exactly if there is no such domain, changed whenever there is and the names in the table are normalised |
| `AdminDomains.ToggleFlipsWhatItRead` | internal/web/admin.go:345-356 | With anything between its read and its write, a toggle leaves the opposite of what it read, also over another toggle, and no other domain changes |

## Left out

- HTTP routing, templates, cookies, redirect targets of the login demand, security headers, same-origin checks: plumbing.
- SQL text, migrations, PRAGMAs and driver errors. Foreign keys stay on. Statements can fail in the inbound-message transaction, the domain lookup, the mailbox lookup at RCPT, the write of the admin hash and the cleanup; elsewhere only the errors that the data causes are modelled.
- Address parsing (`net/mail`), MIME and charset decoding, raw-header extraction and HTML sanitising: library code. DATA takes the decoded header and parts as an arbitrary function of the bytes, RCPT takes the parsed address.
- bcrypt, UUIDs and random passwords: values given to the steps. Tokens are fresh where a theorem says so; bcrypt never yields the empty string.
- Unicode: letter case and white space are those of ASCII, where Go and SQLite's NOCASE agree.
- Structs passed by pointer: they are values here, so writes of ids and defaults back into the caller's struct, and aliasing, are not captured.
- Repository.SQLite.CreateInbox: its INSERT and the SELECT of the row it made are one step.
- SessionTraces.TokenOpensIff: a request is one atomic step, and its slide and its access time share one clock reading. For single statements in any order only `Interleaving.LoggedOutForGood` is stated.
- NonInterference.OnlyIdsLeak: a request of the mailbox area is one atomic step; what interleaving can do between the statements of a handler is stated lemma by lemma in `Interleaving`.
- RateLimitTraces.BoundHoldsIff: windows of at least two nanoseconds, and stretches that start a window or more after Go's zero time; the configured windows are minutes and hours long.
- The saturation of time differences over 292 years, and the default of received_at for a zero time and NULL text columns in insertEmail: SMTP always fills them.
- The connection limiter in front of a new SMTP session: it only calls the limiter proved here.
- Login forms, password checks, the first-visit registration page and the account pages: single branches around the store operations proved here.
- The worker's ticker loop, configuration, and process start and shutdown: a cleanup may occur anywhere in a run instead.
