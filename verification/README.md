# utlsproxy model

utlsproxy is a daemon that accepts redirected TLS connections, completes the upstream handshake with
a browser's ClientHello, and relays the decrypted streams. This project models the parts of it that
carry state, loops or protocols of their own, and proves what they keep. TLS, certificates, hashing
and sockets are parameters or environment steps.

- **DNS resolver** (`DnsMessage`, `DnsResolve`, `DnsReplies`, `DnsResolveProofs`, `DnsChunking`,
  `DnsSelect`, `DnsFlight`, `DnsCache`, `DnsRuns`, `DnsTheorems`). `resolve` as its two nested loops over arbitrary responses,
  `Select` as its single pass, a flight's loops over servers, and the resolver's fields as an object
  whose methods are the regions under the mutex. A state machine interleaves those regions with
  Configure, Refresh, discovery results, flights, lookups and the clock; the theorems hold in every
  reachable state.
- **Trust store** (`Trust`). The manager and the Linux backend as a process whose every file or
  native operation may work, fail, fail half done or when done, or be the moment the process dies.
- **Hosts file** (`Text`, `Hosts`, `HostsProofs`, `HostsApply`). The marked block parser and editor
  on text, the diff, the meaning of the file for name lookups, and the guarded replacement.
- **Proxy server** (`Server`, `ServerRuns`, `Relay`, `Reload`). Connection accounting, status
  reports and shutdown; the two-way relay; configuration snapshots.
- **Smaller parts**: log rotation (`Rotate`), service installation (`Install`), ALPN restriction and
  negotiation (`Alpn`), the strict JSON walk (`StrictJson`).

Code that changes things step by step is a method or a class; a function beside it says what it
computes, and the lemmas say of that function, in terms it is not made of, what the code is for. `dafny verify dfyconfig.toml` checks everything.

These results say where the code does *not* do what one might expect, each with its exact condition
and a run that shows it:

- An alias target that an answer mentions without a usable address or alias, for instance with an
  IPv6 address only, is queried again and then always refused as a cycle
  (`DnsResolveProofs.CycleIffDeadEnd`, `DnsResolveProofs.OtherTypeOnlyCycles`).
- When the creation of the trust receipt reports failure but leaves the receipt, the snapshot is
  removed beside it, and no later `trust` or `untrust` gets past that (`Trust.Lifetime`,
  `Trust.MisreportedReceipt`).
- A crash between the snapshot and the receipt blocks every later `trust`
  (`Trust.TrustRetriesExactly`, `Trust.CrashCanBlockTrust`).
- Applying the hosts block twice changes nothing, and removing it undoes it, unless the applied file
  passed the 4 MiB limit that the second run then enforces (`HostsProofs.ApplyTwiceChangesNothing`,
  `HostsProofs.RemoveUndoesApply`, `HostsProofs.AppliedFileCanBeTooLarge`).
- A rollback that reports no problem can still leave different files, because the errors of the reads
  at lines 301-303 of `internal/service/service.go` are dropped and a missing target is copied as an
  empty one (`Install.Service.Install`, `Install.MissingExecutableComesBackEmpty`,
  `Install.UnreadExecutableIsEmptied`).
- An installation can succeed beside a missing file that it did not have to rewrite
  (`Install.Service.Install`, `Install.UnchangedWithoutDefinition`,
  `Install.InstalledWithoutExecutable`).
- An interrupted uninstall cannot be resumed by another uninstall (`Install.Service.Uninstall`,
  `Install.InterruptedUninstallIsStuck`).

## Model

| member | source | states |
|---|---|---|
| DnsResolve.ScanAnswer | internal/dns/resolver.go:250-271 | The record loop collects exactly the addresses of the owner's IN-class A records in order, its one alias target, and the least TTL of both, or reports two different targets. |
| DnsResolve.MentionsOwner | internal/dns/resolver.go:289-295 | True exactly when some record of the answer, of whatever class, has the name, ignoring case. |
| DnsResolve.ResolveLoop | internal/dns/resolver.go:215-305 | The two nested loops end, and with the outcome of the recursive specification, whose every outcome `DnsResolveProofs.ResolveIffExplained` characterizes. |
| DnsReplies.FetchMeans | internal/dns/resolver.go:223-246 | One question succeeds or fails exactly as the fields of its replies say: no reply, a malformed one, a name error, another code, or an answer, the TCP reply counting when the UDP one was truncated. |
| DnsReplies.AddressesAreGiven | internal/dns/resolver.go:252-262 | The addresses collected for an owner are those of its IN-class address records, all of them, in the order of the answer. |
| DnsReplies.TargetsAre | internal/dns/resolver.go:263-270 | The alias targets collected are exactly the lower-case spellings of the targets of its IN-class alias records. |
| DnsReplies.LeastTtlIsLeast | internal/dns/resolver.go:261-269 | The TTL after an owner is the least of the one before and those of its address and alias records. |
| DnsResolveProofs.HopLimitUnreachable | internal/dns/resolver.go:217-222 | Whatever the server says, the final hop-limit return is never reached. |
| DnsResolveProofs.AskNeverHitsHopLimit | internal/dns/resolver.go:217-222 | The measure behind it: at hop h at least h names were seen and never more than nine, so nine hops always end in another way. |
| DnsResolveProofs.FollowNeverHitsHopLimit | internal/dns/resolver.go:285-301 | The same inside one answer, where each alias followed adds a name. |
| DnsResolveProofs.ResolveIffExplained | internal/dns/resolver.go:215-305 | Each outcome, success and every kind of failure, is returned if and only if the first question fails that way, or a chain of distinct names, at most eight aliases long and read from well-formed replies really given, ends at an owner whose records say so or in a question that fails that way. |
| DnsResolveProofs.NameErrorIff | internal/dns/resolver.go:241-243 | The name error is returned if and only if such a chain leads to asking that name and the well-formed reply has the name-error code. |
| DnsResolveProofs.RequeryAlwaysCycles | internal/dns/resolver.go:278-282 | An owner reached by alias for which the answer has no usable address and no alias of class IN, whatever else it has, always ends in the cycle error. |
| DnsResolveProofs.CycleIffDeadEnd | internal/dns/resolver.go:217-302 | For arbitrary responses `resolve` reports this cycle if and only if a genuine chain of distinct names from the query ends at an owner that was not the one asked and has neither usable address nor alias in that answer. |
| DnsResolveProofs.OtherTypeOnlyCycles | internal/dns/resolver.go:278-302 | A server whose alias target has, say, an IPv6 address only makes `resolve` report a cycle. |
| DnsResolveProofs.AnswerIffChain | internal/dns/resolver.go:247-301 | For arbitrary replies an answer is returned if and only if such a chain ends at an owner with these addresses and no alias, and this is the least TTL of all address and alias records of its owners. |
| DnsResolveProofs.AnswerTtlIsMinimum | internal/dns/resolver.go:256-276 | Any chain from the queried name that ends in addresses is the one answered with, and the TTL is the least on it. |
| DnsChunking.ChunkingDoesNotMatter | internal/dns/resolver.go:215-304 | An honest zone with k aliases gives the same outcome however responses cut the chain: its addresses and least TTL for k <= 8, the limit error for k > 8. |
| DnsSelect.ScoreGroup | internal/dns/discovery.go:154-164 | The domain loop computes the label count of the longest covering domain, 0 for a catch-all, -1 for none. |
| DnsSelect.NormalIsDotless | internal/dns/discovery.go:149 | The queried name is compared in lower case and without its final dot. |
| DnsSelect.RoutingIsDotless | internal/dns/discovery.go:156-158 | A configured domain is compared in lower case, without one leading tilde and without its final dot. |
| DnsSelect.ScoreIsLongestDomain | internal/dns/discovery.go:154-167 | A group's score is the number of labels of its longest domain that is the name or above it, 0 for a catch-all alone, -1 for neither. |
| DnsSelect.Select | internal/dns/discovery.go:148-191 | The single pass returns, in order, exactly the groups with the greatest label count and among them the least priority, or else exactly the least-priority defaults. |
| DnsSelect.TextMatchIsLabelMatch | internal/dns/discovery.go:161 | Comparing text with a dotted suffix is the same as comparing whole labels from the right. |
| DnsSelect.SelectedShareOneDomain | internal/dns/discovery.go:168-177 | All groups selected for a covered name share one normalized domain, and no group has a longer one that covers the name. |
| DnsSelect.CoveredNameStaysCovered | internal/dns/discovery.go:176-190 | A covered name always gets a group and only covering ones; an uncovered name only gets defaults. |
| DnsFlight.RunFlight | internal/dns/resolver.go:156-184 | The loops over groups and servers, with their two breaks, ask the servers of the flat list in turn and give its verdict. |
| DnsFlight.ServersInOrder | internal/dns/resolver.go:163-166 | The flat list has every server of every group with its interface, group by group. |
| DnsFlight.FirstDecisiveServer | internal/dns/resolver.go:163-184 | The first server that does not fail transiently decides; a name error or a name without address is never followed by another server; the answer's time is when that server was first asked. |
| DnsFlight.AnsweredInTurn | internal/dns/resolver.go:163-184 | Servers that fail transiently before one that answers make its answer the verdict of the loops. |
| DnsCache.Resolver.constructor | internal/dns/resolver.go:42-46 | The fields before the first refresh. |
| DnsCache.Resolver.Configure | internal/dns/resolver.go:54-58 | Publishing a configuration empties the cache and leaves the discovery alone. |
| DnsCache.Resolver.BeginRefresh | internal/dns/resolver.go:81-91 | Captures the configuration, or nothing when it is applied and refreshed less than 100 ms ago. |
| DnsCache.Resolver.EndRefresh | internal/dns/resolver.go:101-117 | A discovery for a replaced configuration is dropped; otherwise exactly what was found is published, without its groups after an error, and generation and cache stay if and only if configuration, discovery, error and mode all stayed. |
| DnsCache.Resolver.ConfigureAlone | internal/dns/resolver.go:54-60 | Alone, Configure ends with its configuration applied and the configured servers, or exactly the groups found, in use. |
| DnsCache.Resolver.Lookup | internal/dns/resolver.go:135-155 | Unavailable if and only if the last discovery failed; otherwise a hit if and only if the current generation has a live entry for the name, else a miss that drops an expired one. |
| DnsCache.Resolver.Store | internal/dns/resolver.go:185-198 | A live answer of the generation still current is kept and at most one other entry goes, from a full cache only; any other answer changes nothing. |
| DnsCache.StoredIsServed | internal/dns/resolver.go:144-148 | What was stored is served until it expires. |
| DnsCache.KeyTextIsInjective | internal/dns/resolver.go:139 | The textual key determines generation and host. |
| DnsRuns.ConfigStep | internal/dns/resolver.go:54-60 | Every step keeps: either the call that published last is still pending, or its configuration is the applied one. |
| DnsRuns.BookStep | internal/dns/resolver.go:103-117 | Every step keeps what each generation number ever stood for. |
| DnsRuns.MadeStep | internal/dns/resolver.go:106-116 | Every step keeps what each generation stands for equal to what its discovery found. |
| DnsRuns.EntriesStep | internal/dns/resolver.go:185-198 | Every step keeps every cache entry backed by a completed resolution of the current generation's groups. |
| DnsRuns.FlightsStep | internal/dns/resolver.go:156-184 | Every step keeps each flight's completed calls on the servers its generation selects, in their order, all transient failures before the one that answered. |
| DnsRuns.LookupsStep | internal/dns/resolver.go:201-209 | Every step keeps each lookup on the groups it selected, joined flights included. |
| DnsTheorems.RunInv | internal/dns/resolver.go:31-40 | All of these hold in every reachable state. |
| DnsTheorems.GenerationNamesOneDiscovery | internal/dns/resolver.go:111-116 | Over any run the generation number determines discovery, mode, error text and applied configuration. |
| DnsTheorems.GenerationIsWhatWasFound | internal/dns/resolver.go:92-116 | Over any run a generation stands for exactly the groups its discovery found, none after an error, and the configured servers in manual mode. |
| DnsTheorems.LastConfigureWins | internal/dns/resolver.go:54-60 | Once the Configure that published last has returned, its configuration is the applied one, so no older discovery has won. |
| DnsTheorems.EveryAnswerIsFromOwnGroups | internal/dns/resolver.go:135-210 | Every answer, cached, coalesced or fresh, is the verdict of the server loops over the groups that Select gives for the generation the lookup saw: its calls went to the first servers in order, and each before the last had failed transiently. |
| DnsTheorems.CoalescedFlightHasOwnGroups | internal/dns/resolver.go:152-156 | A lookup waiting on another's flight waits for exactly the groups it selected itself. |
| DnsTheorems.CacheAgreesWithUncachedLookup | internal/dns/resolver.go:144-150 | Every entry has the current generation and is the verdict of the server loops over the groups that an uncached lookup would ask now, with an expiry counted from before the first query of the server that answered. |
| DnsTheorems.CacheHitIsInsideEveryTtl | internal/dns/resolver.go:186-189 | A cached answer is inside the TTL of every record on its chain, each counted from the arrival of its response. |
| DnsTheorems.CacheIsBounded | internal/dns/resolver.go:189-196 | The cache never exceeds the largest size configured so far. |
| Trust.EffectKeepsSafe | internal/trust/trust.go:197-296 | Each operation, in each of its eight fates, keeps the write-ahead invariant if it is tried in the order the protocol prescribes. |
| Trust.Manager.Do | internal/trust/trust.go:136-288 | One operation with its fate, recorded in the history; a dead process does nothing more. Exclusive creation may also leave a torn file, or a whole file although it reports failure. |
| Trust.Manager.Anchor | internal/trust/platform.go:173-189 | Present only when the anchor is this certificate, absent only when nothing is there, an error for anything else. |
| Trust.Manager.Inspect | internal/trust/platform.go:190-200 | Reports the anchor and, for a valid certificate, the bundle. |
| Trust.Manager.Refresh | internal/trust/platform.go:201-207 | Success means that the bundle was rebuilt from what is there now. |
| Trust.Manager.Add | internal/trust/platform.go:208-225 | Success means that the anchor holds the certificate and the bundle was rebuilt with it; without failures it fails only on a foreign anchor. |
| Trust.Manager.Remove | internal/trust/platform.go:226-241 | Success means that the anchor is gone and the bundle was rebuilt after that, also when an earlier removal was interrupted. |
| Trust.Manager.RemoveReceipt | internal/trust/trust.go:290-296 | The receipt goes before its snapshot. |
| Trust.Manager.Observe | internal/trust/trust.go:152-189 | What is known before anything is done is what is on disk, and finding it out changes nothing. |
| Trust.Manager.ReadOwnership | internal/trust/trust.go:168-185 | A receipt counts only with an intact snapshot of the same certificate. |
| Trust.Manager.Claim | internal/trust/trust.go:212-222 | The snapshot is complete before the pending receipt exists; safety is kept unless the receipt's creation reports failure, leaves the receipt, and the snapshot is then removed. |
| Trust.Manager.RollBack | internal/trust/trust.go:231-249 | Keeps safety, and reports the certificate unmanaged only when nothing is left of it. |
| Trust.Manager.Install | internal/trust/trust.go:197-258 | Already trusted means that nothing is touched; a change is reported only with snapshot, installed receipt, anchor and rebuilt bundle all in place; safety is lost only as its claim loses it. |
| Trust.Manager.Uninstall | internal/trust/trust.go:259-287 | Reports a change only with all of them gone, and trust then only on another installation's account. |
| Trust.Manager.Execute | internal/trust/trust.go:136-288 | Safety is kept through every failure and death or lost to that one mishap and then for good; a receipt without its snapshot makes every later run refuse and change nothing; nothing changes on a dry run, for status or without root; an anchor without a valid receipt is never touched; on a clear store trust reports "already trusted", and changes nothing, if and only if the bundle has the certificate, and status tells the same; without failures it is the ideal transition. |
| Trust.Lifetime | internal/trust/trust.go:136-296 | Over any number of runs that fail or die anywhere, with other tools at work in between: at every moment a valid receipt has its snapshot, and without a valid receipt the anchor is gone and the bundle was rebuilt since - if and only if no receipt creation that reported failure left the receipt behind and the snapshot was then removed; otherwise the orphaned receipt stays to the end. |
| Trust.MisreportedReceipt | internal/trust/trust.go:218-221 | A run from a clean store that ends with a valid receipt and no snapshot, after which trust and untrust are refused. |
| Trust.TrustTwice | internal/trust/trust.go:197-204 | Trusting again after a change, or after trust that was already there, changes nothing. |
| Trust.OutcomesOnClearStore | internal/trust/trust.go:190-268 | What each action comes to on a clear store, case by case over what is on disk. |
| Trust.UnclearStoreIsRefused | internal/trust/trust.go:168-189 | A store that is not clear is refused by every action, naming the first thing wrong, and left alone. |
| Trust.InvalidCertificate | internal/trust/trust.go:152-154 | A certificate that is not valid now is not newly trusted, is reported as not trusted, and can be removed. |
| Trust.UntrustRecoversExactly | internal/trust/trust.go:259-287 | From any state a lifetime can end in, an undisturbed untrust cleans up if and only if there is a valid receipt with its snapshot and no torn or foreign anchor. |
| Trust.TrustRetriesExactly | internal/trust/trust.go:197-258 | From any such state an undisturbed trust succeeds if and only if a valid receipt with its snapshot can be resumed or neither receipt nor snapshot was left. |
| Trust.CrashCanBlockTrust | internal/trust/trust.go:213-222 | Dying between the snapshot and the receipt leaves a state that refuses trust and has nothing to untrust. |
| Trust.UntrustUndoesTrust | internal/trust/trust.go:197-287 | Trust and then untrust give back the state before, with the bundle rebuilt. |
| Hosts.FindBlock | internal/hosts/hosts.go:31-51 | The line scan finds the block that the specification defines. |
| Hosts.BlockAcceptsExactly | internal/hosts/hosts.go:31-51 | Accepted exactly are files without any line of ours, whatever its version, or with one Begin followed by one End and no other; the block is then those lines and all between. |
| Hosts.FoundBounds | internal/hosts/hosts.go:47-50 | The offsets returned lie in order inside the file. |
| Hosts.Prepare | internal/hosts/hosts.go:52-123 | Refuses exactly files over the limit, malformed blocks and, when applying, files that say something about a configured domain outside the block; reports the lines that do; lists what the block shows; says whether anything changes; and computes the specified text. |
| Hosts.ScanConflicts | internal/hosts/hosts.go:81-96 | One conflict for each wanted name of each unmanaged line, in order. |
| Hosts.ConflictsIffSaid | internal/hosts/hosts.go:85-99 | There are conflicts if and only if a lookup of some configured domain outside the block finds something. |
| Hosts.ConflictsAreWanted | internal/hosts/hosts.go:85-96 | The lines reported are exactly the lines with a configured domain, in any capitals and with or without final dot, after the address. |
| Hosts.ListManaged | internal/hosts/hosts.go:73-78 | The managed lines, without comments and blanks, in order. |
| Hosts.ManagedAreShown | internal/hosts/hosts.go:74-78 | The managed lines are exactly those of the block that are neither comments nor blank. |
| Hosts.Generate | internal/hosts/hosts.go:101-106 | One line for each domain between the two markers. |
| Hosts.LineDiff | internal/hosts/hosts.go:125-145 | The hunk applied to the old lines gives the new file, and it cannot be shortened at either end. |
| HostsProofs.GeneratedIsLines | internal/hosts/hosts.go:101-106 | The text generated is the Begin line, one line of address and domain for each domain in order, and the End line. |
| HostsProofs.WrittenBlockIsFound | internal/hosts/hosts.go:101-115 | The block just written is the one block found in the result. |
| HostsProofs.ApplyTwiceChangesNothing | internal/hosts/hosts.go:52-123 | Applying to the applied file changes nothing, or is refused exactly when that file is over the limit. |
| HostsProofs.RemoveUndoesApply | internal/hosts/hosts.go:72-80 | Removing from the applied file gives what removing from the original gives, plus the newline that closed an open last line; it is refused exactly when the applied file is over the limit. |
| HostsProofs.RemoveTwiceChangesNothing | internal/hosts/hosts.go:72-80 | Removing is idempotent, whatever domains are passed. |
| HostsProofs.AppliedFileCanBeTooLarge | internal/hosts/hosts.go:64-66 | A file of exactly 4 MiB can be applied to, and the result can then neither be applied to again nor removed from. |
| HostsProofs.AppliedMeaning | internal/hosts/hosts.go:81-115 | Read by the file's own rules, the applied file gives each configured domain exactly the one address and every other name exactly what it had outside the old block. |
| HostsProofs.RemovedMeaning | internal/hosts/hosts.go:72-80 | The file after removal gives every name exactly what it had outside the block. |
| HostsApply.Editor.Apply | internal/hosts/hosts.go:146-220 | With others writing between any two operations: unless it reports the replacement the file is as they left it; if it does, the file is the plan's, the backup holds what was planned from, and only a write after the last comparison, in place if it came before the last stat, can have been overwritten. |
| HostsApply.Editor.SaveBefore | internal/hosts/hosts.go:150-172 | Goes on only for the file that was planned for, with the backup made. |
| HostsApply.Editor.Commit | internal/hosts/hosts.go:197-213 | Compares content and identity once more before the rename; says exactly which content a rename overwrote. |
| HostsApply.PlanAndApply | internal/hosts/hosts.go:52-220 | Undisturbed, planning and applying take the file through exactly the planned change. |
| Server.Category | internal/proxy/server.go:305-317 | The first category, in the fixed order, that the error's text contains, without its trailing underscore. |
| Server.CategoryIsNeverTurnedAway | internal/proxy/server.go:305-317 | No failed connection is counted as denied or limited. |
| Server.Server.constructor | internal/proxy/server.go:94-102 | A server starts with everything at zero. |
| Server.Server.Failure | internal/proxy/server.go:318 | Counts one failure of its kind and nothing else. |
| Server.Server.Accept | internal/proxy/server.go:261-282 | A client is admitted, under the next number and with no traffic, if and only if it is allowed, the server is not stopping and the table is below the limit; otherwise one failure is counted by its reason and nothing else changes. |
| Server.Server.Finish | internal/proxy/server.go:282-303 | Settling moves a connection's bytes into the totals, removes it, and leaves the turned-away counts alone. |
| Server.Server.Bytes | internal/proxy/server.go:122-126 | The loop adds up the totals and every open connection. |
| ServerRuns.AccountedStep | internal/proxy/server.go:261-303 | Every step keeps each socket and each connection counted exactly once. |
| ServerRuns.EverythingStep | internal/proxy/server.go:286-290 | The bytes of all connections ever admitted grow exactly by what a connection moves, and settling loses none. |
| ServerRuns.ReportedStep | internal/proxy/server.go:103-127 | Every step, counters moving between loads included, keeps the reports in order. |
| ServerRuns.RunInv | internal/proxy/server.go:74-92 | All of these hold in every reachable state. |
| ServerRuns.Conservation | internal/proxy/server.go:261-303 | Sockets accepted are those being decided, denied, limited or admitted; admitted are active or finished; the table never outgrows the largest limit used. |
| ServerRuns.RefusalsAreCounted | internal/proxy/server.go:264-281 | Over any run connection_limit counts exactly the sockets decided on while stopping or with a full table, client_denied the ones not allowed, and the total all others. |
| ServerRuns.ReportsAreMonotone | internal/proxy/server.go:122-126 | Reported bytes never decrease and never exceed the sum over all connections ever admitted, which the totals and the table always add up to. |
| ServerRuns.ReportIsCurrent | internal/proxy/server.go:103-127 | A report lies between the bytes moved when it began and those moved when it ends, and is exactly those if none moved meanwhile. |
| ServerRuns.DrainedMeansEmpty | internal/proxy/server.go:241-254 | When the wait group drains the table is empty and every admitted connection is settled. |
| ServerRuns.StoppingAdmitsNobody | internal/proxy/server.go:231-233 | After stopping is set nothing is admitted, and the table and wait group only shrink. |
| Relay.ProgressWriter.Write | internal/proxy/server.go:450-457 | The counter grows by exactly the bytes accepted. |
| Relay.CopyStream | internal/proxy/server.go:420-429 | The copy loop with its partial writes, errors and half close is the step-by-step specification. |
| Relay.SoundAfter | internal/proxy/server.go:420-429 | Every event keeps the target a prefix of the source, the counter exact, and a clean end equivalent to all delivered and the write half closed. |
| Relay.CopyEndsAsTold | internal/proxy/server.go:420-429 | A copy ends exactly as its last events say: with the error of the read, write or half close that failed, with a short write, or cleanly after the half close that follows the end of its source. |
| Relay.InterleavingIsTwoCopies | internal/proxy/server.go:430-431 | However the directions interleave, each is the sequential copy of its own events. |
| Relay.TargetsHoldPrefixes | internal/proxy/server.go:420-457 | At every moment each target has a prefix of its source, the counters equal the delivered lengths, and at most one buffer is in flight. |
| Relay.OnlyFailureCloses | internal/proxy/server.go:432-436 | A connection is closed only after a direction failed, so the end of one source never stops the other direction. |
| Relay.CleanReturn | internal/proxy/server.go:437-441 | The result is nil if and only if both directions ended cleanly, and then both sources were delivered whole, both write halves closed, and no connection torn down. |
| Relay.FailedReturn | internal/proxy/server.go:432-441 | If the first direction to report failed, its error is returned and both connections are closed; if only the second did, its error is returned and neither is. |
| Relay.WaiterReturns | internal/proxy/server.go:419-441 | Once both directions have ended the function returns within six steps, whatever their order. |
| Reload.RestartRequiredExactly | internal/config/config.go:372-374 | The comparison is exactly a difference in one of the fixed settings. |
| Reload.Daemon.Reload | internal/proxy/server.go:141-165 | Succeeds exactly for a loadable configuration with the same fixed settings and a loadable CA, and changes nothing otherwise. |
| Reload.Lifetime | internal/proxy/server.go:141-165 | Over any run the fixed settings never change, generations count the snapshots from one without gaps, and each connection holds a snapshot that was published. |
| Rotate.Rotator.constructor | internal/logging/rotate.go:18-35 | Opening appends to the current file with its size. |
| Rotate.Rotator.Rename | internal/logging/rotate.go:43-52 | One rename keeps the log a suffix; a missing source is no error. |
| Rotate.Rotator.CloseFile | internal/logging/rotate.go:40-42 | The file is closed whatever is reported. |
| Rotate.Rotator.Create | internal/logging/rotate.go:53-58 | The new current file is created only where there is none. |
| Rotate.Rotator.Rotate | internal/logging/rotate.go:40-58 | Success moves each file one place down, drops the oldest and starts an empty one; any failure leaves the rotator closed. |
| Rotate.Rotator.Append | internal/logging/rotate.go:60-62 | The bytes accepted, even of a partial write, are the end of the log. |
| Rotate.Rotator.Write | internal/logging/rotate.go:36-63 | At every step the four files, oldest first, are a suffix of everything ever held and accepted, each within the bound; after one failed rotation nothing is written again. |
| Rotate.Session | internal/logging/rotate.go:36-63 | The same for any sequence of writes with any failures, and without failures every byte is accepted. |
| Rotate.RenameKeepsSuffix | internal/logging/rotate.go:43-52 | A rename towards an older place loses at most the oldest file, and only by replacing it. |
| Rotate.RotationMovesEachFile | internal/logging/rotate.go:43-58 | A rotation moves each file to the next place; the oldest stays if no file takes its place. |
| Rotate.RotationDropsOnlyTheOldest | internal/logging/rotate.go:43-58 | A whole rotation drops exactly the oldest file, and only if there is one to take its place. |
| Install.RollbackRestoresExactly | internal/service/service.go:299-340 | A rollback without problems restores the files as found if and only if it undoes a first installation, or the manifest and every file it writes back were there and the reads of lines 301-303 got all of them. |
| Install.MissingExecutableComesBackEmpty | internal/service/service.go:299-340 | A run in which nothing fails and the new daemon stays silent: the executable was missing beside its manifest, the rollback reports no problem, and an empty executable is left. |
| Install.UnreadExecutableIsEmptied | internal/service/service.go:299-340 | A run with both files present in which only the read of the executable fails: the rollback reports no problem and empties it. |
| Install.UnchangedWithoutDefinition | internal/service/service.go:240-298 | A run reported as unchanged and running although the definition is missing. |
| Install.InstalledWithoutExecutable | internal/service/service.go:360-394 | A run reported as installed and running although the executable is missing. |
| Install.InterruptedUninstallIsStuck | internal/service/service.go:448-475 | Removing the executable fails once, after the definition is gone; an undisturbed second try fails and changes nothing. |
| Install.Service.ReadManifest | internal/service/service.go:171-182 | No record, a parsed one, or a refusal. |
| Install.Service.Inspect | internal/service/service.go:183-195 | A target passes when absent or when its hash is the recorded one. |
| Install.Service.Examine | internal/service/service.go:212-255 | Goes on only when the manifest describes the files that are there, or there are none. |
| Install.Service.SaveCopies | internal/service/service.go:299-313 | The copies are what the three reads gave, whether or not they failed, and when they were made. |
| Install.Service.RollBack | internal/service/service.go:315-352 | Without problems every file written is put back from its copy, or removed after a first installation. |
| Install.Service.WriteAll | internal/service/service.go:360-387 | Which files are written at each failure, and all of them on success. |
| Install.Service.Replace | internal/service/service.go:353-395 | Refused, rolled back, degraded or installed, with the files of each. |
| Install.Service.Update | internal/service/service.go:299-395 | The same with the copies taken first; a rollback without problems restores the files found exactly when those reads got all that the run wrote over. |
| Install.Service.Install | internal/service/service.go:196-395 | Nobody but root installs, and a daemon started by hand stops only a first installation. Unowned or modified files are never replaced. A rollback without problems leaves the files as found if and only if there was no installation, or the manifest and each rewritten file were there and read whole; so with both files present and working reads it always does. If only the daemon stays silent, the files left are determined by the files found. Success leaves the planned definition, manifest and executable, and the hashes match the manifest exactly when no file was missing that was not rewritten. Without failures the outcome is determined. |
| Install.Service.CompleteMatches | internal/service/service.go:360-374 | After files were written the hashes match the manifest if and only if the executable was there or had to be rewritten. |
| Install.Service.UnchangedMatches | internal/service/service.go:282-298 | When the planned installation is on record, the hashes match it if and only if both files are there. |
| Install.Service.Uninstall | internal/service/service.go:421-480 | Removes exactly what the manifest describes, the manifest last; files that do not match it are left alone, so an interrupted removal cannot be resumed. |
| Install.Service.InstallThenUninstall | internal/service/service.go:196-480 | On a clean host an undisturbed installation can be removed without a trace. |
| Alpn.Intersection | internal/profiles/profiles.go:95-103 | The appending loop keeps the common protocols in the first list's order. |
| Alpn.CommonMembers | internal/profiles/profiles.go:95-103 | A protocol is in the intersection exactly when it is in both lists. |
| Alpn.CommonOfParts | internal/profiles/profiles.go:95-103 | The common protocols keep their order and number: each is taken or left where it stands. |
| Alpn.RestrictAlpn | internal/profiles/profiles.go:48-61 | Each ALPN extension gets the offered protocols collected so far, in place, and each change is noted. |
| Alpn.KeepInPlace | internal/profiles/profiles.go:65-87 | Filtering into the array being read gives the kept extensions in order. |
| Alpn.Restrict | internal/profiles/profiles.go:46-88 | The whole in-place filter computes the specified ClientHello and its notes, or finds no common protocol. |
| Alpn.KeptExactly | internal/profiles/profiles.go:66-86 | What becomes of each extension by its kind: settings stay if and only if they share a protocol with the list, and then with exactly the shared ones. |
| Alpn.FilteredInOrder | internal/profiles/profiles.go:65-87 | The emitted extensions are exactly the kept ones, in the profile's order. |
| Alpn.EmittedIsWithinBoth | internal/profiles/profiles.go:46-88 | All other extensions stay in order; every emitted protocol was offered by the client and is supported by the profile. |
| Alpn.SettingsWithinWireAlpn | internal/profiles/profiles.go:65-87 | With one ALPN extension the application settings name only protocols of the emitted ALPN list. |
| Alpn.ModificationsAreReported | internal/profiles/profiles.go:56-77 | The list of modifications is empty exactly when the ClientHello is the profile's own. |
| Alpn.CompatibleModeMismatch | internal/proxy/upstream.go:64-79 | With an origin obeying RFC 7301 section 3.2, compatible mode meets alpn_mismatch if and only if the origin selects nothing and the client offered h2 without http/1.1. |
| Alpn.CompatibleHandshake | internal/proxy/upstream.go:64-79 | The whole outcome in compatible mode with such an origin: no common protocol, mismatch, refused application settings, or connected with the origin's choice. |
| Alpn.ExactModeMismatch | internal/proxy/upstream.go:64-79 | In exact mode also when the origin picks a protocol that was not offered. |
| Alpn.ExactHandshake | internal/proxy/upstream.go:64-79 | The same in exact mode. |
| Alpn.LegsAgree | internal/proxy/server.go:360-379 | Once the upstream is accepted the client leg negotiates the same protocol, so the second mismatch check cannot fail. |
| StrictJson.Decoder.Token | internal/config/config.go:171-174 | A token that the open brackets allow, or the end, or a syntax error. |
| StrictJson.Decoder.WalkValue | internal/config/config.go:170-212 | The recursive walk with its loops and key sets is the specification, and ends. |
| StrictJson.WalkOfTokens | internal/config/config.go:170-212 | On the tokens of any JSON value the walk consumes exactly those, and refuses exactly values with a null or a repeated key at some depth. |
| StrictJson.WalkedIsValue | internal/config/config.go:170-212 | Whatever the walk accepts are the tokens of a JSON value. |
| StrictJson.CheckJson | internal/config/config.go:167-220 | Accepts a token stream if and only if it is exactly one JSON value without null and without repeated keys at any depth (RFC 8259 section 4). |

## Left out

- TLS, X.509, PEM, SHA-256, uTLS handshakes, D-Bus and DNS wire parsing: certificates and hashes are opaque, responses and handshake results are inputs.
- Sockets and real time: reads, writes, timeouts and clock ticks are steps of the environment; integers that count (generations, bytes, connections) are unbounded.
- Case folding and white space are ASCII only; hosts text is one character per byte.
- `internal/fsutil`: only its effect on content, that creating is exclusive and replacing is atomic; modes, ownership and extended attributes are checks that may fail.
- `internal/cli`, `internal/control`, `cmd`, scripts: user interface.
- `internal/ca`: a bounded leaf cache and calls into crypto.
- Platform discovery and `ParseScutil`: field filtering over the operating system's output; its result is any discovery.
- IDNA conversion in `config.Domain`: configured domains are taken as lower-case words without `#` or a trailing dot.
- The macOS trust backend, launchd and systemd: commands that work or fail.
- The destination check and the candidate loop of `DialUpstream`, and `Connections`: they would only add easy members.
- The relay's idle timer: the deadlines it sets can only make reads and writes fail, which any of them may do at any time in the model.
- Relay.WaiterReturns: nothing is promised before both directions have ended, since a peer that neither sends nor fails keeps the relay open by design.
- The one retry of `Lookup` after a failed attempt: in the state machine it is a refresh followed by another lookup.
- Singleflight's own code: joining, running once and delivering to all joined are steps of the state machine.
- `reflect.DeepEqual` distinguishes nil from empty slices; equality of sequences does not.
- Rotate.Rotator.CloseFile: a failing close is taken to have closed the file, as the operating system does.
- Backup copies of the service's files and the native service commands: steps of `Install` that may fail, without a state of their own.
- Install.Service.RollBack: says nothing of the files when it reports problems, which is all that the code promises then.
- HostsApply.Editor.Apply: a write between the last comparison and the rename may be overwritten; the code cannot exclude it and the contract says so.
- Outside changes to the trust store while one command runs: other tools act only between runs.
