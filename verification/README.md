# Verified model of the moonlight-embedded gaming server and client

A Dafny model of the stateful parts of the repository, and proofs about it.

* The server (`server/`) hands out virtual machines. `sessions.dfy` says what each
  message does to the whole server as a function from state to state; libvirt and the
  database are parameters that may answer anything. `session_invariants.dfy`,
  `session_runs.dfy` and `session_balance.dfy` prove ownership, availability and an
  exact account of the gaming domains over all runs; `session_limits.dfy` shows where
  these promises end. `server_objects.dfy` holds the
  objects the source updates in place, each method proved against those functions,
  down to the dispatcher's loop. `session_effects.dfy` tells what each message does to
  users and domains by their fields alone. `gaming_names.dfy` is the choice of the next domain
  to boot, `timeout.dfy` the logout of silent users.
* The client's input layer: `axis_scaling.dfy` (sticks and triggers),
  `controller_ids.dfy` (the id bitmask and swap-with-last removal), `mapping.dfy`,
  `mapping_options.dfy`, `mapping_round_trip.dfy` and `mapping_selection.dfy` (the mapping
  text format and the choice of a mapping).
* The client's buffers and event machines: `bitstream.dfy` (circular buffer),
  `frames.dfy` (frames owned by two threads, as steps of single system calls),
  `xml_events.dfy` (callbacks over parser events).
* The client's console interface: `collider.dfy` (hit-test index) and
  `edit_buffer.dfy` (the buffer behind a password field).
* `text.dfy` holds string order, `bisect.insort_right`, and decimal scanning and printing.

`dafny verify dfyconfig.toml` checks everything.

Where a promise of the source or an expected property is false of the code, the code is
kept, a lemma gives a concrete failing input, and the exact condition is proved:

| property | fails on | holds exactly when |
|---|---|---|
| the least free index is chosen | `TenSortsBeforeTwo` | `LeastFreeExactly` |
| domains and failed starts cover the users | `FiveShareFour` | `LedgerExactly` |
| whoever may ask for a domain gets one | `FifthIsNotServed` | `AvailabilityExactly` |
| no exception ends the dispatcher | `ForeignNameEscapes`, `StaleDomainEscapes` | `EscapesExactly` |
| axes are monotone | `OrdinaryAxisIsNotMonotone` | `MonotoneOverallExactly` |
| reversed axes are antitone | `PadAxisIsNotMonotoneReversed` | `MonotoneOverallExactly` |
| controller ids are distinct | `FiveDevicesBreakInv` | `InvariantExactly` |
| printed mappings parse back | `ReversedStickIsLost` | `RoundTripExactly` |
| the app list is read from the document alone | `EmptyIdShowsJunk` | `JunkFreeExactly` |
| looking an app up never crashes | `UntitledAppCrashes` | `LookupSafeExactly` |
| a press hits what is drawn there | `CornerOutlineWraps` | `CoversDrawnExactly` |
| removing a collider removes its own entry | `OneColliderEachNeeded` (*) | `RemovalExactly` |
| inserting and deleting a line undo each other | `BottomRowIsLost` | `LineEditsUndoExactly` |
| a typed password comes back | `FullRowIsCut` | `TypedComesBackExactly` |
| it does on every visit to the field | `SecondVisitReadsAsterisks` | `PasswordComesBackExactly` |

(*) An input that the class accepts and the program never makes: each entity creates one
collider (`client/entities.py:193` and `256`).

The branch at `server/main.py:500-504` announces a boot of a work domain that is down; the
code compares the method `get_code` itself and never boots it, and the model follows
the code. A logout is requested after nine unanswered rounds that follow an answered
one, since the answered round itself counts as the first.

## Model

| member | source | states |
|---|---|---|
| Text.InsertKeepsSorted | server/hypervisor.py:161-168 | the position its binary search ends at keeps a sorted list sorted, for every name |
| Text.InsertPosIsBetween | server/hypervisor.py:161-168 | on a sorted list the binary search of `bisect.insort_right` ends behind every name not above the new one and in front of all that are |
| Text.PyIntOfPrinted | server/hypervisor.py:352 | `int()`, with the blanks, signs and single underscores it accepts, reads every printed integer as itself |
| Text.LessAtDifference | server/hypervisor.py:161-168 | names are compared at the first character in which they differ, and a prefix comes first |
| Text.PyIntStrips | server/hypervisor.py:352 | `int()` does not mind blanks around the number |
| Text.UnderscoreIsSkipped | server/hypervisor.py:352 | nor a sign and single underscores between digits |
| Text.PyIntRefuses | server/hypervisor.py:352 | it refuses other underscores, a blank behind the sign, and what is no number |
| Text.ScanForms | client/moonlight-embedded-mod/src/input/mapping.c:55-88 | `%d` of scanf reads any digits behind blanks and a sign, leading zeros included, and leaves what follows |
| Text.ScanNothing | client/moonlight-embedded-mod/src/input/mapping.c:55-88 | without a digit there it reads nothing |
| Text.ScanPrinted | client/moonlight-embedded-mod/src/input/mapping.c:159-161 | what `%d` of printf writes for any integer, `%d` of scanf reads back, leaving the text behind it |
| GamingNames.FindGamingDomainDown | server/hypervisor.py:343-361 | the loop agrees with the recursive scan for every list of names, every user count and every pool size, with the names that `int()` accepts and the error for the others |
| GamingNames.BootsLeastFree | server/hypervisor.py:343-361 | with at most ten gaming domains it names the smallest index not listed, and that index is below the pool size |
| GamingNames.ScanFindsLeastFree | server/hypervisor.py:350-360 | the same from any point of the scan on, with the names before it already matched |
| GamingNames.BadNameExactly | server/hypervisor.py:350-353 | the scan fails on a name exactly when users outnumber domains and the names of the list read as 0, 1, ... up to one that `int()` refuses |
| GamingNames.PicksListedExactly | server/hypervisor.py:343-361 | the scan chooses a listed domain exactly when users outnumber domains and the list goes g0, g1, ... up to a name of another number while the name skipped stands elsewhere in it; the numbers are those `int()` reads |
| GamingNames.SignsAreNumbers | server/hypervisor.py:350-353 | a domain called g-1 counts as a number other than 0, so that g0 is chosen |
| GamingNames.LeastFreeExactly | server/hypervisor.py:343-361 | the scan finds the least free index on all sorted, distinct, indexed lists if and only if the pool size is at most ten |
| GamingNames.TenSortsBeforeTwo | server/hypervisor.py:343-361 | the concrete list g0, g1, g10, g2 on which it names a domain that is listed already |
| SessionInvariants.InitialInv | server/hypervisor.py:130-158 | the state after the search for running domains satisfies the invariant |
| SessionInvariants.ListedKeeps | server/hypervisor.py:161-168 | listing a new domain keeps the list sorted and free of duplicates and leaves every holding as it was |
| SessionInvariants.RemovedKeeps | server/hypervisor.py:437-444 | unlisting a domain that is not in use keeps both, so no user is left with an unlisted domain |
| SessionInvariants.LeasedKeeps | server/users.py:164-177 | a free domain given to a user without one stays exclusively that user's, recorded on both sides |
| SessionInvariants.ReleasedKeeps | server/users.py:179-192 | giving a domain back frees exactly the domain the user held and nobody else's |
| SessionInvariants.BootedKeeps | server/hypervisor.py:266-270 | the end of a boot disturbs no holding |
| SessionInvariants.TakeInv | server/main.py:420-468 | taking a domain of either kind keeps the whole invariant, the holding of the other kind included |
| SessionInvariants.LeaveInv | server/main.py:469-484 | leaving keeps the invariant and ends that user's holding of that kind only |
| SessionInvariants.PrepareLogoutInv | server/users.py:194-202 | after `prepare_logout` the user holds nothing and the invariant still holds |
| SessionInvariants.LogUserInInv | server/main.py:111-201 | every login, repeated or new, keeps the invariant whatever database and driver answer |
| SessionInvariants.LogUserOutInv | server/main.py:203-240 | so does every logout, with the shutdown of the user's work domain and of one gaming domain |
| SessionInvariants.RequestWorkInv | server/main.py:485-508 | so does every request for a work domain |
| SessionRuns.StepInv | server/main.py:395-508 | every message keeps exclusive ownership, sorted users, distinct ids and the user count |
| SessionRuns.RunInv | server/main.py:395-508 | they hold in every state of every run: logged-in users and domains in use correspond one to one, each `user` field names its holder, held domains are not booting, `user_count` is the number of sessions |
| SessionRuns.StepKeepsHolder | server/main.py:203-240 | one message of anybody leaves a player's domain alone unless it is the player's own leave, logout or login from the same address |
| SessionRuns.RunKeepsHolder | server/main.py:203-240 | over any run without such messages the player keeps the same domain, listed and marked as in use |
| SessionRuns.StartGamingLedger | server/main.py:187-197 | within the exact limit of ten indexed domains a login boots an unlisted index exactly when users outnumber domains, grows the list by one unless the driver refuses, and never escapes with an exception |
| SessionRuns.StepLedger | server/main.py:225-238 | within that limit one message keeps: listed gaming domains plus failed starts cover the users as far as the pool goes |
| SessionRuns.RunLedger | server/main.py:170-238 | within that limit the ledger holds over whole runs from every state that satisfies the invariant and the ledger, only indices of the pool are listed, each once, and there are never more than the pool has |
| SessionRuns.StepLength | server/main.py:187-197 | one message never makes the list longer than the larger of its length and the pool size, whatever is listed |
| SessionRuns.RunLength | server/main.py:187-197 | nor does any run, whatever is listed, for every state and pool size |
| SessionLimits.LedgerExactly | server/main.py:170-238 | the ledger holds over all runs from a server started with indexed domains if and only if the pool has at most ten |
| SessionLimits.FiveShareFour | server/main.py:187-197 | the run that breaks it from eleven on: five logins onto g0, g1, g10, g2 leave five users with four domains and no start failed |
| SessionRuns.NoneDownUnreachable | server/hypervisor.py:357-361 | a login never meets the error that no gaming domain is down, whatever is listed |
| SessionRuns.EscapesExactly | server/main.py:485-508 | in every reachable state an exception leaves the dispatcher if and only if a work domain is requested under an unknown id, or a new login finds its work domain listed, down and refused, or that login, with users outnumbering domains, finds names that read as 0, 1, ... and then one that `int()` refuses, or another number while the name skipped is listed elsewhere and down |
| SessionRuns.LoginEscapes | server/hypervisor.py:398-417 | the part of it for logins, with the stale branches of `startup_name` |
| SessionRuns.EscapesWithinTen | server/main.py:111-201 | with at most ten indexed domains the gaming part of a login never lets an exception escape |
| SessionLimits.ForeignNameEscapes | server/hypervisor.py:352 | a run that ends the dispatcher: a domain called gx runs when the server starts, and two users log in |
| SessionLimits.StaleDomainEscapes | server/hypervisor.py:398-405 | another, on an indexed list: of eleven domains g0, g1, g10, g2 run, and the fifth login picks g2, which went down |
| SessionRuns.Pigeonhole | server/hypervisor.py:465-471 | a duplicate-free list whose members all lie in another is no longer than it |
| SessionRuns.SomeDomainIsFree | server/hypervisor.py:465-471 | with as many domains as users, a user who is not playing leaves some domain unused |
| SessionRuns.RequestIsServed | server/main.py:420-468 | availability within that limit, from every state that satisfies the invariant and the ledger: after any run without a failed start, with at most as many users as domains and none booting, a user who is not playing and asks gets a listed domain |
| SessionRuns.LedgerServes | server/main.py:420-468 | for every pool size: whoever may ask is served in any state whose ledger shows no failed start |
| SessionLimits.AvailabilityExactly | server/main.py:420-468 | whoever may ask is served after all runs without failed starts from a server started with indexed domains, if and only if the pool has at most ten |
| SessionLimits.FifthIsNotServed | server/main.py:420-468 | the run that shows it from eleven on: g0, g1, g10, g2 run, five users log in, four play, and the fifth may ask and gets nothing |
| SessionBalance.LogoutBalance | server/main.py:225-238 | in every state of the invariant, for every pool size, a logout changes the surplus of gaming domains over users only when every remaining domain is in use or booting, and then by one |
| SessionBalance.AdmitBalance | server/main.py:187-197 | what a new login does to the surplus, whatever is listed |
| SessionBalance.StepBalance | server/main.py:170-238 | the exact change of the surplus by any one message that no exception ends, whatever is listed |
| SessionBalance.RunBalance | server/main.py:170-238 | conservation over every run that no exception ends, from every state of the invariant and for every pool size: the surplus is the initial one, less failed, idle and spared starts, plus the logouts that found nothing to stop |
| SessionEffects.LoginAddsUser | server/main.py:157-168 | a new login adds one session, with the given id, name and address and in no domain, behind the names not above its own, and raises the count by one |
| SessionEffects.LoginListsWork | server/hypervisor.py:364-417 | a new login lists the user's work domain exactly when it was not listed and the driver runs or starts it, and changes no other work domain |
| SessionEffects.LoginBootsGaming | server/hypervisor.py:343-417 | with no more gaming domains than users before it and users below the pool size, a login lists as booting just the domain of the first number missing from the count, when the driver runs or starts it and it is not listed; else the list stays as it was |
| SessionEffects.LoginSparesGaming | server/main.py:187-197 | otherwise a login starts no gaming domain |
| SessionEffects.LoginBootsLeastFree | server/main.py:187-197 | with at most ten indexed domains the list gains exactly the least free index whenever the driver runs or starts it |
| SessionEffects.LoginBackFrees | server/main.py:137-148 | a login from the same address leaves the session logged in without domains, frees the two it held, and changes nothing else |
| SessionEffects.RefusedLogin | server/main.py:127-155 | a login that the database refuses, or of a user logged in from elsewhere, changes nothing |
| SessionEffects.LogoutRemovesUser | server/main.py:203-240 | a logout takes exactly that session away and lowers the count by one, for every pool size |
| SessionEffects.LogoutStopsWork | server/main.py:219-224 | the work domain of a user who logs out is unlisted, unless another session of that name holds it, and no other is |
| SessionEffects.LogoutStopsGaming | server/main.py:226-234 | the domain the user played on is freed; then the first ready gaming domain is unlisted, exactly when there is one and the other users are fewer than the pool has |
| SessionEffects.AskingTakes | server/main.py:420-448 | message 3 gives a user who is not playing the first domain that is neither in use nor booting, and changes nothing else |
| SessionEffects.AskingInVain | server/main.py:420-468 | it changes nothing for a user who plays, or while no domain is ready |
| SessionEffects.LeavingFrees | server/main.py:469-484 | message 4 ends the user's playing and frees the domain it held; the other sessions and domains stay as they were |
| SessionEffects.LeftDomainStays | server/users.py:179-192 | the domain a player leaves was recorded as its own, stays listed, and is then free |
| SessionEffects.WorkTaken | server/main.py:485-496 | message 5 gives a user who is not working its own work domain, if that is listed and not in use |
| SessionEffects.WorkInVain | server/main.py:485-508 | it changes nothing for a user who works, or whose domain is in use or not listed |
| SessionEffects.UnknownId | server/main.py:280-286 | under an unknown id messages 2, 3 and 4 change nothing, and message 5 ends the dispatcher |
| SessionEffects.BootEnds | server/hypervisor.py:265-270 | the end of a boot clears the booting flags of that name and changes nothing else |
| SessionEffects.FailedStartExactly | server/hypervisor.py:377-395 | a failed start of the ledger is exactly a new login that is to start a domain which is down and which the driver does not start |
| SessionEffects.IdleStartExactly | server/hypervisor.py:373-374 | an idle start is exactly one whose chosen domain is listed and runs |
| SessionEffects.SparedStartExactly | server/hypervisor.py:346-347 | a spared start is exactly a new login that finds as many domains as users, itself included |
| SessionEffects.KeptDomainExactly | server/main.py:226-234 | a kept domain is exactly a logout of a user who is not playing, at no more users than the pool has, while every domain is in use or booting |
| ServerObjects.User.UseGamingDomain | server/users.py:164-177 | state, reference and status fields after taking a gaming domain, or the error and nothing changed |
| ServerObjects.User.LeftGamingDomain | server/users.py:179-192 | state, reference and status fields after leaving one, or the error and nothing changed |
| ServerObjects.User.UseWorkDomain | server/users.py:133-147 | the same for taking a work domain |
| ServerObjects.User.LeftWorkDomain | server/users.py:149-162 | the same for leaving one |
| ServerObjects.Hypervisor.FindRunning | server/hypervisor.py:130-158 | every running domain is listed in the list of its kind, unused, sorted, and nothing else is |
| ServerObjects.Hypervisor.AddToWorkingStatuses | server/hypervisor.py:161-168 | the status object enters the list of its kind at the insertion position, the other list is unchanged; the lists stay free of duplicates unless its name was listed |
| ServerObjects.Hypervisor.FindStatus | server/hypervisor.py:473-487 | the first position of the name, or the error |
| ServerObjects.Hypervisor.FindEmptyGamingStatus | server/hypervisor.py:465-471 | the first domain neither in use nor booting, or the error |
| ServerObjects.Hypervisor.StartupName | server/hypervisor.py:364-417 | the list and the outcome for every combination of listed, running and accepted by the driver |
| ServerObjects.Hypervisor.ShutdownName | server/hypervisor.py:420-463 | a listed domain not in use is unlisted; objects in use stay listed |
| ServerObjects.Hypervisor.FinishGamingStartup | server/hypervisor.py:265-270 | exactly the booting flags of that name are cleared |
| ServerObjects.Dispatcher.constructor | server/main.py:58-59 | the server starts in an initial state of the step system |
| ServerObjects.Dispatcher.GetUserObj | server/main.py:280-286 | the position of the user with the id, or the end |
| ServerObjects.Dispatcher.RecogniseUser | server/main.py:133-155 | the walk at a login: back from the same address, logged in elsewhere, or new |
| ServerObjects.Dispatcher.PrepareUserLogout | server/users.py:194-202 | the objects after `prepare_logout`, references and shared status objects included, are those of the step system |
| ServerObjects.Dispatcher.LogUserIn | server/main.py:111-201 | the objects after a login are those of the step system |
| ServerObjects.Dispatcher.LogUserOut | server/main.py:203-240 | the objects after a logout are those of the step system |
| ServerObjects.Dispatcher.UseGamingDomain | server/main.py:420-468 | the objects after message 3 are those of the step system |
| ServerObjects.Dispatcher.LeaveGamingDomain | server/main.py:469-484 | the objects after message 4 are those of the step system |
| ServerObjects.Dispatcher.UseWorkDomain | server/main.py:485-508 | the objects after message 5 are those of the step system |
| ServerObjects.Dispatcher.FinishBoot | server/hypervisor.py:265-270 | the objects after a boot are those of the step system |
| ServerObjects.Dispatcher.Handle | server/main.py:395-508 | any one message refines the step system, and the objects afterwards are those from before or new ones |
| ServerObjects.Dispatcher.Dispatch | server/main.py:395-508 | the loop over any messages refines a run of the step system, so all results about runs hold of the objects |
| Timeout.CounterCountsSilence | server/users.py:68-80 | after any rounds of answers the counter is the number of rounds from the last answered one on, or since login |
| Timeout.RequestedExactlyWhenSilent | server/users.py:76-86 | the counter reaches the limit if and only if ten rounds have passed and the last nine went unanswered |
| Timeout.TimeoutCheck.Round | server/users.py:57-91 | one round updates every user's counter by its own answers, sends logouts for exactly the overdue users in list order, and clears the answers; the word close stops it |
| Timeout.OverdueAreTimedOut | server/users.py:76-86 | counters that count the turns make exactly the silent users overdue, in list order |
| Timeout.TimeoutCheck.Run | server/users.py:57-91 | the loop over any turns, with users joining and leaving in between: every counter counts that user's own answers since login, each turn sends logouts for exactly the users silent in it, and the loop ends at the first turn that finds the word close |
| Timeout.TimeoutCheck.CheckUser | server/users.py:68-76 | the scan of the answers for one user |
| AxisScaling.GetMap | client/moonlight-embedded-mod/src/input/evdev.c:105-111 | the first slot that holds the code, or -1 when none does |
| AxisScaling.InputAbsParms.Init | client/moonlight-embedded-mod/src/input/evdev.c:113-128 | the whole struct after the initialisation, also where it is refused or the axis is not mapped |
| AxisScaling.NumeratorRange | client/moonlight-embedded-mod/src/input/evdev.c:142-158 | outside the dead zone the numerators lie between zero and the span, and plain and reversed mirror each other |
| AxisScaling.ScaledFitsShort | client/moonlight-embedded-mod/src/input/evdev.c:142-158 | the scaled value fits a short for every input on which no evaluated expression overflows, so the conversion never changes it |
| AxisScaling.EndsMapToEnds | client/moonlight-embedded-mod/src/input/evdev.c:142-158 | minimum and maximum map to -32768 and 32767, and the other way round when reversed |
| AxisScaling.ConvertMonotone | client/moonlight-embedded-mod/src/input/evdev.c:142-158 | the map is monotone outside the dead zone, clamped values included, and antitone when reversed |
| AxisScaling.DeadZoneEdges | client/moonlight-embedded-mod/src/input/evdev.c:142-158 | both edges of a dead zone map to one value, within 65535/(2*span)+2 of zero |
| AxisScaling.EdgeAtZero | client/moonlight-embedded-mod/src/input/evdev.c:142-158 | the edge of a dead zone maps to zero exactly on axes whose limits have an odd sum, negative for the plain and positive for the reversed conversion, and a span between 21846 and 65535 |
| AxisScaling.MonotoneOverallExactly | client/moonlight-embedded-mod/src/input/evdev.c:142-158 | on all inputs the plain conversion is monotone, and the reversed one antitone, if and only if there is no dead zone or the limits are such |
| AxisScaling.NotBothDirections | client/moonlight-embedded-mod/src/input/evdev.c:364-368 | no axis with a dead zone, whose conversion is reversed or not by its kind and a setting, keeps the order in both directions |
| AxisScaling.OrdinaryAxisIsNotMonotone | client/moonlight-embedded-mod/src/input/evdev.c:142-158 | an ordinary axis of 0..255 with a flat of 15 is not monotone: 112 and 142 map below zero, 127 to zero |
| AxisScaling.PadAxisIsNotMonotoneReversed | client/moonlight-embedded-mod/src/input/evdev.c:364-368 | an ordinary pad axis of -32768..32767 with a flat of 128 keeps the order plain, but not reversed, which is how a y axis is converted: -128 maps to -2 and 0 to 0 |
| AxisScaling.StickValue | client/moonlight-embedded-mod/src/input/evdev.c:142-158 | between the limits the value lies within one unit of the exact proportion of the way, less the dead zone, to the span, plain and reversed |
| AxisScaling.StickValueBeyond | client/moonlight-embedded-mod/src/input/evdev.c:142-158 | beyond the limits it is the end of the short range, and in the dead zone 0 |
| AxisScaling.ToShortWraps | client/moonlight-embedded-mod/src/input/mapping.c:56-108 | a code that is no short is stored modulo 65536 |
| AxisScaling.ReversalComplements | client/moonlight-embedded-mod/src/input/evdev.c:142-158 | plain plus reversed is -1 when the value is clamped or the division exact, and -2 otherwise |
| AxisScaling.ByteMonotone | client/moonlight-embedded-mod/src/input/evdev.c:160-172 | from the minimum on the trigger value is monotone and within 0..255 |
| AxisScaling.TriggerValue | client/moonlight-embedded-mod/src/input/evdev.c:160-172 | from the end of the dead zone to the maximum the trigger value lies within one unit of the exact proportion of 255 |
| AxisScaling.TriggerEnds | client/moonlight-embedded-mod/src/input/evdev.c:160-172 | it is 0 in the dead zone and at its edge, and 255 from the maximum on |
| AxisScaling.TriggerValueBelow | client/moonlight-embedded-mod/src/input/evdev.c:160-172 | below the minimum and the dead zone it is negative in the same proportion |
| AxisScaling.ByteFitsExactly | client/moonlight-embedded-mod/src/input/evdev.c:160-172 | the exact condition under which a trigger value, below the minimum too, lies within 0..255 |
| ControllerIds.RemovalKeepsOthers | client/moonlight-embedded-mod/src/input/evdev.c:130-140 | removal with the last device moved into the gap takes away exactly the removed device |
| ControllerIds.StepInv | client/moonlight-embedded-mod/src/input/evdev.c:188-203 | every event keeps held ids distinct and the mask the set of them, unless id 0 is shared |
| ControllerIds.SyncGivesLowest | client/moonlight-embedded-mod/src/input/evdev.c:188-203 | a gamepad that needs an id gets the lowest that no device holds, and no other device changes |
| ControllerIds.SyncSharesZero | client/moonlight-embedded-mod/src/input/evdev.c:198-200 | while all four are held it gets id 0, and the mask stays |
| ControllerIds.SyncKeepsId | client/moonlight-embedded-mod/src/input/evdev.c:188-203 | a device with an id keeps it, and one that was not used gets none |
| ControllerIds.RemovalFreesId | client/moonlight-embedded-mod/src/input/evdev.c:130-140 | after a removal exactly the ids of the other devices are held |
| ControllerIds.FallbackBreaksInv | client/moonlight-embedded-mod/src/input/evdev.c:198-200 | sharing id 0 always breaks the invariant |
| ControllerIds.InvariantExactly | client/moonlight-embedded-mod/src/input/evdev.c:188-203 | the invariant holds throughout a run if and only if the fallback is never taken in it |
| ControllerIds.FourDevicesAreServed | client/moonlight-embedded-mod/src/input/evdev.c:188-203 | while at most four devices hold or need an id at once, the fallback is never taken and the invariant never fails |
| ControllerIds.FiveDevicesBreakInv | client/moonlight-embedded-mod/src/input/evdev.c:198-200 | a run from no devices in which five gamepads are plugged in and used, and the invariant fails |
| ControllerIds.InputDevices.EvdevCreate | client/moonlight-embedded-mod/src/input/evdev.c:516-558 | a new device joins at the end, without an id |
| ControllerIds.InputDevices.HandleSync | client/moonlight-embedded-mod/src/input/evdev.c:188-203 | the loop gives the lowest free id, or id 0, and marks it |
| ControllerIds.InputDevices.EvdevRemove | client/moonlight-embedded-mod/src/input/evdev.c:130-140 | the array and the mask after a removal |
| Mappings.NextToken | client/moonlight-embedded-mod/src/input/mapping.c:28-29 | `strtok_r`: a token is never empty, holds no comma, and the rest gets shorter |
| Mappings.MappingStruct.ApplyOption | client/moonlight-embedded-mod/src/input/mapping.c:45-128 | one turn of the option loop on the struct, for every option text |
| Mappings.MappingParse | client/moonlight-embedded-mod/src/input/mapping.c:27-134 | the struct filled in place is the parse of the text, or null exactly when guid or name is missing |
| Mappings.MappingPrint | client/moonlight-embedded-mod/src/input/mapping.c:163-193 | the calls of the printer, one after the other, put out the printed form |
| MappingRoundTrip.EntryApplied | client/moonlight-embedded-mod/src/input/mapping.c:45-122 | parsing one printed entry stores exactly its code, and an unreversed axis |
| MappingRoundTrip.EntriesApplied | client/moonlight-embedded-mod/src/input/mapping.c:41-129 | parsing all printed entries stores them one by one, for any list of entries |
| MappingRoundTrip.ParsedFields | client/moonlight-embedded-mod/src/input/mapping.c:27-134 | guid, name and every field of the reparsed mapping: present codes, and -1 for the others |
| MappingRoundTrip.ParsedHeaderCarries | client/moonlight-embedded-mod/src/input/mapping.c:28-37 | no parse of any text yields an empty guid or name or one with a comma |
| MappingRoundTrip.RoundTripExactly | client/moonlight-embedded-mod/src/input/mapping.c:159-193 | for every struct and whatever malloc returned, parsing the printed text restores the mapping if and only if guid and name are non-empty and comma-free, no code is below -1, an absent hat has direction -1 and no present stick axis is reversed |
| MappingRoundTrip.ReversedStickIsLost | client/moonlight-embedded-mod/src/input/evdev.c:637-690 | a mapping with a reversed stick, as `evdev_map` fills it in and prints it, is not restored |
| MappingOptions.TokenExactly | client/moonlight-embedded-mod/src/input/mapping.c:28-29 | `strtok_r` gives what stands between the commas in front of it and the next comma, and goes on behind that |
| MappingOptions.OnlyCommas | client/moonlight-embedded-mod/src/input/mapping.c:28-29 | a text of nothing but commas has no token |
| MappingOptions.OptionSplits | client/moonlight-embedded-mod/src/input/mapping.c:45 | an option is a name up to the colon and, behind blanks, a value up to the next blank |
| MappingOptions.OptionIgnored | client/moonlight-embedded-mod/src/input/mapping.c:45 | an option without a name, a colon or a value changes nothing |
| MappingOptions.ForeignValue | client/moonlight-embedded-mod/src/input/mapping.c:50-122 | nor does a value that starts with none of the letters a, b and h |
| MappingOptions.HeaderRead | client/moonlight-embedded-mod/src/input/mapping.c:27-37 | guid and name of any line are kept up to 32 and 256 characters |
| MappingOptions.ButtonRead | client/moonlight-embedded-mod/src/input/mapping.c:50-87 | wherever a button's entry stands in a line, and whatever stands in front, its code is stored unless a later entry has the same name; the names are those of the format |
| MappingOptions.StickRead | client/moonlight-embedded-mod/src/input/mapping.c:88-101 | the same for a stick, which is reversed exactly when a tilde follows the number |
| MappingOptions.TriggerRead | client/moonlight-embedded-mod/src/input/mapping.c:102-105 | the same for a trigger's axis |
| MappingOptions.HatRead | client/moonlight-embedded-mod/src/input/mapping.c:106-119 | the same for a hat and its direction |
| MappingOptions.PlatformRead | client/moonlight-embedded-mod/src/input/mapping.c:48-49 | the same for the platform, which is kept up to 32 characters |
| MappingOptions.AbsentButton | client/moonlight-embedded-mod/src/input/mapping.c:39 | a button without an entry has the code -1 |
| MappingOptions.AbsentAxis | client/moonlight-embedded-mod/src/input/mapping.c:39 | so has an axis |
| MappingOptions.AbsentHat | client/moonlight-embedded-mod/src/input/mapping.c:39 | and a hat, with its direction |
| MappingOptions.PrintedNames | client/moonlight-embedded-mod/src/input/mapping.c:163-193 | the printer's names are those of the format |
| MappingSelection.PresentAppend | client/moonlight-embedded-mod/src/input/mapping.c:147-153 | a line that parses adds its mapping to those in front of it, and any other line nothing |
| MappingSelection.MappingLoad | client/moonlight-embedded-mod/src/input/mapping.c:136-157 | the list is the parsable lines of the file in reverse |
| MappingSelection.MappingList | client/moonlight-embedded-mod/src/main.c:300-308 | the mapping of the environment stands in front of them; the program crashes exactly when its text does not parse |
| MappingSelection.SelectMapping | client/moonlight-embedded-mod/src/input/evdev.c:486-511 | the walk over the list chooses by the precedence rule, for every list and device |
| MappingSelection.OwnMappingWins | client/moonlight-embedded-mod/src/input/evdev.c:488-493 | on a guid match the environment wins, else the last such line of the file |
| MappingSelection.FileFallbackWins | client/moonlight-embedded-mod/src/input/evdev.c:494-511 | without a match a receiver gets the first xwc line and a gamepad the first default line; keyboards and mice get none |
| MappingSelection.OwnIsChosen | client/moonlight-embedded-mod/src/input/evdev.c:488-493 | the last mapping of the list in file order that has the device's guid comes before all others |
| MappingSelection.ReceiverGetsXwc | client/moonlight-embedded-mod/src/input/evdev.c:502-503 | a receiver without one gets the first mapping named xwc |
| MappingSelection.OthersGetDefault | client/moonlight-embedded-mod/src/input/evdev.c:508-511 | without either, the first mapping named default is for every device but keyboards and mice, receivers included |
| MappingSelection.NothingFits | client/moonlight-embedded-mod/src/input/evdev.c:486-511 | without any of these there is none |
| MappingSelection.GuidsCompared | client/moonlight-embedded-mod/src/input/evdev.c:489 | guids are the same when their first 32 characters are, shorter ones when they are equal |
| Bitstream.CellsAfter | client/moonlight-embedded-mod/src/video/imx_vpu.c:177-189 | after a write of any length every cell holds the last byte that landed there, or its old byte |
| Bitstream.WrittenCells | client/moonlight-embedded-mod/src/video/imx_vpu.c:177-189 | for a write that fits, byte k lands at (start + k) mod size and every other byte is unchanged |
| Bitstream.WrittenConcat | client/moonlight-embedded-mod/src/video/imx_vpu.c:177-189 | writing two pieces after each other is writing their concatenation |
| Bitstream.WrittenAround | client/moonlight-embedded-mod/src/video/imx_vpu.c:178-182 | the two copies of an entry that passes the end are the circular write |
| Bitstream.WriteEntry | client/moonlight-embedded-mod/src/video/imx_vpu.c:178-186 | one turn of the loop, with 32-bit address arithmetic, is the circular write of the entry, also when it ends exactly at the end |
| Bitstream.WriteUnit | client/moonlight-embedded-mod/src/video/imx_vpu.c:169-189 | the loop over all entries is the circular write of their concatenation |
| Frames.DisplayConserves | client/moonlight-embedded-mod/src/video/imx.c:62-117 | no system call of the display thread loses or duplicates a frame |
| Frames.DecodeConserves | client/moonlight-embedded-mod/src/video/imx.c:252-261 | nor does one of the decoder thread |
| Frames.DisplayInv | client/moonlight-embedded-mod/src/video/imx.c:62-117 | each step of the display thread keeps places, order and the count of queued frames |
| Frames.DecodeInv | client/moonlight-embedded-mod/src/video/imx.c:252-261 | so does each step of the decoder thread |
| Frames.RunInv | client/moonlight-embedded-mod/src/video/imx.c:62-117 | in every interleaving of the two threads: each frame is in exactly one place, pictures are queued in strictly increasing decode order, and the count is the queue's length |
| Frames.QuiescentPlaces | client/moonlight-embedded-mod/src/video/imx.c:102-114 | between calls every frame is free, in one of the pipes or on display, and at most two are on display |
| Frames.HandledIsRun | client/moonlight-embedded-mod/src/video/imx.c:62-117 | an undisturbed handler call is one of those runs |
| Frames.SubmittedIsRun | client/moonlight-embedded-mod/src/video/imx.c:252-261 | so is an undisturbed submit call |
| Frames.ImxRenderer.FrameHandle | client/moonlight-embedded-mod/src/video/imx.c:62-117 | a handler call shows the newest frame, hands all skipped ones back in order, and keeps at most two queued |
| Frames.ImxRenderer.SubmitDecodeUnit | client/moonlight-embedded-mod/src/video/imx.c:252-261 | a submit call frees exactly the frames handed back and sends the decoded one, if any |
| XmlEvents.XmlQuery.StartElement | client/moonlight-embedded-mod/libgamestream/xml.c:37-41 | the struct after the callback |
| XmlEvents.XmlQuery.EndElement | client/moonlight-embedded-mod/libgamestream/xml.c:43-47 | the struct after the callback |
| XmlEvents.XmlQuery.WriteChars | client/moonlight-embedded-mod/libgamestream/xml.c:129-140 | text is appended while a sought element is open, and the size follows |
| XmlEvents.XmlQuery.StartApplistElement | client/moonlight-embedded-mod/libgamestream/xml.c:49-65 | the struct and the list after the callback |
| XmlEvents.XmlQuery.EndApplistElement | client/moonlight-embedded-mod/libgamestream/xml.c:67-82 | the struct and the list after the callback |
| XmlEvents.XmlSearch | client/moonlight-embedded-mod/libgamestream/xml.c:142-167 | the search over any events is the fold of its callbacks |
| XmlEvents.XmlApplist | client/moonlight-embedded-mod/libgamestream/xml.c:169-190 | the list from any events is the fold of its callbacks |
| XmlEvents.SearchNode | client/moonlight-embedded-mod/libgamestream/xml.c:37-47 | on any subtree, from any depth, the search adds the text under sought elements and restores the depth |
| XmlEvents.SearchFindsText | client/moonlight-embedded-mod/libgamestream/xml.c:142-167 | on every document, however sought elements nest and text is cut, the result is the text under them in order, and the depth returns to zero |
| XmlEvents.ApplistOfDocument | client/moonlight-embedded-mod/libgamestream/xml.c:169-190 | the list is the document's apps in reverse order with their ids and titles; an element without text reads as uninitialised memory |
| XmlEvents.JunkFreeExactly | client/moonlight-embedded-mod/libgamestream/xml.c:60-81 | the list is independent of uninitialised memory if and only if the last ID and the last title of each app hold text |
| XmlEvents.EmptyIdShowsJunk | client/moonlight-embedded-mod/libgamestream/xml.c:74-76 | a document with one empty ID element, on which it is not |
| XmlEvents.GetAppId | client/moonlight-embedded-mod/src/main.c:70-84 | the walk goes to the first app that is untitled or bears the title: it crashes when that one is untitled, and else returns its id, or -1 when there is none |
| XmlEvents.LookupFindsLastApp | client/moonlight-embedded-mod/src/main.c:70-84 | of the apps in a document that are untitled or bear the title the last one decides: the lookup crashes when it is untitled and returns its id otherwise |
| XmlEvents.LookupSafeExactly | client/moonlight-embedded-mod/src/main.c:70-84 | no lookup in a document crashes, whatever title is sought, if and only if every app has a title element |
| XmlEvents.UntitledAppCrashes | client/moonlight-embedded-mod/src/main.c:70-84 | a document in which an app without a title stands behind the one that is looked up |
| Collider.CoversDrawnExactly | client/systems_components.py:360-371 | the cells an area enters are its own points on the screen if and only if it starts on the screen or is empty, as negative start positions wrap around |
| Collider.TopmostIsDrawn | client/systems_components.py:383-391 | while all areas start on the screen, the topmost one in a cell is the topmost that is drawn there |
| Collider.CornerOutlineWraps | client/systems_components.py:641-650 | a window in the corner whose outline goes beyond the screen's edge, and a press at the opposite corner that hits it |
| Collider.CoverAppend | client/systems_components.py:360-371 | registering an area adds its entity on top of exactly the points it covers |
| Collider.CoverRemoved | client/systems_components.py:373-381 | with one collider for each entity, removing the first occurrence from each covered cell is removing the area |
| Collider.RemovalExactly | client/systems_components.py:373-381 | whatever is registered, removing an area from a cell by its entity removes that area if and only if no other entity lies between an older area of the same entity and it |
| Collider.OneColliderEachNeeded | client/systems_components.py:373-381 | a concrete case with two colliders of one entity, which the class accepts, in which it does not |
| Collider.LastIsTopmost | client/systems_components.py:383-391 | the last entry of a cell is what a scan of all areas from the newest finds |
| Collider.IndexAgrees | client/systems_components.py:551-564 | after any sequence of register, unregister and reinitialize, of registered and unregistered colliders, every cell is exactly the covering entities in order of registration, and its last entry the topmost |
| Collider.ColliderComponent.constructor | client/systems_components.py:641-650 | the rectangle grown by its outline on every side |
| Collider.ColliderSystem.constructor | client/systems_components.py:347-352 | an empty index of the screen's size |
| Collider.ColliderSystem.AddComponent | client/systems_components.py:360-371 | the loops over the matrix keep every cell in agreement with the areas, also when the entity has a collider already or the area starts off the screen |
| Collider.ColliderSystem.RemoveComponent | client/systems_components.py:373-381 | the loops of the removal take the entity's first occurrence from every cell of the area, also when the entity has other colliders; with one collider for each entity every cell agrees with the remaining areas |
| Collider.ColliderSystem.Register | client/systems_components.py:551-554 | registering appends the area once, and does nothing for a registered collider |
| Collider.ColliderSystem.Unregister | client/systems_components.py:556-560 | unregistering takes that area away, and does nothing for an unregistered collider |
| Collider.ColliderSystem.Reinitialize | client/systems_components.py:655-664 | the area moves to the new position and to the top; an unregistered one is registered there |
| Collider.ColliderSystem.Perform | client/systems_components.py:551-564 | one call of one of the three methods refines the operation on the areas |
| Collider.ColliderSystem.PerformAll | client/systems_components.py:551-564 | any calls one after the other refine the operations: the areas and every cell of the matrix are what they make of them |
| Collider.ColliderSystem.CheckClick | client/systems_components.py:383-391 | a press picks the topmost area of all that cover the point |
| EditBuffer.LineEditRows | client/systems_components.py:773-796 | every row after a line is deleted or inserted |
| EditBuffer.CharEditCells | client/systems_components.py:749-771 | every cell after a character is deleted or the end of the row is cleared |
| EditBuffer.BackspaceErases | client/systems_components.py:749-754 | backspace takes back the key typed last while the cursor has a column to itself; in the last column it takes the key before that one |
| EditBuffer.ClearedKeepsFront | client/systems_components.py:767-771 | clearing from a column on leaves what is typed in front of it |
| EditBuffer.AttributesDropped | client/systems_components.py:806-808 | of a cell taken from the screen only the character shows, whatever its attributes |
| EditBuffer.BlankRowText | client/systems_components.py:798-815 | a blank row adds nothing to the gathered text |
| EditBuffer.TwoRowsGathered | client/systems_components.py:798-815 | two rows in which something is typed give both texts, one line each |
| EditBuffer.InsertThenDelete | client/systems_components.py:773-796 | inserting a line and deleting it loses the bottom row and nothing else |
| EditBuffer.DeleteThenInsert | client/systems_components.py:773-796 | deleting a line and inserting one there loses that row and nothing else |
| EditBuffer.LineEditsUndoExactly | client/systems_components.py:773-796 | each pair restores the buffer if and only if the row it loses was blank |
| EditBuffer.BottomRowIsLost | client/systems_components.py:787-796 | a buffer whose bottom row does not survive an inserted and deleted line |
| EditBuffer.TypedKeyByKey | client/systems_components.py:896-900 | typing one key at the cursor, which stays in the last column, extends the typed text by it |
| EditBuffer.TypedComesBackExactly | client/systems_components.py:707-724 | for typed texts of any length: what is read back from a blank one-row field is what was typed if and only if the last column stays free and the text does not end in a space |
| EditBuffer.TypedOnAppends | client/systems_components.py:896-900 | typing on from the end of a text already in the row is typing both texts into a blank row |
| EditBuffer.PasswordComesBackExactly | client/systems_components.py:707-724 | whatever number of asterisks the field shows at the start: the password comes back if and only if the field shows none, the last column stays free and the text does not end in a space, or it shows some and the password is itself one asterisk less than the field is wide |
| EditBuffer.SecondVisitReadsAsterisks | client/systems_components.py:817-828 | a second visit to a field that shows a password of two letters, from which the same two do not come back |
| EditBuffer.FullRowIsCut | client/systems_components.py:798-815 | a password of two letters in a field of two columns does not come back |
| EditBuffer.FakeWindow.constructor | client/systems_components.py:666-696 | a blank buffer of the field's size |
| EditBuffer.FakeWindow.DeleteChar | client/systems_components.py:749-754 | the row is shifted left from the column on and blank-filled; off the screen nothing changes |
| EditBuffer.FakeWindow.Eol | client/systems_components.py:756-765 | the column behind the row's text, at most the last one, or no value off the screen |
| EditBuffer.FakeWindow.ClearLine | client/systems_components.py:767-771 | the row is blank from the column on, everything else unchanged |
| EditBuffer.FakeWindow.DeleteLine | client/systems_components.py:773-785 | the nested shifting loops delete the row and add a blank one at the bottom |
| EditBuffer.FakeWindow.InsertLine | client/systems_components.py:787-796 | the nested shifting loops insert a blank row and drop the bottom one |
| EditBuffer.FakeWindow.TypeChar | client/systems_components.py:896-900 | one cell is overwritten |
| EditBuffer.FakeWindow.Fill | client/systems_components.py:817-828 | the buffer becomes what the screen shows, and the cursor goes behind the text of its first row |
| EditBuffer.FakeWindow.GetInput | client/systems_components.py:707-724 | filling a one-row field from any screen, typing and reading it back, on the buffer itself: the result is the row's text with the keys behind it, and the typed password under exactly that condition |
| EditBuffer.FakeWindow.Gather | client/systems_components.py:798-815 | the loops concatenate the rows' texts, without the last character of a one-row field |

## Left out

- Sockets, pickling, queues, sleeps, sqlite and libvirt calls: only their outcomes are modelled (credentials found or not, a domain running or not, a start accepted or not).
- Reply packets, permissions, IP addresses of domains and their tunnels: they carry no decision of the modelled handlers.
- `Hypervisor.close`, forced shutdown, the shutdown threads, registration and creation of domains.
- Dispatcher case 6, which expects a User object where its sender puts an id.
- Threads inside one handler: each message, each round of the timeout thread and each end of a boot is one step; the boot thread clears the booting flag before it stores the address.
- An exception that leaves the dispatcher's loop is the flag `crashed`, after which nothing happens; a process restart is not modelled.
- `num is not i` in `server/hypervisor.py:353` compares identities; the model compares values, which is the same for the small integers of domain names.
- `int()` of a domain name: digits and blanks outside ASCII, and digit strings over the interpreter's length limit, are not modelled.
- SessionRuns.StartGamingLedger: assumes indexed lists and at most ten domains, the exact limit that SessionLimits.LedgerExactly proves.
- SessionRuns.StepLedger: the same assumption.
- SessionRuns.RunLedger: the same assumption.
- SessionRuns.RequestIsServed: the same assumption, exact by SessionLimits.AvailabilityExactly, and that no listed domain is booting, which a user has to wait for.
- Bitstream.WriteUnit: each single entry must fit the buffer, since the source's second copy runs over its end otherwise; the buffer's address lies far enough below 2^32.
- Collider.ColliderSystem.Register: one collider for each entity, as the entities create them, and, as for every other rectangle, one that meets no cell twice and stays within the indices a list of the screen's size accepts, negative ones included; the source ends in an IndexError otherwise or lists the entity twice.
- Collider.ColliderSystem.Reinitialize: the same, for the new position.
- Collider.ColliderSystem.Perform: the same.
- Collider.ColliderSystem.PerformAll: the same.
- AxisScaling.ScaledFitsShort: excludes inputs for which an expression that the taken branch evaluates overflows, as C leaves them undefined.
- AxisScaling.ByteMonotone: the same; the conversion of a trigger value to a plain char is left to the caller.
- Frames.RunInv: the decoder yields only frames it may write to, and the display device returns the oldest queued frame; decode numbers are added to the frames for the statement of order.
- XmlEvents.ApplistOfDocument: all uninitialised memory of one document holds the same string; the display mode list, which has the shape of the app list, and the status attributes have no model.
- Mappings.MappingParse: numbers beyond the range of int, which are undefined for `%d`, and strings with NUL characters are not modelled; memory is never exhausted.
- ControllerIds.InputDevices.EvdevRemove: the rest of the event loop's pass after a removal is not modelled; the mask is its low byte, as higher bits are never set.
- EditBuffer.FakeWindow.GetInput: printable keys only, with the cursor where the text box puts it; drawing, cursor movement and the editing commands of the text box have no model here.
- Hat index 3, `loop_remove_fd`, configuration files, key code tables, audio channels, platform selection, OpenSSL, curl, Avahi, ffmpeg, EGL, DRM, OMX, ALSA and Pulse code.
