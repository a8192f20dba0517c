# MeshCore controller: verified model

A Dafny model of the daemon and terminal client that supervise a MeshCore radio
node, with proofs about the parts that carry real invariants. `dafny verify
dfyconfig.toml` checks all of it. Each module follows one area of the program:

| module | area |
|---|---|
| `RegionTree` | the region forest and its depth-first layout |
| `RegionOrder` | the order of siblings and roots in that layout |
| `RegionOutline` | saving an edited outline as regions and reopening it |
| `OutlineEditor` | the interactive hierarchy editor, key by key |
| `RegionReply` | a repeater's textual region hierarchy: printer against parser |
| `NodeMirror` | the table of overheard nodes and its in-memory mirror |
| `IpcProtocol` | the socket protocol between one-shot clients, server loop and mesh task |
| `PacketFeed` | the daemon's rotating packet log and the hand-over to a client |
| `PacketView` | the client's capped packet buffer and its scroll lock |
| `PacketGroups` | grouping repeated receptions of one transmission |
| `NodeReconcile` | managed repeaters against the node's contacts; the managed list; the contact list clients see |
| `BrokerReload` | MQTT worker tasks over configuration reloads |
| `PacketFrame` | over-the-air framing, hex, published figures, hop hashes |
| `Telemetry` | CayenneLPP decoding |
| `GroupText` | encrypt-then-MAC group messages |
| `RepeaterDetail` | the four-part repeater detail fetch and its popup |

`Wrappers` holds `Option`, `Bytes` the byte type, `Sequences` reversal and concatenation.

Objects whose methods update fields are classes (`TreeWalk`, `Editor`,
`RepeaterDb`, `AppState`, `PacketLog`, `App`, `MeshNode`, `Config`,
`Supervisor`, `DetailView`); their methods are tied to functions on values, and
what the program promises is proved about those functions. Concurrent parts
(`IpcProtocol`, `PacketFeed`, the channel in `RepeaterDetail`) are state machines:
a run is any sequence of steps, so every interleaving is covered. Calls that can
fail choose freely whether they do; deadlines are steps that may happen at any
time; times, ids and node answers are inputs.

Some expected laws do not hold of the code. Each is recorded with the exact
condition under which it does:

- Unindenting or moving an entry in the hierarchy editor can skip a level
  (`PressNesting`, `SwapNesting`). Unindenting, indenting and moving can hand another
  region's children to a new parent (`UnindentParents`, `IndentParents`,
  `SwapParents`, with examples), and adding a sibling takes over the children of the
  entry above it (`AddParents`).
- Two nodes sharing a 12-digit key prefix share one entry of the mirror, which then
  differs from what a restart would load (`AlwaysReloadIff`).
- `group_packets` is documented to place a group by its most recent member; the code
  places it by its oldest. The model follows the code and says when the two agree
  (`PageOrder`, `ByMostRecentIff`).
- A region whose name ends like a mark is misread from a repeater's reply
  (`LineRoundTrip`, `ReplyRoundTrip`).
- A client can see a gap in its packet page: while it catches up if the daemon's log is
  smaller than the broadcast buffer, which the default of 500 is not (`NeverGapsIff`),
  and whenever its receiver fell behind and skipped entries the backlog does not hold
  (`GapIff`, `NoGapWhenCaughtUp`, `LagCanGap`).
- A command reported failed or timed out may still take effect
  (`TimedOutMayStillApply`, `RejectedCanApplyIff`, `AnyReplyIsPossible`).
- A broker name configured twice leaves a task at startup that no reload ever stops
  (`AlwaysTracked`), and in a reloaded file can leave the wrong settings running
  (`AlwaysSupervised`); two managed entries answering to one prefix make clearing a
  status expose the second (`ClearClears`).
- Two unmatched contacts sharing a 12-digit prefix keep an observer node from
  converging in one pass (`Pass`, `ResolvableIff`).

## Model

| member | source | states |
|---|---|---|
| RegionTree.TreeWalk.PushWithChildren | core/src/region.rs:88-105 | the in-place walk from one region computes `Push` on its two buffers, and ends on any configuration because the configured names not yet visited shrink |
| RegionTree.TreeWalk.FlattenRegionTree | core/src/region.rs:71-86 | the whole in-place layout is the function `Flatten` of the configuration |
| RegionTree.FlattenAnyConfig | core/src/region.rs:71-105 | for any configuration, with cycles, orphans or repeated names: no name is laid out twice, no level is skipped, only regions whose parent chain ends are laid out, and the nearest preceding entry one level shallower is exactly the region's parent, or none for a root or orphan |
| RegionTree.FlattenExact | core/src/region.rs:71-105 | with distinct names a region is laid out if and only if its chain of parents reaches a root or an orphan |
| RegionTree.RootedIsVisited | core/src/region.rs:88-105 | every region reachable from a root or orphan in finitely many parent steps is visited by the walk |
| RegionTree.Crossing | cli/src/wizard.rs:531-538 | in a well-nested outline the search for an entry one level shallower never climbs past an ancestor |
| RegionOrder.LayoutInOrder | core/src/region.rs:58-105 | for any configuration: two regions laid out under one parent, or two roots or orphans, appear in the order in which they are configured |
| RegionOutline.SavedRegion | cli/src/wizard.rs:527-547 | what is saved of an entry: its name, and as parent the name of the last entry before it that is one level shallower, none exactly when there is none |
| RegionOutline.OutlineRoundTrip | cli/src/wizard.rs:517-547 | saving an outline and reopening it gives back the same names, order and depths if and only if it is well nested and no name repeats |
| RegionOutline.DescendantsContiguous | core/src/region.rs:98-104 | in a well-nested outline, such as every layout, the descendants of an entry are exactly the entries after it up to the first that is no deeper |
| RegionOutline.RoundTripIsIdempotent | cli/src/wizard.rs:517-547 | whatever the outline, one save and reopen yields a well-nested outline that further rounds leave alone |
| RegionOutline.AnyOutlineSurvives | cli/src/wizard.rs:517-547 | any outline with distinct names, malformed ones included, keeps every entry and every saved parent through a save and reopen |
| RegionOutline.SavedIsRooted | cli/src/wizard.rs:527-547 | regions saved from any outline never form a cycle |
| RegionOutline.RegionRoundTrip | cli/src/wizard.rs:517-547 | opening and saving a distinct-named configuration keeps exactly its (name, parent) pairs if and only if every parent is configured and there is no cycle |
| OutlineEditor.Editor.constructor | cli/src/wizard.rs:611-613 | the editor starts on the outline of the existing configuration, first entry selected |
| OutlineEditor.Editor.DeleteEntry | cli/src/wizard.rs:575-583 | the loop that promotes entry after entry computes the outline with the subtree one level up and the entry gone |
| OutlineEditor.Editor.Press | cli/src/wizard.rs:618-697 | one key press, with its placeholder and clamping, is the function `Pressed` on outline and cursor, and keeps the cursor on an entry |
| OutlineEditor.Editor.Edit | cli/src/wizard.rs:606-698 | a session applies its keys in order; Enter saves the final outline, Escape returns the configuration untouched |
| OutlineEditor.PressedInOrder | cli/src/wizard.rs:617-697 | no keys change nothing, and one more key acts on what the ones before it left |
| OutlineEditor.ArrowsMoveCursor | cli/src/wizard.rs:623-628 | the arrows move the cursor by one, stop at either end and leave the outline alone |
| OutlineEditor.IndentsSelected | cli/src/wizard.rs:555-566 | indenting makes the selected entry one deeper, at most one below the entry before it and never the first entry; unindenting one shallower, at most to a root; nothing else changes |
| OutlineEditor.MovesSelected | cli/src/wizard.rs:635-642 | a move exchanges the selected entry with its neighbour, takes the cursor along, and does nothing at the end |
| OutlineEditor.AddsAfterSelected | cli/src/wizard.rs:643-670 | the new name stands right after the selected entry at its depth, or as a root in an empty outline, and is selected; all others keep their order; a cancelled one changes nothing |
| OutlineEditor.RenamesSelected | cli/src/wizard.rs:671-686 | only the selected entry's name changes, and not when the text was empty or cancelled |
| OutlineEditor.DeletesSelected | cli/src/wizard.rs:687-692 | the selected entry and no other is gone: every other keeps its name and order, those below it move up one level, in a well-nested outline its children come under what was its parent, and the cursor stays or moves to the last entry |
| OutlineEditor.DeletesOnly | cli/src/wizard.rs:687-692 | deleting the only entry leaves an empty outline, in which there is nothing to delete |
| OutlineEditor.PressNesting | cli/src/wizard.rs:555-583 | a press on a well-nested outline leaves it well nested if and only if it is not an unindent of an entry followed by its child nor a swap that skips a level |
| OutlineEditor.SwapNesting | cli/src/wizard.rs:635-642 | when exactly swapping two neighbours keeps the outline well nested |
| OutlineEditor.RunKeepsNesting | cli/src/wizard.rs:617-698 | a whole session of such presses keeps the outline well nested |
| OutlineEditor.SessionRoundTrip | cli/src/wizard.rs:606-698 | from any configuration, after such a session with distinct final names, reopening what was saved shows exactly the confirmed outline |
| OutlineEditor.DeleteParents | cli/src/wizard.rs:567-583 | deleting an entry keeps every survivor's name and parent, except that its direct children move to its own parent |
| OutlineEditor.UnindentParents | cli/src/wizard.rs:632-634 | unindenting leaves all other entries under their parents if and only if the entry closes its parent's subtree |
| OutlineEditor.IndentParents | cli/src/wizard.rs:629-631 | indenting an entry that has room to leaves all other entries under their parents if and only if it has no children |
| OutlineEditor.SwapParents | cli/src/wizard.rs:635-642 | swapping neighbours leaves all entries under their parents if and only if they are siblings and the lower one has no children, or the lower one is at least two levels shallower |
| OutlineEditor.AddParents | cli/src/wizard.rs:643-670 | adding a sibling leaves all entries under their parents if and only if the selected entry has no children |
| OutlineEditor.Editor.AddEntry | cli/src/wizard.rs:643-670 | inserting the blank placeholder and then naming it or taking it out again is one step of `Pressed` |
| OutlineEditor.MoveUndone | cli/src/wizard.rs:635-642 | the cursor follows a moved entry, and moving it back restores outline and cursor |
| OutlineEditor.IndentUndone | cli/src/wizard.rs:555-566 | unindenting after indenting restores the outline if and only if there was room to indent, or the entry is a first root |
| OutlineEditor.AddUndone | cli/src/wizard.rs:575-583 | deleting an entry just added restores the outline if and only if the entry above it has no children |
| OutlineEditor.UnindentStealsChild | cli/src/wizard.rs:632-634 | a concrete outline in which unindenting one region reparents another |
| OutlineEditor.IndentStealsChild | cli/src/wizard.rs:629-631 | the same outline, in which indenting that region reparents the other |
| OutlineEditor.MoveStealsChild | cli/src/wizard.rs:639-642 | the same outline, in which a move that skips no level reparents another region |
| RegionReply.LineRoundTrip | core/src/mesh.rs:342-378 | a printed line is read back if and only if what follows its indent is not empty and does not start with a space, and its name does not end like a mark it lacks |
| RegionReply.ParseLineMeans | core/src/mesh.rs:356-375 | leading spaces are the depth modulo 256, a trailing " F" allows flooding and a "^" before it marks the home region |
| RegionReply.ReturnIgnored | core/src/mesh.rs:358 | a carriage return at the end of a line changes nothing |
| RegionReply.ReplyRoundTrip | core/src/mesh.rs:342-380 | a whole reply is read back, entry for entry, if and only if every name reads as itself and fits on one line |
| RegionReply.CutReply | core/src/mesh.rs:348-352 | a reply cut anywhere still gives the entry of every whole line, in order, and at most one more |
| NodeMirror.RepeaterDb.Upsert | daemon/src/repeater_db.rs:90-133 | the conflict clause as a map update on the full key |
| NodeMirror.RepeaterDb.LoadAll | daemon/src/repeater_db.rs:139-176 | the mirror loaded has an entry for each stored prefix and every entry is that of some row, rows being read in any order |
| NodeMirror.AppState.constructor | daemon/src/state.rs:98-129 | startup loads the mirror from the table |
| NodeMirror.AppState.UpsertDiscoveredNode | daemon/src/state.rs:204-232 | the table is updated when the write succeeds, the mirror is merged in either case, and the result says whether the prefix was new |
| NodeMirror.PositionKept | daemon/src/state.rs:213-225 | in table and mirror alike, a sighting at (0, 0) leaves the known position as it was and any other replaces it |
| NodeMirror.SightingTakenOver | daemon/src/repeater_db.rs:95-111 | in table and mirror alike, signal and hops are taken over when carried and kept when not, all else but the first sighting's date is the latest sighting's, and no other entry changes |
| NodeMirror.MergeIsUpsert | daemon/src/state.rs:204-232 | merging a sighting into a mirror of the table gives a mirror of the updated table |
| NodeMirror.MirrorTracksIntended | daemon/src/state.rs:195-232 | after any history of sightings, failed writes and restarts the mirror is what loading the table would give had the writes since the last restart succeeded |
| NodeMirror.MirrorIsReload | daemon/src/repeater_db.rs:135-176 | while writes succeed and prefixes are unique, the mirror at any moment is the one result a restart would load |
| NodeMirror.TableRemembers | daemon/src/repeater_db.rs:78-133 | after any history a row counts its stored sightings, is dated by the first and the last, has the position of the last one not at (0, 0), and for signal and hops the last value actually carried |
| NodeMirror.SharedPrefixDiverges | daemon/src/state.rs:213-225 | a history of two written sightings of keys with one prefix whose mirror no reload gives |
| NodeMirror.AlwaysReloadIff | daemon/src/state.rs:195-232 | for a set of keys: every history of written sightings of them, restarts included, leaves a mirror that loading the table gives, if and only if no two of the keys share a prefix |
| IpcProtocol.AlwaysInv | daemon/src/server.rs:76-205 | the protocol invariant holds in every state of every run of clients, server loops, mesh task, deadlines and broadcasts |
| IpcProtocol.SnapshotMeansDone | cli/src/repeater.rs:291-317 | a wait that ended with a snapshot means the command took effect, was reported successful, and the snapshot was read after its contact refresh; it shows the effect unless the refresh that built it could not read the node |
| IpcProtocol.ErrorComesFirst | daemon/src/server.rs:188-205 | a command reported failed or timed out never ends the wait with a snapshot: the first decisive message is the error, and a client fails only so |
| IpcProtocol.TimedOutMayStillApply | daemon/src/server.rs:200-204 | some run from the initial state ends with a command that was reported failed and took effect |
| IpcProtocol.RejectedCanApplyIff | daemon/src/server.rs:194-204 | in any run, a command reported failed that has not taken effect still can, by some further steps, if and only if the mesh task is alive and the command is queued for it or being applied by it |
| IpcProtocol.FailureIsReported | daemon/src/server.rs:200-204 | a reply of failure is answered with an error written to the client and with nothing else |
| IpcProtocol.OutcomeFollowsReply | daemon/src/server.rs:194-205 | in any run, once the mesh task has replied to a command whose server loop still listens: some run leads its client to failure, and some run leads it to success if and only if the reply said so |
| IpcProtocol.AnyReplyIsPossible | daemon/src/mesh_task.rs:435-444 | a command being applied can succeed, can fail without effect, and can fail after it took effect, as when the configuration cannot be saved |
| IpcProtocol.AnyMoment | daemon/src/server.rs:76-125 | at any moment a connection can break and its client notice, an event be broadcast, the mesh task end and a command in hand then be rejected, and the channel take one more command while fewer than eight wait |
| IpcProtocol.AnyRefresh | daemon/src/mesh_task.rs:181-233 | a free mesh task can rebuild the contacts at any moment, and any refresh, also one made for a command, can leave a view that does not show what was applied, but only by failing to read the node |
| IpcProtocol.ChannelBounded | daemon/src/main.rs:105 | never more than eight commands wait in the channel |
| IpcProtocol.SuccessIsReachable | cli/src/repeater.rs:295-317 | some run brings a client to its snapshot |
| IpcProtocol.MeshKeeps | daemon/src/mesh_task.rs:422-476 | taking, applying, refreshing after and replying to a command keeps the invariant of every connection |
| PacketFeed.PacketLog.constructor | daemon/src/state.rs:106-122 | the log starts empty with ids from 1 and a capacity of at least one |
| PacketFeed.PacketLog.RecordPacket | daemon/src/state.rs:184-193 | recording puts the entry in front and drops the oldest one from a full log, which stays equal to the last `capacity` entries recorded, newest first and with strictly decreasing ids |
| PacketFeed.PacketLog.OnEvent | daemon/src/mesh_task.rs:98-102 | every radio event draws an id and only RF log data is recorded, so ids may skip but always rise |
| PacketFeed.AlwaysInv | daemon/src/server.rs:80-124 | in every state of every run, lagging receivers included, socket and page are the backlog followed by the forwarded entries in order, and only entries the channel no longer keeps were skipped |
| PacketFeed.NoGapWhenCaughtUp | daemon/src/server.rs:80-124 | a client that has read everything sent shows the very last entry, and its page is unbroken, repeats aside, if and only if every entry its receiver skipped is in the backlog or older than everything shown |
| PacketFeed.GapIff | daemon/src/server.rs:101-124 | with a log of at least 256 entries, the broadcast buffer's size, at any moment of any run: the page has a gap if and only if the receiver skipped an entry that the backlog does not hold and that lies between two shown entries |
| PacketFeed.NeverGapsIff | daemon/src/server.rs:80-124 | no client whose receiver skipped nothing ever shows a gap, at any moment of any run, if and only if the log keeps at least 256 entries, as many as the broadcast buffer |
| PacketFeed.LagCanGap | daemon/src/server.rs:117-120 | for every log size some run with a receiver that fell behind ends with a gap on the page |
| PacketFeed.BufferHoldsNewestShown | cli/src/tui/app.rs:235-247 | the client's capped buffer holds the newest entries of the backlog and the live entries pushed after it |
| PacketView.App.SetPacketLog | cli/src/tui/app.rs:237-240 | the backlog replaces the buffer, cut to its newest 2000 entries |
| PacketView.App.PushPacket | cli/src/tui/app.rs:244-247 | a push goes in front, and a buffer of 2000 loses its oldest entry |
| PacketView.App.NewPacketsSinceLock | cli/src/tui/app.rs:260-271 | the counting loop computes the number of leading entries newer than the newest locked one; 0 when unlocked, and all of them when the locked view is empty |
| PacketView.App.PushWhileLocked | cli/src/tui/app.rs:242-271 | any pushes while locked leave the frozen view alone and count from the lock |
| PacketView.PushedAllIs | cli/src/tui/app.rs:244-247 | a run of pushes equals prepending all of them and cutting once |
| PacketView.SinceLockCountsPushes | cli/src/tui/app.rs:258-271 | the counter equals the number of pushes since the lock, capped, if and only if every push still in the buffer has an id above the newest locked one |
| PacketView.IncreasingIdsAreCounted | cli/src/tui/app.rs:258-271 | with the daemon's rising ids every push since the lock is counted |
| PacketGroups.GroupPackets | cli/src/tui/packet_group.rs:115-156 | the one-pass loop with its map of open groups computes the groups by leader, newest first |
| PacketGroups.SameGroupIff | cli/src/tui/packet_group.rs:126-136 | two entries share a group if and only if both have a header, payload type and payload agree, and no two consecutive receptions of that message from one to the other are more than 90 seconds apart |
| PacketGroups.GroupKeyIff | cli/src/tui/packet_group.rs:161-164 | the key is there exactly when the header was decoded, and identifies payload type and payload together |
| PacketGroups.GroupShape | cli/src/tui/packet_group.rs:137-151 | every entry is in the group its leader opened, which ends with that leader; an entry whose header was not decoded is alone |
| PacketGroups.MembersExact | cli/src/tui/packet_group.rs:132-136 | the members of a group are exactly the entries with that leader |
| PacketGroups.MembersDescend | cli/src/tui/packet_group.rs:132-136 | members keep their relative order, newest first |
| PacketGroups.PageGroup | cli/src/tui/packet_group.rs:154-156 | each group on the page is the whole group of its oldest entry |
| PacketGroups.PageGroupEnds | cli/src/tui/packet_group.rs:137-140 | no group on the page is empty; each begins with its newest entry and ends with its oldest |
| PacketGroups.PageOrder | cli/src/tui/packet_group.rs:154-156 | the page lists groups newest first by their oldest entry |
| PacketGroups.ByMostRecentIff | cli/src/tui/packet_group.rs:110-156 | the page is in the documented order, newest first by most recent member, if and only if no group lies wholly between two receptions of another |
| PacketGroups.GroupingIsPartition | cli/src/tui/packet_group.rs:115-156 | grouping neither loses nor repeats an entry |
| PacketGroups.NotByMostRecent | cli/src/tui/packet_group.rs:110-114 | a case in which the documented order by most recent member fails |
| NodeReconcile.MeshNode.DeclareContact | core/src/mesh.rs:1410-1440 | refused unless the key is 32 bytes of hex; otherwise it adds the contact or fails without effect |
| NodeReconcile.MeshNode.RemoveContact | core/src/mesh.rs:1213-1231 | the prefix is resolved to the first cached contact that has it, then that contact is removed or nothing is |
| NodeReconcile.MatchesMeans | core/src/config.rs:320-324 | an entry matches a prefix if and only if its key begins with it, upper and lower case being one |
| NodeReconcile.MatchedMeans | daemon/src/mesh_task.rs:284-305 | a contact belongs to an entry, of whatever tier, if and only if their keys agree in the first twelve digits, upper and lower case being one |
| NodeReconcile.LowerMeans | core/src/config.rs:322 | folding to lower case changes no digit and leaves no capital |
| NodeReconcile.FullKeyMeans | core/src/mesh.rs:1410-1420 | a key is accepted if and only if it is 64 of the sixteen hex digits, in either case |
| NodeReconcile.ReconcileManagedRepeaters | daemon/src/mesh_task.rs:284-325 | adds only configured full keys, removes nothing, leaves the list alone when the cache already has every entry, and unless a node call failed every full-key entry has a contact |
| NodeReconcile.LockObserver | daemon/src/mesh_task.rs:335-387 | corrections only ever empty channel slots and switch auto-add off, each tried whatever happened to the others; without failures the node is locked |
| NodeReconcile.PruneContacts | daemon/src/mesh_task.rs:389-418 | whatever calls fail, only unmatched cached contacts go, so none matched by an entry of any tier; without failures exactly those go that a lookup of their prefix resolves to |
| NodeReconcile.ResolvableIff | core/src/mesh.rs:448-460 | pruning can reach every contact it should if and only if no two of them share a prefix |
| NodeReconcile.Pass | daemon/src/mesh_task.rs:79-80 | a reconcile and enforce pass never loses a managed contact under any failures; on an observer, when none fails, it locks the node and converges it if and only if no two unmatched contacts share a prefix; it changes nothing on a converged, locked node |
| NodeReconcile.EnforceObserver | daemon/src/mesh_task.rs:335-418 | the enforcing half: locks the node and prunes, with the same guarantees from wherever declaring left the contacts |
| NodeReconcile.PassTwice | daemon/src/mesh_task.rs:79-80 | after a pass without failures that converged, the next one, failing or not, leaves the contacts as they are |
| NodeReconcile.Config.UpsertManagedRepeater | daemon/src/mesh_task.rs:906-943 | the in-place edit of the managed list is `Upserted`, whether or not saving succeeds |
| NodeReconcile.UpsertIsMapUpdate | daemon/src/mesh_task.rs:906-943 | with at most one entry per case-folded prefix: a lookup afterwards finds what was set or cleared under the resolved key, else the key it had, else the prefix; passwords and all other prefixes are unchanged, and prefixes stay distinct |
| NodeReconcile.OthersUntouched | daemon/src/mesh_task.rs:906-943 | whatever the list holds, no update changes, drops or reorders an entry that does not answer to the prefix |
| NodeReconcile.SettingKeepsFullKeys | daemon/src/mesh_task.rs:919-933 | setting a status loses no full key from the list, except the updated entry's own to a newly resolved one, and a resolved full key is stored |
| NodeReconcile.ClearClears | daemon/src/mesh_task.rs:934-936 | clearing removes the status from lookups if and only if at most one entry matched |
| NodeReconcile.SetSets | daemon/src/mesh_task.rs:919-933 | setting a status sets it for lookups whatever else the list holds |
| NodeReconcile.FindIndexBySlot | core/src/mesh.rs:465-473 | a lookup by 12-digit prefix finds the first entry with that case-folded prefix |
| NodeReconcile.SetRepeaterStatus | daemon/src/mesh_task.rs:521-600 | a repeater the cached list lacks is registered under its discovered key before any status is stored, and nothing is stored if that fails; otherwise the contacts stay as they are; on success a lookup finds the new status, after clearing exactly when at most one entry answered to the prefix |
| NodeReconcile.BuildSnapshotContacts | daemon/src/mesh_task.rs:181-233 | one line per contact of the node and one per discovered node not among them, each with the status a lookup of its prefix finds, and counted as managed exactly for Managed and Supervised |
| NodeReconcile.ManageEndToEnd | cli/src/repeater.rs:93-148 | when setting or clearing a status succeeds, the client finds a line if and only if the node had the contact or its advert was overheard, and the line carries the status asked for, after clearing exactly when at most one entry answered to the prefix; it counts as managed exactly for Managed and Supervised |
| BrokerReload.DiffConfig | daemon/src/reload.rs:112-130 | the two loops compute the brokers that are new, those that differ, and the names that are gone |
| BrokerReload.FindsFirst | daemon/src/reload.rs:115 | of several brokers of one name the first is compared |
| BrokerReload.Supervisor.constructor | daemon/src/main.rs:125-129 | startup spawns one task per configured broker |
| BrokerReload.Supervisor.AbortEach | daemon/src/reload.rs:158-164 | the loop over removed names aborts each task still held |
| BrokerReload.Supervisor.RestartEach | daemon/src/reload.rs:165-176 | the loop over changed and new brokers aborts what each name holds and spawns a task with its settings |
| BrokerReload.Supervisor.ReloadOnce | daemon/src/reload.rs:140-176 | a reload aborts and respawns as `Reloaded` says; a file that does not load leaves configuration, handles and tasks as they were |
| BrokerReload.StartSupervised | daemon/src/main.rs:125-129 | startup leaves every task tracked and matching the configuration if and only if broker names are unique |
| BrokerReload.ReloadSupervised | daemon/src/reload.rs:140-176 | from a supervised daemon a reload that loads leaves it supervised if and only if the new configuration settles, that is, under every name its first entry is the last that changes anything; unique names always do |
| BrokerReload.ReloadServes | daemon/src/reload.rs:140-176 | for any two configurations, repeated names included: a reload serves under each name its last changed entry, nothing once the name is gone, else what was served before |
| BrokerReload.ReloadKeepsUnchanged | daemon/src/reload.rs:114-121 | the task held for a configured broker survives a reload if and only if its name stays configured and no entry under it differs; no task is rewritten and no aborted one returns |
| BrokerReload.AlwaysSupervised | daemon/src/reload.rs:134-176 | over startup and any history of successful and failed reloads: at every moment the live tasks are exactly those of the last configuration that loaded, if and only if startup repeats no name and every reload that loads settles; unique names suffice |
| BrokerReload.AlwaysTracked | daemon/src/main.rs:125-129 | after any history of reloads, whatever names their files repeat, every live task is held and no name has two, if and only if startup repeats no name: a task orphaned then is never stopped |
| BrokerReload.SupervisedTasks | daemon/src/reload.rs:159-176 | supervision means exactly one live task per broker, with its current settings, and no other live task |
| PacketFrame.HexRoundTrip | core/src/mesh.rs:30-32 | decoding encoded bytes gives them back |
| PacketFrame.HexAt | core/src/mesh.rs:30-32 | every byte becomes two lower-case digits, the higher one first |
| PacketFrame.ReconstructRawPacketHex | core/src/mesh.rs:906-921 | the string built piece by piece, and nothing without a header |
| PacketFrame.RawHexIsSerialized | core/src/mesh.rs:897-921 | for a logged frame that string is the hex of the frame's bytes |
| PacketFrame.FrameRoundTrip | core/src/mesh.rs:897-921 | parsing a frame's bytes gives it back if and only if every header field fits its bits and path and transport code fit the header |
| PacketFrame.FrameLayout | core/src/mesh.rs:897-921 | for any header: which bits of the first byte hold route, type and version, where the transport code follows, which bits of the path byte hold hop count and hash size less one, then path and payload; oversized values are cut to their bits |
| PacketFrame.EntryRoundTrip | core/src/mesh.rs:897-921 | the same for a log entry, through its hex |
| PacketFrame.SerializeParsed | core/src/mesh.rs:897-905 | bytes that parse are rebuilt exactly, with a header in range, and carry a transport code exactly on routes 0 and 3 |
| PacketFrame.RelayedUnchanged | core/src/mesh.rs:844-921 | received bytes, logged and reconstructed, are the received bytes |
| PacketFrame.PublishedFigures | daemon/src/mqtt.rs:541-550 | the published length is the true byte count even when the published hex is cut, and the cut keeps exactly the first 1024 bytes |
| PacketFrame.HopHashesOf | cli/src/tui/packet_group.rs:98-108 | any path: nothing when it is empty, the hash size is zero or the length is not a multiple of it; else hashes of that size which join up to the path |
| PacketFrame.HopHashesOfPacket | cli/src/tui/packet_group.rs:98-108 | a received packet's path splits into exactly as many hashes as its header says, each of the header's size, joining up to the path |
| Telemetry.DecodePayload | core/src/telemetry.rs:103-145 | on any bytes the loop stays in bounds, ends, and computes `Decode` |
| Telemetry.DecodeRecord | core/src/telemetry.rs:107-141 | one turn of the loop reads the record at the index, or stops on an unknown type or missing bytes |
| Telemetry.TypesAreSound | core/src/telemetry.rs:69-83 | the type table has distinct codes, sizes of one to four bytes, and neither type 0 nor GPS |
| Telemetry.UnsignedRoundTrip | core/src/telemetry.rs:174-176 | big-endian reading inverts writing for every width |
| Telemetry.SignedRoundTrip | core/src/telemetry.rs:178-190 | two's complement reading inverts the firmware's mask arithmetic for every width |
| Telemetry.DecodeInvertsEncode | core/src/telemetry.rs:103-170 | decoding any list of encoded records followed by any bytes gives the records' readings, then what the rest decodes to |
| Telemetry.ReadingsMean | core/src/telemetry.rs:132-170 | a scalar reading's value times its type's multiplier is the number sent; a position gives latitude and longitude in ten-thousandths and altitude in hundredths, in that order |
| Telemetry.NarrowAndWideFields | core/src/telemetry.rs:69-83 | how each one-byte and four-byte type of the firmware is read from its bytes: title, scale and unit |
| Telemetry.TwoByteFields | core/src/telemetry.rs:69-83 | how each two-byte type is read, with and without a sign |
| Telemetry.GpsField | core/src/telemetry.rs:147-170 | how a position is read: three bytes each of latitude, longitude and altitude in two's complement |
| Telemetry.PaddedPayload | core/src/telemetry.rs:85-102 | zero padding after the records adds nothing |
| Telemetry.DecodeIsMonotone | core/src/telemetry.rs:88-92 | a payload cut short loses readings only from the end |
| GroupText.PrecomputeChannelKeys | core/src/channel.rs:65-77 | the public channel with its known key first, then one candidate per configured name in order, opening with 16 bytes of the digest of that name behind a `#` |
| GroupText.ChannelMeans | core/src/meshcore_crypto.rs:131-137 | the secret is the key cut or padded with zeros to 32 bytes, the hash the first byte of the digest of the key before padding |
| GroupText.DecryptInPlace | core/src/meshcore_crypto.rs:166-171 | decrypting the buffer in place block by block is decryption of its contents |
| GroupText.DecryptBlock | core/src/meshcore_crypto.rs:166-171 | block `i` of the plaintext is block `i` of the ciphertext, decrypted, and the length is kept |
| GroupText.MacThenDecrypt | core/src/meshcore_crypto.rs:149-172 | nothing for a payload too short, not whole blocks or with another MAC, else the decrypted bytes |
| GroupText.OpenedIff | core/src/meshcore_crypto.rs:149-172 | bytes open if and only if they are two bytes of the MAC of one or more whole blocks followed by those blocks, and then to their decryption |
| GroupText.DecryptInvertsEncrypt | core/src/meshcore_crypto.rs:164-171 | block-wise decryption inverts block-wise encryption when it does so on one block |
| GroupText.PlaintextRoundTrip | core/src/channel.rs:116-130 | parsing a zero-padded plaintext gives back its text |
| GroupText.SenderAccepts | core/src/channel.rs:79-114 | the sender's channel accepts what was sealed for it, with the very text |
| GroupText.AcceptsIff | core/src/channel.rs:98-130 | a channel accepts a payload if and only if it is the channel's hash byte, two bytes of the MAC under its secret, and whole blocks that decrypt to a plaintext with a text type below 4, and then with the text up to the first zero |
| GroupText.DecodeIsFirstMatch | core/src/channel.rs:91-112 | the answer is that of the first candidate that accepts, and nothing exactly when none does |
| GroupText.GroupTextRoundTrip | core/src/channel.rs:91-112 | a sealed text decodes if and only if the header says version 0 group text, and to the sender's text and channel whenever no earlier candidate accepts |
| RepeaterDetail.RequestRepeaterDetail | daemon/src/mesh_task.rs:792-897 | the fetch as a trace of login, updates and logout on every path |
| RepeaterDetail.FourUpdatesInOrder | daemon/src/mesh_task.rs:792-897 | every path sends exactly status, telemetry, neighbours and regions in that order, each with that category's own answer, or all failed alike when the contact is unregistered or its password refused |
| RepeaterDetail.SessionBracketsFetch | daemon/src/mesh_task.rs:833-897 | a login that succeeds comes first and is followed by the four answers and then exactly one logout; without one there is no logout |
| RepeaterDetail.StreamInv | daemon/src/server.rs:215-265 | nothing in the stream is lost or reordered while the connection listens |
| RepeaterDetail.FetchNeverBlocks | daemon/src/server.rs:223-265 | however slowly the client reads, the mesh task can always send the next update, and the client is passed a prefix of the fixed order, all of it in the end unless the connection gave up |
| RepeaterDetail.ErrorNamesItsCategory | cli/src/tui/ui.rs:1390-1392 | an error line starts with a category's name exactly when it is that category's |
| RepeaterDetail.PendingUntilUpdated | core/src/mesh.rs:273-292 | a section is pending exactly until its first update, data or error, in any order |
| RepeaterDetail.ShowsLatestOk | core/src/mesh.rs:273-292 | a section shows the data of the last success for its category, in any order of updates; failures never blank it and other categories never fill it |
| RepeaterDetail.ErrorsInOrder | core/src/mesh.rs:273-292 | the error lines are those of the failed updates, each under its category's name, in the order they came |
| RepeaterDetail.DetailView.ApplyCategory | cli/src/tui/app.rs:326-339 | an update is folded in only when it is for the contact shown |
| RepeaterDetail.OpenForLastOpened | cli/src/tui/app.rs:313-351 | the popup is open for exactly the contact it was last opened for, unless closed since; arrivals never change that |
| RepeaterDetail.PopupShowsSince | cli/src/tui/app.rs:313-351 | after any history the popup holds exactly the updates for its contact since it was opened |
| RepeaterDetail.PendingSinceOpened | cli/src/tui/ui.rs:1384-1392 | after any history, stale arrivals included, a section is pending exactly when no update for it and the shown contact arrived since the popup was opened |
| RepeaterDetail.ShowsLatestSinceOpened | cli/src/tui/app.rs:313-351 | after any history, stale arrivals included, a section shows the last success for it and the shown contact since the popup was opened, and nothing when there was none |

## Left out

- Sockets, serial, BLE and TCP links, TOML and JSON, SQLite itself, signals, daemonizing and file locks: input and output; the table is a map by full key.
- `run_broker`, TLS and JWT assembly, broker status flags: mostly calls into libraries that are not part of this model.
- Drawing, key maps, colours, list selection, wizard prompts: no invariant worth stating.
- Region transport codes, `matching_region_name`, address and channel hashes, control payloads, DTO conversions, `map_event`: each settled by reading one branch.
- `find_contact`, `add_repeater`, the confirmation and printed outcome of the one-shot commands, telemetry caching: would only add easy members.
- `handle_client`: each modelled connection sends one mutating command and then asks for a snapshot, as the one-shot commands do; invalid messages are ignored there and left out here.
- `current_snapshot`: a snapshot is reduced to its contact list: which refresh built it, whether every refresh reached the node, and which commands it reflects.
- Positions are integers with (0, 0) unknown, and telemetry values exact quotients: rounding of 64-bit floats is not modelled.
- Message text is bytes: lossy UTF-8 conversion is left out, as is the hex decoding of the payload before group text is opened; SHA-256, HMAC (section 2 of RFC 2104) and AES (FIPS 197) are functions assumed only to have the right lengths and to decrypt what they encrypt.
- NodeReconcile.Pass: the contact list is read afresh before each half; the two halves are proved for any cached list, but convergence needs a fresh one.
- NodeReconcile.MeshNode.RemoveContact: the cached list may be in any order, but lookups go through it in that same order until it is read again.
- NodeReconcile.ManageEndToEnd: ends with a fresh read that succeeds; names, positions and telemetry of the lines are left out.
- RegionReply.ReplyRoundTrip: the printer is the node firmware's, which is not part of this model; it is written from the format the parser documents.
- PacketGroups.SameGroupIff: for payload type names without a colon, which the program's never hold; a colon in one would let it run into the payload.
- PacketFrame.FrameRoundTrip: the parser is in the `meshcore-rs` library, which is not part of this model; it is written from the layout the reconstruction documents, with transport routes 0 and 3.
- BrokerReload.Supervisor.ReloadOnce: a broker's settings are one value; fields that need a restart, the status map and the event broadcast after a reload are left out.
- RepeaterDetail.RequestRepeaterDetail: request and logout failures after the updates change nothing visible and are not distinguished.
- The client's reconnection loop and the mesh task's reconnect delay: a task that is gone is a task that never takes the next command.
