# RFID parking controller — a Dafny model

This project models the controller behind the RFID parking-lot window
(`ParkingSystemGUI` in `RFID.py`). A card reader prints lines such as
`Card UID: 89 D3 9D 94` on a serial port. The controller reads each line and
resolves the card to a user in a fixed order:

1. the trusted table `user_lookup`;
2. a substring scan of the permitted roster;
3. otherwise an on-boarding dialog.

A recognised card either frees the slot it already holds (the toggle) or
opens a selection window that offers the slots whose status is `Available`
or `Denied`. The operator can also edit the two rosters by hand. Every
roster change is written to `users.json` and logged.

The model keeps the state the widgets hold and leaves the widgets out:

- the four slot records (status, time text, user-info text);
- the two roster list boxes;
- `default_users` and `user_lookup`;
- the access log;
- `current_uid` and `current_user`;
- the content of `users.json`.

Layout:

- `opt.dfy` holds the `Option` type.
- `text.dfy` holds the Python `str` operations the controller uses, with Python's semantics: `strip`, `in`, `split` and `rfind`. A first-occurrence search `Find` is the helper that `split` is built on.
- `roster.dfy` holds the roster texts, the scan `find_permitted_user`, the `user_lookup` table, the resolution order and the two roster updates, all as functions.
- `events.dfy` holds the reading of one serial line.
- `slots.dfy` holds the slot rules as functions on `seq<Slot>`: the selection filter, the toggle, assignment, denial marking and the rename.
- `controller.dfy` holds the class `ParkingController`. It keeps the slots in an `array` and updates its fields in place. Each handler is a method whose loops mirror the source's loops, and each is proved against the functions above.

The class invariant `Valid()` says four things:

- there are exactly four slots (`NUM_SLOTS`);
- the trusted table is `default_users` keyed by uid, with a later listing winning;
- `current_user` is present only after a card has been read;
- `users.json` always holds both rosters, or is absent while both rosters are empty.

Several round trips below hold only for well-formed input, and each row names its conditions. A uid is *clean* when no `" - "` starts inside it, including one that runs on into a following `" - "`; so a clean uid neither contains `" - "` nor ends in `" -"`. The source accepts input outside these conditions, and there the round trips fail:

- a role containing `(`: the parse cuts at the last `(`, so `"n (a(b)"` reads back as name `"n (a"` and role `"b"`;
- a name or role that puts `" - "` into the label: that entry then splits into three or more parts and never parses;
- a uid that is not clean: the first `" - "` falls inside the uid;
- a name or role with surrounding blanks comes back stripped; `save_user` strips both before writing, so its entries meet this condition;
- a card that already holds a slot: presenting it frees its lowest-index slot, which need not be the one just assigned.

Besides the properties the source promises, the model proves several facts about the code as written:

- A roster lookup is a substring test.
- The denied roster never influences resolution.
- The labels written by `add_permitted_user` and `add_default_users` carry no uid. When a label holds no `" - "`, the scan can never return it. A name typed as `a - b` does make the label parse: it is then the entry of uid `a` with name `b`.
- Restarting with the saved roster appends both default labels again.
- One card can hold two slots.

## Model

| member | source | states |
|---|---|---|
| Text.Contains | RFID.py:390 | Python's `t in s`: `t` occurs at some position of `s`; the scans and the marker test are built on it |
| Text.Strip | RFID.py:392 | `str.strip()`: the result has no surrounding whitespace and is the input itself when the input has none |
| Text.Find | RFID.py:426 | the first occurrence of the separator, present exactly when the separator occurs |
| Text.Split | RFID.py:426 | `str.split(sep)`: one part exactly when `sep` is absent; the first part holds no `sep` and is followed by `sep` in the input |
| Text.RFind | RFID.py:431-432 | `str.rfind(c)`: an index holding `c` with no `c` after it |
| Text.SplitAfterFirst | RFID.py:426 | splitting `a + sep + b`, when no `sep` starts in `a` (even one running on into the `sep` that follows), gives `a` followed by the parts of `b` |
| Text.FirstPartIsClean | RFID.py:444 | the text before the first separator has no separator starting in it |
| Text.TrimStartIsSuffix | RFID.py:428 | `lstrip` removes only a whitespace prefix |
| Text.TrimEndIsPrefix | RFID.py:428 | `rstrip` removes only a whitespace suffix |
| Text.StripPaddedEnd | RFID.py:431 | stripping ignores one blank written after a trimmed name |
| Text.StripPaddedStart | RFID.py:428 | stripping ignores one blank written before trimmed text, as before `(` when the name is empty |
| Roster.ParseNameRole | RFID.py:429-433 | a name and role are read exactly when both `(` and `)` occur, and both come back stripped |
| Roster.ParseEntry | RFID.py:426-433 | a roster text parses only if it splits into exactly two parts at `" - "`; name and role come back stripped |
| Roster.Label | RFID.py:640 | the uid-less text `"name (role)"` that `add_default_users` and `add_permitted_user` write; `LabelNeverParses` and `DashedLabelIsFound` say when the scan can return it |
| Roster.Entry | RFID.py:652 | the text `"uid - name (role)"` that `add_to_permitted_list`, `save_user` and slot assignment write; `ParseEntryRoundTrip` and `EntryOccupant` read it back |
| Roster.PermitCommand | RFID.py:573 | the command `ADD_PERMITTED:uid:name:role` plus newline sent to the reader |
| Roster.DenyCommand | RFID.py:591 | the command `ADD_DENIED:uid:name` plus newline sent to the reader |
| Roster.Mentions | RFID.py:631-636 | some roster entry contains the uid as a substring: the duplicate test of `add_default_users` and `add_to_permitted_list`, which `PermittedMentions` is proved to compute |
| Roster.FirstWhereSpec | RFID.py:421-434 | an in-order search stops at the first element that satisfies the test, and finds nothing only when none does |
| Roster.FirstMatchFromSpec | RFID.py:421-434 | the scan stops at the first entry that both contains the uid and parses |
| Roster.FindPermittedUser | RFID.py:419-434 | the name and role of the first entry that contains the uid and parses; both come back stripped (characterised by `FindPermittedUserSpec`) |
| Roster.FindPermittedUserSpec | RFID.py:419-434 | `find_permitted_user` is `None` exactly when no entry contains the uid and parses; otherwise it is the parse of the first such entry |
| Roster.Index | RFID.py:86 | `user_lookup` built from `default_users`, keyed by uid, a later listing winning (characterised by `IndexSound`, `IndexComplete` and `IndexLastWins`) |
| Roster.IndexAppend | RFID.py:723-724 | appending a user to `default_users` and setting `user_lookup[uid]` keep the table the list's index |
| Roster.IndexSound | RFID.py:86 | every key of `user_lookup` leads to a listed user with that uid |
| Roster.IndexComplete | RFID.py:86 | every listed user's uid is a key of `user_lookup` |
| Roster.IndexLastWins | RFID.py:86 | the last user listed with a uid is the one the table holds |
| Roster.Resolve | RFID.py:394-417 | a uid in the trusted table resolves to its entry there, without the roster being read |
| Roster.ResolveSpec | RFID.py:394-417 | on-boarding happens exactly when the uid is in neither the table nor the scan; a scanned card keeps its own uid with the scanned name and role |
| Roster.WithEntry | RFID.py:645-655 | the roster after `add_to_permitted_list`: earlier entries are kept and at most one is appended; `WithEntryIdempotent` and `AddedEntryIsFound` relate it to the scan |
| Roster.DefaultsAdded | RFID.py:629-643 | `add_default_users` appends at most one label per default user |
| Roster.EntryMentionsUid | RFID.py:652 | a `"uid - name (role)"` entry contains its uid |
| Roster.EntrySplit | RFID.py:426 | an entry built from a clean uid splits at `" - "` into the uid and then the parts of the label |
| Roster.StripLabel | RFID.py:428 | for a trimmed name, stripping a `"name (role)"` label changes it only when the name is empty, by dropping the leading blank |
| Roster.ParensAroundRole | RFID.py:431-432 | in `"name (role)"`, with no `(` in the role, the last `(` and the last `)` enclose the role |
| Roster.ParseLabelRoundTrip | RFID.py:428-433 | the name and role parse inverts `"name (role)"` for a trimmed name and a trimmed role that holds no `(` |
| Roster.ParseEntryRoundTrip | RFID.py:426-433 | the entry `add_to_permitted_list` writes parses back to its name and role, for a clean uid, a trimmed name, a trimmed role without `(`, and a label without `" - "` |
| Roster.LabelNeverParses | RFID.py:427 | a `"name (role)"` label that holds no `" - "` never parses: its split has one part |
| Roster.LabelInvisibleToScan | RFID.py:577 | appending a `"name (role)"` label that holds no `" - "` never changes what the scan finds, for any uid |
| Roster.ScanIgnoresTail | RFID.py:421-434 | entries the scan rejects, appended at the end, do not change its result |
| Roster.AddedEntryIsFound | RFID.py:645-655 | after `add_to_permitted_list` on a roster not mentioning the uid, the scan returns exactly the name and role added, for a clean uid, a trimmed name, a trimmed role without `(`, and a label without `" - "` |
| Roster.WithEntryIdempotent | RFID.py:645-655 | `add_to_permitted_list` is idempotent |
| Roster.DefaultsAddedAgainOnRestart | RFID.py:122-124 | restarting with the saved roster appends both default labels again |
| Roster.DefaultsInvisibleToScan | RFID.py:629-643 | when no default user's label holds `" - "`, whatever `add_default_users` appends is invisible to the scan |
| Roster.DashedLabelIsFound | RFID.py:577 | the label written for the name `a - b` is the entry of uid `a`: for a clean `a`, a trimmed `b`, a trimmed role without `(` and a label of `b` without `" - "`, on a roster not mentioning `a`, the scan for `a` returns name `b` |
| Events.ParseLine | RFID.py:389-392 | a line is ignored exactly when it lacks `Card UID:`; it raises IndexError exactly when it has the marker but no `": "`; a read uid is stripped |
| Events.MarkerHasNoColonSpace | RFID.py:390 | no `": "` starts inside `Card UID:` |
| Events.TagLineRoundTrip | RFID.py:389-392 | for `"Card UID: " + u`, with `u` trimmed and free of `": "`, the uid read is `u` |
| Events.EmptyUidIsTruncated | RFID.py:382 | the stripped line `Card UID:` of an empty uid raises IndexError |
| Events.MarkerSplit | RFID.py:392 | `"Card UID: " + u` splits into `"Card UID"` and the parts of `u` |
| Events.ScanSplit | RFID.py:392 | `"Scan: " + rest` splits into `"Scan"` and the parts of `rest` |
| Events.SplitPrefixedLine | RFID.py:392 | a line with a prefix before the marker splits first at the prefix's `": "` |
| Events.FirstColonWins | RFID.py:392 | the uid is cut at the first `": "` of the line: after a prefix `"Scan: "` it reads `"Card UID"` |
| Slots.OccupantUid | RFID.py:443-444 | an occupant uid is read exactly when the user info contains `" - "` |
| Slots.HeldFromSpec | RFID.py:438-446 | the search stops at the first slot held by the uid, and finds none only when there is none |
| Slots.SlotOfSpec | RFID.py:438-451 | the toggle picks the lowest-index slot held by the uid, and picks none exactly when it holds none |
| Slots.AssignableFrom | RFID.py:492-498 | the indices listed are ascending and are exactly the assignable slots from the start index on |
| Slots.AssignableSlots | RFID.py:492-498 | the offered slots are exactly those `Available` or `Denied`, in ascending index order |
| Slots.FirstAssignable | RFID.py:534-537 | the first offered slot is the lowest-index assignable one |
| Slots.Occupy | RFID.py:521-531 | the chosen slot takes the occupant only if it is `Available` or `Denied`; an occupied slot is never overwritten; no other slot changes |
| Slots.MarkDenied | RFID.py:532-542 | the lowest-index assignable slot becomes `Denied` with its user info cleared; occupied slots never change; with every slot occupied nothing changes |
| Slots.FirstOccupiedFrom | RFID.py:545-547 | the first occupied slot from an index on, or none when there is none |
| Slots.OccupantIsClean | RFID.py:551 | a uid read back from a user info text is clean |
| Slots.EntryOccupant | RFID.py:444 | for a clean uid, the user info written on assignment reads back the uid it was written with |
| Slots.Rename | RFID.py:544-553 | the slots after `update_user_info` (characterised by `RenameKeepsOccupants` and `RenameReadsBack`) |
| Slots.RenameKeepsOccupants | RFID.py:544-553 | the rename changes at most the first occupied slot, only its user info, and never the uid the toggle reads; when that slot's text names a uid `u`, its new text is exactly `u - name (role)` |
| Slots.RenameReadsBack | RFID.py:544-553 | when the first occupied slot names a uid, and for a trimmed name, a trimmed role without `(` and a label without `" - "`, the renamed text keeps that uid and parses back to the new name and role |
| Slots.Toggle | RFID.py:436-454 | the release or the offer `handle_user_access` makes, with the slots after it (characterised by `ToggleSpec`) |
| Slots.ToggleSpec | RFID.py:436-454 | the toggle frees exactly the first slot the card holds; it offers the assignable slots, changing nothing, exactly when the card holds none |
| Slots.ParkThenPresentFrees | RFID.py:519-531 | a card with a clean uid that held no slot, parked in an assignable slot `i`, frees slot `i` when it is presented again, and every other slot is as before |
| Slots.SameCardCanHoldTwoSlots | RFID.py:513-531 | assignment never checks whether the card already holds a slot |
| Controller.Welcome | RFID.py:397 | the greeting `Welcome, name (role)` logged for a recognised card |
| Controller.AccessLog | RFID.py:449-450 | the toggle logs at most one line |
| Controller.DefaultsLog | RFID.py:643 | `add_default_users` logs one line per label it appends, `Added default user: ` followed by that label, in order |
| Controller.DefaultsLogCons | RFID.py:643 | the log of a first label followed by more labels is that label's line, then the rest |
| Controller.ParkingController.constructor | RFID.py:72-124 | four free slots, the provisioned users and their index, the loaded rosters, then `add_default_users` |
| Controller.ParkingController.AddDefaultUsers | RFID.py:629-643 | the roster grows by exactly `DefaultsAdded`, with one log line per label; the file stays in step |
| Controller.ParkingController.PermittedMentions | RFID.py:646-648 | the substring test over the permitted roster |
| Controller.ParkingController.ProcessSerialData | RFID.py:389-417 | a non-card line changes nothing; a truncated line is only logged; a card line records the uid, then either opens on-boarding or greets the resolved user and toggles |
| Controller.ParkingController.Recognise | RFID.py:394-417 | table first, then scan: a resolved user is greeted and toggled, otherwise on-boarding with slots and log unchanged |
| Controller.ParkingController.Admit | RFID.py:396-399 | a recognised user is greeted, becomes current and has its slot toggled |
| Controller.ParkingController.FindPermittedUser | RFID.py:419-434 | the loop returns what the scan specifies |
| Controller.ParkingController.HandleUserAccess | RFID.py:436-454 | the slots and the log change as the toggle specifies |
| Controller.ParkingController.SelectSlot | RFID.py:513-517 | a selection occupies the slot when a current user exists, and otherwise marks a slot denied |
| Controller.ParkingController.UpdateParkingStatus | RFID.py:519-542 | the slots become the assignment or the denial marking, by the same three-way test |
| Controller.ParkingController.UpdateUserInfo | RFID.py:544-553 | the slots become the rename |
| Controller.ParkingController.AddPermittedUser | RFID.py:563-580 | a missing field or a closed port changes nothing; otherwise the command is sent, and a uid-less label is appended, logged and saved |
| Controller.ParkingController.AddDeniedUser | RFID.py:582-598 | a missing field or a closed port changes nothing; otherwise the command is sent, and the bare name is appended, logged and saved |
| Controller.ParkingController.ClearPermittedUsers | RFID.py:619-622 | the roster empties and the file is written; every uid in the trusted table still resolves as before |
| Controller.ParkingController.ClearDeniedUsers | RFID.py:624-627 | the denied roster empties, the file is written and the clear is logged |
| Controller.ParkingController.ClearLog | RFID.py:560-561 | the log is emptied and nothing else changes |
| Controller.ParkingController.AddToPermittedList | RFID.py:645-655 | the roster becomes `WithEntry`; a known uid changes neither the log nor the file |
| Controller.ParkingController.SaveUser | RFID.py:708-741 | empty input changes nothing; "permitted" enrols the user, makes it current and offers slots, and from then on the card resolves to it; "denied" appends to the denied roster and its log only, leaving the permitted roster, `default_users`, the table and the current user as they were |
| Controller.ParkingController.Enrol | RFID.py:721-727 | the user joins `default_users` and the table, and the roster becomes `WithEntry` |
| Controller.ParkingController.ShowSlotSelection | RFID.py:730-732 | the user becomes current and the assignable slots are offered |
| Controller.ParkingController.Trust | RFID.py:723-724 | the table stays the index of `default_users` after the append |

## Left out

- Widgets, styling, images and layout are left out. Only the texts the widgets hold are kept. The selection window is modelled as the list of slot indices it offers. The on-boarding dialog is modelled as the `AskNewUser` reaction followed by `SaveUser`.
- Serial port enumeration, connect and disconnect, and the reader thread (`read_serial`) are left out as I/O and concurrency. A line is handed to `ProcessSerialData` as a parameter. A write to the device is modelled as a `connected` flag plus the returned command.
- Controller.ParkingController.ProcessSerialData: a line with the marker but no `": "` raises IndexError in the source. The reader loop then logs "Error reading serial: …" and sleeps. The model returns `Malformed` after logging the raw line and leaves out the error line, which the reader loop writes.
- The clock is left out. The time text of a slot is `"Since " + now`, with `now` a parameter. Log messages are kept without their `[timestamp]` prefix.
- JSON file I/O is left out. `users.json` is the field `stored`, which every roster change sets to both rosters. At start-up it is an `Option<Snapshot>` parameter, so a file that exists but does not parse is not modelled.
- `messagebox` warnings and errors are modelled as outcomes (`InputRejected`, `MissingInput`, `NotConnected`) that change nothing.
- `current_user` is an `Option`, because the source creates the attribute only on the first recognised or on-boarded card and tests it with `hasattr`.
- Three behaviours of the code are easy to miss. The model follows the code:
  - The uid is cut at the first `": "` of the whole line, not after the marker (`Events.FirstColonWins`).
  - Nothing stops one card from holding two slots (`Slots.SameCardCanHoldTwoSlots`).
  - `clear_permitted_users` does not touch `user_lookup`, so on-boarded users stay recognised (`Controller.ParkingController.ClearPermittedUsers`).
