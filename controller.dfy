/**
 * The parking controller itself: the state the window's widgets hold (four
 * slot records, the two roster list boxes, the access log), the trusted
 * table, and the handlers that read and rewrite that state.
 */
module Controller {
  import opened Opt
  import opened Text
  import opened Roster
  import opened Events
  import opened Slots

  /** How the controller answers a card line or an on-boarding save. */
  datatype Reaction =
    | Ignored                   // the line is not a card event
    | Malformed                 // marker without `": "`: IndexError, swallowed by the reader loop
    | Access(toggled: Toggled)  // a slot released, or the slot-selection window with its choices
    | AskNewUser(uid: string)   // the add-user dialog for an unknown card
    | InputRejected             // "Please fill in all fields": nothing changes
    | DenialRecorded            // on-boarding chose "denied"

  /** What a manual roster edit does towards the reader device. */
  datatype Egress =
    | MissingInput              // a required field is empty: warning, nothing changes
    | NotConnected              // no open serial port: error, nothing changes
    | Sent(command: string)     // the command written to the device

  /** The greeting logged for a recognised card. */
  function Welcome(u: User): string {
    "Welcome, " + Label(u.name, u.role)
  }

  /** The log lines `handle_user_access` writes: one when a slot is released. */
  function AccessLog(t: Toggled, name: string): (lines: seq<string>)
    ensures |lines| <= 1
  {
    if t.Released? then ["Slot freed for " + name] else []
  }

  /** The log lines `add_default_users` writes, one per appended label. */
  function DefaultsLog(added: seq<string>): (lines: seq<string>)
    ensures |lines| == |added|
    ensures forall k :: 0 <= k < |added| ==> lines[k] == "Added default user: " + added[k]
  {
    if added == [] then [] else ["Added default user: " + added[0]] + DefaultsLog(added[1..])
  }

  /** The log of a first label and further labels is that label's line, then the log of the rest. */
  lemma DefaultsLogCons(text: string, rest: seq<string>)
    ensures DefaultsLog([text] + rest) == ["Added default user: " + text] + DefaultsLog(rest)
  {
    assert ([text] + rest)[1..] == rest;
  }

  class ParkingController {
    /** The four slot rows, each (status, time, user info). */
    const slots: array<Slot>
    /** The permitted-users list box, top to bottom. */
    var permitted: seq<string>
    /** The denied-users list box, top to bottom. */
    var denied: seq<string>
    /** `default_users`: the provisioned users plus every user on-boarded as permitted. */
    var defaultUsers: seq<User>
    /** `user_lookup`: the trusted table consulted first. */
    var userLookup: map<string, User>
    /** The access log, oldest message first. */
    var log: seq<string>
    /** `current_uid`: absent until the first card line. */
    var currentUid: Option<string>
    /** `current_user`: absent until the first recognised or on-boarded card. */
    var currentUser: Option<User>
    /** The content of `users.json`; `None` while the file does not exist. */
    var stored: Option<Snapshot>

    /** Every roster change has been saved: the file holds both lists, or there is no file and both are empty. */
    ghost predicate Persisted()
      reads this`stored, this`permitted, this`denied
    {
      || stored == Some(Snapshot(permitted, denied))
      || (stored == None && permitted == [] && denied == [])
    }

    /** The trusted table is `default_users` keyed by uid, a later listing winning. */
    ghost predicate Indexed()
      reads this`userLookup, this`defaultUsers
    {
      userLookup == Index(defaultUsers)
    }

    /** The controller's invariant. */
    ghost predicate Valid()
      reads this
    {
      && slots.Length == NUM_SLOTS
      && Indexed()
      && (currentUser.Some? ==> currentUid.Some?)
      && Persisted()
    }

    /**
     * Start-up: four free slots, the provisioned users, the rosters loaded
     * from `saved` (`None` when `users.json` is missing), then `add_default_users`.
     */
    constructor (saved: Option<Snapshot>)
      ensures Valid() && fresh(slots)
      ensures slots[..] == [FREE, FREE, FREE, FREE]
      ensures defaultUsers == DEFAULT_USERS && userLookup == Index(DEFAULT_USERS)
      ensures var loaded := if saved.Some? then saved.value else Snapshot([], []);
        && permitted == loaded.permitted + DefaultsAdded(loaded.permitted, DEFAULT_USERS, 0)
        && denied == loaded.denied
        && log == DefaultsLog(DefaultsAdded(loaded.permitted, DEFAULT_USERS, 0))
      ensures currentUid == None && currentUser == None
    {
      slots := new Slot[NUM_SLOTS](_ => FREE);
      defaultUsers := DEFAULT_USERS;
      userLookup := Index(DEFAULT_USERS);
      log := [];
      currentUid := None;
      currentUser := None;
      var loaded := if saved.Some? then saved.value else Snapshot([], []);
      permitted := loaded.permitted;
      denied := loaded.denied;
      stored := saved;
      new;
      assert slots[..] == [FREE, FREE, FREE, FREE];
      AddDefaultUsers();
    }

    /**
     * `add_default_users`: for each user in `default_users`, append its
     * `"name (role)"` label unless some permitted entry already mentions
     * its uid; each append is saved and logged.
     */
    method AddDefaultUsers()
      requires Valid()
      modifies this`permitted, this`log, this`stored
      ensures Valid()
      ensures permitted == old(permitted) + DefaultsAdded(old(permitted), defaultUsers, 0)
      ensures log == old(log) + DefaultsLog(DefaultsAdded(old(permitted), defaultUsers, 0))
    {
      ghost var added := DefaultsAdded(permitted, defaultUsers, 0);
      ghost var finalRoster := permitted + added;
      ghost var finalLog := log + DefaultsLog(added);
      var i := 0;
      while i < |defaultUsers|
        invariant 0 <= i <= |defaultUsers|
        invariant Persisted()
        invariant permitted + DefaultsAdded(permitted, defaultUsers, i) == finalRoster
        invariant log + DefaultsLog(DefaultsAdded(permitted, defaultUsers, i)) == finalLog
      {
        var user := defaultUsers[i];
        var userExists := PermittedMentions(user.uid);
        if !userExists {
          var text := Label(user.name, user.role);
          ghost var rest := DefaultsAdded(permitted + [text], defaultUsers, i + 1);
          DefaultsLogCons(text, rest);
          AppendAssoc(permitted, [text], rest);
          AppendAssoc(log, ["Added default user: " + text], DefaultsLog(rest));
          permitted := permitted + [text];
          stored := Some(Snapshot(permitted, denied));
          log := log + ["Added default user: " + text];
        }
        i := i + 1;
      }
    }

    /** The scan `add_default_users` and `add_to_permitted_list` both make: does any permitted entry contain `uid`? */
    method PermittedMentions(uid: string) returns (found: bool)
      ensures found == Mentions(permitted, uid)
    {
      var i := 0;
      while i < |permitted|
        invariant 0 <= i <= |permitted|
        invariant forall k :: 0 <= k < i ==> !Contains(permitted[k], uid)
      {
        if Contains(permitted[i], uid) {
          return true;
        }
        i := i + 1;
      }
      return false;
    }

    /**
     * `process_serial_data`: a line with `Card UID:` is logged and its uid
     * recorded; the uid is resolved through the trusted table, then the
     * permitted roster; a recognised card is greeted and toggled, an unknown
     * one goes to on-boarding. The denied roster is never read.
     */
    method ProcessSerialData(data: string) returns (r: Reaction)
      requires Valid()
      modifies slots, this`log, this`currentUid, this`currentUser
      ensures Valid()
      ensures ParseLine(data) == NoMarker ==> r == Ignored && unchanged(this) && unchanged(slots)
      ensures ParseLine(data) == Truncated ==>
        && r == Malformed && log == old(log) + [data] && unchanged(slots)
        && currentUid == old(currentUid) && currentUser == old(currentUser)
      ensures ParseLine(data).CardRead? ==> currentUid == Some(ParseLine(data).uid)
      ensures ParseLine(data).CardRead? && Resolve(userLookup, permitted, ParseLine(data).uid).None? ==>
        && r == AskNewUser(ParseLine(data).uid) && log == old(log) + [data] && unchanged(slots)
        && currentUser == old(currentUser)
      ensures ParseLine(data).CardRead? && Resolve(userLookup, permitted, ParseLine(data).uid).Some? ==>
        var user := Resolve(userLookup, permitted, ParseLine(data).uid).value;
        var t := Toggle(old(slots[..]), ParseLine(data).uid);
        && currentUser == Some(user) && r == Access(t.0) && slots[..] == t.1
        && log == old(log) + [data] + [Welcome(user)] + AccessLog(t.0, user.name)
    {
      var line := ParseLine(data);
      if line == NoMarker {
        return Ignored;
      }
      log := log + [data];
      if line == Truncated {
        return Malformed;
      }
      currentUid := Some(line.uid);
      r := Recognise(line.uid);
    }

    /**
     * The rest of `process_serial_data` once the uid is recorded: the trusted
     * table first, then the permitted roster; a miss opens on-boarding.
     */
    method Recognise(uid: string) returns (r: Reaction)
      requires Valid() && currentUid == Some(uid)
      modifies slots, this`log, this`currentUser
      ensures Valid()
      ensures Resolve(userLookup, permitted, uid).None? ==>
        && r == AskNewUser(uid) && log == old(log) && unchanged(slots)
        && currentUser == old(currentUser)
      ensures Resolve(userLookup, permitted, uid).Some? ==>
        var user := Resolve(userLookup, permitted, uid).value;
        var t := Toggle(old(slots[..]), uid);
        && currentUser == Some(user) && r == Access(t.0) && slots[..] == t.1
        && log == old(log) + [Welcome(user)] + AccessLog(t.0, user.name)
    {
      if uid in userLookup {
        r := Admit(userLookup[uid]);
        return;
      }

      var found := FindPermittedUser(uid);
      if found.Some? {
        r := Admit(User(uid, found.value.0, found.value.1));
        return;
      }

      r := AskNewUser(uid);
    }

    /** A recognised card: greet `user`, make it the current user and toggle its slot. */
    method Admit(user: User) returns (r: Reaction)
      requires Valid() && currentUid.Some?
      modifies slots, this`log, this`currentUser
      ensures Valid() && currentUser == Some(user)
      ensures var t := Toggle(old(slots[..]), currentUid.value);
        r == Access(t.0) && slots[..] == t.1 && log == old(log) + [Welcome(user)] + AccessLog(t.0, user.name)
    {
      log := log + [Welcome(user)];
      currentUser := Some(user);
      r := HandleUserAccess();
    }

    /**
     * `find_permitted_user`: the first permitted entry that contains `uid`
     * and parses as `"uid - name (role)"` gives the name and role.
     */
    method FindPermittedUser(uid: string) returns (found: Option<(string, string)>)
      ensures found == Roster.FindPermittedUser(permitted, uid)
    {
      var i := 0;
      while i < |permitted|
        invariant 0 <= i <= |permitted|
        invariant FirstMatchFrom(permitted, uid, i) == FirstMatchFrom(permitted, uid, 0)
      {
        var item := permitted[i];
        if Contains(item, uid) {
          var parsed := ParseEntry(item);
          if parsed.Some? {
            return parsed;
          }
        }
        i := i + 1;
      }
      return None;
    }

    /**
     * `handle_user_access`: the first occupied slot whose user info starts
     * with the current uid before `" - "` is freed; if there is none, the
     * slot-selection window offers the assignable slots.
     */
    method HandleUserAccess() returns (r: Reaction)
      requires Valid() && currentUid.Some? && currentUser.Some?
      modifies slots, this`log
      ensures Valid()
      ensures var t := Toggle(old(slots[..]), currentUid.value);
        r == Access(t.0) && slots[..] == t.1 && log == old(log) + AccessLog(t.0, currentUser.value.name)
    {
      var uid := currentUid.value;
      var i := 0;
      while i < slots.Length
        invariant 0 <= i <= slots.Length
        invariant unchanged(slots) && log == old(log)
        invariant HeldFrom(slots[..], uid, i) == HeldFrom(slots[..], uid, 0)
      {
        var slot := slots[i];
        if slot.status == Occupied {
          var userText := slot.userInfo;
          if userText != "" && Contains(userText, SEP) {
            var storedUid := Split(userText, SEP)[0];
            if storedUid == uid {
              slots[i] := FREE;
              log := log + ["Slot freed for " + currentUser.value.name];
              return Access(Released(i));
            }
          }
        }
        i := i + 1;
      }
      r := Access(Offered(AssignableSlots(slots[..])));
    }

    /** `select_slot`: the operator picked slot `index` in the selection window. */
    method SelectSlot(index: nat, now: string)
      requires Valid() && index < NUM_SLOTS
      modifies slots
      ensures Valid()
      ensures slots[..] == if currentUser.Some?
        then Occupy(old(slots[..]), index, Entry(currentUid.value, currentUser.value.name, currentUser.value.role), now)
        else MarkDenied(old(slots[..]), now)
    {
      UpdateParkingStatus(true, Some(index), now);
    }

    /**
     * `update_parking_status`: with a slot index, a grant and a current user,
     * that slot is taken for the current uid if it is assignable; otherwise
     * the lowest-index assignable slot is marked denied.
     */
    method UpdateParkingStatus(granted: bool, slotIndex: Option<nat>, now: string)
      requires Valid() && (slotIndex.Some? ==> slotIndex.value < NUM_SLOTS)
      modifies slots
      ensures Valid()
      ensures slots[..] == if slotIndex.Some? && granted && currentUser.Some?
        then Occupy(old(slots[..]), slotIndex.value, Entry(currentUid.value, currentUser.value.name, currentUser.value.role), now)
        else MarkDenied(old(slots[..]), now)
    {
      if slotIndex.Some? && granted && currentUser.Some? {
        var i := slotIndex.value;
        var currentStatus := slots[i].status;
        if currentStatus == Available || currentStatus == Denied {
          var user := currentUser.value;
          slots[i] := Slot(Occupied, Since(now), Entry(currentUid.value, user.name, user.role));
        }
      } else {
        var i := 0;
        while i < slots.Length
          invariant 0 <= i <= slots.Length
          invariant unchanged(slots)
          invariant forall j :: 0 <= j < i ==> !IsAssignable(slots[j])
        {
          var currentStatus := slots[i].status;
          if currentStatus == Available || currentStatus == Denied {
            slots[i] := Slot(Denied, Since(now), "");
            return;
          }
          i := i + 1;
        }
      }
    }

    /**
     * `update_user_info`: the first occupied slot gets the new name and role
     * after its uid (when its text has a `" - "`); later slots are not looked at.
     */
    method UpdateUserInfo(name: string, role: string)
      requires Valid()
      modifies slots
      ensures Valid()
      ensures slots[..] == Rename(old(slots[..]), name, role)
    {
      var i := 0;
      while i < slots.Length
        invariant 0 <= i <= slots.Length
        invariant unchanged(slots)
        invariant FirstOccupiedFrom(slots[..], i) == FirstOccupiedFrom(slots[..], 0)
      {
        if slots[i].status == Occupied {
          var currentText := slots[i].userInfo;
          if Contains(currentText, SEP) {
            var uid := Split(currentText, SEP)[0];
            slots[i] := slots[i].(userInfo := Entry(uid, name, role));
          }
          return;
        }
        i := i + 1;
      }
    }

    /**
     * `add_permitted_user`: with uid, name and role all non-empty and the
     * port open, the command is sent and the uid-less label `"name (role)"`
     * is appended, saved and logged.
     */
    method AddPermittedUser(uid: string, name: string, role: string, connected: bool) returns (e: Egress)
      requires Valid()
      modifies this`permitted, this`log, this`stored
      ensures Valid()
      ensures uid == "" || name == "" || role == "" ==> e == MissingInput && unchanged(this)
      ensures uid != "" && name != "" && role != "" && !connected ==> e == NotConnected && unchanged(this)
      ensures uid != "" && name != "" && role != "" && connected ==>
        && e == Sent(PermitCommand(uid, name, role))
        && permitted == old(permitted) + [Label(name, role)]
        && log == old(log) + ["Added permitted user: " + Label(name, role)]
        && stored == Some(Snapshot(permitted, denied))
    {
      if uid == "" || name == "" || role == "" {
        return MissingInput;
      }
      var command := PermitCommand(uid, name, role);
      if connected {
        log := log + ["Added permitted user: " + Label(name, role)];
        permitted := permitted + [Label(name, role)];
        stored := Some(Snapshot(permitted, denied));
        e := Sent(command);
      } else {
        e := NotConnected;
      }
    }

    /**
     * `add_denied_user`: with uid and name non-empty and the port open, the
     * command is sent and the bare name is appended, saved and logged.
     */
    method AddDeniedUser(uid: string, name: string, connected: bool) returns (e: Egress)
      requires Valid()
      modifies this`denied, this`log, this`stored
      ensures Valid()
      ensures uid == "" || name == "" ==> e == MissingInput && unchanged(this)
      ensures uid != "" && name != "" && !connected ==> e == NotConnected && unchanged(this)
      ensures uid != "" && name != "" && connected ==>
        && e == Sent(DenyCommand(uid, name))
        && denied == old(denied) + [name]
        && log == old(log) + ["Added denied user: " + name]
        && stored == Some(Snapshot(permitted, denied))
    {
      if uid == "" || name == "" {
        return MissingInput;
      }
      var command := DenyCommand(uid, name);
      if connected {
        log := log + ["Added denied user: " + name];
        denied := denied + [name];
        stored := Some(Snapshot(permitted, denied));
        e := Sent(command);
      } else {
        e := NotConnected;
      }
    }

    /**
     * `clear_permitted_users`: the list box is emptied, saved and logged.
     * The trusted table is not touched, so every identity in it, including
     * every user on-boarded as permitted, is still recognised.
     */
    method ClearPermittedUsers()
      requires Valid()
      modifies this`permitted, this`log, this`stored
      ensures Valid()
      ensures permitted == [] && log == old(log) + ["Cleared permitted users list"]
      ensures stored == Some(Snapshot(permitted, denied))
      ensures forall uid :: Resolve(userLookup, permitted, uid) == (if uid in userLookup then Some(userLookup[uid]) else None)
    {
      permitted := [];
      stored := Some(Snapshot(permitted, denied));
      log := log + ["Cleared permitted users list"];
    }

    /** `clear_denied_users`: the list box is emptied, saved and logged; resolution is unaffected. */
    method ClearDeniedUsers()
      requires Valid()
      modifies this`denied, this`log, this`stored
      ensures Valid()
      ensures denied == [] && log == old(log) + ["Cleared denied users list"]
      ensures stored == Some(Snapshot(permitted, denied))
    {
      denied := [];
      stored := Some(Snapshot(permitted, denied));
      log := log + ["Cleared denied users list"];
    }

    /** `clear_log`: the log is emptied; nothing else changes. */
    method ClearLog()
      requires Valid()
      modifies this`log
      ensures Valid()
      ensures log == []
    {
      log := [];
    }

    /**
     * `add_to_permitted_list`: nothing happens when some entry already
     * mentions `uid`; otherwise `"uid - name (role)"` is appended, saved and logged.
     */
    method AddToPermittedList(uid: string, name: string, role: string)
      requires Valid()
      modifies this`permitted, this`log, this`stored
      ensures Valid()
      ensures permitted == WithEntry(old(permitted), uid, name, role)
      ensures Mentions(old(permitted), uid) ==> log == old(log) && stored == old(stored)
      ensures !Mentions(old(permitted), uid) ==> log == old(log) + ["Added to permitted users: " + Entry(uid, name, role)]
    {
      var userExists := PermittedMentions(uid);
      if userExists {
        return;
      }
      var userText := Entry(uid, name, role);
      permitted := permitted + [userText];
      stored := Some(Snapshot(permitted, denied));
      log := log + ["Added to permitted users: " + userText];
    }

    /**
     * `save_user`, the on-boarding dialog's Save button for card `uid`: the
     * name and role are stripped and must both be non-empty. "Permitted"
     * enrols the user (see `Enrol`); "denied" only appends the entry to the
     * denied roster, which resolution never reads.
     */
    method SaveUser(uid: string, nameText: string, roleText: string, asPermitted: bool) returns (r: Reaction)
      requires Valid() && currentUid.Some?
      modifies this`defaultUsers, this`userLookup, this`permitted, this`denied, this`log, this`stored, this`currentUser
      ensures Valid()
      ensures Strip(nameText) == "" || Strip(roleText) == "" ==> r == InputRejected && unchanged(this)
      ensures Strip(nameText) != "" && Strip(roleText) != "" && asPermitted ==>
        var user := User(uid, Strip(nameText), Strip(roleText));
        && r == Access(Offered(AssignableSlots(slots[..])))
        && defaultUsers == old(defaultUsers) + [user] && userLookup == old(userLookup)[uid := user]
        && permitted == WithEntry(old(permitted), uid, user.name, user.role) && denied == old(denied)
        && currentUser == Some(user)
        && Resolve(userLookup, permitted, uid) == Some(user)
      ensures Strip(nameText) != "" && Strip(roleText) != "" && asPermitted && Mentions(old(permitted), uid) ==>
        log == old(log)
      ensures Strip(nameText) != "" && Strip(roleText) != "" && asPermitted && !Mentions(old(permitted), uid) ==>
        log == old(log) + ["Added to permitted users: " + Entry(uid, Strip(nameText), Strip(roleText))]
      ensures Strip(nameText) != "" && Strip(roleText) != "" && !asPermitted ==>
        var userText := Entry(uid, Strip(nameText), Strip(roleText));
        && r == DenialRecorded
        && denied == old(denied) + [userText]
        && log == old(log) + ["Added to denied users: " + userText]
        && permitted == old(permitted) && userLookup == old(userLookup) && currentUser == old(currentUser)
        && defaultUsers == old(defaultUsers)
    {
      var name := Strip(nameText);
      var role := Strip(roleText);
      if name == "" || role == "" {
        return InputRejected;
      }
      if asPermitted {
        var user := User(uid, name, role);
        Enrol(user);
        r := ShowSlotSelection(user);
      } else {
        var userText := Entry(uid, name, role);
        denied := denied + [userText];
        stored := Some(Snapshot(permitted, denied));
        log := log + ["Added to denied users: " + userText];
        r := DenialRecorded;
      }
    }

    /**
     * The "permitted" branch of `save_user`, up to the roster: the user
     * joins `default_users` and the trusted table, and its entry is added to
     * the permitted roster.
     */
    method Enrol(user: User)
      requires Valid()
      modifies this`defaultUsers, this`userLookup, this`permitted, this`log, this`stored
      ensures Valid()
      ensures defaultUsers == old(defaultUsers) + [user] && userLookup == old(userLookup)[user.uid := user]
      ensures permitted == WithEntry(old(permitted), user.uid, user.name, user.role)
      ensures Mentions(old(permitted), user.uid) ==> log == old(log)
      ensures !Mentions(old(permitted), user.uid) ==> log == old(log) + ["Added to permitted users: " + Entry(user.uid, user.name, user.role)]
    {
      Trust(user);
      assert permitted == old(permitted) && log == old(log);
      AddToPermittedList(user.uid, user.name, user.role);
    }

    /** The rest of that branch: the user becomes current and slot selection opens. */
    method ShowSlotSelection(user: User) returns (r: Reaction)
      requires Valid() && currentUid.Some?
      modifies this`currentUser
      ensures Valid()
      ensures currentUser == Some(user)
      ensures r == Access(Offered(AssignableSlots(slots[..])))
    {
      currentUser := Some(user);
      r := Access(Offered(AssignableSlots(slots[..])));
    }

    /** `default_users.append` and `user_lookup[uid] = new_user`: the table stays the list's index. */
    method Trust(user: User)
      requires Valid()
      modifies this`defaultUsers, this`userLookup
      ensures Valid()
      ensures defaultUsers == old(defaultUsers) + [user] && userLookup == old(userLookup)[user.uid := user]
    {
      IndexAppend(defaultUsers, userLookup, user);
      defaultUsers, userLookup := defaultUsers + [user], userLookup[user.uid := user];
    }
  }
}
