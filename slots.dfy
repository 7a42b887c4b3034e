/**
 * The four parking slots and the rules that rewrite them: which slots are
 * offered for selection, whose card a slot holds (the toggle), assignment,
 * denial marking and the occupant rename.
 */
module Slots {
  import opened Opt
  import opened Text
  import opened Roster

  /** The number of slots the controller builds. */
  const NUM_SLOTS := 4

  /** The text a slot's status label shows. */
  datatype Status = Available | Occupied | Denied

  /** One slot: its status label, its time label and its user-info label. */
  datatype Slot = Slot(status: Status, time: string, userInfo: string)

  /** A slot as built at start-up and as left by a release. */
  const FREE := Slot(Available, "", "")

  /** The time label written when a slot is taken or marked denied. */
  function Since(now: string): string {
    "Since " + now
  }

  /** A slot that may be chosen: `Available` or `Denied`. */
  predicate IsAssignable(s: Slot) {
    s.status == Available || s.status == Denied
  }

  /** The uid recorded in a user-info text: what precedes its first `" - "`. */
  function OccupantUid(info: string): (r: Option<string>)
    ensures r.Some? <==> Contains(info, SEP)
  {
    if Contains(info, SEP) then Some(Split(info, SEP)[0]) else None
  }

  /** The slot is occupied by the card `uid`, as the toggle test reads it. */
  predicate HeldBy(s: Slot, uid: string) {
    s.status == Occupied && OccupantUid(s.userInfo) == Some(uid)
  }

  /** The first slot at or after `i` held by `uid`. */
  function HeldFrom(slots: seq<Slot>, uid: string, i: nat): (r: Option<nat>)
    requires i <= |slots|
    ensures r.Some? ==> i <= r.value < |slots|
  {
    FirstWhere(slots, s => HeldBy(s, uid), i)
  }

  /** The search from `i` stops at the first held slot, and finds none only when no slot from `i` on is held. */
  lemma HeldFromSpec(slots: seq<Slot>, uid: string, i: nat)
    requires i <= |slots|
    ensures HeldFrom(slots, uid, i).Some? ==> HeldBy(slots[HeldFrom(slots, uid, i).value], uid)
    ensures HeldFrom(slots, uid, i).Some? ==>
              forall k :: i <= k < HeldFrom(slots, uid, i).value ==> !HeldBy(slots[k], uid)
    ensures HeldFrom(slots, uid, i).None? ==> forall k :: i <= k < |slots| ==> !HeldBy(slots[k], uid)
  {
    FirstWhereSpec(slots, s => HeldBy(s, uid), i);
  }

  /** The slot the toggle frees for `uid`: the lowest-index slot it holds. */
  function SlotOf(slots: seq<Slot>, uid: string): (r: Option<nat>)
    ensures r.Some? ==> r.value < |slots|
  {
    HeldFrom(slots, uid, 0)
  }

  /** The toggle finds the lowest-index slot `uid` holds, and finds none exactly when it holds none. */
  lemma SlotOfSpec(slots: seq<Slot>, uid: string)
    ensures SlotOf(slots, uid).Some? ==> HeldBy(slots[SlotOf(slots, uid).value], uid)
    ensures SlotOf(slots, uid).Some? ==> forall k :: 0 <= k < SlotOf(slots, uid).value ==> !HeldBy(slots[k], uid)
    ensures SlotOf(slots, uid).None? <==> forall k :: 0 <= k < |slots| ==> !HeldBy(slots[k], uid)
  {
    HeldFromSpec(slots, uid, 0);
  }

  /** What `handle_user_access` does for a recognised card. */
  datatype Toggled = Released(slot: nat) | Offered(choices: seq<nat>)

  /**
   * `handle_user_access` on the slot texts: the lowest-index slot `uid` holds
   * is freed; if it holds none, the assignable slots are offered and no slot changes.
   */
  function Toggle(slots: seq<Slot>, uid: string): (Toggled, seq<Slot>) {
    match SlotOf(slots, uid)
    case Some(k) => (Released(k), slots[k := FREE])
    case None => (Offered(AssignableSlots(slots)), slots)
  }

  /** The assignable slots at or after `i`, in ascending order. */
  function AssignableFrom(slots: seq<Slot>, i: nat): (r: seq<nat>)
    requires i <= |slots|
    ensures forall k :: 0 <= k < |r| ==> i <= r[k] < |slots| && IsAssignable(slots[r[k]])
    ensures forall j :: i <= j < |slots| && IsAssignable(slots[j]) ==> j in r
    ensures forall a, b :: 0 <= a < b < |r| ==> r[a] < r[b]
    decreases |slots| - i
  {
    if i == |slots| then []
    else if IsAssignable(slots[i]) then
      var rest := AssignableFrom(slots, i + 1);
      assert forall k :: 0 <= k < |rest| ==> i < rest[k];
      [i] + rest
    else AssignableFrom(slots, i + 1)
  }

  /** The slots the selection window offers: exactly the assignable ones, in ascending index order. */
  function AssignableSlots(slots: seq<Slot>): (r: seq<nat>)
    ensures forall j :: j in r <==> 0 <= j < |slots| && IsAssignable(slots[j])
    ensures forall a, b :: 0 <= a < b < |r| ==> r[a] < r[b]
  {
    AssignableFrom(slots, 0)
  }

  /** The first offered slot is the lowest-index assignable one. */
  lemma FirstAssignable(slots: seq<Slot>)
    requires AssignableSlots(slots) != []
    ensures var k := AssignableSlots(slots)[0];
      k < |slots| && IsAssignable(slots[k]) && forall j :: 0 <= j < k ==> !IsAssignable(slots[j])
  {
  }

  /**
   * The granted branch of `update_parking_status`: slot `i` takes the
   * occupant text `info` if it was `Available` or `Denied`; an occupied slot
   * is never overwritten and no other slot changes.
   */
  function Occupy(slots: seq<Slot>, i: nat, info: string, now: string): (r: seq<Slot>)
    requires i < |slots|
    ensures |r| == |slots| && forall j :: 0 <= j < |slots| && j != i ==> r[j] == slots[j]
    ensures IsAssignable(slots[i]) ==> r[i] == Slot(Occupied, Since(now), info)
    ensures !IsAssignable(slots[i]) ==> r == slots
  {
    if IsAssignable(slots[i]) then slots[i := Slot(Occupied, Since(now), info)] else slots
  }

  /**
   * The denial branch of `update_parking_status`: the lowest-index
   * assignable slot becomes `Denied` with its user info cleared.
   */
  function MarkDenied(slots: seq<Slot>, now: string): (r: seq<Slot>)
    ensures |r| == |slots|
    ensures forall j :: 0 <= j < |slots| && slots[j].status == Occupied ==> r[j] == slots[j]
    ensures (forall j :: 0 <= j < |slots| ==> !IsAssignable(slots[j])) ==> r == slots
    ensures forall k :: 0 <= k < |slots| && IsAssignable(slots[k]) && (forall j :: 0 <= j < k ==> !IsAssignable(slots[j]))
              ==> r == slots[k := Slot(Denied, Since(now), "")]
  {
    var free := AssignableSlots(slots);
    if free == [] then slots
    else
      FirstAssignable(slots);
      slots[free[0] := Slot(Denied, Since(now), "")]
  }

  /** The first occupied slot at or after `i`. */
  function FirstOccupiedFrom(slots: seq<Slot>, i: nat): (r: Option<nat>)
    requires i <= |slots|
    ensures r.Some? ==> i <= r.value < |slots| && slots[r.value].status == Occupied
    ensures r.Some? ==> forall k :: i <= k < r.value ==> slots[k].status != Occupied
    ensures r.None? ==> forall k :: i <= k < |slots| ==> slots[k].status != Occupied
    decreases |slots| - i
  {
    if i == |slots| then None
    else if slots[i].status == Occupied then Some(i)
    else FirstOccupiedFrom(slots, i + 1)
  }

  /**
   * `update_user_info`: only the first occupied slot is looked at; if its
   * user info holds a `" - "`, the name and role after the uid are replaced.
   */
  function Rename(slots: seq<Slot>, name: string, role: string): seq<Slot> {
    match FirstOccupiedFrom(slots, 0)
    case None => slots
    case Some(k) =>
      match OccupantUid(slots[k].userInfo)
      case None => slots
      case Some(uid) => slots[k := slots[k].(userInfo := Entry(uid, name, role))]
  }

  // ---------------------------------------------------------------------------
  // Properties of the slot rules
  // ---------------------------------------------------------------------------

  /** The uid read back from a user-info text is clean: an entry rebuilt from it reads back the same uid. */
  lemma OccupantIsClean(info: string)
    requires OccupantUid(info).Some?
    ensures CleanUid(OccupantUid(info).value)
  {
    FirstPartIsClean(info, SEP);
    assert SEP[..|SEP| - 1] == " -";
  }

  /** The occupant text written on assignment reads back the uid it was written with. */
  lemma {:induction false} EntryOccupant(uid: string, name: string, role: string)
    requires CleanUid(uid)
    ensures OccupantUid(Entry(uid, name, role)) == Some(uid)
  {
    var e := Entry(uid, name, role);
    assert e[|uid|..|uid| + |SEP|] == SEP;
    assert OccursAt(e, SEP, |uid|);
    EntrySplit(uid, name, role);
  }

  /**
   * The rename changes at most the first occupied slot, only its user info,
   * and never the uid the toggle reads from it.
   */
  lemma {:induction false} RenameKeepsOccupants(slots: seq<Slot>, name: string, role: string)
    ensures var r := Rename(slots, name, role);
      && |r| == |slots|
      && (forall j :: 0 <= j < |slots| ==> r[j].status == slots[j].status && r[j].time == slots[j].time)
      && (forall j :: 0 <= j < |slots| ==> OccupantUid(r[j].userInfo) == OccupantUid(slots[j].userInfo))
      && (forall j :: 0 <= j < |slots| && r[j] != slots[j] ==>
            slots[j].status == Occupied && forall k :: 0 <= k < j ==> slots[k].status != Occupied)
      && (forall k, u :: FirstOccupiedFrom(slots, 0) == Some(k) && OccupantUid(slots[k].userInfo) == Some(u) ==>
            r[k].userInfo == Entry(u, name, role))
  {
    match FirstOccupiedFrom(slots, 0)
    case None =>
    case Some(k) =>
      match OccupantUid(slots[k].userInfo)
      case None =>
      case Some(uid) =>
        OccupantIsClean(slots[k].userInfo);
        EntryOccupant(uid, name, role);
  }

  /**
   * The rename writes what the scan and the toggle read back: the first
   * occupied slot's text keeps its uid and, for a trimmed name and role
   * without `(` whose label holds no `" - "`, parses to the new name and role.
   */
  lemma {:induction false} RenameReadsBack(slots: seq<Slot>, name: string, role: string)
    requires FirstOccupiedFrom(slots, 0).Some?
    requires OccupantUid(slots[FirstOccupiedFrom(slots, 0).value].userInfo).Some?
    requires !Contains(Label(name, role), SEP) && Trimmed(name) && Trimmed(role) && '(' !in role
    ensures var k := FirstOccupiedFrom(slots, 0).value;
      var info := Rename(slots, name, role)[k].userInfo;
      && OccupantUid(info) == OccupantUid(slots[k].userInfo)
      && ParseEntry(info) == Some((name, role))
  {
    var k := FirstOccupiedFrom(slots, 0).value;
    var u := OccupantUid(slots[k].userInfo).value;
    OccupantIsClean(slots[k].userInfo);
    EntryOccupant(u, name, role);
    ParseEntryRoundTrip(u, name, role);
  }

  /**
   * The toggle releases exactly the lowest-index slot the card holds, and
   * offers the assignable slots, changing nothing, only when it holds none.
   */
  lemma ToggleSpec(slots: seq<Slot>, uid: string)
    ensures var (t, after) := Toggle(slots, uid);
      && |after| == |slots|
      && (t.Released? ==>
            && t.slot < |slots| && HeldBy(slots[t.slot], uid)
            && (forall k :: 0 <= k < t.slot ==> !HeldBy(slots[k], uid))
            && after == slots[t.slot := FREE])
      && (t.Offered? <==> forall k :: 0 <= k < |slots| ==> !HeldBy(slots[k], uid))
      && (t.Offered? ==> after == slots && t.choices == AssignableSlots(slots))
  {
    SlotOfSpec(slots, uid);
  }

  /**
   * Round trip of assignment and toggle: after a card with a clean uid that
   * held no slot is given an assignable slot `i`, presenting it again frees
   * slot `i` and leaves every other slot as it was before the assignment.
   */
  lemma {:induction false} ParkThenPresentFrees(slots: seq<Slot>, i: nat, uid: string, name: string, role: string, now: string)
    requires i < |slots| && IsAssignable(slots[i]) && CleanUid(uid)
    requires forall j :: 0 <= j < |slots| ==> !HeldBy(slots[j], uid)
    ensures Toggle(Occupy(slots, i, Entry(uid, name, role), now), uid) == (Released(i), slots[i := FREE])
  {
    var parked := Occupy(slots, i, Entry(uid, name, role), now);
    EntryOccupant(uid, name, role);
    assert HeldBy(parked[i], uid);
    forall j | 0 <= j < i ensures !HeldBy(parked[j], uid) {
      assert parked[j] == slots[j];
    }
    var k := SlotOf(parked, uid);
    SlotOfSpec(parked, uid);
    assert k == Some(i);
    assert parked[i := FREE] == slots[i := FREE];
  }

  /**
   * Nothing stops one card from holding two slots: assignment never checks
   * whether the card already holds one (two selection windows opened by two
   * reads of the same card both assign).
   */
  lemma {:induction false} SameCardCanHoldTwoSlots(slots: seq<Slot>, i: nat, j: nat, uid: string, name: string, role: string, now: string)
    requires i < |slots| && j < |slots| && i != j
    requires IsAssignable(slots[i]) && IsAssignable(slots[j]) && CleanUid(uid)
    ensures var info := Entry(uid, name, role);
      var twice := Occupy(Occupy(slots, i, info, now), j, info, now);
      HeldBy(twice[i], uid) && HeldBy(twice[j], uid)
  {
    EntryOccupant(uid, name, role);
  }
}
