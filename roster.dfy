/**
 * The identity side of the controller: users, the display texts of the
 * permitted and denied rosters, the roster scan `find_permitted_user`, the
 * `user_lookup` table and the order in which a card's uid is resolved.
 */
module Roster {
  import opened Opt
  import opened Text

  /** One identity as the controller stores it: `{"uid", "name", "role"}`. */
  datatype User = User(uid: string, name: string, role: string)

  /** What `users.json` holds: the two rosters' display strings. */
  datatype Snapshot = Snapshot(permitted: seq<string>, denied: seq<string>)

  /** The separator between a uid and the rest of a roster or slot text. */
  const SEP := " - "

  /** The users provisioned at start-up. */
  const DEFAULT_USERS := [User("89 D3 9D 94", "Swaroop", "Admin"), User("13 D3 09 27", "Tester", "User")]

  /** `"name (role)"`: the text of a roster entry that carries no uid. */
  function Label(name: string, role: string): string {
    name + " (" + role + ")"
  }

  /** `"uid - name (role)"`: roster entries that carry a uid, and an occupied slot's user info. */
  function Entry(uid: string, name: string, role: string): string {
    uid + SEP + Label(name, role)
  }

  /** The serial command announcing a permitted user to the reader device. */
  function PermitCommand(uid: string, name: string, role: string): string {
    "ADD_PERMITTED:" + uid + ":" + name + ":" + role + "\n"
  }

  /** The serial command announcing a denied user to the reader device. */
  function DenyCommand(uid: string, name: string): string {
    "ADD_DENIED:" + uid + ":" + name + "\n"
  }

  /**
   * No `" - "` starts inside `uid`, even one running on into a separator
   * that follows it: in `Entry(uid, ...)` the first `" - "` is the inserted one.
   */
  predicate CleanUid(uid: string) {
    !Contains(uid + " -", SEP)
  }

  /**
   * Name and role read back from the stripped `"name (role)"` part of a
   * roster text: it must hold a `(` and a `)`; the name is what precedes the
   * last `(`, the role what lies between the last `(` and the last `)` (empty
   * if they come in the other order), each stripped.
   */
  function ParseNameRole(nameRole: string): (r: Option<(string, string)>)
    ensures r.Some? <==> '(' in nameRole && ')' in nameRole
    ensures r.Some? ==> Trimmed(r.value.0) && Trimmed(r.value.1)
  {
    if '(' in nameRole && ')' in nameRole then
      var open := RFind(nameRole, '(');
      var close := RFind(nameRole, ')');
      Some((Strip(nameRole[..open]), Strip(if open < close then nameRole[open + 1..close] else "")))
    else None
  }

  /**
   * Name and role read back from one roster text: it must split into exactly
   * two parts at `" - "`, and the second part, stripped, must parse.
   */
  function ParseEntry(item: string): (r: Option<(string, string)>)
    ensures r.Some? ==> |Split(item, SEP)| == 2 && Contains(item, SEP)
    ensures r.Some? ==> Trimmed(r.value.0) && Trimmed(r.value.1)
  {
    var parts := Split(item, SEP);
    if |parts| != 2 then None else ParseNameRole(Strip(parts[1]))
  }

  /** A roster text the scan accepts for `uid`: it mentions `uid` anywhere and parses. */
  predicate Matches(item: string, uid: string) {
    Contains(item, uid) && ParseEntry(item).Some?
  }

  /** Some entry of the roster mentions `uid` as a substring. */
  predicate Mentions(roster: seq<string>, uid: string) {
    exists j :: 0 <= j < |roster| && Contains(roster[j], uid)
  }

  /** The position of the first element of `s` at or after `i` that satisfies `p`. */
  function FirstWhere<T>(s: seq<T>, p: T -> bool, i: nat): (r: Option<nat>)
    requires i <= |s|
    ensures r.Some? ==> i <= r.value < |s|
    decreases |s| - i
  {
    if i == |s| then None
    else if p(s[i]) then Some(i)
    else FirstWhere(s, p, i + 1)
  }

  /** The search stops at the first element satisfying `p`, and finds nothing only when no element from `i` on does. */
  lemma {:induction false} FirstWhereSpec<T>(s: seq<T>, p: T -> bool, i: nat)
    requires i <= |s|
    ensures FirstWhere(s, p, i).Some? ==> p(s[FirstWhere(s, p, i).value])
    ensures FirstWhere(s, p, i).Some? ==> forall k :: i <= k < FirstWhere(s, p, i).value ==> !p(s[k])
    ensures FirstWhere(s, p, i).None? ==> forall k :: i <= k < |s| ==> !p(s[k])
    decreases |s| - i
  {
    if i < |s| && !p(s[i]) {
      FirstWhereSpec(s, p, i + 1);
    }
  }

  /** The position of the first entry at or after `i` that the scan accepts for `uid`. */
  function FirstMatchFrom(roster: seq<string>, uid: string, i: nat): (r: Option<nat>)
    requires i <= |roster|
    ensures r.Some? ==> i <= r.value < |roster|
  {
    FirstWhere(roster, item => Matches(item, uid), i)
  }

  /** The scan stops at the first accepted entry at or after `i`, and finds nothing only when no entry there is accepted. */
  lemma FirstMatchFromSpec(roster: seq<string>, uid: string, i: nat)
    requires i <= |roster|
    ensures FirstMatchFrom(roster, uid, i).Some? ==>
              Matches(roster[FirstMatchFrom(roster, uid, i).value], uid)
    ensures FirstMatchFrom(roster, uid, i).Some? ==>
              forall k :: i <= k < FirstMatchFrom(roster, uid, i).value ==> !Matches(roster[k], uid)
    ensures FirstMatchFrom(roster, uid, i).None? ==> forall k :: i <= k < |roster| ==> !Matches(roster[k], uid)
  {
    FirstWhereSpec(roster, item => Matches(item, uid), i);
  }

  /**
   * `find_permitted_user`: scans the permitted roster in order and returns
   * the name and role of the first entry that both mentions `uid` and parses.
   */
  function FindPermittedUser(roster: seq<string>, uid: string): (r: Option<(string, string)>)
    ensures r.Some? ==> Trimmed(r.value.0) && Trimmed(r.value.1)
  {
    match FirstMatchFrom(roster, uid, 0)
    case None => None
    case Some(j) => ParseEntry(roster[j])
  }

  /**
   * The scan finds nothing exactly when no entry both mentions `uid` and
   * parses; otherwise it returns the parse of the first entry that does.
   */
  lemma FindPermittedUserSpec(roster: seq<string>, uid: string)
    ensures var r := FindPermittedUser(roster, uid);
      && (r.None? <==> forall j :: 0 <= j < |roster| ==> !Matches(roster[j], uid))
      && (r.Some? ==> exists j :: && 0 <= j < |roster| && Contains(roster[j], uid) && r == ParseEntry(roster[j])
                                  && forall k :: 0 <= k < j ==> !Matches(roster[k], uid))
  {
    FirstMatchFromSpec(roster, uid, 0);
  }

  /** `user_lookup`: each uid keyed to the last user listed with it. */
  function Index(users: seq<User>): map<string, User> {
    if users == [] then map[]
    else
      var last := users[|users| - 1];
      Index(users[..|users| - 1])[last.uid := last]
  }

  /** A table that indexes `users` still indexes `users + [u]` once `u` is keyed into it. */
  lemma IndexAppend(users: seq<User>, lookup: map<string, User>, u: User)
    requires lookup == Index(users)
    ensures lookup[u.uid := u] == Index(users + [u])
  {
    assert (users + [u])[..|users|] == users;
  }

  /**
   * Resolution of a card's uid: the trusted table first, then the permitted
   * roster scan; `None` sends the card to on-boarding. The denied roster is
   * not an input: it never influences the outcome.
   */
  function Resolve(lookup: map<string, User>, roster: seq<string>, uid: string): (r: Option<User>)
    ensures uid in lookup ==> r == Some(lookup[uid])
  {
    if uid in lookup then Some(lookup[uid])
    else
      match FindPermittedUser(roster, uid)
      case Some(p) => Some(User(uid, p.0, p.1))
      case None => None
  }

  /**
   * A card goes to on-boarding exactly when the table lacks its uid and no
   * roster entry both mentions it and parses; a card found by the scan
   * keeps its own uid with the scanned name and role.
   */
  lemma ResolveSpec(lookup: map<string, User>, roster: seq<string>, uid: string)
    ensures var r := Resolve(lookup, roster, uid);
      && (r.None? <==> uid !in lookup && forall j :: 0 <= j < |roster| ==> !Matches(roster[j], uid))
      && (uid !in lookup && r.Some? ==>
            r.value.uid == uid && FindPermittedUser(roster, uid) == Some((r.value.name, r.value.role)))
  {
    FindPermittedUserSpec(roster, uid);
  }

  /** `add_to_permitted_list`: append `"uid - name (role)"` unless some entry already mentions `uid`. */
  function WithEntry(roster: seq<string>, uid: string, name: string, role: string): (r: seq<string>)
    ensures |roster| <= |r| <= |roster| + 1 && r[..|roster|] == roster
  {
    if Mentions(roster, uid) then roster else roster + [Entry(uid, name, role)]
  }

  /**
   * `add_default_users` from position `from` of `users` on: the labels
   * appended, in order, for the users whose uid no entry mentions yet.
   */
  function DefaultsAdded(roster: seq<string>, users: seq<User>, from: nat): (added: seq<string>)
    requires from <= |users|
    ensures |added| <= |users| - from
    decreases |users| - from
  {
    if from == |users| then []
    else
      var user := users[from];
      if Mentions(roster, user.uid) then DefaultsAdded(roster, users, from + 1)
      else
        var text := Label(user.name, user.role);
        [text] + DefaultsAdded(roster + [text], users, from + 1)
  }

  /** Every key of the trusted table leads to a user listed with that uid. */
  lemma {:induction false} IndexSound(users: seq<User>)
    ensures forall k :: k in Index(users) ==> Index(users)[k].uid == k && Index(users)[k] in users
  {
    if users != [] {
      var init, last := users[..|users| - 1], users[|users| - 1];
      IndexSound(init);
      forall k | k in Index(users)
        ensures Index(users)[k].uid == k && Index(users)[k] in users
      {
        if k != last.uid {
          assert Index(init)[k] in init;
        }
      }
    }
  }

  /** Every listed user's uid is a key of the table. */
  lemma {:induction false} IndexComplete(users: seq<User>)
    ensures forall j :: 0 <= j < |users| ==> users[j].uid in Index(users)
  {
    if users != [] {
      var init := users[..|users| - 1];
      IndexComplete(init);
      assert forall j :: 0 <= j < |init| ==> users[j] == init[j];
    }
  }

  /** A user listed after every other user with the same uid is the one the table holds. */
  lemma {:induction false} IndexLastWins(users: seq<User>, j: nat)
    requires j < |users|
    requires forall j' :: j < j' < |users| ==> users[j'].uid != users[j].uid
    ensures users[j].uid in Index(users) && Index(users)[users[j].uid] == users[j]
  {
    if j < |users| - 1 {
      var init := users[..|users| - 1];
      assert init[j] == users[j];
      IndexLastWins(init, j);
    }
  }

  // ---------------------------------------------------------------------------
  // Properties of the roster texts
  // ---------------------------------------------------------------------------

  /** An entry mentions its own uid. */
  lemma EntryMentionsUid(uid: string, name: string, role: string)
    ensures Contains(Entry(uid, name, role), uid)
  {
    PrefixContained(uid, SEP + Label(name, role));
    assert Entry(uid, name, role) == uid + (SEP + Label(name, role));
  }

  /** Splitting an entry at `" - "` gives back the uid first, when the uid is clean. */
  lemma {:induction false} EntrySplit(uid: string, name: string, role: string)
    requires CleanUid(uid)
    ensures Split(Entry(uid, name, role), SEP) == [uid] + Split(Label(name, role), SEP)
  {
    assert SEP[..|SEP| - 1] == " -";
    SplitAfterFirst(uid, SEP, Label(name, role));
  }

  /** Stripping a label removes only the blank before `(` when the name is empty. */
  lemma StripLabel(name: string, role: string)
    requires Trimmed(name)
    ensures Strip(Label(name, role)) == (if name == [] then [] else name + " ") + "(" + role + ")"
  {
    var inner := "(" + role + ")";
    if name == [] {
      assert Label(name, role) == " " + inner;
      StripPaddedStart(inner);
    } else {
      assert Trimmed(Label(name, role));
    }
  }

  /** In `pre + "(" + role + ")"` with no `(` in `role`, the last `(` and the last `)` enclose `role`. */
  lemma ParensAroundRole(pre: string, role: string)
    requires '(' !in role
    ensures var t := pre + "(" + role + ")";
      && '(' in t && ')' in t
      && RFind(t, '(') == |pre| && RFind(t, ')') == |t| - 1
      && t[..|pre|] == pre && t[|pre| + 1..|t| - 1] == role
  {
    var t := pre + "(" + role + ")";
    assert t[|pre|] == '(' && t[|t| - 1] == ')';
    forall j | |pre| < j < |t| - 1 ensures t[j] != '(' {
      assert t[j] == role[j - |pre| - 1];
    }
    var open := RFind(t, '(');
    assert open == |pre|;
    assert t[..|pre|] == pre;
    assert t[|pre| + 1..|t| - 1] == role;
  }

  /** The name-and-role parse inverts `Label` for a trimmed name and a trimmed role without `(`. */
  lemma {:induction false} ParseLabelRoundTrip(name: string, role: string)
    requires Trimmed(name) && Trimmed(role) && '(' !in role
    ensures ParseNameRole(Strip(Label(name, role))) == Some((name, role))
  {
    StripLabel(name, role);
    var pre: string := if name == [] then [] else name + " ";
    ParensAroundRole(pre, role);
    if name != [] {
      StripPaddedEnd(name);
    }
  }

  /**
   * Round trip: the text `add_to_permitted_list` writes parses back to the
   * name and role it was written from.
   */
  lemma {:induction false} ParseEntryRoundTrip(uid: string, name: string, role: string)
    requires CleanUid(uid) && !Contains(Label(name, role), SEP)
    requires Trimmed(name) && Trimmed(role) && '(' !in role
    ensures ParseEntry(Entry(uid, name, role)) == Some((name, role))
  {
    EntrySplit(uid, name, role);
    assert Split(Entry(uid, name, role), SEP) == [uid, Label(name, role)];
    ParseLabelRoundTrip(name, role);
  }

  /** A label written without a uid is never returned by the scan. */
  lemma LabelNeverParses(name: string, role: string)
    requires !Contains(Label(name, role), SEP)
    ensures ParseEntry(Label(name, role)) == None
  {
  }

  /**
   * Appending a uid-less label (as `add_permitted_user` and
   * `add_default_users` do) never changes what the scan finds for any uid.
   */
  lemma {:induction false} LabelInvisibleToScan(roster: seq<string>, name: string, role: string, uid: string)
    requires !Contains(Label(name, role), SEP)
    ensures FindPermittedUser(roster + [Label(name, role)], uid) == FindPermittedUser(roster, uid)
  {
    var grown := roster + [Label(name, role)];
    LabelNeverParses(name, role);
    assert !Matches(grown[|roster|], uid);
    ScanIgnoresTail(roster, grown, uid, 0);
  }

  /** Appending entries the scan rejects leaves the scan's result unchanged. */
  lemma {:induction false} ScanIgnoresTail(roster: seq<string>, grown: seq<string>, uid: string, i: nat)
    requires i <= |grown| && |roster| <= |grown| && grown[..|roster|] == roster
    requires forall k :: |roster| <= k < |grown| ==> !Matches(grown[k], uid)
    ensures FirstMatchFrom(grown, uid, i) == if i <= |roster| then FirstMatchFrom(roster, uid, i) else None
    decreases |grown| - i
  {
    if i < |grown| {
      if i < |roster| {
        assert grown[i] == roster[i];
      }
      ScanIgnoresTail(roster, grown, uid, i + 1);
    }
  }

  /**
   * Round trip with the scan: after `add_to_permitted_list` on a roster that
   * did not mention `uid`, the scan returns exactly the name and role added.
   */
  lemma {:induction false} AddedEntryIsFound(roster: seq<string>, uid: string, name: string, role: string)
    requires !Mentions(roster, uid)
    requires CleanUid(uid) && !Contains(Label(name, role), SEP)
    requires Trimmed(name) && Trimmed(role) && '(' !in role
    ensures FindPermittedUser(WithEntry(roster, uid, name, role), uid) == Some((name, role))
  {
    var grown := WithEntry(roster, uid, name, role);
    assert grown == roster + [Entry(uid, name, role)];
    EntryMentionsUid(uid, name, role);
    ParseEntryRoundTrip(uid, name, role);
    assert Matches(grown[|roster|], uid);
    forall k | 0 <= k < |roster| ensures !Matches(grown[k], uid) {
      assert grown[k] == roster[k];
    }
    var g := FirstMatchFrom(grown, uid, 0);
    FirstMatchFromSpec(grown, uid, 0);
    assert g == Some(|roster|);
  }

  /** `add_to_permitted_list` is idempotent. */
  lemma {:induction false} WithEntryIdempotent(roster: seq<string>, uid: string, name: string, role: string)
    ensures WithEntry(WithEntry(roster, uid, name, role), uid, name, role) == WithEntry(roster, uid, name, role)
  {
    if !Mentions(roster, uid) {
      var grown := roster + [Entry(uid, name, role)];
      EntryMentionsUid(uid, name, role);
      assert Contains(grown[|roster|], uid);
      assert Mentions(grown, uid);
    }
  }

  /**
   * `add_default_users` is not idempotent across restarts: the labels it
   * writes carry no uid, so on the next start (the saved roster reloaded)
   * both default users are appended again.
   */
  lemma DefaultsAddedAgainOnRestart()
    ensures DefaultsAdded([], DEFAULT_USERS, 0) == ["Swaroop (Admin)", "Tester (User)"]
    ensures DefaultsAdded(["Swaroop (Admin)", "Tester (User)"], DEFAULT_USERS, 0) == ["Swaroop (Admin)", "Tester (User)"]
  {
    var a, b := "Swaroop (Admin)", "Tester (User)";
    var u0, u1 := DEFAULT_USERS[0], DEFAULT_USERS[1];
    assert Label(u0.name, u0.role) == a && Label(u1.name, u1.role) == b;
    assert !Mentions([], u0.uid);
    FirstCharMissing(a, u0.uid);
    FirstCharMissing(a, u1.uid);
    FirstCharMissing(b, u0.uid);
    FirstCharMissing(b, u1.uid);
    assert !Mentions([a], u1.uid);
    assert !Mentions([a, b], u0.uid);
    assert !Mentions([a, b, a], u1.uid);
  }

  /**
   * Whatever `add_default_users` appends is invisible to the scan: the
   * labels carry no `" - "`, so start-up never makes a card resolvable.
   */
  lemma {:induction false} DefaultsInvisibleToScan(roster: seq<string>, users: seq<User>, from: nat, uid: string)
    requires from <= |users|
    requires forall u :: u in users ==> !Contains(Label(u.name, u.role), SEP)
    ensures FindPermittedUser(roster + DefaultsAdded(roster, users, from), uid) == FindPermittedUser(roster, uid)
    decreases |users| - from
  {
    if from < |users| {
      var user := users[from];
      if Mentions(roster, user.uid) {
        DefaultsInvisibleToScan(roster, users, from + 1, uid);
      } else {
        var text := Label(user.name, user.role);
        var rest := DefaultsAdded(roster + [text], users, from + 1);
        assert DefaultsAdded(roster, users, from) == [text] + rest;
        AppendAssoc(roster, [text], rest);
        DefaultsInvisibleToScan(roster + [text], users, from + 1, uid);
        assert user in users;
        LabelInvisibleToScan(roster, user.name, user.role, uid);
      }
    } else {
      assert roster + DefaultsAdded(roster, users, from) == roster;
    }
  }

  /**
   * A name typed with `" - "` in it defeats the "no uid" reading of a label:
   * the label `add_permitted_user` writes for the name `a + " - " + b` is
   * the entry of uid `a`, so the scan for `a` returns the name `b`.
   */
  lemma {:induction false} DashedLabelIsFound(roster: seq<string>, a: string, b: string, role: string)
    requires !Mentions(roster, a)
    requires CleanUid(a) && !Contains(Label(b, role), SEP)
    requires Trimmed(b) && Trimmed(role) && '(' !in role
    ensures FindPermittedUser(roster + [Label(a + SEP + b, role)], a) == Some((b, role))
  {
    assert Label(a + SEP + b, role) == Entry(a, b, role);
    AddedEntryIsFound(roster, a, b, role);
  }
}
