/** Offboarding a directory account and undoing it: a snapshot is taken while
    the account is disabled, stripped of its groups and moved, and undo replays
    the snapshot backwards. */
module Offboard {
  import opened Text
  import opened Utf8
  import opened LdapDn

  datatype User = User(dn: string, enabled: bool, groups: set<string>)

  datatype Snapshot = Snapshot(originalOu: string, groups: seq<string>, newDn: string)

  // ----- Leaf and parent --------------------------------------------------

  /** The scripts cut a name at its first comma, escaped or not. */
  function ScriptLeaf(dn: string): string { dn[..IndexOf(dn, ',')] }

  function ScriptParent(dn: string): string {
    var i := IndexOf(dn, ',');
    if i < |dn| then dn[i + 1..] else ""
  }

  /** The directory keeps the whole first RDN when it moves an object. */
  function Relocated(dn: string, ou: string): string { SplitDn(dn)[0] + "," + ou }

  // ----- The operations ---------------------------------------------------

  /** Outcomes of the commands a script runs after its arguments are accepted:
      the guard (the object was found at the name given and is not protected),
      disabling or enabling, each group change, and the move. An error other
      than a group change ends the script without a result. */
  datatype Env = Env(guarded: bool, switched: bool, changes: string -> bool, moved: bool)

  function AsSet(gs: seq<string>): set<string> { set g | g in gs }

  function Changed(gs: seq<string>, changes: string -> bool): seq<string> {
    if gs == [] then [] else (if changes(gs[0]) then [gs[0]] else []) + Changed(gs[1..], changes)
  }

  /** The account after `offboard`, and the snapshot it returns. `memberOf` lists
      the account's groups in directory order. */
  function OffboardSpec(u: User, memberOf: seq<string>, dn: string, disabledOu: string, env: Env)
    : (User, Option<Snapshot>)
  {
    if !IsValidLdapDn(dn) || !IsValidLdapDn(disabledOu) || dn != u.dn || !env.guarded || !env.switched
    then (u, None) else
      var removed := Changed(memberOf, env.changes);
      var stripped := u.(enabled := false, groups := u.groups - AsSet(removed));
      if !env.moved then (stripped, None) else
        (stripped.(dn := Relocated(dn, disabledOu)),
         Some(Snapshot(ScriptParent(dn), removed, ScriptLeaf(dn) + "," + disabledOu)))
  }

  predicate AllValidDns(dns: seq<string>) { forall i :: 0 <= i < |dns| ==> IsValidLdapDn(dns[i]) }

  /** The account after `undo_offboard` and whether it reported success. The
      script names the moved account by the leaf it cut itself; a re-add to a
      name that is not the account's fails silently, enabling it is an error. */
  function UndoSpec(u: User, dn: string, snapshot: Snapshot, env: Env): (User, bool) {
    if !IsValidLdapDn(dn) || !IsValidLdapDn(snapshot.originalOu) || !AllValidDns(snapshot.groups)
       || dn != u.dn || !env.guarded || !env.moved
    then (u, false) else
      var at := Relocated(dn, snapshot.originalOu);
      var named := ScriptLeaf(dn) + "," + snapshot.originalOu;
      if named != at then (u.(dn := at), false) else
        var added := Changed(snapshot.groups, env.changes);
        (User(at, u.enabled || env.switched, u.groups + AsSet(added)), env.switched)
  }

  class Directory {
    var dn: string
    var enabled: bool
    var groups: set<string>

    ghost function View(): User reads this { User(dn, enabled, groups) }

    constructor (u: User)
      ensures View() == u
    {
      dn, enabled, groups := u.dn, u.enabled, u.groups;
    }

    /** Removes the account from each group in turn, collecting those that worked. */
    method StripGroups(memberOf: seq<string>, changes: string -> bool) returns (removed: seq<string>)
      modifies this`groups
      ensures removed == Changed(memberOf, changes)
      ensures groups == old(groups) - AsSet(removed)
    {
      removed := [];
      for i := 0 to |memberOf|
        invariant removed + Changed(memberOf[i..], changes) == Changed(memberOf, changes)
        invariant groups == old(groups) - AsSet(removed)
      {
        assert memberOf[i..][1..] == memberOf[i + 1..];
        if changes(memberOf[i]) {
          groups := groups - {memberOf[i]};
          removed := removed + [memberOf[i]];
        }
      }
    }

    method Offboard(memberOf: seq<string>, target: string, disabledOu: string, env: Env)
      returns (snapshot: Option<Snapshot>)
      modifies this
      ensures (View(), snapshot) == OffboardSpec(old(View()), memberOf, target, disabledOu, env)
    {
      var okTarget := CheckLdapDn(target);
      var okOu := CheckLdapDn(disabledOu);
      if !okTarget || !okOu || target != dn || !env.guarded || !env.switched {
        return None;
      }
      enabled := false;
      var removed := StripGroups(memberOf, env.changes);
      if !env.moved {
        return None;
      }
      dn := Relocated(target, disabledOu);
      snapshot := Some(Snapshot(ScriptParent(target), removed, ScriptLeaf(target) + "," + disabledOu));
    }

    /** Adds the account back to each group, by a name it may not have. */
    method AddGroups(captured: seq<string>, changes: string -> bool, named: string)
      modifies this`groups
      ensures groups == if named == dn then old(groups) + AsSet(Changed(captured, changes)) else old(groups)
    {
      ghost var added: seq<string> := [];
      for i := 0 to |captured|
        invariant added + Changed(captured[i..], changes) == Changed(captured, changes)
        invariant groups == if named == dn then old(groups) + AsSet(added) else old(groups)
      {
        assert captured[i..][1..] == captured[i + 1..];
        if changes(captured[i]) {
          if named == dn {
            groups := groups + {captured[i]};
          }
          added := added + [captured[i]];
        }
      }
    }

    method UndoOffboard(target: string, snapshot: Snapshot, env: Env) returns (ok: bool)
      modifies this
      ensures (View(), ok) == UndoSpec(old(View()), target, snapshot, env)
    {
      var okTarget := CheckLdapDn(target);
      var okOu := CheckLdapDn(snapshot.originalOu);
      if !okTarget || !okOu || !AllValidDns(snapshot.groups) || target != dn || !env.guarded || !env.moved {
        return false;
      }
      dn := Relocated(target, snapshot.originalOu);
      var named := ScriptLeaf(target) + "," + snapshot.originalOu;
      AddGroups(snapshot.groups, env.changes, named);
      if named != dn || !env.switched {
        return false;
      }
      enabled := true;
      ok := true;
    }
  }

  // ----- When the scripts refuse ------------------------------------------

  /** Offboarding returns a snapshot exactly when both names are valid, the name
      is the account's, the guard lets it through, and disabling and the move
      work. Unless it gets as far as disabling, the account is as it was. */
  lemma OffboardRefusesExactly(u: User, memberOf: seq<string>, dn: string, disabledOu: string, env: Env)
    ensures var (after, snapshot) := OffboardSpec(u, memberOf, dn, disabledOu, env);
            var admitted := IsValidLdapDn(dn) && IsValidLdapDn(disabledOu) && dn == u.dn && env.guarded && env.switched;
            && (snapshot.Some? <==> admitted && env.moved)
            && (!admitted ==> after == u)
            && (admitted ==> !after.enabled && after.groups == u.groups - AsSet(Changed(memberOf, env.changes)))
            && (admitted && !env.moved ==> after.dn == u.dn)
  {
  }

  /** Undoing succeeds exactly when all names are valid, the name is the
      account's, guard, move and enabling work, and the script's own name for the
      moved account is the real one. Unless the move is reached, the account is
      as it was. */
  lemma UndoRefusesExactly(u: User, dn: string, snapshot: Snapshot, env: Env)
    ensures var (after, ok) := UndoSpec(u, dn, snapshot, env);
            var admitted := && IsValidLdapDn(dn) && IsValidLdapDn(snapshot.originalOu) && AllValidDns(snapshot.groups)
                            && dn == u.dn && env.guarded && env.moved;
            && (ok <==> admitted && ScriptLeaf(dn) == SplitDn(dn)[0] && env.switched)
            && (!admitted ==> after == u)
            && (admitted ==> after.dn == SplitDn(dn)[0] + "," + snapshot.originalOu)
            && (admitted ==> after.enabled == (u.enabled || ok))
            && (admitted ==> after.groups == u.groups + (if ScriptLeaf(dn) == SplitDn(dn)[0]
                                                         then AsSet(Changed(snapshot.groups, env.changes)) else {}))
  {
    SameLeaf(ScriptLeaf(dn), SplitDn(dn)[0], snapshot.originalOu);
  }

  lemma SameLeaf(a: string, b: string, ou: string)
    ensures a + "," + ou == b + "," + ou <==> a == b
  {
    var tail := "," + ou;
    assert a + "," + ou == a + tail && b + "," + ou == b + tail;
    assert (a + tail)[..|a|] == a && (b + tail)[..|b|] == b;
    assert |a + tail| == |a| + |tail| && |b + tail| == |b| + |tail|;
  }

  // ----- Groups are conserved ---------------------------------------------

  lemma {:induction false} ChangedMembers(gs: seq<string>, changes: string -> bool, g: string)
    ensures g in Changed(gs, changes) <==> g in gs && changes(g)
  {
    if gs == [] {
    } else {
      ChangedMembers(gs[1..], changes, g);
    }
  }

  lemma StrippedGroups(groups: set<string>, memberOf: seq<string>, changes: string -> bool)
    requires AsSet(memberOf) == groups
    ensures groups - AsSet(Changed(memberOf, changes)) == (set g | g in groups && !changes(g))
    ensures AsSet(Changed(memberOf, changes)) == (set g | g in groups && changes(g))
  {
    forall g: string ensures g in Changed(memberOf, changes) <==> g in memberOf && changes(g) {
      ChangedMembers(memberOf, changes, g);
    }
  }

  /** Whichever group removals fail, the groups captured and the groups kept
      partition the original memberships. */
  lemma OffboardPartitionsGroups(u: User, memberOf: seq<string>, disabledOu: string, env: Env)
    requires AsSet(memberOf) == u.groups
    requires OffboardSpec(u, memberOf, u.dn, disabledOu, env).1.Some?
    ensures var (after, snapshot) := OffboardSpec(u, memberOf, u.dn, disabledOu, env);
            && after.groups + AsSet(snapshot.value.groups) == u.groups
            && after.groups !! AsSet(snapshot.value.groups)
            && after.groups == (set g | g in u.groups && !env.changes(g))
            && !after.enabled
  {
    StrippedGroups(u.groups, memberOf, env.changes);
  }

  /** A failed move reports no snapshot although the groups are already gone. */
  lemma FailedMoveLosesGroups(u: User, memberOf: seq<string>, disabledOu: string, env: Env)
    requires IsValidLdapDn(u.dn) && IsValidLdapDn(disabledOu) && env.guarded && env.switched && !env.moved
    requires AsSet(memberOf) == u.groups
    ensures OffboardSpec(u, memberOf, u.dn, disabledOu, env) ==
            (User(u.dn, false, set g | g in u.groups && !env.changes(g)), None)
  {
    StrippedGroups(u.groups, memberOf, env.changes);
  }

  // ----- When undo undoes -------------------------------------------------

  /** The account's own RDN holds no comma, escaped or not. */
  predicate CommaFreeLeaf(dn: string) { ',' !in SplitDn(dn)[0] }

  lemma DnIsLeafAndRest(dn: string)
    ensures |SplitDn(dn)| == 1 ==> dn == SplitDn(dn)[0]
    ensures |SplitDn(dn)| > 1 ==> dn == SplitDn(dn)[0] + "," + Join(SplitDn(dn)[1..], ",")
    ensures |SplitDn(dn)| > 1 ==> !Dangles(SplitDn(dn)[0], false)
    ensures NoBareComma(SplitDn(dn)[0], false)
  {
    JoinSplit(dn, false);
    SplitHasShape(dn, false);
  }

  lemma CutAtLeaf(leaf: string, ou: string)
    requires ',' !in leaf
    ensures ScriptLeaf(leaf + "," + ou) == leaf && ScriptParent(leaf + "," + ou) == ou
  {
    IndexOfAppend(leaf, ',', ou);
    assert (leaf + "," + ou)[..|leaf|] == leaf && (leaf + "," + ou)[|leaf| + 1..] == ou;
  }

  /** The script's leaf is the real one exactly when the leaf has no comma. */
  lemma ScriptLeafExactly(dn: string)
    ensures ScriptLeaf(dn) == SplitDn(dn)[0] <==> CommaFreeLeaf(dn)
  {
    DnIsLeafAndRest(dn);
    if CommaFreeLeaf(dn) && |SplitDn(dn)| > 1 {
      CutAtLeaf(SplitDn(dn)[0], Join(SplitDn(dn)[1..], ","));
    }
    assert ',' !in ScriptLeaf(dn);
  }

  lemma ValidDnLeaf(dn: string)
    requires IsValidLdapDn(dn)
    ensures !Dangles(SplitDn(dn)[0], false) && IsValidLdapDn(SplitDn(dn)[0])
    ensures |SplitDn(dn)| > 1 ==> IsValidLdapDn(Join(SplitDn(dn)[1..], ","))
  {
    DnIsLeafAndRest(dn);
    if |SplitDn(dn)| > 1 {
      ValidExactlyByParts(SplitDn(dn)[0], Join(SplitDn(dn)[1..], ","));
    }
  }

  /** The snapshot names the moved account exactly when the leaf has no comma. */
  lemma NewDnExactly(dn: string, ou: string)
    ensures ScriptLeaf(dn) + "," + ou == Relocated(dn, ou) <==> CommaFreeLeaf(dn)
  {
    ScriptLeafExactly(dn);
    if ScriptLeaf(dn) != SplitDn(dn)[0] {
      assert ScriptLeaf(dn) + "," + ou == ScriptLeaf(dn) + ("," + ou);
      assert Relocated(dn, ou) == SplitDn(dn)[0] + ("," + ou);
      SuffixCancels(ScriptLeaf(dn), SplitDn(dn)[0], "," + ou);
    }
  }

  /** Undo from where a comma-free leaf was moved to. */
  lemma UndoFromDisabled(
    leaf: string, ou: string, parent: string, kept: set<string>, captured: seq<string>, on: Env)
    requires ',' !in leaf && !Dangles(leaf, false) && NoBareComma(leaf, false)
    requires on.guarded && on.moved && on.switched
    ensures var at := leaf + "," + ou;
            UndoSpec(User(at, false, kept), at, Snapshot(parent, captured, at), on) ==
            if IsValidLdapDn(at) && IsValidLdapDn(parent) && AllValidDns(captured)
            then (User(leaf + "," + parent, true, kept + AsSet(Changed(captured, on.changes))), true)
            else (User(at, false, kept), false)
  {
    CutAtLeaf(leaf, ou);
    SplitFirst(leaf, false, ou);
  }

  /** The groups left once some were removed and some of those put back. */
  function Regained(groups: set<string>, off: Env, on: Env): set<string> {
    set g | g in groups && (off.changes(g) ==> on.changes(g))
  }

  /** For every offboarded account, undoing with the snapshot works exactly when
      the leaf has no comma, there is a parent to go back to, the moved name is
      not too long, and the captured groups pass the name validator. It then
      restores the name, enables the account, and gives back every group whose
      re-add did not fail: all of them, if none did. */
  lemma UndoWorksExactly(u: User, memberOf: seq<string>, disabledOu: string, off: Env, on: Env)
    requires AsSet(memberOf) == u.groups
    requires OffboardSpec(u, memberOf, u.dn, disabledOu, off).1.Some?
    requires on.guarded && on.moved && on.switched
    ensures var (gone, snapshot) := OffboardSpec(u, memberOf, u.dn, disabledOu, off);
            var (back, ok) := UndoSpec(gone, snapshot.value.newDn, snapshot.value, on);
            && (ok <==> CommaFreeLeaf(u.dn) && |SplitDn(u.dn)| > 1 && ByteLen(snapshot.value.newDn) <= 2048
                        && AllValidDns(snapshot.value.groups))
            && (ok ==> back == User(u.dn, true, Regained(u.groups, off, on)))
            && (ok && (forall g :: on.changes(g)) ==> back == u.(enabled := true))
  {
    NewDnExactly(u.dn, disabledOu);
    if CommaFreeLeaf(u.dn) {
      UndoCommaFree(u, memberOf, disabledOu, off, on);
      assert (forall g :: on.changes(g)) ==> Regained(u.groups, off, on) == u.groups;
    }
  }

  lemma LeafFacts(dn: string, ou: string)
    requires IsValidLdapDn(dn) && IsValidLdapDn(ou) && CommaFreeLeaf(dn)
    ensures var leaf := SplitDn(dn)[0];
            && !Dangles(leaf, false) && NoBareComma(leaf, false) && ScriptLeaf(dn) == leaf
            && (IsValidLdapDn(leaf + "," + ou) <==> ByteLen(leaf + "," + ou) <= 2048)
            && (IsValidLdapDn(ScriptParent(dn)) <==> |SplitDn(dn)| > 1)
            && (|SplitDn(dn)| > 1 ==> dn == leaf + "," + ScriptParent(dn))
  {
    var leaf := SplitDn(dn)[0];
    DnIsLeafAndRest(dn);
    ValidDnLeaf(dn);
    ScriptLeafExactly(dn);
    ValidExactlyByParts(leaf, ou);
    ByteLenConcat(leaf, ou);
    if |SplitDn(dn)| > 1 {
      CutAtLeaf(leaf, Join(SplitDn(dn)[1..], ","));
    }
  }

  lemma UndoCommaFree(u: User, memberOf: seq<string>, disabledOu: string, off: Env, on: Env)
    requires AsSet(memberOf) == u.groups && CommaFreeLeaf(u.dn)
    requires OffboardSpec(u, memberOf, u.dn, disabledOu, off).1.Some?
    requires on.guarded && on.moved && on.switched
    ensures var (gone, snapshot) := OffboardSpec(u, memberOf, u.dn, disabledOu, off);
            var (back, ok) := UndoSpec(gone, snapshot.value.newDn, snapshot.value, on);
            && (ok <==> |SplitDn(u.dn)| > 1 && ByteLen(snapshot.value.newDn) <= 2048
                        && AllValidDns(snapshot.value.groups))
            && (ok ==> back == User(u.dn, true, Regained(u.groups, off, on)))
  {
    var removed := Changed(memberOf, off.changes);
    LeafFacts(u.dn, disabledOu);
    UndoFromDisabled(SplitDn(u.dn)[0], disabledOu, ScriptParent(u.dn), u.groups - AsSet(removed), removed, on);
    RegainedGroups(u.groups, memberOf, off, on);
  }

  lemma RegainedGroups(groups: set<string>, memberOf: seq<string>, off: Env, on: Env)
    requires AsSet(memberOf) == groups
    ensures var removed := Changed(memberOf, off.changes);
            groups - AsSet(removed) + AsSet(Changed(removed, on.changes)) == Regained(groups, off, on)
  {
    var removed := Changed(memberOf, off.changes);
    forall g: string
      ensures g in removed <==> g in memberOf && off.changes(g)
      ensures g in Changed(removed, on.changes) <==> g in removed && on.changes(g)
    {
      ChangedMembers(memberOf, off.changes, g);
      ChangedMembers(removed, on.changes, g);
    }
  }

  lemma SuffixCancels(a: string, b: string, tail: string)
    requires a != b
    ensures a + tail != b + tail
  {
    if |a| == |b| {
      assert (a + tail)[..|a|] == a && (b + tail)[..|b|] == b;
    }
  }

  lemma {:induction false} SingleRdn(rdn: string)
    requires NoBareComma(rdn, false) && !Dangles(rdn, false) && IsValidRdn(rdn)
    requires AllAscii(rdn) && NoControl(rdn) && 0 < |rdn| <= 1000
    ensures SplitDn(rdn) == [rdn] && IsValidLdapDn(rdn) && ByteLen(rdn) == |rdn|
  {
    SplitFirst(rdn, false, []);
    EncodeAscii(rdn);
  }

  lemma EscapedComma(v: string)
    requires v == "\\,"
    ensures !Dangles(v, false) && NoBareComma(v, false)
  {
    assert v[1..] == ",";
    assert !Dangles(",", true) && NoBareComma(",", true);
  }

  lemma EscapedLeaf(leaf: string)
    requires leaf == "C=\\,"
    ensures SplitDn(leaf) == [leaf] && IsValidLdapDn(leaf) && ByteLen(leaf) == 4
  {
    assert leaf[1..] == "=\\," && leaf[1..][1..] == "\\," && leaf[1..][1..][1..] == ",";
    EscapedComma("\\,");
    RdnValid("C", "\\,");
    assert leaf == "C" + "=" + "\\,";
    SingleRdn(leaf);
  }

  lemma PlainOu(ou: string)
    requires ou == "O=A"
    ensures IsValidLdapDn(ou) && ByteLen(ou) == 3
  {
    assert ou[1..] == "=A" && ou[1..][1..] == "A";
    assert !Dangles("A", false) && NoBareComma("A", false);
    RdnValid("O", "A");
    assert ou == "O" + "=" + "A";
    SingleRdn(ou);
  }

  /** Offboarding an account without groups succeeds, and undoing it does not,
      although every command does. */
  ghost predicate Stranded(u: User, disabledOu: string, env: Env) {
    var (gone, snapshot) := OffboardSpec(u, [], u.dn, disabledOu, env);
    && env.guarded && env.moved && env.switched && u.groups == {}
    && snapshot.Some? && !UndoSpec(gone, snapshot.value.newDn, snapshot.value, env).1
  }

  /** An account with an escaped comma in its leaf, as in `CN=Doe\, Jane`, can
      be offboarded and not undone. */
  lemma EscapedCommaIsStranded() returns (u: User, disabledOu: string, env: Env)
    ensures Stranded(u, disabledOu, env)
  {
    var dn: string;
    dn, disabledOu := EscapedNames();
    u, env := User(dn, true, {}), Env(true, true, _ => true, true);
    CommaStrands(u, disabledOu, env);
  }

  lemma EscapedNames() returns (dn: string, ou: string)
    ensures IsValidLdapDn(dn) && IsValidLdapDn(ou) && !CommaFreeLeaf(dn)
  {
    var leaf := "C=\\,";
    ou := "O=A";
    EscapedLeaf(leaf);
    PlainOu(ou);
    assert leaf[3] == ',';
    dn := leaf + "," + ou;
    EscapedPair(leaf, ou);
  }

  lemma EscapedPair(leaf: string, ou: string)
    requires IsValidLdapDn(leaf) && IsValidLdapDn(ou) && ByteLen(leaf) + 1 + ByteLen(ou) <= 2048
    requires SplitDn(leaf) == [leaf] && ',' in leaf
    ensures IsValidLdapDn(leaf + "," + ou) && !CommaFreeLeaf(leaf + "," + ou)
  {
    ValidExactlyByParts(leaf, ou);
    SplitConcat(leaf, false, ou);
  }

  lemma CommaStrands(u: User, ou: string, env: Env)
    requires IsValidLdapDn(u.dn) && IsValidLdapDn(ou) && !CommaFreeLeaf(u.dn) && u.groups == {}
    requires env.guarded && env.moved && env.switched
    ensures Stranded(u, ou, env)
  {
    UndoWorksExactly(u, [], ou, env, env);
  }

  lemma RdnValid(attr: string, value: string)
    requires IsWord(attr) && |attr| <= 32 && '=' !in attr && AllAscii(attr)
    requires forall i :: 0 <= i < |attr| ==> IsAlphanumeric(attr[i])
    requires value != [] && Trimmed(value)
    ensures IsValidRdn(attr + "=" + value)
  {
    SplitOnceAt(attr, '=', value);
    TrimFixed(attr);
    TrimFixed(value);
    EncodeAscii(attr);
  }
}
