/**
 * Properties that relate several operations: what a reader sees after a
 * mutator, round trips between adding and deleting, and the consequences of
 * the keeper's quirks (dangling markers, the first-group-only rename, the
 * substring selector test).
 */
module Scenarios {
  import opened Wrappers
  import opened Text
  import opened Replies
  import opened Resolver
  import opened Store
  import opened Mutations
  import opened Reader

  /** After a successful add, both the `--host` view and `showHostVars hosts:<h>` give exactly the supplied variables. */
  lemma AddThenRead(t: Tree, d: ZnodeDict)
    requires d.host !in t.hosts && !t.HasMarker(d.group, d.host)
    ensures AnsibleHostAccess(AddHostWithHostvars(t, d).tree, d.host) == Some(d.vars)
    ensures ShowHostVars(AddHostWithHostvars(t, d).tree, HostOnly(d.host)) == Shown(map[d.host := d.vars])
  {
    var after := AddHostWithHostvars(t, d).tree;
    assert after.hosts[d.host] == d.vars;
  }

  /** Adding the same host twice: the second call reports HOST_EXISTS and changes nothing. */
  lemma AddTwice(t: Tree, d: ZnodeDict)
    requires d.host !in t.hosts && !t.HasMarker(d.group, d.host)
    ensures AddHostWithHostvars(AddHostWithHostvars(t, d).tree, d)
         == Outcome(AddHostWithHostvars(t, d).tree, ArgError(HostExists))
  {
  }

  /** Every group has at least one marker. */
  predicate NoEmptyGroups(t: Tree)
  {
    forall g :: g in t.groups ==> t.groups[g] != {}
  }

  /** `group:host` deletion never leaves an empty group behind. */
  lemma DeleteMarkerKeepsGroupsNonEmpty(t: Tree, g: string, h: string)
    requires NoEmptyGroups(t)
    ensures NoEmptyGroups(DeleteZnodeRecur(t, GroupHost(g, h)).tree)
  {
  }

  /** So do both add operations. */
  lemma AddsKeepGroupsNonEmpty(t: Tree, d: ZnodeDict, sel: Selector)
    requires NoEmptyGroups(t)
    ensures NoEmptyGroups(AddHostWithHostvars(t, d).tree)
    ensures NoEmptyGroups(AddHostToGroup(t, sel).tree)
  {
  }

  /**
   * Adding an existing host to a group and deleting it again restores the
   * tree, whether the group was new (the lone-member branch drops it again)
   * or already had members (only the marker goes).
   */
  lemma AddToGroupThenDelete(t: Tree, g: string, h: string)
    requires h in t.hosts && !t.HasMarker(g, h)
    requires g in t.groups ==> t.groups[g] != {}
    ensures DeleteZnodeRecur(AddHostToGroup(t, GroupHost(g, h)).tree, GroupHost(g, h)).tree == t
    ensures DeleteZnodeRecur(AddHostToGroup(t, GroupHost(g, h)).tree, GroupHost(g, h)).reply
         == if g in t.groups then Raised(KeyError) else ReturnedNone
  {
    var mid := AddHostToGroup(t, GroupHost(g, h)).tree;
    assert mid.groups[g] == t.Members(g) + {h};
    if g in t.groups {
      var s := t.groups[g];
      var x :| x in s;
      assert x != h && x in mid.groups[g];
      assert mid.groups[g] != {h};
      assert (s + {h}) - {h} == s;
      assert mid.groups[g := s] == t.groups;
    } else {
      assert mid.groups[g] == {h};
      assert mid.groups - {g} == t.groups;
    }
  }

  /** Deleting `hosts:<h>` keeps its markers, so `showHostVars` on any of its groups then fails. */
  lemma HostDeleteLeavesDanglingMarkers(t: Tree, h: string, g: string)
    requires h in t.hosts && t.HasMarker(g, h)
    ensures DeleteZnodeRecur(t, HostOnly(h)).tree.HasMarker(g, h)
    ensures ShowHostVars(DeleteZnodeRecur(t, HostOnly(h)).tree, GroupOnly(g)) == ShowRaised(NoNodeError)
    ensures AnsibleHostAccess(DeleteZnodeRecur(t, HostOnly(h)).tree, h) == None
  {
    var after := DeleteZnodeRecur(t, HostOnly(h)).tree;
    assert h in after.groups[g] && h !in after.hosts;
  }

  /** A selector whose group part ends in `hosts` deletes the host, not the marker: the groups are untouched. */
  lemma GroupEndingInHostsDeletesHost(t: Tree, g: string, h: string)
    requires ':' !in g && ':' !in h
    ensures DeleteZnodeRecur(t, SplitZnodeString(g + "hosts:" + h)).tree == Tree(t.hosts - {h}, t.groups)
  {
    GroupEndingInHostsSelectsHost(g, h);
  }

  /** A host rename carries the variables across: `--host` on the new name answers what it answered for the old one. */
  lemma RenameHostMovesVars(t: Tree, a: string, b: string, listing: seq<string>)
    requires a in t.hosts && b !in t.hosts
    ensures AnsibleHostAccess(RenameZnode(t, RenameHosts(a, b), listing).tree, b) == AnsibleHostAccess(t, a)
    ensures AnsibleHostAccess(RenameZnode(t, RenameHosts(a, b), listing).tree, a) == None
  {
  }

  /**
   * Only the first listed group has its marker renamed. A group further down
   * the listing keeps the old marker, which now dangles.
   */
  lemma RenameHostLeavesLaterGroups(t: Tree, a: string, b: string, listing: seq<string>, g: string)
    requires a in t.hosts && b !in t.hosts
    requires Lists(listing, t.groups.Keys) && listing != [] && listing[0] != g
    requires t.HasMarker(g, a)
    ensures RenameZnode(t, RenameHosts(a, b), listing).tree.HasMarker(g, a)
    ensures ShowHostVars(RenameZnode(t, RenameHosts(a, b), listing).tree, GroupOnly(g)) == ShowRaised(NoNodeError)
  {
    var after := RenameZnode(t, RenameHosts(a, b), listing).tree;
    assert after.groups[g] == t.groups[g];
    assert a in after.groups[g] && a !in after.hosts;
  }

  /** When the first listed group holds the host, its marker follows the rename and the group still shows it. */
  lemma RenameHostInFirstGroup(t: Tree, a: string, b: string, listing: seq<string>)
    requires a in t.hosts && b !in t.hosts
    requires Lists(listing, t.groups.Keys) && listing != [] && t.HasMarker(listing[0], a)
    ensures var after := RenameZnode(t, RenameHosts(a, b), listing).tree;
      after.HasMarker(listing[0], b) && !after.HasMarker(listing[0], a)
  {
  }

  /** An ordinary group rename shows the same hosts under the new name as under the old. */
  lemma RenameGroupKeepsView(t: Tree, a: string, b: string, listing: seq<string>)
    requires a in t.groups && b !in t.groups && !Contains(a, "hosts")
    ensures ShowHostVars(RenameZnode(t, RenameGroups(a, b), listing).tree, GroupOnly(b)) == ShowHostVars(t, GroupOnly(a))
    ensures ShowHostVars(RenameZnode(t, RenameGroups(a, b), listing).tree, GroupOnly(a)) == NoSuchGroup
  {
    var after := RenameZnode(t, RenameGroups(a, b), listing).tree;
    assert after.groups[b] == t.groups[a] && after.hosts == t.hosts;
  }

  /** An update whose requested variables are all missing on the host changes nothing. */
  lemma UpdateWithNoMatchChangesNothing(t: Tree, d: ZnodeDict)
    requires d.host in t.hosts && d.vars.Keys !! t.hosts[d.host].Keys
    ensures UpdateZnode(t, d).tree == t
  {
    var after := UpdateZnode(t, d).tree;
    assert after.hosts[d.host] == t.hosts[d.host];
    assert after.hosts == t.hosts;
  }

  /** A fully matching update, applied a second time, changes nothing and reports UPDATED. */
  lemma UpdateIdempotent(t: Tree, d: ZnodeDict)
    requires d.host in t.hosts && d.vars.Keys <= t.hosts[d.host].Keys
    ensures UpdateZnode(UpdateZnode(t, d).tree, d).tree == UpdateZnode(t, d).tree
    ensures UpdateZnode(UpdateZnode(t, d).tree, d).reply.Updated?
  {
    var once := UpdateZnode(t, d).tree;
    var twice := UpdateZnode(once, d).tree;
    assert twice.hosts[d.host] == once.hosts[d.host];
    assert twice.hosts == once.hosts;
  }

  /** `group:host,key:value` parses to that group, host and a single variable. */
  lemma ParseOneVar(g: string, h: string, k: string, v: string)
    requires ':' !in g && ':' !in h && ':' !in k && ':' !in v
    requires ',' !in g && ',' !in h && ',' !in k && ',' !in v
    ensures ParseZnodeVars(g + ":" + h + "," + k + ":" + v) == Some(ZnodeDict(g, h, map[k := v]))
  {
    var head := g + ":" + h;
    var tail := k + ":" + v;
    assert ',' !in head;
    assert ',' !in tail;
    assert g + ":" + h + "," + k + ":" + v == head + [','] + tail;
    SplitAtFirst(head, tail, ',');
    SplitWithoutSep(tail, ',');
    assert Split(head + [','] + tail, ',') == [head, tail];
    assert head == g + [':'] + h;
    SplitAtFirst(g, h, ':');
    SplitWithoutSep(h, ':');
    assert tail == k + [':'] + v;
    SplitAtFirst(k, v, ':');
    SplitWithoutSep(v, ':');
    assert Split(head, ':') == [g, h];
    assert Split(tail, ':') == [k, v];
    assert [tail][..0] == [];
    assert VarMap([tail]) == Some(map[k := v]);
    assert [head, tail][1..] == [tail];
  }
}
