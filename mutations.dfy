/**
 * What each mutator of the inventory keeper does to the tree, as a function of
 * the tree before the call: the net effect of its store calls and the reply it
 * returns. The class in keeper.dfy performs the same operations step by step
 * and is proved to agree with these functions.
 */
module Mutations {
  import opened Text
  import opened Resolver
  import opened Replies
  import opened Store

  /** The tree after an operation, and what the operation returned. */
  datatype Outcome<R> = Outcome(tree: Tree, reply: R)

  lemma OnlyMember(s: set<string>, h: string)
    requires h in s
    ensures |s| == 1 <==> s == {h}
  {
    if |s| == 1 {
      assert |s - {h}| == 0;
      assert s - {h} == {};
    }
  }

  /**
   * `addHostWithHostvars`: refuses an existing host first, then an existing
   * marker; otherwise the host is created holding exactly the supplied
   * variables and becomes a member of the group, which is created if needed.
   */
  function AddHostWithHostvars(t: Tree, d: ZnodeDict): (o: Outcome<Reply>)
    ensures o.reply == ArgError(HostExists) <==> d.host in t.hosts
    ensures o.reply == ArgError(HostExistsInGroup) <==> d.host !in t.hosts && t.HasMarker(d.group, d.host)
    ensures o.reply == CommonInformer(AddedHostToGroup) <==> d.host !in t.hosts && !t.HasMarker(d.group, d.host)
    ensures o.reply.ArgError? || o.reply == CommonInformer(AddedHostToGroup)
    ensures o.reply.ArgError? ==> o.tree == t
    ensures o.reply.CommonInformer? ==>
      && d.host in o.tree.hosts && o.tree.hosts[d.host] == d.vars
      && o.tree.hosts - {d.host} == t.hosts
      && d.group in o.tree.groups && o.tree.groups[d.group] == t.Members(d.group) + {d.host}
      && o.tree.groups - {d.group} == t.groups - {d.group}
  {
    if d.host in t.hosts then Outcome(t, ArgError(HostExists))
    else if t.HasMarker(d.group, d.host) then Outcome(t, ArgError(HostExistsInGroup))
    else
      var after := Tree(t.hosts[d.host := d.vars], t.groups[d.group := t.Members(d.group) + {d.host}]);
      Outcome(after, CommonInformer(AddedHostToGroup))
  }

  /**
   * `addHostToGroup`: refuses an existing marker first, then a missing host;
   * otherwise only the marker is added. The hosts registry is never touched.
   * A selector other than `group:host` fails unpacking the tuples.
   */
  function AddHostToGroup(t: Tree, sel: Selector): (o: Outcome<Reply>)
    ensures o.tree.hosts == t.hosts
    ensures sel.HostOnly? ==> o == Outcome(t, Raised(ValueError))
    ensures sel.GroupOnly? ==> o == Outcome(t, Raised(IndexError))
    ensures sel.GroupHost? ==> (o.reply == ArgError(HostExistsInGroup) <==> t.HasMarker(sel.group, sel.host))
    ensures sel.GroupHost? ==>
      (o.reply == ArgError(HostDoesNotExist) <==> !t.HasMarker(sel.group, sel.host) && sel.host !in t.hosts)
    ensures sel.GroupHost? ==> o.reply.ArgError? || o.reply == CommonInformer(AddedHostToGroup)
    ensures o.reply == CommonInformer(AddedHostToGroup) <==>
      sel.GroupHost? && !t.HasMarker(sel.group, sel.host) && sel.host in t.hosts
    ensures o.reply != CommonInformer(AddedHostToGroup) ==> o.tree == t
    ensures o.reply == CommonInformer(AddedHostToGroup) ==>
      && sel.GroupHost? && sel.host in t.hosts
      && sel.group in o.tree.groups && o.tree.groups[sel.group] == t.Members(sel.group) + {sel.host}
      && o.tree.groups - {sel.group} == t.groups - {sel.group}
  {
    match sel
    case HostOnly(_) => Outcome(t, Raised(ValueError))
    case GroupOnly(_) => Outcome(t, Raised(IndexError))
    case GroupHost(g, h) =>
      if t.HasMarker(g, h) then Outcome(t, ArgError(HostExistsInGroup))
      else if h !in t.hosts then Outcome(t, ArgError(HostDoesNotExist))
      else Outcome(Tree(t.hosts, t.groups[g := t.Members(g) + {h}]), CommonInformer(AddedHostToGroup))
  }

  /**
   * `deleteZnodeRecur`. In the `group:host` form a missing host or marker
   * changes nothing; a lone marker takes its group with it (and the call
   * returns None); otherwise only the marker goes, and the reply lookup then
   * raises KeyError. The single-selector forms look their reply up in an
   * unbound dictionary, so they raise UnboundLocalError whether or not they
   * deleted: the group form removes only the group, the host form only the
   * host with its variables, leaving its markers behind.
   */
  function DeleteZnodeRecur(t: Tree, sel: Selector): (o: Outcome<Reply>)
    ensures sel.GroupHost? ==> o.tree.hosts == t.hosts
    ensures sel.GroupHost? && sel.host !in t.hosts ==> o == Outcome(t, ArgError(HostDoesNotExist))
    ensures sel.GroupHost? && sel.host in t.hosts && !t.HasMarker(sel.group, sel.host) ==>
      o == Outcome(t, ArgError(HostDoesNotExistsInGroup))
    ensures sel.GroupHost? && sel.host in t.hosts && t.HasMarker(sel.group, sel.host) ==>
      if t.groups[sel.group] == {sel.host} then
        o.reply == ReturnedNone && o.tree.groups == t.groups - {sel.group}
      else
        && o.reply == Raised(KeyError)
        && sel.group in o.tree.groups && o.tree.groups[sel.group] == t.groups[sel.group] - {sel.host}
        && o.tree.groups[sel.group] != {}
        && o.tree.groups - {sel.group} == t.groups - {sel.group}
    ensures sel.GroupOnly? ==>
      o.reply == Raised(UnboundLocalError) && o.tree.hosts == t.hosts && o.tree.groups == t.groups - {sel.group}
    ensures sel.HostOnly? ==>
      o.reply == Raised(UnboundLocalError) && o.tree.groups == t.groups && o.tree.hosts == t.hosts - {sel.host}
  {
    match sel
    case GroupHost(g, h) =>
      if h !in t.hosts then Outcome(t, ArgError(HostDoesNotExist))
      else if !t.HasMarker(g, h) then Outcome(t, ArgError(HostDoesNotExistsInGroup))
      else
        OnlyMember(t.groups[g], h);
        if |t.groups[g]| == 1 then Outcome(Tree(t.hosts, t.groups - {g}), ReturnedNone)
        else Outcome(Tree(t.hosts, t.groups[g := t.groups[g] - {h}]), Raised(KeyError))
    case GroupOnly(g) =>
      if g !in t.groups then Outcome(t, Raised(UnboundLocalError))
      else Outcome(Tree(t.hosts, t.groups - {g}), Raised(UnboundLocalError))
    case HostOnly(h) =>
      if h !in t.hosts then Outcome(t, Raised(UnboundLocalError))
      else Outcome(Tree(t.hosts - {h}, t.groups), Raised(UnboundLocalError))
  }

  /** The three strings `updateZnode` can return after the host check, and the missing-host failure. */
  datatype UpdateReply =
    | NotUpdated(skipped: set<string>)
    | UpdatedSkipping(updated: map<string, string>, skipped: set<string>)
    | Updated(updated: map<string, string>)
    | UpdateRaised(exc: Exception)

  /** The requested variables that already exist on the host, with their new values. */
  function Overwrites(existing: map<string, string>, requested: map<string, string>): (u: map<string, string>)
    ensures u.Keys == requested.Keys * existing.Keys
    ensures forall k :: k in u ==> u[k] == requested[k]
  {
    map k | k in requested && k in existing :: requested[k]
  }

  /**
   * `updateZnode`: lists the host's variables before checking the host, so a
   * missing host raises NoNodeError with nothing changed. Otherwise exactly
   * the requested variables that already exist are overwritten; nothing is
   * created or deleted, and the reply says which requests matched.
   */
  function UpdateZnode(t: Tree, d: ZnodeDict): (o: Outcome<UpdateReply>)
    ensures d.host !in t.hosts ==> o == Outcome(t, UpdateRaised(NoNodeError))
    ensures o.tree.groups == t.groups
    ensures o.tree.hosts.Keys == t.hosts.Keys
    ensures o.tree.hosts - {d.host} == t.hosts - {d.host}
    ensures d.host in t.hosts ==>
      && o.tree.hosts[d.host].Keys == t.hosts[d.host].Keys
      && forall k :: k in t.hosts[d.host] ==>
           o.tree.hosts[d.host][k] == if k in d.vars then d.vars[k] else t.hosts[d.host][k]
    ensures d.host in t.hosts ==>
      var existing := t.hosts[d.host].Keys;
      && (o.reply.NotUpdated? <==> d.vars.Keys != {} && d.vars.Keys !! existing)
      && (o.reply.Updated? <==> d.vars.Keys <= existing)
      && (o.reply.UpdatedSkipping? <==> !(d.vars.Keys <= existing) && !(d.vars.Keys !! existing))
      && (o.reply.NotUpdated? || o.reply.UpdatedSkipping? ==> o.reply.skipped == d.vars.Keys - existing)
      && (o.reply.Updated? || o.reply.UpdatedSkipping? ==> o.reply.updated == Overwrites(t.hosts[d.host], d.vars))
  {
    if d.host !in t.hosts then Outcome(t, UpdateRaised(NoNodeError))
    else
      var before := t.hosts[d.host];
      var updated := Overwrites(before, d.vars);
      var skipped := d.vars.Keys - before.Keys;
      assert |updated| == 0 <==> d.vars.Keys !! before.Keys by {
        assert |updated| == |updated.Keys|;
        if d.vars.Keys !! before.Keys { assert updated.Keys == {}; }
        if |updated| == 0 { assert updated.Keys == {}; }
      }
      assert |skipped| == 0 <==> d.vars.Keys <= before.Keys by {
        if |skipped| == 0 {
          assert skipped == {};
          assert forall k :: k in d.vars.Keys ==> k in before.Keys || k in skipped;
        }
      }
      var reply :=
        if |skipped| > 0 && |updated| == 0 then NotUpdated(skipped)
        else if |skipped| > 0 && |updated| > 0 then UpdatedSkipping(updated, skipped)
        else Updated(updated);
      Outcome(Tree(t.hosts[d.host := before + updated], t.groups), reply)
  }

  /** The strings `renameZnode` returns. */
  datatype RenameReply = OldPathMissing | NewPathExists | Renamed | RenamedGroup | NoValidKeywords

  predicate OldExists(t: Tree, p: RenameRequest)
  {
    if p.RenameHosts? then p.oldName in t.hosts else p.oldName in t.groups
  }

  predicate NewExists(t: Tree, p: RenameRequest)
  {
    if p.RenameHosts? then p.newName in t.hosts else p.newName in t.groups
  }

  /**
   * `renameHostInGroup`: looks at the first listed group only. If it holds a
   * marker for `oldName`, a marker for `newName` is ensured there and the old
   * one deleted; every other group keeps its markers.
   */
  function RenameInFirstGroup(groups: map<string, set<string>>, listing: seq<string>, oldName: string, newName: string)
    : (r: map<string, set<string>>)
    ensures r.Keys == groups.Keys
    ensures forall g :: g in groups && (listing == [] || g != listing[0]) ==> r[g] == groups[g]
    ensures listing != [] && listing[0] in groups && oldName in groups[listing[0]] ==>
      forall x :: x in r[listing[0]] <==> (x == newName || x in groups[listing[0]]) && x != oldName
    ensures listing != [] && listing[0] in groups && oldName !in groups[listing[0]] ==> r == groups
  {
    if listing != [] && listing[0] in groups && oldName in groups[listing[0]] then
      groups[listing[0] := (groups[listing[0]] + {newName}) - {oldName}]
    else
      groups
  }

  /** The groups `renameHostInGroup` lists: a group renamed through the host branch has its new node by then. */
  function GroupsWhenSearched(t: Tree, p: RenameRequest): set<string>
  {
    if p.RenameGroups? then t.groups.Keys + {p.newName} else t.groups.Keys
  }

  lemma HostPathHasKeyword(h: string)
    ensures Contains(HostPath(h), "hosts")
  {
    ContainsPrefix("hosts", "");
    ContainsWithin("/ansible-test/", "hosts" + "", "/" + h, "hosts");
    assert "/ansible-test/" + ("hosts" + "") + ("/" + h) == HostPath(h);
  }

  lemma GroupPathHasKeyword(g: string)
    ensures Contains(GroupPath(g), "groups")
  {
    ContainsPrefix("groups", "");
    ContainsWithin("/ansible-test/", "groups" + "", "/" + g, "groups");
    assert "/ansible-test/" + ("groups" + "") + ("/" + g) == GroupPath(g);
  }

  /** A group path contains `hosts` exactly when the group name does. */
  lemma GroupPathHostsKeyword(g: string)
    ensures Contains(GroupPath(g), "hosts") <==> Contains(g, "hosts")
  {
    ContainsSkipPrefix("/ansible-test/groups/", g, "hosts");
    assert "/ansible-test/groups/" + g == GroupPath(g);
  }

  /**
   * `renameZnode`: nothing changes when the old node is absent or the new one
   * exists. The branch is chosen by `'hosts' in oldPath` on the full path, so a
   * group whose name contains `hosts` is copied like a host and also gets the
   * first-group marker fix-up. A host rename moves the variable map to the
   * new name and fixes the marker in the first listed group only; an ordinary
   * group rename moves the member set and leaves the hosts alone. The final
   * "no valid keywords" branch is never taken: a path without `hosts` is a
   * group path, and every group path contains `groups`.
   */
  function RenameZnode(t: Tree, p: RenameRequest, listing: seq<string>): (o: Outcome<RenameReply>)
    ensures o.reply != NoValidKeywords
    ensures !OldExists(t, p) ==> o == Outcome(t, OldPathMissing)
    ensures OldExists(t, p) && NewExists(t, p) ==> o == Outcome(t, NewPathExists)
    ensures p.RenameHosts? && OldExists(t, p) && !NewExists(t, p) ==>
      && o.reply == Renamed
      && p.newName in o.tree.hosts && o.tree.hosts[p.newName] == t.hosts[p.oldName]
      && p.oldName !in o.tree.hosts
      && o.tree.hosts - {p.newName} == t.hosts - {p.oldName}
      && o.tree.groups == RenameInFirstGroup(t.groups, listing, p.oldName, p.newName)
    ensures p.RenameGroups? && OldExists(t, p) && !NewExists(t, p) && !Contains(p.oldName, "hosts") ==>
      && o.reply == RenamedGroup
      && o.tree.hosts == t.hosts
      && p.newName in o.tree.groups && o.tree.groups[p.newName] == t.groups[p.oldName]
      && p.oldName !in o.tree.groups
      && o.tree.groups - {p.newName} == t.groups - {p.oldName}
    ensures p.RenameGroups? && OldExists(t, p) && !NewExists(t, p) && Contains(p.oldName, "hosts") ==>
      && o.reply == Renamed
      && o.tree.hosts == t.hosts
      && o.tree.groups
         == RenameInFirstGroup(t.groups[p.newName := t.groups[p.oldName]], listing, p.oldName, p.newName) - {p.oldName}
  {
    HostPathHasKeyword(p.oldName);
    GroupPathHostsKeyword(p.oldName);
    GroupPathHasKeyword(p.oldName);
    if !OldExists(t, p) then Outcome(t, OldPathMissing)
    else if NewExists(t, p) then Outcome(t, NewPathExists)
    else if Contains(p.OldPath(), "hosts") then
      match p
      case RenameHosts(a, b) =>
        var hosts := t.hosts[b := t.hosts[a]] - {a};
        Outcome(Tree(hosts, RenameInFirstGroup(t.groups, listing, a, b)), Renamed)
      case RenameGroups(a, b) =>
        var copied := t.groups[b := t.groups[a]];
        Outcome(Tree(t.hosts, RenameInFirstGroup(copied, listing, a, b) - {a}), Renamed)
    else if Contains(p.OldPath(), "groups") then
      match p
      case RenameGroups(a, b) =>
        Outcome(Tree(t.hosts, t.groups[b := t.groups[a]] - {a}), RenamedGroup)
    else
      Outcome(t, NoValidKeywords)
  }
}
