/**
 * The inventory keeper as an object over the tree store. Its fields are the
 * two registries; the store calls the keeper makes (`ensure_path`, `create`,
 * `set`, `delete`) are small methods, and each mutator performs them in the
 * order the keeper does, loops included. Every mutator is proved to leave the
 * store and return the reply that its specification function in Mutations
 * describes.
 */
module Keeper {
  import opened Text
  import opened Resolver
  import opened Replies
  import opened Store
  import opened Wrappers
  import opened Sorting
  import Mutations
  import Reader

  lemma MergeUpdate(before: map<string, string>, updated: map<string, string>, v: string, x: string)
    ensures (before + updated)[v := x] == before + updated[v := x]
  {
  }

  lemma OverwritesExact(before: map<string, string>, requested: map<string, string>, updated: map<string, string>)
    requires updated.Keys == requested.Keys * before.Keys
    requires forall k :: k in updated ==> updated[k] == requested[k]
    ensures updated == Mutations.Overwrites(before, requested)
  {
  }

  class Inventory {
    var hosts: map<string, map<string, string>>
    var groups: map<string, set<string>>

    /** The store's content as a value. */
    function State(): Tree
      reads this
    {
      Tree(hosts, groups)
    }

    constructor (t: Tree)
      ensures State() == t
    {
      hosts := t.hosts;
      groups := t.groups;
    }

    // ---- store calls ----

    /** `ensure_path(hosts/<h>)`. */
    method EnsureHost(h: string)
      modifies this
      ensures hosts == if h in old(hosts) then old(hosts) else old(hosts)[h := map[]]
      ensures groups == old(groups)
    {
      if h !in hosts {
        hosts := hosts[h := map[]];
      }
    }

    /** `ensure_path(groups/<g>)`. */
    method EnsureGroup(g: string)
      modifies this
      ensures groups == if g in old(groups) then old(groups) else old(groups)[g := {}]
      ensures hosts == old(hosts)
    {
      if g !in groups {
        groups := groups[g := {}];
      }
    }

    /** `ensure_path(groups/<g>/<h>)`: the group is created along with the marker. */
    method EnsureMarker(g: string, h: string)
      modifies this
      ensures groups == old(groups)[g := old(State()).Members(g) + {h}]
      ensures hosts == old(hosts)
    {
      groups := groups[g := State().Members(g) + {h}];
    }

    /** `create(hosts/<h>/<k>, v)`: the parent must exist and the variable must not. */
    method CreateVar(h: string, k: string, v: string)
      requires h in hosts && k !in hosts[h]
      modifies this
      ensures hosts == old(hosts)[h := old(hosts)[h][k := v]]
      ensures groups == old(groups)
    {
      hosts := hosts[h := hosts[h][k := v]];
    }

    /** `set(hosts/<h>/<k>, v)` on an existing variable. */
    method SetVar(h: string, k: string, v: string)
      requires h in hosts && k in hosts[h]
      modifies this
      ensures hosts == old(hosts)[h := old(hosts)[h][k := v]]
      ensures groups == old(groups)
    {
      hosts := hosts[h := hosts[h][k := v]];
    }

    /** `delete(groups/<g>/<h>)` on an existing marker. */
    method DeleteMarker(g: string, h: string)
      requires State().HasMarker(g, h)
      modifies this
      ensures groups == old(groups)[g := old(groups)[g] - {h}]
      ensures hosts == old(hosts)
    {
      groups := groups[g := groups[g] - {h}];
    }

    /** `delete(groups/<g>, recursive=True)`. */
    method DeleteGroup(g: string)
      requires g in groups
      modifies this
      ensures groups == old(groups) - {g}
      ensures hosts == old(hosts)
    {
      groups := groups - {g};
    }

    /** `delete(hosts/<h>, recursive=True)`. */
    method DeleteHost(h: string)
      requires h in hosts
      modifies this
      ensures hosts == old(hosts) - {h}
      ensures groups == old(groups)
    {
      hosts := hosts - {h};
    }

    /** Reads every variable of an existing host, one `get` per child. */
    method ReadVars(h: string) returns (vars: map<string, string>)
      requires h in hosts
      ensures vars == hosts[h]
    {
      vars := map[];
      var remaining := hosts[h].Keys;
      while remaining != {}
        invariant remaining <= hosts[h].Keys
        invariant vars == map k | k in hosts[h] && k !in remaining :: hosts[h][k]
        decreases remaining
      {
        var k :| k in remaining;
        vars := vars[k := hosts[h][k]];
        remaining := remaining - {k};
      }
    }

    // ---- mutators ----

    /** `addHostWithHostvars`: both paths are ensured, then one `create` per variable. */
    method AddHostWithHostvars(d: ZnodeDict) returns (reply: Reply)
      modifies this
      ensures Mutations.Outcome(State(), reply) == Mutations.AddHostWithHostvars(old(State()), d)
    {
      if d.host in hosts {
        return ArgError(HostExists);
      }
      if State().HasMarker(d.group, d.host) {
        return ArgError(HostExistsInGroup);
      }
      EnsureHost(d.host);
      EnsureMarker(d.group, d.host);
      CreateVars(d.host, d.vars);
      return CommonInformer(AddedHostToGroup);
    }

    /** `addHostToGroup`: at most one `ensure_path`, for the marker. */
    method AddHostToGroup(sel: Selector) returns (reply: Reply)
      modifies this
      ensures Mutations.Outcome(State(), reply) == Mutations.AddHostToGroup(old(State()), sel)
    {
      match sel
      case HostOnly(_) =>
        return Raised(ValueError);
      case GroupOnly(_) =>
        return Raised(IndexError);
      case GroupHost(g, h) =>
        if State().HasMarker(g, h) {
          return ArgError(HostExistsInGroup);
        }
        if h !in hosts {
          return ArgError(HostDoesNotExist);
        }
        EnsureMarker(g, h);
        return CommonInformer(AddedHostToGroup);
    }

    /** `deleteZnodeRecur`, with the reply each branch actually produces. */
    method DeleteZnodeRecur(sel: Selector) returns (reply: Reply)
      modifies this
      ensures Mutations.Outcome(State(), reply) == Mutations.DeleteZnodeRecur(old(State()), sel)
    {
      match sel
      case GroupHost(g, h) =>
        if h !in hosts {
          return ArgError(HostDoesNotExist);
        }
        if !State().HasMarker(g, h) {
          return ArgError(HostDoesNotExistsInGroup);
        }
        if |groups[g]| == 1 {
          DeleteGroup(g);
          return ReturnedNone;
        }
        DeleteMarker(g, h);
        return Raised(KeyError);
      case GroupOnly(g) =>
        if g !in groups {
          return Raised(UnboundLocalError);
        }
        DeleteGroup(g);
        return Raised(UnboundLocalError);
      case HostOnly(h) =>
        if h !in hosts {
          return Raised(UnboundLocalError);
        }
        DeleteHost(h);
        return Raised(UnboundLocalError);
    }

    /**
     * The loop of `updateZnode`: one pass over the request, calling `set` on
     * each variable the host already lists and collecting the others.
     */
    method ApplyUpdates(h: string, requested: map<string, string>) returns (updated: map<string, string>, nonExist: set<string>)
      requires h in hosts
      modifies this
      ensures updated == Mutations.Overwrites(old(hosts)[h], requested)
      ensures nonExist == requested.Keys - old(hosts)[h].Keys
      ensures hosts == old(hosts)[h := old(hosts)[h] + updated]
      ensures groups == old(groups)
    {
      var before := hosts[h];
      var hostVars := before.Keys;
      nonExist := {};
      updated := map[];
      var remaining := requested.Keys;
      assert before + updated == before;
      while remaining != {}
        invariant remaining <= requested.Keys
        invariant updated.Keys == (requested.Keys - remaining) * hostVars
        invariant forall k :: k in updated ==> updated[k] == requested[k]
        invariant nonExist == (requested.Keys - remaining) - hostVars
        invariant hosts == old(hosts)[h := before + updated]
        invariant groups == old(groups)
        decreases remaining
      {
        var v :| v in remaining;
        if v in hostVars {
          SetVar(h, v, requested[v]);
          MergeUpdate(before, updated, v, requested[v]);
          updated := updated[v := requested[v]];
        } else {
          nonExist := nonExist + {v};
        }
        remaining := remaining - {v};
      }
      OverwritesExact(before, requested, updated);
    }

    /** `updateZnode`: a host that does not exist fails before anything is set. */
    method UpdateZnode(d: ZnodeDict) returns (reply: Mutations.UpdateReply)
      modifies this
      ensures Mutations.Outcome(State(), reply) == Mutations.UpdateZnode(old(State()), d)
    {
      if d.host !in hosts {
        return Mutations.UpdateRaised(NoNodeError);
      }
      var updated, nonExist := ApplyUpdates(d.host, d.vars);
      if |nonExist| > 0 && |updated| == 0 {
        reply := Mutations.NotUpdated(nonExist);
      } else if |nonExist| > 0 && |updated| > 0 {
        reply := Mutations.UpdatedSkipping(updated, nonExist);
      } else {
        reply := Mutations.Updated(updated);
      }
    }

    /**
     * `renameHostInGroup`: the loop over the listed groups returns during its
     * first iteration, so only the first group is inspected.
     */
    method RenameHostInGroup(oldName: string, newName: string, listing: seq<string>)
      requires Lists(listing, groups.Keys)
      modifies this
      ensures groups == Mutations.RenameInFirstGroup(old(groups), listing, oldName, newName)
      ensures hosts == old(hosts)
    {
      if listing != [] {
        var child := listing[0];
        ListingHead(listing, groups.Keys);
        if oldName in groups[child] {
          EnsureMarker(child, newName);
          DeleteMarker(child, oldName);
        }
      }
    }

    /** One `create` per variable under a host node that has none yet. */
    method CreateVars(h: string, vars: map<string, string>)
      requires h in hosts && hosts[h] == map[]
      modifies this
      ensures hosts == old(hosts)[h := vars]
      ensures groups == old(groups)
    {
      var remaining := vars.Keys;
      ghost var copied: map<string, string> := map[];
      while remaining != {}
        invariant remaining <= vars.Keys
        invariant copied.Keys == vars.Keys - remaining
        invariant forall k :: k in copied ==> copied[k] == vars[k]
        invariant hosts == old(hosts)[h := copied]
        invariant groups == old(groups)
        decreases remaining
      {
        var k :| k in remaining;
        CreateVar(h, k, vars[k]);
        copied := copied[k := vars[k]];
        remaining := remaining - {k};
      }
      assert copied == vars;
    }

    /** Recreates every listed child of an old group as a marker of a fresh group node. */
    method CopyMarkers(newName: string, members: set<string>)
      requires newName !in groups
      modifies this
      ensures groups == old(groups)[newName := members]
      ensures hosts == old(hosts)
    {
      EnsureGroup(newName);
      var remaining := members;
      ghost var copied: set<string> := {};
      while remaining != {}
        invariant remaining <= members
        invariant copied == members - remaining
        invariant groups == old(groups)[newName := copied]
        invariant hosts == old(hosts)
        decreases remaining
      {
        var m :| m in remaining;
        EnsureMarker(newName, m);
        copied := copied + {m};
        remaining := remaining - {m};
      }
      assert copied == members;
    }

    /** The host branch of `renameZnode` for a host: copy the variables, fix the first group, drop the old host. */
    method MoveHost(a: string, b: string, listing: seq<string>)
      requires a in hosts && b !in hosts && Lists(listing, groups.Keys)
      modifies this
      ensures hosts == old(hosts)[b := old(hosts)[a]] - {a}
      ensures groups == Mutations.RenameInFirstGroup(old(groups), listing, a, b)
    {
      var vars := ReadVars(a);
      EnsureHost(b);
      CreateVars(b, vars);
      assert hosts == old(hosts)[b := old(hosts)[a]];
      ghost var copied := hosts;
      RenameHostInGroup(a, b, listing);
      DeleteHost(a);
      assert hosts == copied - {a};
    }

    /** The host branch of `renameZnode` taken by a group: its markers are copied like variables. */
    method MoveGroupAsHost(a: string, b: string, listing: seq<string>)
      requires a in groups && b !in groups && Lists(listing, groups.Keys + {b})
      modifies this
      ensures groups == Mutations.RenameInFirstGroup(old(groups)[b := old(groups)[a]], listing, a, b) - {a}
      ensures hosts == old(hosts)
    {
      var members := groups[a];
      CopyMarkers(b, members);
      RenameHostInGroup(a, b, listing);
      DeleteGroup(a);
    }

    /** The group branch of `renameZnode`: one marker per old child under the new group, then the old group goes. */
    method MoveGroup(a: string, b: string)
      requires a in groups && b !in groups
      modifies this
      ensures groups == old(groups)[b := old(groups)[a]] - {a}
      ensures hosts == old(hosts)
    {
      var oldChildren := groups[a];
      CopyMarkers(b, oldChildren);
      DeleteGroup(a);
    }

    /**
     * `renameZnode`. The listing is the one `renameHostInGroup` receives for
     * the groups registry, which by then holds a group copied in the host branch.
     */
    method RenameZnode(p: RenameRequest, listing: seq<string>) returns (reply: Mutations.RenameReply)
      requires Lists(listing, Mutations.GroupsWhenSearched(State(), p))
      modifies this
      ensures Mutations.Outcome(State(), reply) == Mutations.RenameZnode(old(State()), p, listing)
    {
      Mutations.HostPathHasKeyword(p.oldName);
      Mutations.GroupPathHostsKeyword(p.oldName);
      Mutations.GroupPathHasKeyword(p.oldName);
      if !Mutations.OldExists(State(), p) {
        return Mutations.OldPathMissing;
      }
      if Mutations.NewExists(State(), p) {
        return Mutations.NewPathExists;
      }
      if Contains(p.OldPath(), "hosts") {
        reply := Mutations.Renamed;
        match p
        case RenameHosts(a, b) =>
          MoveHost(a, b, listing);
        case RenameGroups(a, b) =>
          MoveGroupAsHost(a, b, listing);
      } else if Contains(p.OldPath(), "groups") {
        reply := Mutations.RenamedGroup;
        match p
        case RenameGroups(a, b) =>
          MoveGroup(a, b);
      } else {
        reply := Mutations.NoValidKeywords;
      }
    }

    // ---- readers ----

    /**
     * `showHostVars`: for a group, one read of the variables per listed member,
     * failing at the first member with no host node.
     */
    method ShowHostVars(sel: Selector, listing: seq<string>) returns (r: Reader.ShowReply)
      requires !sel.HostOnly? && sel.group in groups ==> Lists(listing, groups[sel.group])
      ensures r == Reader.ShowHostVars(State(), sel)
    {
      match sel
      case HostOnly(h) =>
        if h !in hosts {
          return Reader.NoSuchHost;
        }
        var vars := ReadVars(h);
        return Reader.Shown(map[h := vars]);
      case _ =>
        if sel.group !in groups {
          return Reader.NoSuchGroup;
        }
        ListedNames(listing, groups[sel.group]);
        r := ShowMembers(listing);
    }

    /** The loop of `showHostVars` over a group's listed members. */
    method ShowMembers(listing: seq<string>) returns (r: Reader.ShowReply)
      ensures r == if forall m :: m in listing ==> m in hosts
                   then Reader.Shown(map m | m in listing :: hosts[m])
                   else Reader.ShowRaised(NoNodeError)
    {
      var varDict: map<string, map<string, string>> := map[];
      for i := 0 to |listing|
        invariant forall k :: 0 <= k < i ==> listing[k] in hosts
        invariant varDict == map m | m in listing[..i] :: hosts[m]
      {
        var host := listing[i];
        if host !in hosts {
          return Reader.ShowRaised(NoNodeError);
        }
        var vars := ReadVars(host);
        assert listing[..i + 1] == listing[..i] + [host];
        varDict := varDict[host := vars];
      }
      assert listing[..|listing|] == listing;
      return Reader.Shown(varDict);
    }

    /** The loop of `inventoryDump('all')`, which writes the `groups` key on every iteration. */
    method DumpGroups(groupsList: seq<string>, memberListing: map<string, seq<string>>)
      returns (groupsKey: Option<seq<Reader.GroupMembers>>)
      requires forall g :: g in groupsList ==> g in memberListing
      ensures groupsKey.None? <==> groupsList == []
      ensures groupsKey.Some? ==> Reader.EntriesFor(groupsList, memberListing, groupsKey.value)
    {
      groupsKey := None;
      var tmpList: seq<Reader.GroupMembers> := [];
      for i := 0 to |groupsList|
        invariant Reader.EntriesFor(groupsList[..i], memberListing, tmpList)
        invariant groupsKey == if i == 0 then None else Some(tmpList)
      {
        var group := groupsList[i];
        var children := Sort(memberListing[group]);
        assert groupsList[..i + 1] == groupsList[..i] + [group];
        Reader.EntriesForSnoc(groupsList[..i], group, memberListing, tmpList);
        tmpList := tmpList + [Reader.GroupMembers(group, children)];
        groupsKey := Some(tmpList);
      }
      assert groupsList[..|groupsList|] == groupsList;
    }

    /** `inventoryDump`: both registries are listed and sorted before the mode is looked at. */
    method InventoryDump(mode: string, hostListing: seq<string>, groupListing: seq<string>,
                         memberListing: map<string, seq<string>>) returns (r: Reader.Dump)
      requires Lists(hostListing, hosts.Keys) && Lists(groupListing, groups.Keys)
      requires ListsMembers(memberListing, State())
      ensures r == Reader.InventoryDump(State(), mode, hostListing, groupListing, memberListing)
    {
      var hostsList := Sort(hostListing);
      var groupsList := Sort(groupListing);
      if mode == "hosts" {
        r := Reader.Names(hostsList);
      } else if mode == "groups" {
        r := Reader.Names(groupsList);
      } else if mode == "all" {
        ListedNames(groupsList, groups.Keys);
        var groupsKey := DumpGroups(groupsList, memberListing);
        Reader.GroupsDumpEntries(State(), groupsList, memberListing);
        if groupsKey.Some? {
          Reader.EntriesForIsGroupEntries(groupsList, memberListing, groupsKey.value);
        }
        r := Reader.Everything(hostsList, groupsKey);
      } else {
        r := Reader.NoDump;
      }
    }

    /** The first loop of `ansibleInventoryDump`: one entry per listed group. */
    method GroupDict(groupListing: seq<string>, memberListing: map<string, seq<string>>)
      returns (groupDict: map<string, Reader.AnsibleEntry>)
      requires Lists(groupListing, groups.Keys) && ListsMembers(memberListing, State())
      ensures groupDict == map g | g in groups :: Reader.GroupEntry(memberListing[g], map[])
    {
      ListedNames(groupListing, groups.Keys);
      groupDict := map[];
      for i := 0 to |groupListing|
        invariant groupDict == map g | g in groupListing[..i] :: Reader.GroupEntry(memberListing[g], map[])
      {
        var group := groupListing[i];
        assert groupListing[..i + 1] == groupListing[..i] + [group];
        groupDict := groupDict[group := Reader.GroupEntry(memberListing[group], map[])];
      }
      assert groupListing[..|groupListing|] == groupListing;
    }

    /** The second loop of `ansibleInventoryDump`: every listed host's variables. */
    method HostVarDict(hostListing: seq<string>) returns (varDict: map<string, map<string, string>>)
      requires Lists(hostListing, hosts.Keys)
      ensures varDict == hosts
    {
      ListedNames(hostListing, hosts.Keys);
      varDict := map[];
      for i := 0 to |hostListing|
        invariant varDict == map h | h in hostListing[..i] :: hosts[h]
      {
        var host := hostListing[i];
        var vals := ReadVars(host);
        assert hostListing[..i + 1] == hostListing[..i] + [host];
        varDict := varDict[host := vals];
      }
      assert hostListing[..|hostListing|] == hostListing;
    }

    /** `ansibleInventoryDump`: the meta entry is written after every group entry. */
    method AnsibleInventoryDump(groupListing: seq<string>, memberListing: map<string, seq<string>>, hostListing: seq<string>)
      returns (r: map<string, Reader.AnsibleEntry>)
      requires Lists(groupListing, groups.Keys) && ListsMembers(memberListing, State())
      requires Lists(hostListing, hosts.Keys)
      ensures r == Reader.AnsibleInventoryDump(State(), memberListing)
    {
      var groupDict := GroupDict(groupListing, memberListing);
      var varDict := HostVarDict(hostListing);
      r := groupDict[Reader.META := Reader.Meta(varDict)];
    }

    /** `ansibleHostAccess`: the variables of one host, read one by one. */
    method AnsibleHostAccess(h: string) returns (r: Option<map<string, string>>)
      ensures r == Reader.AnsibleHostAccess(State(), h)
    {
      if h !in hosts {
        return None;
      }
      var vars := ReadVars(h);
      return Some(vars);
    }
  }
}
