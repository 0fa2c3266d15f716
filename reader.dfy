/**
 * The read-only entry points: `showHostVars`, the user-facing `inventoryDump`,
 * and the two Ansible dynamic-inventory views `ansibleInventoryDump` (`--list`)
 * and `ansibleHostAccess` (`--host`). None of them changes the store; the
 * store's child listings are parameters, constrained by `Store.Lists`.
 */
module Reader {
  import opened Wrappers
  import opened Replies
  import opened Resolver
  import opened Store
  import opened Sorting

  /** What `showHostVars` returns: a host-to-variables dictionary or an error. */
  datatype ShowReply =
    | Shown(vars: map<string, map<string, string>>)
    | NoSuchGroup
    | NoSuchHost
    | ShowRaised(exc: Exception)

  /**
   * `showHostVars`: a selector whose first part is a group shows every member
   * of that group (a `group:host` selector is no narrower); `hosts:<h>` shows
   * one host. Reading a member with no host node raises NoNodeError.
   */
  function ShowHostVars(t: Tree, sel: Selector): (r: ShowReply)
    ensures sel.HostOnly? ==> (r == NoSuchHost <==> sel.host !in t.hosts)
    ensures sel.HostOnly? && sel.host in t.hosts ==>
      r.Shown? && r.vars.Keys == {sel.host} && r.vars[sel.host] == t.hosts[sel.host]
    ensures !sel.HostOnly? ==> (r == NoSuchGroup <==> sel.group !in t.groups)
    ensures !sel.HostOnly? && sel.group in t.groups ==>
      && (r == ShowRaised(NoNodeError) <==> exists m :: m in t.groups[sel.group] && m !in t.hosts)
      && (r.Shown? <==> forall m :: m in t.groups[sel.group] ==> m in t.hosts)
    ensures r.Shown? && !sel.HostOnly? ==>
      r.vars.Keys == t.groups[sel.group] && forall m :: m in r.vars ==> r.vars[m] == t.hosts[m]
  {
    match sel
    case HostOnly(h) =>
      if h !in t.hosts then NoSuchHost else Shown(map[h := t.hosts[h]])
    case _ =>
      if sel.group !in t.groups then NoSuchGroup
      else
        var members := t.groups[sel.group];
        if !(members <= t.hosts.Keys) then ShowRaised(NoNodeError)
        else Shown(map m | m in members :: t.hosts[m])
  }

  /** One `{group: members}` element of the `all` dump. */
  datatype GroupMembers = GroupMembers(group: string, members: seq<string>)

  /** What `inventoryDump` returns for each mode; `NoDump` is Python's None. */
  datatype Dump =
    | Names(names: seq<string>)
    | Everything(hosts: seq<string>, groups: Option<seq<GroupMembers>>)
    | NoDump

  /** The `all` dump's list: one element per listed group, members sorted. */
  function GroupEntries(groupNames: seq<string>, memberListing: map<string, seq<string>>): (r: seq<GroupMembers>)
    requires forall g :: g in groupNames ==> g in memberListing
    ensures |r| == |groupNames|
    ensures forall i :: 0 <= i < |r| ==> r[i] == GroupMembers(groupNames[i], Sort(memberListing[groupNames[i]]))
  {
    if groupNames == [] then []
    else [GroupMembers(groupNames[0], Sort(memberListing[groupNames[0]]))] + GroupEntries(groupNames[1..], memberListing)
  }

  /** `entries` has the element of the `all` dump for each name in `groupNames`, in order. */
  predicate EntriesFor(groupNames: seq<string>, memberListing: map<string, seq<string>>, entries: seq<GroupMembers>)
  {
    && |entries| == |groupNames|
    && forall i :: 0 <= i < |entries| ==>
         groupNames[i] in memberListing && entries[i] == GroupMembers(groupNames[i], Sort(memberListing[groupNames[i]]))
  }

  lemma EntriesForSnoc(groupNames: seq<string>, g: string, memberListing: map<string, seq<string>>, entries: seq<GroupMembers>)
    requires EntriesFor(groupNames, memberListing, entries) && g in memberListing
    ensures EntriesFor(groupNames + [g], memberListing, entries + [GroupMembers(g, Sort(memberListing[g]))])
  {
  }

  lemma EntriesForIsGroupEntries(groupNames: seq<string>, memberListing: map<string, seq<string>>, entries: seq<GroupMembers>)
    requires forall g :: g in groupNames ==> g in memberListing
    requires EntriesFor(groupNames, memberListing, entries)
    ensures entries == GroupEntries(groupNames, memberListing)
  {
  }

  /** The names of the `all` dump's elements, in order. */
  function EntryGroups(entries: seq<GroupMembers>): (r: seq<string>)
    ensures |r| == |entries| && forall i :: 0 <= i < |r| ==> r[i] == entries[i].group
  {
    if entries == [] then [] else [entries[0].group] + EntryGroups(entries[1..])
  }

  /** A sorted listing of a set of names: each once, in Python's string order. */
  predicate SortedNames(s: seq<string>, names: set<string>)
  {
    Sorted(s) && multiset(s) == multiset(names)
  }

  lemma SortedListingMembers(s: seq<string>, names: set<string>)
    requires multiset(s) == multiset(names)
    ensures forall x :: x in s ==> x in names
  {
    forall x | x in s ensures x in names {
      assert x in multiset(s);
    }
  }

  /** The `groups` part of the `all` dump, absent when there is no group to loop over. */
  function GroupsDump(t: Tree, groupsList: seq<string>, memberListing: map<string, seq<string>>)
    : (r: Option<seq<GroupMembers>>)
    requires SortedNames(groupsList, t.groups.Keys)
    requires ListsMembers(memberListing, t)
    ensures r.None? <==> t.groups == map[]
    ensures r.Some? ==>
      && SortedNames(EntryGroups(r.value), t.groups.Keys)
      && forall e :: e in r.value ==> e.group in t.groups && SortedNames(e.members, t.groups[e.group])
  {
    SortedListingMembers(groupsList, t.groups.Keys);
    ListingEmpty(groupsList, t.groups.Keys);
    EntriesDescribeGroups(t, groupsList, memberListing);
    if groupsList == [] then None else Some(GroupEntries(groupsList, memberListing))
  }

  lemma GroupsDumpEntries(t: Tree, groupsList: seq<string>, memberListing: map<string, seq<string>>)
    requires SortedNames(groupsList, t.groups.Keys)
    requires ListsMembers(memberListing, t)
    requires forall g :: g in groupsList ==> g in memberListing
    ensures GroupsDump(t, groupsList, memberListing)
         == if groupsList == [] then None else Some(GroupEntries(groupsList, memberListing))
  {
  }

  lemma EntriesDescribeGroups(t: Tree, groupsList: seq<string>, memberListing: map<string, seq<string>>)
    requires forall g :: g in groupsList ==> g in t.groups
    requires ListsMembers(memberListing, t)
    ensures EntryGroups(GroupEntries(groupsList, memberListing)) == groupsList
    ensures forall e :: e in GroupEntries(groupsList, memberListing) ==>
      e.group in t.groups && SortedNames(e.members, t.groups[e.group])
  {
    var entries := GroupEntries(groupsList, memberListing);
    assert EntryGroups(entries) == groupsList;
    forall e | e in entries ensures e.group in t.groups && SortedNames(e.members, t.groups[e.group]) {
      var i :| 0 <= i < |entries| && entries[i] == e;
      assert e.group == groupsList[i] && groupsList[i] in t.groups;
    }
  }

  /**
   * `inventoryDump`: both registries are listed and sorted first; `hosts` and
   * `groups` return one sorted list, `all` returns the sorted hosts together
   * with each group's sorted members, the `groups` key being set only inside
   * the loop over groups. Any other mode returns None.
   */
  function InventoryDump(t: Tree, mode: string, hostListing: seq<string>, groupListing: seq<string>,
                         memberListing: map<string, seq<string>>): (r: Dump)
    requires Lists(hostListing, t.hosts.Keys) && Lists(groupListing, t.groups.Keys)
    requires ListsMembers(memberListing, t)
    ensures mode == "hosts" ==> r.Names? && SortedNames(r.names, t.hosts.Keys)
    ensures mode == "groups" ==> r.Names? && SortedNames(r.names, t.groups.Keys)
    ensures mode == "all" ==>
      && r.Everything? && SortedNames(r.hosts, t.hosts.Keys)
      && (r.groups.None? <==> t.groups == map[])
      && (r.groups.Some? ==>
           && SortedNames(EntryGroups(r.groups.value), t.groups.Keys)
           && forall e :: e in r.groups.value ==> e.group in t.groups && SortedNames(e.members, t.groups[e.group]))
    ensures mode != "hosts" && mode != "groups" && mode != "all" ==> r == NoDump
  {
    var hostsList := Sort(hostListing);
    var groupsList := Sort(groupListing);
    if mode == "hosts" then Names(hostsList)
    else if mode == "groups" then Names(groupsList)
    else if mode == "all" then Everything(hostsList, GroupsDump(t, groupsList, memberListing))
    else NoDump
  }

  /** One value of `ansibleInventoryDump`'s dictionary. */
  datatype AnsibleEntry =
    | GroupEntry(hosts: seq<string>, vars: map<string, string>)
    | Meta(hostvars: map<string, map<string, string>>)

  const META: string := "_meta"

  /**
   * `ansibleInventoryDump`: one `{hosts, vars}` entry per group with the
   * group's listing and empty group variables, then `_meta.hostvars` holding
   * every host's full variable map. The meta entry is written last, so it
   * replaces a group named `_meta`.
   */
  function AnsibleInventoryDump(t: Tree, memberListing: map<string, seq<string>>): (r: map<string, AnsibleEntry>)
    requires ListsMembers(memberListing, t)
    ensures r.Keys == t.groups.Keys + {META}
    ensures r[META] == Meta(t.hosts)
    ensures forall g :: g in t.groups && g != META ==>
      r[g].GroupEntry? && Lists(r[g].hosts, t.groups[g]) && r[g].vars == map[]
  {
    var groupDict := map g | g in t.groups :: GroupEntry(memberListing[g], map[]);
    groupDict[META := Meta(t.hosts)]
  }

  /** `ansibleHostAccess`: a host's variable map, or None for the "no such host" error. */
  function AnsibleHostAccess(t: Tree, h: string): (r: Option<map<string, string>>)
    ensures r.Some? <==> h in t.hosts
    ensures r.Some? ==> r.value == t.hosts[h]
  {
    if h in t.hosts then Some(t.hosts[h]) else None
  }

  /** `--host` agrees with the `_meta.hostvars` of `--list` for every host. */
  lemma HostAccessAgreesWithMeta(t: Tree, memberListing: map<string, seq<string>>, h: string)
    requires ListsMembers(memberListing, t)
    ensures AnsibleHostAccess(t, h).Some? <==> h in AnsibleInventoryDump(t, memberListing)[META].hostvars
    ensures h in t.hosts ==>
      AnsibleHostAccess(t, h).value == AnsibleInventoryDump(t, memberListing)[META].hostvars[h]
  {
  }

  /** `showHostVars hosts:<h>` shows exactly what `--host <h>` prints. */
  lemma ShowHostAgreesWithHostAccess(t: Tree, h: string)
    ensures ShowHostVars(t, HostOnly(h)).Shown? <==> AnsibleHostAccess(t, h).Some?
    ensures h in t.hosts ==> ShowHostVars(t, HostOnly(h)).vars[h] == AnsibleHostAccess(t, h).value
  {
  }

  /** The entries built for a group list depend only on each listing's multiset. */
  lemma {:induction false} GroupEntriesIgnoreListingOrder(gs: seq<string>, m1: map<string, seq<string>>, m2: map<string, seq<string>>)
    requires forall g :: g in gs ==> g in m1 && g in m2 && multiset(m1[g]) == multiset(m2[g])
    ensures GroupEntries(gs, m1) == GroupEntries(gs, m2)
  {
    if gs != [] {
      SortIgnoresListingOrder(m1[gs[0]], m2[gs[0]]);
      GroupEntriesIgnoreListingOrder(gs[1..], m1, m2);
    }
  }

  lemma GroupsDumpIgnoresListingOrder(t: Tree, gs: seq<string>, m1: map<string, seq<string>>, m2: map<string, seq<string>>)
    requires SortedNames(gs, t.groups.Keys) && ListsMembers(m1, t) && ListsMembers(m2, t)
    ensures GroupsDump(t, gs, m1) == GroupsDump(t, gs, m2)
  {
    SortedListingMembers(gs, t.groups.Keys);
    GroupEntriesIgnoreListingOrder(gs, m1, m2);
  }

  /** `inventoryDump` gives the same answer whatever order the store lists children in. */
  lemma DumpIgnoresListingOrder(t: Tree, mode: string,
                                h1: seq<string>, g1: seq<string>, m1: map<string, seq<string>>,
                                h2: seq<string>, g2: seq<string>, m2: map<string, seq<string>>)
    requires Lists(h1, t.hosts.Keys) && Lists(g1, t.groups.Keys) && ListsMembers(m1, t)
    requires Lists(h2, t.hosts.Keys) && Lists(g2, t.groups.Keys) && ListsMembers(m2, t)
    ensures InventoryDump(t, mode, h1, g1, m1) == InventoryDump(t, mode, h2, g2, m2)
  {
    SortIgnoresListingOrder(h1, h2);
    SortIgnoresListingOrder(g1, g2);
    GroupsDumpIgnoresListingOrder(t, Sort(g1), m1, m2);
  }
}
