# ansible-keeper inventory core in Dafny

ansible-keeper keeps an Ansible inventory in a ZooKeeper tree under a
configured root (`/ansible-test`). The tree has two registries:

- `hosts/<host>/<var>` holds one node per host variable, with the value as
  the node's data;
- `groups/<group>/<host>` holds empty membership markers.

Nothing ties a marker to an existing host.

This project models the inventory keeper in `ansibleKeeper.py` in three layers.

- **Resolvers** (module `Resolver`). These are pure functions that turn an
  operation string into names: `group:host,k:v,...` for add and update;
  `group`, `group:host` or `hosts:host` for show, add-to-group and delete;
  and `hosts:old:new` or `groups:old:new` for rename. Python's `split`, the
  substring test `in` and string order are modelled in `Text` and `Sorting`.
- **Mutators** (modules `Mutations` and `Keeper`).
  - `Mutations` states, as functions on a tree value (`Store.Tree`), what
    each mutator leaves in the store and what it replies.
  - `Keeper.Inventory` is a class whose two fields are the registries. Its
    methods make the store calls the keeper makes, in the keeper's order and
    with its loops. Each method is proved to produce exactly the tree and
    reply of its `Mutations` function.
- **Readers** (module `Reader`, plus the reader methods of
  `Keeper.Inventory`). These cover `showHostVars`, `inventoryDump`, and the
  Ansible dynamic-inventory views `--list` (`ansibleInventoryDump`) and
  `--host` (`ansibleHostAccess`).

Throughout the model, three things from the store become plain data:

- The order in which ZooKeeper lists a node's children is a `seq` parameter.
  `Store.Lists` constrains it to list each child exactly once.
- A reply is a tag, not the message text.
- A Python exception escaping an operation is a value of the reply type.
  The mutators' `Reply` uses `Raised`, `updateZnode`'s reply uses
  `UpdateRaised`, and `showHostVars`'s reply uses `ShowRaised`. The
  IndexError of `splitZnodeVarString` is the `None` of an `Option`. The state
  effects before the exception are kept.

`Scenarios` relates several operations to each other.

The keeper's quirks are modelled as written:

- **Substring tests:**
  - `'hosts:' in s` anywhere in the string selects the host form, so
    `webhosts:db01` names host `db01`.
  - The rename branch tests `'hosts' in oldPath` on the full path, so a
    group whose name contains `hosts` is renamed through the host branch.
  - The final "no valid keywords" branch of `renameZnode` is modelled and
    proved never to be taken.
- **`deleteZnodeRecur` replies:**
  - Deleting a group's last marker returns None.
  - Deleting any other marker raises KeyError after the delete.
  - The single-selector forms raise UnboundLocalError, before deleting when
    the node is missing and after deleting when it exists.
- **Other quirks:**
  - `updateZnode` lists the host's children before checking that the host
    exists, so a missing host raises NoNodeError.
  - `renameHostInGroup` looks at the first listed group only.
  - `inventoryDump('all')` has no `groups` key when there are no groups.
  - A group named `_meta` is replaced by the meta entry of `--list`.
  - Deleting or renaming a host leaves dangling markers, and showing a group
    with one raises NoNodeError.

## Model

| member | source | states |
|---|---|---|
| Text.Split | ansibleKeeper.py:140 | `s.split(sep)` has at least one field, no field holds the separator, and joining the fields gives back `s` |
| Text.SplitJoin | ansibleKeeper.py:140 | splitting a join of separator-free fields gives back those fields |
| Text.SplitHasSecondField | ansibleKeeper.py:144-146 | a second field exists exactly when the separator occurs, so `[1]` raises IndexError exactly on a token without one |
| Text.ContainsIffOccurs | ansibleKeeper.py:163 | the substring test used by the keeper holds exactly when `t` occurs at some index of `s` |
| Text.ContainsSkipPrefix | ansibleKeeper.py:487 | a prefix without the first character of `t` does not change whether `t` is found |
| Text.ContainsBeforeBarrier | ansibleKeeper.py:204 | an occurrence cannot run into a suffix lacking the last character of `t` |
| Text.LessTotal | ansibleKeeper.py:602-603 | Python's string order is total |
| Text.LessTransitive | ansibleKeeper.py:602-603 | Python's string order is transitive |
| Sorting.Sort | ansibleKeeper.py:602-603 | `sorted(listing)` is sorted and a permutation of the listing |
| Sorting.SortedUnique | ansibleKeeper.py:602-603 | two sorted permutations of each other are equal |
| Sorting.SortIgnoresListingOrder | ansibleKeeper.py:602-603 | `sorted` gives the same list for any two listings of the same children |
| Resolver.SplitZnodeString | ansibleKeeper.py:150-179 | host form iff the string contains `hosts:`, host being field 1 and no marker path; otherwise group and host are fields 0 and 1 iff there is a colon, and the marker path is groupPath + "/" + host; otherwise the whole string is the group |
| Resolver.HostSelectorRoundTrip | ansibleKeeper.py:163-166 | `hosts:<h>` selects host `h` |
| Resolver.GroupHostSelectorRoundTrip | ansibleKeeper.py:168-174 | `<g>:<h>` selects `g` and `h` when `g` does not end in `hosts` |
| Resolver.GroupEndingInHostsSelectsHost | ansibleKeeper.py:163-166 | `<g>hosts:<h>` selects host `h` alone, whatever `g` is |
| Resolver.SplitRenameZnodeString | ansibleKeeper.py:182-221 | NO_VALID_KEYWORDS_NUMBER iff the split does not give 3 fields; otherwise a host rename iff `hosts:` occurs, a group rename iff `groups` occurs and `hosts:` does not, NO_VALID_KEYWORDS_STRING iff neither; old and new names are fields 1 and 2 |
| Resolver.HostRenameRoundTrip | ansibleKeeper.py:204-210 | `hosts:<a>:<b>` renames host `a` to `b` |
| Resolver.GroupRenameRoundTrip | ansibleKeeper.py:212-218 | `groups:<a>:<b>` renames group `a` to `b` unless `a` ends in `hosts` |
| Resolver.GroupEndingInHostsRenamedAsHost | ansibleKeeper.py:204-210 | `groups:<a>hosts:<b>` is a host rename of `<a>hosts` |
| Resolver.VarMap | ansibleKeeper.py:143-144 | the loop's variable map exists iff every token holds a colon |
| Resolver.VarMapKeys | ansibleKeeper.py:143-144 | its keys are exactly the tokens' first fields |
| Resolver.VarMapLastWins | ansibleKeeper.py:143-144 | a key holds the second field of its last token, so later duplicates overwrite earlier ones |
| Resolver.ParseZnodeVars | ansibleKeeper.py:140-147 | defined iff every comma token holds a colon; group and host are fields 0 and 1 of the first token; the variables come from the later tokens; with no comma they are empty |
| Resolver.SplitZnodeVarString | ansibleKeeper.py:140-147 | the loop over the tokens yields exactly ParseZnodeVars |
| Mutations.AddHostWithHostvars | ansibleKeeper.py:248-264 | HOST_EXISTS iff the host exists, else HOST_EXISTS_IN_GROUP iff the marker exists, and then nothing changes; ADDED iff neither holds; on success the host holds exactly the given variables, the group (created if needed) gains the host, and nothing else changes |
| Mutations.AddHostToGroup | ansibleKeeper.py:279-299 | the hosts registry is never touched; HOST_EXISTS_IN_GROUP iff the marker exists, then HOST_DOES_NOT_EXIST iff the host is missing, both with no change; ADDED iff the marker is absent and the host exists; on success only the marker is added; a host-only selector raises ValueError and a group-only one IndexError, both with no change |
| Mutations.DeleteZnodeRecur | ansibleKeeper.py:314-371 | `group:host`: a missing host or marker changes nothing; a lone marker takes its group with it and the call returns None; otherwise only the marker goes, the group stays non-empty, and KeyError is raised; hosts untouched. `group`: only that group is removed; `hosts:h`: only that host is removed; both raise UnboundLocalError |
| Mutations.Overwrites | ansibleKeeper.py:419-428 | the updated dictionary holds exactly the requested variables the host already has, with their requested values |
| Mutations.UpdateZnode | ansibleKeeper.py:395-437 | a missing host raises NoNodeError with no change; otherwise exactly the requested existing variables are overwritten, none is created or deleted, other hosts and groups are unchanged; NOT UPDATED iff the request is non-empty and matches nothing, UPDATED with skips iff it matches partly, UPDATED iff it matches fully (also when empty) |
| Mutations.RenameInFirstGroup | ansibleKeeper.py:455-476 | only the first listed group can change: if it holds `old` it then holds `new` and not `old`, otherwise nothing changes |
| Mutations.HostPathHasKeyword | ansibleKeeper.py:487 | every host path contains `hosts` |
| Mutations.GroupPathHostsKeyword | ansibleKeeper.py:487 | a group path contains `hosts` iff the group name does |
| Mutations.GroupPathHasKeyword | ansibleKeeper.py:514 | every group path contains `groups` |
| Mutations.RenameZnode | ansibleKeeper.py:478-529 | an absent old node or an existing new one changes nothing; a host rename moves the variable map and renames the marker in the first listed group only; an ordinary group rename moves the member set and leaves hosts alone; a group name with `hosts` goes through the host branch; "no valid keywords" is never returned |
| Keeper.Inventory.AddHostWithHostvars | ansibleKeeper.py:248-264 | the two `ensure_path` calls and the `create` loop give the tree and reply of Mutations.AddHostWithHostvars |
| Keeper.Inventory.AddHostToGroup | ansibleKeeper.py:279-299 | the checks and the marker `ensure_path` give the tree and reply of Mutations.AddHostToGroup |
| Keeper.Inventory.DeleteZnodeRecur | ansibleKeeper.py:314-371 | the recursive deletes give the tree and reply of Mutations.DeleteZnodeRecur |
| Keeper.Inventory.ApplyUpdates | ansibleKeeper.py:416-428 | the `set` loop overwrites exactly Mutations.Overwrites and collects the missing variables |
| Keeper.Inventory.UpdateZnode | ansibleKeeper.py:395-437 | gives the tree and reply of Mutations.UpdateZnode |
| Keeper.Inventory.RenameHostInGroup | ansibleKeeper.py:455-476 | leaves the groups as Mutations.RenameInFirstGroup says for the listing it is given |
| Keeper.Inventory.RenameZnode | ansibleKeeper.py:478-529 | the copy loops, the marker fix-up and the deletes give the tree and reply of Mutations.RenameZnode |
| Reader.ShowHostVars | ansibleKeeper.py:544-586 | a host selector shows exactly that host's variables or fails iff it is missing; a group selector (including `group:host`) fails iff the group is missing, raises NoNodeError iff some member has no host node, and otherwise maps each member to its variables |
| Reader.InventoryDump | ansibleKeeper.py:602-625 | `hosts` and `groups` give the sorted names; `all` gives the sorted hosts and, exactly when a group exists, each group with its sorted members, the groups in sorted order; other modes give None |
| Reader.DumpIgnoresListingOrder | ansibleKeeper.py:602-619 | the dump does not depend on the order in which the store lists children |
| Reader.AnsibleInventoryDump | ansibleKeeper.py:650-689 | one entry per group with that group's members and empty vars, plus `_meta.hostvars` mapping every host to its full variable map, which replaces a group named `_meta` |
| Reader.AnsibleHostAccess | ansibleKeeper.py:711-724 | the host's variables, or the no-such-host error exactly when it is missing |
| Reader.HostAccessAgreesWithMeta | ansibleKeeper.py:670-686 | `--host h` agrees with `_meta.hostvars` of `--list` |
| Reader.ShowHostAgreesWithHostAccess | ansibleKeeper.py:569-583 | `showHostVars hosts:h` shows what `--host h` prints |
| Keeper.Inventory.ShowHostVars | ansibleKeeper.py:544-586 | the loop over the listed members yields Reader.ShowHostVars |
| Keeper.Inventory.InventoryDump | ansibleKeeper.py:602-625 | the `all` loop writing the `groups` key yields Reader.InventoryDump |
| Keeper.Inventory.AnsibleInventoryDump | ansibleKeeper.py:650-689 | the group loop and the host loop yield Reader.AnsibleInventoryDump |
| Keeper.Inventory.AnsibleHostAccess | ansibleKeeper.py:711-724 | the `get` loop yields Reader.AnsibleHostAccess |
| Keeper.Inventory.ReadVars | ansibleKeeper.py:718-722 | the loop of `get` calls over the listed variables yields exactly the host's variable map |
| Keeper.Inventory.ShowMembers | ansibleKeeper.py:553-565 | the loop over a group's listed members yields each member's variable map, or NoNodeError exactly when some member has no host node |
| Keeper.Inventory.DumpGroups | ansibleKeeper.py:616-623 | the `all` loop leaves the `groups` key unset exactly when there are no groups, and otherwise one entry per group with its sorted members, in order |
| Keeper.Inventory.GroupDict | ansibleKeeper.py:650-659 | the group loop yields one `{hosts, vars}` entry per group, with the group's listing and empty vars |
| Keeper.Inventory.HostVarDict | ansibleKeeper.py:670-682 | the host loop yields every host's full variable map |
| Keeper.Inventory.CreateVars | ansibleKeeper.py:259-262 | the `create` loop on a fresh host node leaves it holding exactly the given variables, and nothing else changes |
| Keeper.Inventory.CopyMarkers | ansibleKeeper.py:519-522 | the `ensure_path` loop creates the new group with exactly the old group's members, and nothing else changes |
| Scenarios.AddThenRead | ansibleKeeper.py:256-262 | after a successful add, `--host` and `showHostVars hosts:h` give exactly the supplied variables |
| Scenarios.AddTwice | ansibleKeeper.py:249-250 | a second identical add reports HOST_EXISTS and changes nothing |
| Scenarios.DeleteMarkerKeepsGroupsNonEmpty | ansibleKeeper.py:340-344 | `group:host` deletion preserves "no group is empty" |
| Scenarios.AddsKeepGroupsNonEmpty | ansibleKeeper.py:256-257 | both add operations preserve "no group is empty" |
| Scenarios.AddToGroupThenDelete | ansibleKeeper.py:298 | adding an existing host to a group and deleting that marker restores the tree, replying None if the group was new and raising KeyError otherwise |
| Scenarios.HostDeleteLeavesDanglingMarkers | ansibleKeeper.py:367 | after deleting a host its markers remain and showing any of its groups raises NoNodeError |
| Scenarios.GroupEndingInHostsDeletesHost | ansibleKeeper.py:163-166 | deleting `<g>hosts:<h>` removes host `h` and leaves every group as it was |
| Scenarios.RenameHostMovesVars | ansibleKeeper.py:499-511 | after a host rename `--host new` answers what `--host old` did, and `--host old` fails |
| Scenarios.RenameHostLeavesLaterGroups | ansibleKeeper.py:464-476 | a group other than the first keeps the old marker, which then dangles |
| Scenarios.RenameHostInFirstGroup | ansibleKeeper.py:465-472 | the first listed group holding the host has its marker renamed |
| Scenarios.RenameGroupKeepsView | ansibleKeeper.py:518-526 | after an ordinary group rename, showing the new group gives what the old one gave, and the old one is gone |
| Scenarios.UpdateWithNoMatchChangesNothing | ansibleKeeper.py:419-431 | an update matching no existing variable changes nothing |
| Scenarios.UpdateIdempotent | ansibleKeeper.py:419-437 | a fully matching update applied twice changes nothing the second time and reports UPDATED |
| Scenarios.ParseOneVar | ansibleKeeper.py:140-147 | `g:h,k:v` parses to group `g`, host `h` and the single variable `k = v` |

## Left out

- `oParser` and `main`: option parsing, help, exit and printing. The message strings are also left out; replies keep only their tags.
- `zkStartRo`, `zkStartRw` and `zk.stop()`: sessions with the ZooKeeper servers. The model is the store's state only. A keeper is built from a tree through its constructor.
- `exportToToml`, `importFromToml`, `exportToIni` and `importFromIni`: file I/O through the `toml` and `configparser` libraries, whose behaviour is not part of this model.
- Byte values. The store keeps data as bytes, and `create` and `set` refuse `str` values, which the keeper passes. The model keeps values as plain strings, and `get` returns them unchanged.
- Names holding `/`. Every name is treated as one path segment, so no name can reach a deeper node.
- Empty names and the names `.` and `..`. The resolvers accept them, as `hosts:`, `g:`, `groups::b` or `g:,:v` show, and the model then treats them as ordinary names of their own nodes. In the store, the path built from an empty name is the registry path with a trailing `/`, so `exists`, `ensure_path`, `create` and recursive `delete` act on the registry node itself or are refused; ZooKeeper also refuses `.` and `..` as path components. The client library's path handling decides which of these happens, and it is not part of this model. For such names the mutators and readers do not describe what the keeper does.
- The root, `hosts` and `groups` nodes. They are assumed to exist, so listing a registry never fails.
- Concurrency. Other clients may change the tree between an `exists` check and the action that follows it; interleavings between clients are not modelled.
- The re-check loop in `updateZnode`. It re-tests each variable listed a moment before, which cannot fail in a single-client store, so the model omits it.
- The `ERROR with processing znodeStrings` branches of `deleteZnodeRecur` and `showHostVars`. No selector reaches them, and selectors are a datatype with three forms.
- `print` inside `renameHostInGroup`, and its return value, which the keeper ignores.
- Mutations.UpdateZnode: the not-updated variables are a set. The source's list also has an order, which only the message text shows.
- Reader.AnsibleInventoryDump: a group's `hosts` list is stated only as a listing of its members, in whatever order the store lists them.
- test_ansibleKeeper.py is not part of this model. It needs a live server and names that are never defined, so it states no property to carry over.
