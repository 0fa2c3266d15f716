/**
 * The path resolver: the three string parsers that turn an operation string
 * into group and host names, and the store paths built from those names under
 * the configured root.
 */
module Resolver {
  import opened Wrappers
  import opened Text
  import opened Replies

  /** The configured root path prefix (`cfg.aPath`). */
  const ROOT: string := "/ansible-test"

  function HostPath(host: string): string { ROOT + "/hosts/" + host }

  function GroupPath(group: string): string { ROOT + "/groups/" + group }

  /** `hostGroupPath`: the membership marker of `host` under `group`. */
  function MarkerPath(group: string, host: string): string { GroupPath(group) + "/" + host }

  /**
   * The list `splitZnodeString` returns: `[(group, groupPath)]`,
   * `[(group, groupPath), (host, hostPath, markerPath)]`, or
   * `[(host, hostPath, None)]`. The paths follow from the names.
   */
  datatype Selector = GroupOnly(group: string) | GroupHost(group: string, host: string) | HostOnly(host: string)
  {
    /** The third slot of the host tuple, where there is one. */
    function MarkerSlot(): Option<string>
    {
      match this
      case GroupHost(g, h) => Some(MarkerPath(g, h))
      case _ => None
    }
  }

  /**
   * `splitZnodeString`: a string with `hosts:` anywhere in it selects the host
   * named by its second field; otherwise a colon selects group and host by the
   * first two fields; otherwise the whole string names a group.
   */
  function SplitZnodeString(s: string): (r: Selector)
    ensures r.HostOnly? <==> Contains(s, "hosts:")
    ensures r.GroupOnly? <==> ':' !in s
    ensures r.GroupOnly? ==> r.group == s
    ensures !r.GroupOnly? ==> |Split(s, ':')| >= 2
    ensures r.GroupHost? ==> r.group == Field(s, ':', 0) && r.host == Field(s, ':', 1)
    ensures r.HostOnly? ==> r.host == Field(s, ':', 1) && r.MarkerSlot() == None
    ensures r.GroupHost? ==> r.MarkerSlot() == Some(GroupPath(r.group) + "/" + r.host)
  {
    SplitHasSecondField(s, ':');
    if Contains(s, "hosts:") then
      ContainsChar(s, "hosts:", 5);
      HostOnly(Split(s, ':')[1])
    else if ':' in s then
      GroupHost(Split(s, ':')[0], Split(s, ':')[1])
    else
      GroupOnly(s)
  }

  /** `hosts:<host>` selects that host alone. */
  lemma HostSelectorRoundTrip(h: string)
    requires ':' !in h
    ensures SplitZnodeString("hosts:" + h) == HostOnly(h)
  {
    assert "hosts:" + h == Join(["hosts", h], ':');
    SplitJoin(["hosts", h], ':');
    ContainsPrefix("hosts:", h);
  }

  /** `<group>:<host>` selects the marker, unless the group name ends in `hosts`. */
  lemma GroupHostSelectorRoundTrip(g: string, h: string)
    requires ':' !in g && ':' !in h
    requires !Contains(g + ":", "hosts:")
    ensures SplitZnodeString(g + ":" + h) == GroupHost(g, h)
  {
    assert g + ":" + h == Join([g, h], ':');
    SplitJoin([g, h], ':');
    ContainsBeforeBarrier(g + ":", h, "hosts:");
  }

  /** The substring test misreads `<group>:<host>` as the host-only form when the group name ends in `hosts`. */
  lemma GroupEndingInHostsSelectsHost(g: string, h: string)
    requires ':' !in g && ':' !in h
    ensures SplitZnodeString(g + "hosts:" + h) == HostOnly(h)
  {
    var s := g + "hosts:" + h;
    assert s == Join([g + "hosts", h], ':');
    SplitJoin([g + "hosts", h], ':');
    ContainsPrefix("hosts:", h);
    ContainsWithin(g, "hosts:" + h, "", "hosts:");
    assert g + ("hosts:" + h) + "" == s;
  }

  /** The rename list `[(oldName, oldPath), (newName, newPath)]` of one registry. */
  datatype RenameRequest = RenameHosts(oldName: string, newName: string) | RenameGroups(oldName: string, newName: string)
  {
    function OldPath(): string
    {
      if RenameHosts? then HostPath(oldName) else GroupPath(oldName)
    }
  }

  /**
   * `splitRenameZnodeString`: exactly three colon fields are demanded before
   * any keyword is looked at; then `hosts:` anywhere selects a host rename,
   * `groups` anywhere a group rename, and the second and third fields are the
   * old and new names.
   */
  function SplitRenameZnodeString(s: string): (r: Result<RenameRequest, ErrorTag>)
    ensures r == Failure(NoValidKeywordsNumber) <==> |Split(s, ':')| != 3
    ensures (r.Success? && r.value.RenameHosts?) <==> |Split(s, ':')| == 3 && Contains(s, "hosts:")
    ensures (r.Success? && r.value.RenameGroups?)
        <==> |Split(s, ':')| == 3 && !Contains(s, "hosts:") && Contains(s, "groups")
    ensures r == Failure(NoValidKeywordsString)
        <==> |Split(s, ':')| == 3 && !Contains(s, "hosts:") && !Contains(s, "groups")
    ensures r.Success? ==> r.value.oldName == Field(s, ':', 1) && r.value.newName == Field(s, ':', 2)
  {
    var fields := Split(s, ':');
    if |fields| != 3 then Failure(NoValidKeywordsNumber)
    else if Contains(s, "hosts:") then Success(RenameHosts(fields[1], fields[2]))
    else if Contains(s, "groups") then Success(RenameGroups(fields[1], fields[2]))
    else Failure(NoValidKeywordsString)
  }

  /** `x:y:z` splits into its three parts when none of them holds a colon. */
  lemma ThreeFields(x: string, y: string, z: string)
    requires ':' !in x && ':' !in y && ':' !in z
    ensures Split(x + ":" + y + ":" + z, ':') == [x, y, z]
  {
    JoinThree(x, y, z);
    SplitJoin([x, y, z], ':');
  }

  /** `hosts:<old>:<new>` is a host rename. */
  lemma HostRenameRoundTrip(a: string, b: string)
    requires ':' !in a && ':' !in b
    ensures SplitRenameZnodeString("hosts:" + a + ":" + b) == Success(RenameHosts(a, b))
  {
    ThreeFields("hosts", a, b);
    assert "hosts" + ":" + a + ":" + b == "hosts:" + a + ":" + b;
    ContainsPrefix("hosts:", a + ":" + b);
    assert "hosts:" + (a + ":" + b) == "hosts:" + a + ":" + b;
  }

  /** The `groups:` keyword itself does not start a `hosts:` match, and a keyword cannot span the last colon. */
  lemma NoHostKeywordInGroupRename(a: string, b: string)
    requires ':' !in b
    requires !Contains(a + ":", "hosts:")
    ensures !Contains("groups:" + a + ":" + b, "hosts:")
  {
    ContainsSkipPrefix("groups:", a + ":", "hosts:");
    assert "groups:" + (a + ":") == "groups:" + a + ":";
    ContainsBeforeBarrier("groups:" + a + ":", b, "hosts:");
    assert "groups:" + a + ":" + b == ("groups:" + a + ":") + b;
  }

  lemma GroupKeywordInGroupRename(a: string, b: string)
    ensures Contains("groups:" + a + ":" + b, "groups")
  {
    ContainsPrefix("groups", ":" + a + ":" + b);
    assert "groups" + (":" + a + ":" + b) == "groups:" + a + ":" + b;
  }

  lemma GroupRenameFields(a: string, b: string)
    requires ':' !in a && ':' !in b
    ensures Split("groups:" + a + ":" + b, ':') == ["groups", a, b]
  {
    ThreeFields("groups", a, b);
    assert "groups" + ":" + a + ":" + b == "groups:" + a + ":" + b;
  }

  /** `groups:<old>:<new>` is a group rename, unless the old name ends in `hosts`. */
  lemma GroupRenameRoundTrip(a: string, b: string)
    requires ':' !in a && ':' !in b
    requires !Contains(a + ":", "hosts:")
    ensures SplitRenameZnodeString("groups:" + a + ":" + b) == Success(RenameGroups(a, b))
  {
    GroupRenameFields(a, b);
    NoHostKeywordInGroupRename(a, b);
    GroupKeywordInGroupRename(a, b);
  }

  /** A group whose name ends in `hosts` is renamed through the host branch. */
  lemma GroupEndingInHostsRenamedAsHost(a: string, b: string)
    requires ':' !in a && ':' !in b
    ensures SplitRenameZnodeString("groups:" + a + "hosts:" + b) == Success(RenameHosts(a + "hosts", b))
  {
    var s := "groups:" + a + "hosts:" + b;
    ThreeFields("groups", a + "hosts", b);
    assert s == "groups" + ":" + (a + "hosts") + ":" + b;
    ContainsPrefix("hosts:", b);
    ContainsWithin("groups:" + a, "hosts:" + b, "", "hosts:");
    assert ("groups:" + a) + ("hosts:" + b) + "" == s;
  }

  lemma JoinThree(x: string, y: string, z: string)
    ensures Join([x, y, z], ':') == x + ":" + y + ":" + z
  {
    assert [x, y, z][1..] == [y, z] && [y, z][1..] == [z];
    assert Join([y, z], ':') == y + [':'] + z;
  }

  /** What `splitZnodeVarString` returns: `{group: {host: vars}}`. */
  datatype ZnodeDict = ZnodeDict(group: string, host: string, vars: map<string, string>)

  /** `token.split(':')[0]`. */
  function Key(token: string): string { Field(token, ':', 0) }

  /** `token.split(':')[1]`, where there is one. */
  function Value(token: string): string { Field(token, ':', 1) }

  /** No later token in `tokens` has the key of token `j`. */
  predicate LastWithKey(tokens: seq<string>, j: int)
    requires 0 <= j < |tokens|
  {
    forall j' :: j < j' < |tokens| ==> Key(tokens[j']) != Key(tokens[j])
  }

  /**
   * The variable map the loop of `splitZnodeVarString` builds from the tokens
   * after the first: each token sets key := value, and a token without a colon
   * raises IndexError (None here). VarMapKeys and VarMapLastWins say what the
   * map holds.
   */
  function VarMap(tokens: seq<string>): (r: Option<map<string, string>>)
    ensures r.Some? <==> forall j :: 0 <= j < |tokens| ==> ':' in tokens[j]
  {
    if tokens == [] then Some(map[])
    else
      var front := tokens[..|tokens| - 1];
      var last := tokens[|tokens| - 1];
      var fields := Split(last, ':');
      SplitHasSecondField(last, ':');
      assert forall j :: 0 <= j < |front| ==> front[j] == tokens[j];
      match VarMap(front)
      case None => None
      case Some(m) =>
        if |fields| < 2 then None else Some(m[fields[0] := fields[1]])
  }

  /** The keys are exactly the first fields of the tokens. */
  lemma {:induction false} VarMapKeys(tokens: seq<string>)
    requires VarMap(tokens).Some?
    ensures forall k :: k in VarMap(tokens).value <==> exists j :: 0 <= j < |tokens| && Key(tokens[j]) == k
  {
    if tokens != [] {
      var front := tokens[..|tokens| - 1];
      assert forall j :: 0 <= j < |front| ==> front[j] == tokens[j];
      VarMapKeys(front);
    }
  }

  /** A key holds the second field of the last token that has it: later duplicates overwrite. */
  lemma {:induction false} VarMapLastWins(tokens: seq<string>, j: int)
    requires VarMap(tokens).Some?
    requires 0 <= j < |tokens| && LastWithKey(tokens, j)
    ensures Key(tokens[j]) in VarMap(tokens).value
    ensures VarMap(tokens).value[Key(tokens[j])] == Value(tokens[j])
  {
    var front := tokens[..|tokens| - 1];
    assert forall i :: 0 <= i < |front| ==> front[i] == tokens[i];
    if j < |tokens| - 1 {
      assert LastWithKey(front, j);
      VarMapLastWins(front, j);
    }
  }

  /**
   * The value `splitZnodeVarString` computes: the group and host are the first
   * two colon fields of the first comma token; the rest give the variables.
   */
  function ParseZnodeVars(s: string): (r: Option<ZnodeDict>)
    ensures r.Some? <==> forall j :: 0 <= j < |Split(s, ',')| ==> ':' in Split(s, ',')[j]
    ensures r.Some? ==> r.value.group == Key(Split(s, ',')[0]) && r.value.host == Value(Split(s, ',')[0])
    ensures r.Some? ==> VarMap(Split(s, ',')[1..]) == Some(r.value.vars)
    ensures r.Some? && ',' !in s ==> r.value.vars == map[]
  {
    var tokens := Split(s, ',');
    var head := Split(tokens[0], ':');
    SplitHasSecondField(tokens[0], ':');
    SplitHasSecondField(s, ',');
    assert forall j :: 1 <= j < |tokens| ==> tokens[1..][j - 1] == tokens[j];
    match VarMap(tokens[1..])
    case None => None
    case Some(vars) =>
      if |head| < 2 then None else Some(ZnodeDict(head[0], head[1], vars))
  }

  /** `splitZnodeVarString`: the token loop filling the variable map, then the head token. */
  method SplitZnodeVarString(s: string) returns (r: Option<ZnodeDict>)
    ensures r == ParseZnodeVars(s)
  {
    var varList := Split(s, ',');
    var varDict: map<string, string> := map[];
    for i := 1 to |varList|
      invariant VarMap(varList[1..i]) == Some(varDict)
    {
      var fields := Split(varList[i], ':');
      assert varList[1..i + 1][..i - 1] == varList[1..i];
      if |fields| < 2 {
        SplitHasSecondField(varList[i], ':');
        assert varList[1..][i - 1] == varList[i];
        return None;
      }
      varDict := varDict[fields[0] := fields[1]];
    }
    assert varList[1..|varList|] == varList[1..];
    var head := Split(varList[0], ':');
    if |head| < 2 {
      return None;
    }
    return Some(ZnodeDict(head[0], head[1], varDict));
  }
}
