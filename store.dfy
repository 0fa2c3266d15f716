/**
 * The tree store under the root path, seen as its two registries: `hosts/<host>/<var>`
 * holds host variables and `groups/<group>/<host>` holds empty membership
 * markers. Nothing ties a marker to an existing host: dangling markers are
 * part of the state space.
 */
module Store {

  datatype Tree = Tree(hosts: map<string, map<string, string>>, groups: map<string, set<string>>)
  {
    /** The marker `groups/<g>/<h>` exists. */
    predicate HasMarker(g: string, h: string)
    {
      g in groups && h in groups[g]
    }

    /** The markers under `groups/<g>`, none when the group is absent. */
    function Members(g: string): set<string>
    {
      if g in groups then groups[g] else {}
    }
  }

  /** `listing` is what `get_children` may return for a node with children `names`:
      each name once, in an order the store chooses. */
  predicate Lists(listing: seq<string>, names: set<string>)
  {
    multiset(listing) == multiset(names)
  }

  /** `memberListing[g]` is a listing of the markers of every group `g`. */
  predicate ListsMembers(memberListing: map<string, seq<string>>, t: Tree)
  {
    forall g :: g in t.groups ==> g in memberListing && Lists(memberListing[g], t.groups[g])
  }

  lemma ListingHead(listing: seq<string>, names: set<string>)
    requires Lists(listing, names) && listing != []
    ensures listing[0] in names
  {
    assert listing[0] in multiset(listing);
  }

  lemma ListedNames(listing: seq<string>, names: set<string>)
    requires Lists(listing, names)
    ensures forall x :: x in listing <==> x in names
  {
    forall x ensures x in listing <==> x in names {
      assert x in listing <==> x in multiset(listing);
    }
  }

  lemma ListingEmpty(listing: seq<string>, names: set<string>)
    requires Lists(listing, names)
    ensures listing == [] <==> names == {}
  {
    assert |listing| == |multiset(listing)| == |multiset(names)| == |names|;
  }
}
