/** Search in the saved-connection tree: a group whose name matches brings in its whole subtree. */
module ConnectionSearch {
  import opened Options
  import opened Seqs
  import opened Strings

  datatype Group = Group(id: string, name: string, parent: Option<string>)

  datatype Search = Search(query: string, included: set<string>)

  function NormalizeQuery(query: string): string {
    Lower(Trim(query))
  }

  predicate Contains(text: string, part: string) {
    exists i | 0 <= i <= |text| :: part <= text[i..]
  }

  predicate NameMatches(g: Group, query: string) {
    Contains(Lower(g.name), query)
  }

  // ----- the meaning: reachability along parent links

  /** Some group of the catalog has this id and this parent. */
  ghost predicate IsChild(groups: seq<Group>, parent: string, id: string) {
    exists i :: 0 <= i < |groups| && groups[i].id == id && groups[i].parent == Some(parent)
  }

  ghost predicate IsHit(groups: seq<Group>, query: string, id: string) {
    exists i :: 0 <= i < |groups| && groups[i].id == id && NameMatches(groups[i], query)
  }

  /** The path starts at a group whose name matches and goes from parent to child. */
  ghost predicate IsPath(groups: seq<Group>, query: string, path: seq<string>)
    decreases |path|
  {
    var n := |path| - 1;
    n >= 0 &&
    if n == 0 then IsHit(groups, query, path[0])
    else IsPath(groups, query, path[..n]) && IsChild(groups, path[n - 1], path[n])
  }

  ghost predicate Reachable(groups: seq<Group>, query: string, id: string) {
    exists path :: IsPath(groups, query, path) && path[|path| - 1] == id
  }

  lemma HitIsReachable(groups: seq<Group>, query: string, id: string)
    requires IsHit(groups, query, id)
    ensures Reachable(groups, query, id)
  {
    var path := [id];
    PathReaches(groups, query, path);
  }

  lemma PathReaches(groups: seq<Group>, query: string, path: seq<string>)
    requires IsPath(groups, query, path)
    ensures Reachable(groups, query, path[|path| - 1])
  {
  }

  lemma PathGrows(groups: seq<Group>, query: string, path: seq<string>, id: string)
    requires IsPath(groups, query, path) && IsChild(groups, path[|path| - 1], id)
    ensures IsPath(groups, query, path + [id])
  {
    DropOfConcat(path, [id], |path|);
    assert path[..|path|] == path;
  }

  lemma ChildIsReachable(groups: seq<Group>, query: string, parent: string, id: string)
    requires Reachable(groups, query, parent) && IsChild(groups, parent, id)
    ensures Reachable(groups, query, id)
  {
    var path :| IsPath(groups, query, path) && path[|path| - 1] == parent;
    PathGrows(groups, query, path, id);
    PathReaches(groups, query, path + [id]);
  }

  /** A set that has the hits and is closed under children has everything reachable. */
  lemma {:induction false} ClosedHasPath(groups: seq<Group>, query: string, included: set<string>, path: seq<string>)
    requires forall id | IsHit(groups, query, id) :: id in included
    requires forall parent, id | parent in included && IsChild(groups, parent, id) :: id in included
    requires IsPath(groups, query, path)
    ensures path[|path| - 1] in included
    decreases |path|
  {
    var n := |path| - 1;
    if n > 0 {
      ClosedHasPath(groups, query, included, path[..n]);
      assert IsChild(groups, path[n - 1], path[n]);
    }
  }

  // ----- the worklist

  ghost function Ids(groups: seq<Group>): set<string> {
    set g | g in groups :: g.id
  }

  /** The index built by the first loop: under each parent, the ids of its children. */
  ghost predicate IndexesChildren(children: map<string, seq<string>>, groups: seq<Group>) {
    && (forall parent, id | IsChild(groups, parent, id) :: parent in children && id in children[parent])
    && (forall parent, id | parent in children && id in children[parent] :: IsChild(groups, parent, id))
  }

  ghost predicate ListsHits(pending: seq<string>, groups: seq<Group>, query: string) {
    && (forall id | IsHit(groups, query, id) :: id in pending)
    && (forall id | id in pending :: IsHit(groups, query, id))
  }

  lemma GrowCatalog(groups: seq<Group>, g: Group, query: string)
    ensures forall parent, id :: IsChild(groups + [g], parent, id) <==> IsChild(groups, parent, id) || (g.parent == Some(parent) && g.id == id)
    ensures forall id :: IsHit(groups + [g], query, id) <==> IsHit(groups, query, id) || (g.id == id && NameMatches(g, query))
  {
    var all := groups + [g];
    assert all[|groups|] == g && forall i | 0 <= i < |groups| :: all[i] == groups[i];
  }

  method Scan(query: string, groups: seq<Group>) returns (children: map<string, seq<string>>, pending: seq<string>)
    ensures IndexesChildren(children, groups) && ListsHits(pending, groups, query)
  {
    children, pending := map[], [];
    for i := 0 to |groups|
      invariant IndexesChildren(children, groups[..i]) && ListsHits(pending, groups[..i], query)
    {
      var group := groups[i];
      GrowCatalog(groups[..i], group, query);
      assert groups[..i + 1] == groups[..i] + [group];
      if group.parent.Some? {
        var siblings := if group.parent.value in children then children[group.parent.value] else [];
        children := children[group.parent.value := siblings + [group.id]];
      }
      if NameMatches(group, query) {
        pending := pending + [group.id];
      }
    }
    assert groups[..|groups|] == groups;
  }

  /** The loop invariant: everything found is reachable, and nothing reachable has been forgotten. */
  ghost predicate Tracks(groups: seq<Group>, query: string, included: set<string>, pending: seq<string>) {
    && (forall id | id in included || id in pending :: Reachable(groups, query, id) && id in Ids(groups))
    && (forall id | IsHit(groups, query, id) :: id in included || id in pending)
    && (forall parent, id | parent in included && IsChild(groups, parent, id) :: id in included || id in pending)
  }

  lemma VisitKeeps(groups: seq<Group>, query: string, included: set<string>, pending: seq<string>, id: string, more: seq<string>)
    requires Tracks(groups, query, included, pending + [id])
    requires forall child :: child in more <==> IsChild(groups, id, child)
    ensures Tracks(groups, query, included + {id}, pending + more)
  {
    assert id in pending + [id];
    forall x | x in more ensures Reachable(groups, query, x) && x in Ids(groups) {
      ChildIsReachable(groups, query, id, x);
    }
    forall parent, x | parent in included + {id} && IsChild(groups, parent, x)
      ensures x in included + {id} || x in pending + more
    {
      if parent in included {
        assert x in included || x in pending + [id];
      }
    }
    forall x | IsHit(groups, query, x) ensures x in included + {id} || x in pending + more {
      assert x in included || x in pending + [id];
    }
  }

  lemma RevisitKeeps(groups: seq<Group>, query: string, included: set<string>, pending: seq<string>, id: string)
    requires Tracks(groups, query, included, pending + [id]) && id in included
    ensures Tracks(groups, query, included, pending)
  {
    forall x | x in included || x in pending + [id] ensures x in included || x in pending {
    }
  }

  lemma StartTracks(groups: seq<Group>, query: string, hits: seq<string>)
    requires ListsHits(hits, groups, query)
    ensures Tracks(groups, query, {}, hits)
  {
    forall id | id in hits ensures Reachable(groups, query, id) && id in Ids(groups) {
      HitIsReachable(groups, query, id);
    }
  }

  lemma DoneTracks(groups: seq<Group>, query: string, included: set<string>, id: string)
    requires Tracks(groups, query, included, []) && Reachable(groups, query, id)
    ensures id in included
  {
    var path :| IsPath(groups, query, path) && path[|path| - 1] == id;
    ClosedHasPath(groups, query, included, path);
  }

  lemma ChildrenAre(groups: seq<Group>, children: map<string, seq<string>>, id: string)
    requires IndexesChildren(children, groups)
    ensures forall child :: child in (if id in children then children[id] else []) <==> IsChild(groups, id, child)
  {
  }

  /** Visit each id once, whatever cycles, duplicates or missing parents the catalog has. */
  method Close(query: string, groups: seq<Group>, children: map<string, seq<string>>, hits: seq<string>) returns (included: set<string>)
    requires IndexesChildren(children, groups) && ListsHits(hits, groups, query)
    ensures forall id :: id in included <==> Reachable(groups, query, id)
  {
    included := {};
    var pending := hits;
    StartTracks(groups, query, hits);
    while pending != []
      invariant Tracks(groups, query, included, pending)
      decreases Ids(groups) - included, |pending|
    {
      var id, rest := pending[|pending| - 1], pending[..|pending| - 1];
      AsSnoc(pending);
      assert id in pending;
      pending := rest;
      if id !in included {
        var more := if id in children then children[id] else [];
        ChildrenAre(groups, children, id);
        VisitKeeps(groups, query, included, rest, id, more);
        included := included + {id};
        pending := pending + more;
      } else {
        RevisitKeeps(groups, query, included, rest, id);
      }
    }
    forall id | Reachable(groups, query, id) ensures id in included {
      DoneTracks(groups, query, included, id);
    }
  }

  /** An empty query leaves the catalog unfiltered. */
  predicate IncludesGroup(search: Search, id: string) {
    search.query == "" || id in search.included
  }

  /** Build a search. The included ids are exactly those reachable from a matching group. */
  method New(query: string, groups: seq<Group>) returns (search: Search)
    ensures search.query == NormalizeQuery(query)
    ensures forall id :: id in search.included <==> search.query != "" && Reachable(groups, search.query, id)
    ensures forall id :: IncludesGroup(search, id) <==> search.query == "" || Reachable(groups, search.query, id)
  {
    var normalized := NormalizeQuery(query);
    if normalized == "" {
      return Search(normalized, {});
    }
    var children, pending := Scan(normalized, groups);
    var included := Close(normalized, groups, children, pending);
    search := Search(normalized, included);
  }

  // ----- what a match is, in terms of the text typed

  /** The query is this text with white space around it. */
  ghost predicate IsCore(query: string, before: string, core: string, after: string) {
    && query == before + core + after && AllSpace(before) && AllSpace(after)
    && (core != "" ==> !IsWhitespace(core[0]) && !IsWhitespace(core[|core| - 1]))
  }

  /** The same character, or the same ASCII letter in the other case. */
  predicate SameLetter(a: char, b: char) {
    || a == b
    || ('a' <= a <= 'z' && a as int == b as int + 32)
    || ('a' <= b <= 'z' && b as int == a as int + 32)
  }

  /** The text stands in the name at `i`, whatever the case of its letters. */
  ghost predicate StandsAt(name: string, core: string, i: nat) {
    i + |core| <= |name| && forall k | 0 <= k < |core| :: SameLetter(name[i + k], core[k])
  }

  lemma LowerSame(a: char, b: char)
    ensures LowerChar(a) == LowerChar(b) <==> SameLetter(a, b)
  {
  }

  lemma {:induction false} LowerAt(s: string)
    ensures |Lower(s)| == |s| && forall k | 0 <= k < |s| :: Lower(s)[k] == LowerChar(s[k])
  {
    if s != "" {
      LowerAt(s[1..]);
    }
  }

  lemma TrimIsCore(query: string, before: string, core: string, after: string)
    requires IsCore(query, before, core, after)
    ensures Trim(query) == core
  {
    if core == "" {
      assert AllSpace(query);
      SkipAll(query);
    } else {
      TrimAround(before, core, after);
    }
  }

  /** A group matches if and only if the text typed, without the white space around it, stands somewhere in
      its name, whatever the case of the letters on either side. */
  lemma MatchIff(g: Group, query: string, before: string, core: string, after: string)
    requires IsCore(query, before, core, after)
    ensures NameMatches(g, NormalizeQuery(query)) <==> exists i :: StandsAt(g.name, core, i)
  {
    TrimIsCore(query, before, core, after);
    LowerAt(core);
    LowerAt(g.name);
    var name, part := Lower(g.name), Lower(core);
    forall i: nat | i <= |name| ensures part <= name[i..] <==> StandsAt(g.name, core, i) {
      StandsIff(g.name, core, i);
    }
    if i: nat :| StandsAt(g.name, core, i) {
      assert part <= name[i..];
    }
  }

  lemma StandsIff(name: string, core: string, i: nat)
    requires i <= |name| && |Lower(name)| == |name|
    ensures Lower(core) <= Lower(name)[i..] <==> StandsAt(name, core, i)
  {
    LowerAt(core);
    LowerAt(name);
    var part, rest := Lower(core), Lower(name)[i..];
    if i + |core| <= |name| {
      forall k | 0 <= k < |core| ensures part[k] == rest[k] <==> SameLetter(name[i + k], core[k]) {
        LowerSame(name[i + k], core[k]);
      }
    }
  }
}
