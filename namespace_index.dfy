/**
  The namespace index: the flat, dotted namespace names reported by the metadata
  cache, arranged as a tree keyed by name segment (`winrt_ns`), and the lookups
  `find_ns` and `get_ns` over it.

  The members of a namespace (`meta::cache::namespace_members`) are opaque here:
  the type parameter `M`. `empty` stands for a default-constructed members value.
 */
module NamespaceIndex {
  import opened Common

  /** `winrt_ns`: the sub-namespaces by segment and the members of this namespace. */
  datatype Node<M> = Node(subNamespaces: map<string, Node<M>>, members: M)

  /** `std::map<std::string_view, winrt_ns>`: one level of the tree; the root is one too. */
  type NsMap<M> = map<string, Node<M>>

  /** `s.find('.', 0)`, with `|s|` standing for `npos`. */
  function DotPos(s: string): (r: nat)
    ensures r <= |s|
    ensures r < |s| ==> s[r] == '.'
    ensures forall i :: 0 <= i < r ==> s[i] != '.'
  {
    if s == [] || s[0] == '.' then 0 else 1 + DotPos(s[1..])
  }

  // ---------------------------------------------------------------- lookup

  /** `find_ns`: resolve a dotted name one segment at a time; `None` is the null pointer. */
  function FindNs<M>(namespaces: NsMap<M>, ns: string): Option<M>
    decreases |ns|
  {
    var dot := DotPos(ns);
    if dot == |ns| then
      if ns in namespaces then Some(namespaces[ns].members) else None
    else
      var head := ns[..dot];
      if head in namespaces then FindNs(namespaces[head].subNamespaces, ns[dot + 1..]) else None
  }

  /** `get_ns`: `find_ns`, with a missing namespace turned into `std::out_of_range` naming it. */
  function GetNs<M>(namespaces: NsMap<M>, ns: string): (r: Result<M>)
    ensures r.Ok? <==> FindNs(namespaces, ns).Some?
    ensures r.Ok? ==> r.value == FindNs(namespaces, ns).value
    ensures r.Err? ==> r.error == OutOfRange(ns)
  {
    match FindNs(namespaces, ns)
    case None => Err(OutOfRange(ns))
    case Some(members) => Ok(members)
  }

  /** In `head + "." + rest` with an undotted `head`, the first dot is the one after `head`. */
  lemma {:induction false} DotPosDotted(head: string, rest: string)
    requires '.' !in head
    ensures DotPos(head + "." + rest) == |head|
  {
    if head != [] {
      assert head[0] in head;
      assert (head + "." + rest)[1..] == head[1..] + "." + rest;
      assert '.' !in head[1..] by {
        forall k | 0 <= k < |head| - 1 ensures head[1..][k] != '.' { assert head[1..][k] == head[k + 1]; assert head[k + 1] in head; }
      }
      DotPosDotted(head[1..], rest);
    }
  }

  /** A name without a dot is looked up in the given level only, never below it. */
  lemma FindNsSingleSegment<M>(namespaces: NsMap<M>, ns: string)
    requires '.' !in ns
    ensures FindNs(namespaces, ns) == if ns in namespaces then Some(namespaces[ns].members) else None
  {
  }

  /** A dotted name consults only the text before its first dot at this level, and
      continues with the text after that dot in the node found there. */
  lemma FindNsDotted<M>(namespaces: NsMap<M>, head: string, rest: string)
    requires '.' !in head
    ensures FindNs(namespaces, head + "." + rest) ==
      if head in namespaces then FindNs(namespaces[head].subNamespaces, rest) else None
  {
    var ns := head + "." + rest;
    DotPosDotted(head, rest);
    assert ns[..|head|] == head;
    assert ns[|head| + 1..] == rest;
  }

  // ---------------------------------------------------------------- segments

  /** `get_dotted_name_segments`: the text between consecutive dots, empty pieces included. */
  function Split(s: string): (r: seq<string>)
    ensures |r| >= 1
    ensures forall i :: 0 <= i < |r| ==> '.' !in r[i]
    decreases |s|
  {
    var dot := DotPos(s);
    if dot == |s| then [s] else [s[..dot]] + Split(s[dot + 1..])
  }

  /** Joining the segments of a name with dots gives the name back. */
  lemma {:induction false} JoinSplit(s: string)
    ensures JoinWith(Split(s), ".") == s
    decreases |s|
  {
    var dot := DotPos(s);
    if dot < |s| {
      JoinSplit(s[dot + 1..]);
      JoinWithCons(s[..dot], Split(s[dot + 1..]), ".");
      assert s == s[..dot] + "." + s[dot + 1..];
    }
  }

  /** Splitting dot-free segments joined with dots gives the segments back. */
  lemma {:induction false} SplitJoin(segments: seq<string>)
    requires |segments| >= 1
    requires forall i :: 0 <= i < |segments| ==> '.' !in segments[i]
    ensures Split(JoinWith(segments, ".")) == segments
  {
    if |segments| > 1 {
      var s := JoinWith(segments, ".");
      var head, tail := segments[0], segments[1..];
      assert '.' !in head;
      assert segments == [head] + tail;
      JoinWithCons(head, tail, ".");
      assert s == head + "." + JoinWith(tail, ".");
      DotPosDotted(head, JoinWith(tail, "."));
      assert s[..|head|] == head;
      assert s[|head| + 1..] == JoinWith(tail, ".");
      SplitJoin(tail);
    }
  }

  lemma SplitInjective(a: string, b: string)
    requires Split(a) == Split(b)
    ensures a == b
  {
    JoinSplit(a);
    JoinSplit(b);
  }

  // ---------------------------------------------------------------- paths

  /** The node reached by following `path` from `level`, if every segment exists. */
  function NodeAt<M>(level: NsMap<M>, path: seq<string>): Option<Node<M>>
    requires |path| >= 1
    decreases |path|
  {
    if path[0] !in level then None
    else if |path| == 1 then Some(level[path[0]])
    else NodeAt(level[path[0]].subNamespaces, path[1..])
  }

  /** The members of the namespace at `path`, if there is one. */
  function Lookup<M>(level: NsMap<M>, path: seq<string>): Option<M>
    requires |path| >= 1
  {
    match NodeAt(level, path)
    case None => None
    case Some(node) => Some(node.members)
  }

  /** `find_ns` resolves a name exactly along the segments `get_dotted_name_segments` gives for it. */
  lemma {:induction false} FindNsIsLookup<M>(namespaces: NsMap<M>, ns: string)
    ensures FindNs(namespaces, ns) == Lookup(namespaces, Split(ns))
    decreases |ns|
  {
    var dot := DotPos(ns);
    if dot < |ns| {
      var head, rest := ns[..dot], ns[dot + 1..];
      assert Split(ns) == [head] + Split(rest);
      assert Split(ns)[1..] == Split(rest);
      if head in namespaces {
        FindNsIsLookup(namespaces[head].subNamespaces, rest);
      }
    }
  }

  /** Resolving `p + r` is resolving `p`, then `r` below the one node found there:
      every name below a prefix goes through the same node. */
  lemma {:induction false} NodeAtAppend<M>(level: NsMap<M>, p: seq<string>, r: seq<string>)
    requires |p| >= 1 && |r| >= 1
    decreases |p|
    ensures NodeAt(level, p + r) ==
      match NodeAt(level, p)
      case None => None
      case Some(node) => NodeAt(node.subNamespaces, r)
  {
    assert (p + r)[0] == p[0];
    if p[0] in level {
      if |p| == 1 {
        assert (p + r)[1..] == r;
      } else {
        assert (p + r)[1..] == p[1..] + r;
        NodeAtAppend(level[p[0]].subNamespaces, p[1..], r);
      }
    }
  }

  // ---------------------------------------------------------------- building

  /** `(*nsmap)[s]`: the node under `s`, default-constructed when absent. */
  function Child<M>(level: NsMap<M>, s: string, empty: M): Node<M>
  {
    if s in level then level[s] else Node(map[], empty)
  }

  /** One iteration of the outer loop of `get_namespace_map`: walk `path` with
      `operator[]`, creating missing nodes, and set the members of the last one. */
  function Insert<M>(level: NsMap<M>, path: seq<string>, members: M, empty: M): NsMap<M>
    requires |path| >= 1
    decreases |path|
  {
    var child := Child(level, path[0], empty);
    if |path| == 1 then level[path[0] := child.(members := members)]
    else level[path[0] := child.(subNamespaces := Insert(child.subNamespaces, path[1..], members, empty))]
  }

  lemma EmptyLookup<M>(path: seq<string>)
    requires |path| >= 1
    ensures var none: NsMap<M> := map[]; NodeAt(none, path) == None
  {
  }

  /** What every path resolves to after one insertion: the inserted path to the new
      members, a missing proper prefix of it to a fresh node with default members,
      and every other path to what it resolved to before. */
  lemma {:induction false} InsertLookup<M>(level: NsMap<M>, path: seq<string>, members: M, empty: M, q: seq<string>)
    requires |path| >= 1 && |q| >= 1
    decreases |path|
    ensures Lookup(Insert(level, path, members, empty), q) ==
      if q == path then Some(members)
      else if q < path && Lookup(level, q).None? then Some(empty)
      else Lookup(level, q)
  {
    var child := Child(level, path[0], empty);
    if q[0] != path[0] {
      assert q != path && !(q < path);
    } else if |q| == 1 {
      if |path| > 1 {
        assert q < path;
      }
    } else if |path| == 1 {
      assert q != path && !(q < path);
      if path[0] !in level {
        EmptyLookup<M>(q[1..]);
      }
    } else {
      assert (q == path) == (q[1..] == path[1..]);
      assert (q < path) == (q[1..] < path[1..]);
      InsertLookup(child.subNamespaces, path[1..], members, empty, q[1..]);
      if path[0] !in level {
        EmptyLookup<M>(q[1..]);
      }
    }
  }

  /** The map `get_namespace_map` returns for the reported `(name, members)` pairs, in order. */
  function Build<M>(reported: seq<(string, M)>, empty: M): NsMap<M>
  {
    if reported == [] then map[]
    else
      var last := reported[|reported| - 1];
      Insert(Build(reported[..|reported| - 1], empty), Split(last.0), last.1, empty)
  }

  ghost predicate DistinctPaths<M>(reported: seq<(string, M)>)
  {
    forall i, j :: 0 <= i < j < |reported| ==> Split(reported[i].0) != Split(reported[j].0)
  }

  /** The names the metadata cache reports come from a `std::map`, so they are distinct. */
  ghost predicate DistinctNames<M>(reported: seq<(string, M)>)
  {
    forall i, j :: 0 <= i < j < |reported| ==> reported[i].0 != reported[j].0
  }

  /** A path resolves in the built tree exactly when it leads to a reported path or an ancestor of one. */
  lemma {:induction false} BuildLookupNone<M>(reported: seq<(string, M)>, empty: M, q: seq<string>)
    requires |q| >= 1
    ensures Lookup(Build(reported, empty), q).None? <==>
      forall i :: 0 <= i < |reported| ==> !(q <= Split(reported[i].0))
  {
    if reported != [] {
      var n := |reported| - 1;
      var init, path := reported[..n], Split(reported[n].0);
      assert forall i :: 0 <= i < n ==> init[i] == reported[i];
      BuildLookupNone(init, empty, q);
      InsertLookup(Build(init, empty), path, reported[n].1, empty, q);
    }
  }

  /** Every reported path resolves to the members reported with it. */
  lemma {:induction false} BuildLookupReported<M>(reported: seq<(string, M)>, empty: M, i: nat)
    requires i < |reported|
    requires DistinctPaths(reported)
    ensures Lookup(Build(reported, empty), Split(reported[i].0)) == Some(reported[i].1)
  {
    var n := |reported| - 1;
    var init, path := reported[..n], Split(reported[n].0);
    var q := Split(reported[i].0);
    InsertLookup(Build(init, empty), path, reported[n].1, empty, q);
    if i < n {
      assert init[i] == reported[i];
      assert forall a, b :: 0 <= a < b < n ==> init[a] == reported[a] && init[b] == reported[b];
      BuildLookupReported(init, empty, i);
    }
  }

  /** A path that was never reported itself resolves to nothing or to default members. */
  lemma {:induction false} BuildLookupDefault<M>(reported: seq<(string, M)>, empty: M, q: seq<string>)
    requires |q| >= 1
    requires forall i :: 0 <= i < |reported| ==> Split(reported[i].0) != q
    ensures Lookup(Build(reported, empty), q).None? || Lookup(Build(reported, empty), q) == Some(empty)
  {
    if reported != [] {
      var n := |reported| - 1;
      var init, path := reported[..n], Split(reported[n].0);
      assert forall i :: 0 <= i < n ==> init[i] == reported[i];
      BuildLookupDefault(init, empty, q);
      InsertLookup(Build(init, empty), path, reported[n].1, empty, q);
    }
  }

  /** Build/lookup round trip, by name: every reported namespace resolves to its own
      members; a name resolves at all exactly when its segments lead to a reported
      name or an ancestor of one; an ancestor that was never reported itself has
      default members. */
  lemma BuildResolves<M>(reported: seq<(string, M)>, empty: M, ns: string)
    requires DistinctNames(reported)
    ensures forall i :: 0 <= i < |reported| && reported[i].0 == ns ==>
      FindNs(Build(reported, empty), ns) == Some(reported[i].1)
    ensures FindNs(Build(reported, empty), ns).None? <==>
      forall i :: 0 <= i < |reported| ==> !(Split(ns) <= Split(reported[i].0))
    ensures (forall i :: 0 <= i < |reported| ==> reported[i].0 != ns) ==>
      FindNs(Build(reported, empty), ns).None? || FindNs(Build(reported, empty), ns) == Some(empty)
  {
    forall i, j | 0 <= i < j < |reported|
      ensures Split(reported[i].0) != Split(reported[j].0)
    {
      if Split(reported[i].0) == Split(reported[j].0) {
        SplitInjective(reported[i].0, reported[j].0);
      }
    }
    FindNsIsLookup(Build(reported, empty), ns);
    BuildLookupNone(reported, empty, Split(ns));
    forall i | 0 <= i < |reported| && reported[i].0 == ns
      ensures FindNs(Build(reported, empty), ns) == Some(reported[i].1)
    {
      BuildLookupReported(reported, empty, i);
    }
    if forall i :: 0 <= i < |reported| ==> reported[i].0 != ns {
      forall i | 0 <= i < |reported|
        ensures Split(reported[i].0) != Split(ns)
      {
        if Split(reported[i].0) == Split(ns) {
          SplitInjective(reported[i].0, ns);
        }
      }
      BuildLookupDefault(reported, empty, Split(ns));
    }
  }

  /** A namespace that was never reported but is an ancestor of a reported one
      exists, with default (empty) members: `find_ns` does not return null for it. */
  lemma UnreportedAncestor<M>(reported: seq<(string, M)>, empty: M, ns: string, i: nat)
    requires DistinctNames(reported)
    requires i < |reported| && Split(ns) < Split(reported[i].0)
    requires forall k :: 0 <= k < |reported| ==> reported[k].0 != ns
    ensures FindNs(Build(reported, empty), ns) == Some(empty)
  {
    BuildResolves(reported, empty, ns);
  }

  /** `get_ns` on a reported name yields its members; on a name no reported name
      lies under it fails with `out_of_range` carrying that name. */
  lemma GetNsAfterBuild<M>(reported: seq<(string, M)>, empty: M, ns: string)
    requires DistinctNames(reported)
    ensures forall i :: 0 <= i < |reported| && reported[i].0 == ns ==>
      GetNs(Build(reported, empty), ns) == Ok(reported[i].1)
    ensures (forall i :: 0 <= i < |reported| ==> !(Split(ns) <= Split(reported[i].0))) ==>
      GetNs(Build(reported, empty), ns) == Err(OutOfRange(ns))
  {
    BuildResolves(reported, empty, ns);
  }

  /** Two reported names below a common proper prefix resolve through one shared
      node at that prefix, and each is found below it. */
  lemma SharedIntermediateNode<M>(reported: seq<(string, M)>, empty: M, i: nat, j: nat, prefix: seq<string>)
    requires DistinctNames(reported)
    requires i < |reported| && j < |reported| && |prefix| >= 1
    requires prefix < Split(reported[i].0) && prefix < Split(reported[j].0)
    ensures NodeAt(Build(reported, empty), prefix).Some?
    ensures Lookup(NodeAt(Build(reported, empty), prefix).value.subNamespaces, Split(reported[i].0)[|prefix|..]) == Some(reported[i].1)
    ensures Lookup(NodeAt(Build(reported, empty), prefix).value.subNamespaces, Split(reported[j].0)[|prefix|..]) == Some(reported[j].1)
  {
    var root := Build(reported, empty);
    BuildResolves(reported, empty, reported[i].0);
    BuildResolves(reported, empty, reported[j].0);
    FindNsIsLookup(root, reported[i].0);
    FindNsIsLookup(root, reported[j].0);
    var pi, pj := Split(reported[i].0), Split(reported[j].0);
    assert pi == prefix + pi[|prefix|..];
    assert pj == prefix + pj[|prefix|..];
    NodeAtAppend(root, prefix, pi[|prefix|..]);
    NodeAtAppend(root, prefix, pj[|prefix|..]);
  }

  // ---------------------------------------------------------------- the builder

  /** The forest `nsmap` points at before segment `k` of the walk in `get_namespace_map`. */
  function Reached<M>(root: NsMap<M>, path: seq<string>, k: nat, empty: M): NsMap<M>
    requires k <= |path|
  {
    if k == 0 then root else Child(Reached(root, path, k - 1, empty), path[k - 1], empty).subNamespaces
  }

  /** The walk down in the inner loop of `get_namespace_map`: the level `nsmap`
      points at before each segment, the missing nodes taken as default ones. */
  method WalkLevels<M>(root: NsMap<M>, segments: seq<string>, empty: M) returns (levels: seq<NsMap<M>>)
    ensures |levels| == |segments|
    ensures forall k :: 0 <= k < |segments| ==> levels[k] == Reached(root, segments, k, empty)
  {
    levels := [];
    var nsmap := root;
    var i := 0;
    while i < |segments|
      invariant i <= |segments| && |levels| == i
      invariant forall k :: 0 <= k < i ==> levels[k] == Reached(root, segments, k, empty)
      invariant nsmap == Reached(root, segments, i, empty)
    {
      levels := levels + [nsmap];
      nsmap := Child(nsmap, segments[i], empty).subNamespaces;
      i := i + 1;
    }
  }

  /** The inner loop of `get_namespace_map` for one name: walk down, then set the
      members of the last node (`curns->members = members`). Value maps have no
      interior pointers, so each level passed on the way down is written back into
      its parent on the way up. */
  method InsertNamespace<M>(root: NsMap<M>, segments: seq<string>, members: M, empty: M) returns (r: NsMap<M>)
    requires |segments| >= 1
    ensures r == Insert(root, segments, members, empty)
  {
    var levels := WalkLevels(root, segments, empty);
    var j := |segments| - 1;
    var curns := Child(levels[j], segments[j], empty);
    r := levels[j][segments[j] := curns.(members := members)];
    assert segments[j..] == [segments[j]];
    while j > 0
      invariant 0 <= j < |segments|
      invariant r == Insert(levels[j], segments[j..], members, empty)
    {
      j := j - 1;
      var parent := Child(levels[j], segments[j], empty);
      assert parent.subNamespaces == levels[j + 1];
      assert segments[j..][1..] == segments[j + 1..];
      r := levels[j][segments[j] := parent.(subNamespaces := r)];
    }
    assert segments[0..] == segments;
    assert levels[0] == root;
  }

  /** `get_namespace_map`: insert every reported namespace, in order, into an empty root. */
  method GetNamespaceMap<M>(reported: seq<(string, M)>, empty: M) returns (root: NsMap<M>)
    ensures root == Build(reported, empty)
  {
    root := map[];
    var i := 0;
    while i < |reported|
      invariant i <= |reported|
      invariant root == Build(reported[..i], empty)
    {
      var (ns, members) := reported[i];
      assert reported[..i + 1][..i] == reported[..i];
      root := InsertNamespace(root, Split(ns), members, empty);
      i := i + 1;
    }
    assert reported[..i] == reported;
  }
}
