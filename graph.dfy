/**
 * Graph construction (`generateGraph` without its layout call and state
 * setters): one node per record, with the record's enumeration index as
 * its id and its key as its label, then, for every record and every one
 * of its import specifiers in order, one edge to the first record the
 * specifier matches.
 *
 * The edges are specified in two layers.  `Table` resolves every import
 * specifier of every record once, with `FirstMatch`; everything else about
 * the edges (their order, their ids, their endpoints) is a property of
 * `LinksOf`, which only reads that table.
 */
module Graph {
  import opened Wrappers
  import opened Strings
  import opened Dict
  import opened Extract
  import opened Resolve

  /** A node as it is pushed to `newNodes`: its id and `data.label`. */
  datatype Node = Node(id: string, labelText: string)

  datatype Edge = Edge(id: string, source: string, target: string)

  /** An edge before its ids are written out: source index, target index, and the index of the
      import that produced it in the source's import list. */
  datatype Link = Link(source: nat, target: nat, importIndex: nat)

  /** `index.toString()`. */
  function NodeId(i: nat): string {
    NatToString(i)
  }

  /** The template `e${sourceIndex}-${targetNode.id}-${importIndex}`. */
  function EdgeId(source: nat, targetId: string, importIndex: nat): string {
    "e" + (NatToString(source) + "-" + (targetId + "-" + NatToString(importIndex)))
  }

  function EdgeOf(l: Link): Edge {
    Edge(EdgeId(l.source, NodeId(l.target), l.importIndex), NodeId(l.source), NodeId(l.target))
  }

  /** The edges of a list of links, in the same order. */
  function Render(links: seq<Link>): (r: seq<Edge>)
    ensures |r| == |links| && forall x :: 0 <= x < |links| ==> r[x] == EdgeOf(links[x])
  {
    seq(|links|, x requires 0 <= x < |links| => EdgeOf(links[x]))
  }

  /** The import specifiers of the record at enumeration index `s`. */
  function ImportsOf(c: Dict<FileRecord>, s: nat): seq<string>
    requires c.Valid() && s < |c.order|
  {
    c.values[c.order[s]].imports
  }

  /** Row `s` of the resolution table: what each import specifier of record `s` resolves to. */
  function Resolutions(c: Dict<FileRecord>, s: nat): (r: seq<Option<nat>>)
    requires c.Valid() && s < |c.order|
    ensures |r| == |ImportsOf(c, s)|
    ensures forall k :: 0 <= k < |r| ==> r[k] == FirstMatch(c.order, ImportsOf(c, s)[k])
  {
    seq(|ImportsOf(c, s)|, k requires 0 <= k < |ImportsOf(c, s)| => FirstMatch(c.order, ImportsOf(c, s)[k]))
  }

  /** Every resolved target is the index of a record. */
  ghost predicate InRange(t: seq<seq<Option<nat>>>) {
    forall s, k :: 0 <= s < |t| && 0 <= k < |t[s]| && t[s][k].Some? ==> t[s][k].value < |t|
  }

  /** The resolution table: one row per record, one entry per import specifier. */
  function Table(c: Dict<FileRecord>): (t: seq<seq<Option<nat>>>)
    requires c.Valid()
    ensures |t| == |c.order| && InRange(t)
    ensures forall s :: 0 <= s < |t| ==> t[s] == Resolutions(c, s)
  {
    seq(|c.order|, s requires 0 <= s < |c.order| => Resolutions(c, s))
  }

  /** Lexicographic order on (source index, import index): the order edges are emitted in. */
  predicate Before(a: Link, b: Link) {
    a.source < b.source || (a.source == b.source && a.importIndex < b.importIndex)
  }

  /** Links in emission order: by source index, then by import index. */
  ghost predicate InEmissionOrder(links: seq<Link>) {
    forall x, y :: 0 <= x < y < |links| ==> Before(links[x], links[y])
  }

  /** Every link comes from one of the first `n` rows, names an entry of that row, and points at
      the record that entry resolves to. */
  ghost predicate Resolved(t: seq<seq<Option<nat>>>, n: nat, links: seq<Link>)
    requires n <= |t|
  {
    forall x :: 0 <= x < |links| ==>
      && links[x].source < n
      && links[x].importIndex < |t[links[x].source]|
      && t[links[x].source][links[x].importIndex] == Some(links[x].target)
  }

  /** The links contributed by the first `m` imports of source `s`, given what each import resolves
      to: one per resolved import, in import order. */
  function SourceLinks(s: nat, targets: seq<Option<nat>>, m: nat): (r: seq<Link>)
    requires m <= |targets|
    ensures |r| <= m
  {
    if m == 0 then []
    else
      SourceLinks(s, targets, m - 1) +
        match targets[m - 1]
        case None => []
        case Some(t) => [Link(s, t, m - 1)]
  }

  /** How many import specifiers the first `n` rows hold in all. */
  function TotalImports(t: seq<seq<Option<nat>>>, n: nat): nat
    requires n <= |t|
  {
    if n == 0 then 0 else TotalImports(t, n - 1) + |t[n - 1]|
  }

  /** The links of the first `n` rows, in emission order. */
  function LinksUpTo(t: seq<seq<Option<nat>>>, n: nat): (r: seq<Link>)
    requires n <= |t|
    ensures |r| <= TotalImports(t, n)
  {
    if n == 0 then [] else LinksUpTo(t, n - 1) + SourceLinks(n - 1, t[n - 1], |t[n - 1]|)
  }

  /** One more import of source `s` adds its link, if it resolves, after the links so far. */
  lemma SourceLinksStep(s: nat, targets: seq<Option<nat>>, m: nat)
    requires m < |targets|
    ensures targets[m].Some? ==>
      SourceLinks(s, targets, m + 1) == SourceLinks(s, targets, m) + [Link(s, targets[m].value, m)]
    ensures targets[m].None? ==> SourceLinks(s, targets, m + 1) == SourceLinks(s, targets, m)
  {
  }

  /** The links of the first `n + 1` rows are those of the first `n`, then those of row `n`. */
  lemma LinksUpToStep(t: seq<seq<Option<nat>>>, n: nat)
    requires n < |t|
    ensures LinksUpTo(t, n + 1) == LinksUpTo(t, n) + SourceLinks(n, t[n], |t[n]|)
  {
  }

  /** Every link of source `s` comes from that source, names one of the first `m` imports, points at
      what that import resolves to, and the links follow import order. */
  lemma {:induction false} SourceLinksSound(s: nat, targets: seq<Option<nat>>, m: nat)
    requires m <= |targets|
    ensures forall x :: 0 <= x < |SourceLinks(s, targets, m)| ==>
      SourceLinks(s, targets, m)[x].source == s && SourceLinks(s, targets, m)[x].importIndex < m
      && targets[SourceLinks(s, targets, m)[x].importIndex] == Some(SourceLinks(s, targets, m)[x].target)
    ensures forall x, y :: 0 <= x < y < |SourceLinks(s, targets, m)| ==>
      SourceLinks(s, targets, m)[x].importIndex < SourceLinks(s, targets, m)[y].importIndex
  {
    if m > 0 {
      var prefix := SourceLinks(s, targets, m - 1);
      var r := SourceLinks(s, targets, m);
      SourceLinksSound(s, targets, m - 1);
      SourceLinksStep(s, targets, m - 1);
      assert forall x :: 0 <= x < |prefix| ==> r[x] == prefix[x];
      if targets[m - 1].Some? {
        assert r[|prefix|] == Link(s, targets[m - 1].value, m - 1);
      }
    }
  }

  /** The links of row `s` come after the links of the rows before it. */
  lemma AppendSource(t: seq<seq<Option<nat>>>, s: nat, prefix: seq<Link>)
    requires s < |t|
    requires Resolved(t, s, prefix) && InEmissionOrder(prefix)
    ensures Resolved(t, s + 1, prefix + SourceLinks(s, t[s], |t[s]|))
    ensures InEmissionOrder(prefix + SourceLinks(s, t[s], |t[s]|))
  {
    var last := SourceLinks(s, t[s], |t[s]|);
    SourceLinksSound(s, t[s], |t[s]|);
    var r := prefix + last;
    forall x | 0 <= x < |r|
      ensures r[x].source < s + 1
      ensures r[x].importIndex < |t[r[x].source]|
      ensures t[r[x].source][r[x].importIndex] == Some(r[x].target)
    {
      if x >= |prefix| {
        assert r[x] == last[x - |prefix|];
      }
    }
    forall x, y | 0 <= x < y < |r|
      ensures Before(r[x], r[y])
    {
      if y < |prefix| {
      } else if x >= |prefix| {
        assert r[x] == last[x - |prefix|] && r[y] == last[y - |prefix|];
      } else {
        assert r[y] == last[y - |prefix|];
      }
    }
  }

  /** The links of the first `n` rows each come from one of those rows, name one of its entries and
      point at what that entry resolves to; and they are in emission order. */
  lemma {:induction false} LinksUpToSound(t: seq<seq<Option<nat>>>, n: nat)
    requires n <= |t|
    ensures Resolved(t, n, LinksUpTo(t, n)) && InEmissionOrder(LinksUpTo(t, n))
  {
    if n > 0 {
      LinksUpToSound(t, n - 1);
      AppendSource(t, n - 1, LinksUpTo(t, n - 1));
    }
  }

  /** All links of a resolution table, in emission order. */
  function LinksOf(t: seq<seq<Option<nat>>>): seq<Link> {
    LinksUpTo(t, |t|)
  }

  /** All links of the graph of a dictionary of records. */
  function Links(c: Dict<FileRecord>): seq<Link>
    requires c.Valid()
  {
    LinksOf(Table(c))
  }

  /** Appending a link appends its edge. */
  lemma RenderPush(links: seq<Link>, l: Link)
    ensures Render(links + [l]) == Render(links) + [EdgeOf(l)]
  {
    assert forall x :: 0 <= x < |links| ==> (links + [l])[x] == links[x];
  }

  /** Rendering a concatenation renders each part. */
  lemma RenderAppend(a: seq<Link>, b: seq<Link>)
    ensures Render(a + b) == Render(a) + Render(b)
  {
    assert forall x :: 0 <= x < |a| ==> (a + b)[x] == a[x];
    assert forall x :: |a| <= x < |a| + |b| ==> (a + b)[x] == b[x - |a|];
  }

  /** The map from keys to nodes that the edge pass looks targets up in: keyed in enumeration order,
      and the node of the `j`-th key has id `j`. */
  ghost predicate NodeMap(c: Dict<FileRecord>, componentMap: Dict<Node>) {
    && componentMap.Valid()
    && componentMap.order == c.order
    && forall j :: 0 <= j < |c.order| ==> componentMap.values[c.order[j]].id == NodeId(j)
  }

  /** The state of the node pass after the first `|nodes|` keys: one node per key so far, each
      entered into the map under its key. */
  ghost predicate NodesEntered(c: Dict<FileRecord>, nodes: seq<Node>, componentMap: Dict<Node>) {
    && |nodes| <= |c.order|
    && (forall j :: 0 <= j < |nodes| ==> nodes[j] == Node(NodeId(j), c.order[j]))
    && componentMap.Valid() && componentMap.order == c.order[..|nodes|]
    && forall j :: 0 <= j < |nodes| ==> componentMap.values[c.order[j]] == nodes[j]
  }

  /** Entering the node of the next key keeps the node pass's state. */
  lemma EnterNode(c: Dict<FileRecord>, nodes: seq<Node>, componentMap: Dict<Node>)
    requires c.Valid() && |nodes| < |c.order| && NodesEntered(c, nodes, componentMap)
    ensures NodesEntered(c, nodes + [Node(NodeId(|nodes|), c.order[|nodes|])],
      Put(componentMap, c.order[|nodes|], Node(NodeId(|nodes|), c.order[|nodes|])))
  {
    var i := |nodes|;
    var k := c.order[i];
    var node := Node(NodeId(i), k);
    var nodes' := nodes + [node];
    NextKey(c, i);
    assert k !in componentMap.values;
    var m' := Put(componentMap, k, node);
    assert m'.order == c.order[..i + 1];
    forall j | 0 <= j <= i
      ensures nodes'[j] == Node(NodeId(j), c.order[j])
      ensures m'.values[c.order[j]] == nodes'[j]
    {
      if j < i {
        assert nodes'[j] == nodes[j];
        assert c.order[j] in componentMap.values && c.order[j] != k;
      }
    }
  }

  /** The `i`-th key is not among the keys before it, and extends them. */
  lemma NextKey(c: Dict<FileRecord>, i: nat)
    requires c.Valid() && i < |c.order|
    ensures c.order[i] !in c.order[..i]
    ensures c.order[..i + 1] == c.order[..i] + [c.order[i]]
  {
    assert forall j :: 0 <= j < i ==> c.order[..i][j] == c.order[j];
  }

  /** The first pass of `generateGraph`: one node per record, in enumeration order, each also
      entered into `componentMap` under its key. */
  method CreateNodes(c: Dict<FileRecord>) returns (nodes: seq<Node>, componentMap: Dict<Node>)
    requires c.Valid()
    ensures |nodes| == |c.order|
    ensures forall i :: 0 <= i < |nodes| ==> nodes[i] == Node(NodeId(i), c.order[i])
    ensures componentMap.Valid() && componentMap.order == c.order
    ensures forall i :: 0 <= i < |nodes| ==> componentMap.values[c.order[i]] == nodes[i]
  {
    nodes := [];
    componentMap := Empty();
    var i := 0;
    while i < |c.order|
      invariant i == |nodes| && NodesEntered(c, nodes, componentMap)
    {
      var node := Node(NodeId(i), c.order[i]);
      EnterNode(c, nodes, componentMap);
      componentMap := Put(componentMap, c.order[i], node);
      nodes := nodes + [node];
      i := i + 1;
    }
    assert componentMap.order == c.order[..i];
  }

  /** The inner pass of `generateGraph` for the record at `sourceIndex`: for each of its import
      specifiers in order, an edge to the node of the first key it matches, if any. */
  method SourceEdges(c: Dict<FileRecord>, componentMap: Dict<Node>, sourceIndex: nat) returns (edges: seq<Edge>)
    requires c.Valid() && sourceIndex < |c.order| && NodeMap(c, componentMap)
    ensures edges == Render(SourceLinks(sourceIndex, Resolutions(c, sourceIndex), |ImportsOf(c, sourceIndex)|))
  {
    var imports := c.values[c.order[sourceIndex]].imports;
    ghost var targets := Resolutions(c, sourceIndex);
    edges := [];
    var importIndex := 0;
    while importIndex < |imports|
      invariant 0 <= importIndex <= |imports|
      invariant edges == Render(SourceLinks(sourceIndex, targets, importIndex))
    {
      var target := FirstMatch(componentMap.order, imports[importIndex]);
      assert target == targets[importIndex];
      SourceLinksStep(sourceIndex, targets, importIndex);
      if target.Some? {
        var targetNode := componentMap.values[componentMap.order[target.value]];
        var edge := Edge(EdgeId(sourceIndex, targetNode.id, importIndex), NodeId(sourceIndex), targetNode.id);
        RenderPush(SourceLinks(sourceIndex, targets, importIndex), Link(sourceIndex, target.value, importIndex));
        edges := edges + [edge];
      }
      importIndex := importIndex + 1;
    }
  }

  /** `generateGraph` up to the layout call: the nodes and the edges of the dependency graph. */
  method GenerateGraph(c: Dict<FileRecord>) returns (nodes: seq<Node>, edges: seq<Edge>)
    requires c.Valid()
    ensures |nodes| == |c.order|
    ensures forall i :: 0 <= i < |nodes| ==> nodes[i] == Node(NodeId(i), c.order[i])
    ensures edges == Render(Links(c))
  {
    var componentMap;
    nodes, componentMap := CreateNodes(c);
    assert NodeMap(c, componentMap);
    ghost var t := Table(c);
    edges := [];
    var sourceIndex := 0;
    while sourceIndex < |c.order|
      invariant 0 <= sourceIndex <= |c.order|
      invariant edges == Render(LinksUpTo(t, sourceIndex))
    {
      var more := SourceEdges(c, componentMap, sourceIndex);
      assert t[sourceIndex] == Resolutions(c, sourceIndex);
      LinksUpToStep(t, sourceIndex);
      RenderAppend(LinksUpTo(t, sourceIndex), SourceLinks(sourceIndex, t[sourceIndex], |t[sourceIndex]|));
      edges := edges + more;
      sourceIndex := sourceIndex + 1;
    }
  }

  /** Every entry that resolves produces its link; `x` is where. */
  lemma {:induction false} SourceLinksComplete(s: nat, targets: seq<Option<nat>>, m: nat, k: nat) returns (x: nat)
    requires m <= |targets| && k < m && targets[k].Some?
    ensures x < |SourceLinks(s, targets, m)| && SourceLinks(s, targets, m)[x] == Link(s, targets[k].value, k)
  {
    var prefix := SourceLinks(s, targets, m - 1);
    SourceLinksStep(s, targets, m - 1);
    if k < m - 1 {
      x := SourceLinksComplete(s, targets, m - 1, k);
      assert SourceLinks(s, targets, m)[x] == prefix[x];
    } else {
      x := |prefix|;
    }
  }

  lemma {:induction false} LinksUpToComplete(t: seq<seq<Option<nat>>>, n: nat, s: nat, k: nat) returns (x: nat)
    requires n <= |t| && s < n && k < |t[s]| && t[s][k].Some?
    ensures x < |LinksUpTo(t, n)| && LinksUpTo(t, n)[x] == Link(s, t[s][k].value, k)
  {
    var prefix := LinksUpTo(t, n - 1);
    var last := SourceLinks(n - 1, t[n - 1], |t[n - 1]|);
    LinksUpToStep(t, n - 1);
    if s < n - 1 {
      x := LinksUpToComplete(t, n - 1, s, k);
      assert (prefix + last)[x] == prefix[x];
    } else {
      var y := SourceLinksComplete(s, t[s], |t[s]|, k);
      x := |prefix| + y;
      assert (prefix + last)[x] == last[y];
    }
  }

  /** A link is produced exactly when its entry of the table resolves to its target. */
  lemma LinksOfExactly(t: seq<seq<Option<nat>>>, l: Link)
    ensures l in LinksOf(t) <==>
      l.source < |t| && l.importIndex < |t[l.source]| && t[l.source][l.importIndex] == Some(l.target)
  {
    LinksUpToSound(t, |t|);
    if l.source < |t| && l.importIndex < |t[l.source]| && t[l.source][l.importIndex] == Some(l.target) {
      var x := LinksUpToComplete(t, |t|, l.source, l.importIndex);
    }
  }

  /** A link is in the graph exactly when its source is a record, its import index names one of
      that record's import specifiers, and its target is the first key that specifier matches. */
  lemma LinksExactly(c: Dict<FileRecord>, l: Link)
    requires c.Valid()
    ensures l in Links(c) <==>
      l.source < |c.order| && l.importIndex < |ImportsOf(c, l.source)|
      && FirstMatch(c.order, ImportsOf(c, l.source)[l.importIndex]) == Some(l.target)
  {
    LinksOfExactly(Table(c), l);
  }

  /** There are at most as many edges as import specifiers. */
  lemma EdgeCountBounded(t: seq<seq<Option<nat>>>)
    ensures |Render(LinksOf(t))| <= TotalImports(t, |t|)
  {
  }

  /** Distinct indices give distinct node ids. */
  lemma NodeIdInjective(i: nat, j: nat)
    ensures NodeId(i) == NodeId(j) ==> i == j
  {
    NatToStringInjective(i, j);
  }

  /** An edge id is `e` followed by three dash-separated fields. */
  lemma EdgeIdFields(s: nat, t: nat, k: nat)
    ensures EdgeId(s, NodeId(t), k)[1..] == NatToString(s) + "-" + (NatToString(t) + "-" + NatToString(k))
  {
    DropPrefix("e", NatToString(s) + "-" + (NatToString(t) + "-" + NatToString(k)));
  }

  /** The edge id determines the source index, the target index and the import index. */
  lemma EdgeIdInjective(s: nat, t: nat, k: nat, s': nat, t': nat, k': nat)
    requires EdgeId(s, NodeId(t), k) == EdgeId(s', NodeId(t'), k')
    ensures s == s' && t == t' && k == k'
  {
    EdgeIdFields(s, t, k);
    EdgeIdFields(s', t', k');
    DashSplit(NatToString(s), NatToString(t) + "-" + NatToString(k), NatToString(s'), NatToString(t') + "-" + NatToString(k'));
    DashSplit(NatToString(t), NatToString(k), NatToString(t'), NatToString(k'));
    NatToStringInjective(s, s');
    NatToStringInjective(t, t');
    NatToStringInjective(k, k');
  }

  /** No two edges share an id. */
  lemma EdgeIdsDistinct(t: seq<seq<Option<nat>>>)
    ensures forall x, y :: 0 <= x < y < |Render(LinksOf(t))| ==> Render(LinksOf(t))[x].id != Render(LinksOf(t))[y].id
  {
    var links := LinksOf(t);
    LinksUpToSound(t, |t|);
    forall x, y | 0 <= x < y < |links|
      ensures Render(links)[x].id != Render(links)[y].id
    {
      assert Before(links[x], links[y]);
      if Render(links)[x].id == Render(links)[y].id {
        EdgeIdInjective(links[x].source, links[x].target, links[x].importIndex,
                        links[y].source, links[y].target, links[y].importIndex);
      }
    }
  }

  /** `id` is the id of one of `n` nodes numbered 0 to n-1. */
  ghost predicate IsNodeId(n: nat, id: string) {
    exists i :: 0 <= i < n && NodeId(i) == id
  }

  /** Every edge joins two of the nodes: no edge dangles. */
  lemma EdgesJoinNodes(t: seq<seq<Option<nat>>>)
    requires InRange(t)
    ensures forall e :: e in Render(LinksOf(t)) ==> IsNodeId(|t|, e.source) && IsNodeId(|t|, e.target)
  {
    var links := LinksOf(t);
    LinksUpToSound(t, |t|);
    forall e | e in Render(links)
      ensures IsNodeId(|t|, e.source) && IsNodeId(|t|, e.target)
    {
      var x :| 0 <= x < |links| && Render(links)[x] == e;
      var l := links[x];
      assert t[l.source][l.importIndex] == Some(l.target);
      assert e.source == NodeId(l.source) && e.target == NodeId(l.target);
    }
  }

  /** The edges `generateGraph` builds from a dictionary of records: no more than its import
      specifiers, pairwise distinct ids, and both ends of every edge among the node ids. */
  lemma GraphEdgesWellFormed(c: Dict<FileRecord>)
    requires c.Valid()
    ensures |Render(Links(c))| <= TotalImports(Table(c), |c.order|)
    ensures forall x, y :: 0 <= x < y < |Render(Links(c))| ==> Render(Links(c))[x].id != Render(Links(c))[y].id
    ensures forall e :: e in Render(Links(c)) ==> IsNodeId(|c.order|, e.source) && IsNodeId(|c.order|, e.target)
  {
    var t := Table(c);
    EdgeCountBounded(t);
    EdgeIdsDistinct(t);
    EdgesJoinNodes(t);
  }
}
