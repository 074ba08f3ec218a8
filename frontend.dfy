/**
 * `frontend/static/index.js`: the lineage debugger's browser front end. It
 * keeps a cursor on the selected node's logical time, highlights the rule
 * that runs at that time, and grows a provenance graph from backwards
 * lineage answers.
 *
 * The AJAX round trips, the DOM and cytoscape's layout are left out: a
 * request the code would send is returned as a value, and a lineage answer
 * is handed in as a value. The cytoscape graph is kept as its node and edge
 * collections, in insertion order.
 */
module DebuggerFrontend {
  import opened Wrappers
  import Decimal

  /** A JSON scalar as it arrives from the server: a string or a number. */
  datatype Json = JStr(s: string) | JNum(n: int)

  /** A row of a collection as the server sends it: five header columns, then the tuple's own columns. */
  type Row = seq<Json>

  /** `String(v)`, as `Array.prototype.join` renders each element. */
  function JsonText(v: Json): string
  {
    match v
    case JStr(s) => s
    case JNum(n) => Decimal.IntToString(n)
  }

  /** `strip_header`: `tuple.slice(5)`, which is empty for a row of five columns or fewer. */
  function StripHeader<T>(tuple: seq<T>): (r: seq<T>)
    ensures |r| == if |tuple| >= 5 then |tuple| - 5 else 0
    ensures forall i :: 0 <= i < |r| ==> r[i] == tuple[i + 5]
    ensures |tuple| >= 5 ==> tuple[..5] + r == tuple
  {
    if |tuple| >= 5 then tuple[5..] else []
  }

  /** `Array.prototype.join(sep)`. */
  function JoinSep(xs: seq<string>, sep: string): string
  {
    if |xs| == 0 then "" else if |xs| == 1 then xs[0] else JoinSep(xs[..|xs| - 1], sep) + sep + xs[|xs| - 1]
  }

  // ---------------------------------------------------------------------
  // Tuple ids

  /** `fluent.TupleId`: the constructor's assertions are what the field types say. */
  datatype TupleId = TupleId(nodeName: string, collectionName: string, hash: string, time: int)

  /** `tuple_id_to_string`: the four fields joined with "_", used as the graph node's id. */
  function TupleIdToString(tid: TupleId): string
  {
    JoinSep([tid.nodeName, tid.collectionName, tid.hash, Decimal.IntToString(tid.time)], "_")
  }

  lemma TupleIdToStringParts(tid: TupleId)
    ensures TupleIdToString(tid) == tid.nodeName + "_" + tid.collectionName + "_" + tid.hash + "_" + Decimal.IntToString(tid.time)
  {
    var xs := [tid.nodeName, tid.collectionName, tid.hash, Decimal.IntToString(tid.time)];
    assert xs[..3][..2][..1] == [tid.nodeName];
    assert JoinSep(xs[..3][..2], "_") == tid.nodeName + "_" + tid.collectionName;
    assert JoinSep(xs[..3], "_") == tid.nodeName + "_" + tid.collectionName + "_" + tid.hash;
  }

  /** The position of the first c in s, or |s| when there is none. */
  function FirstIndex(s: string, c: char): (k: nat)
    ensures k <= |s|
  {
    if |s| == 0 || s[0] == c then 0 else 1 + FirstIndex(s[1..], c)
  }

  lemma {:induction false} FirstIndexAfter(x: string, c: char, y: string)
    requires c !in x
    ensures FirstIndex(x + [c] + y, c) == |x|
  {
    if |x| > 0 {
      assert (x + [c] + y)[1..] == x[1..] + [c] + y;
      FirstIndexAfter(x[1..], c, y);
    }
  }

  /** A separator that occurs in neither left part splits both strings at the same place. */
  lemma SplitAtFirst(x: string, y: string, x': string, y': string, c: char)
    requires c !in x && c !in x'
    requires x + [c] + y == x' + [c] + y'
    ensures x == x' && y == y'
  {
    FirstIndexAfter(x, c, y);
    FirstIndexAfter(x', c, y');
    var s := x + [c] + y;
    assert x == s[..|x|] && x' == s[..|x'|];
    assert y == s[|x| + 1..] && y' == s[|x'| + 1..];
  }

  /** The decimal text of an integer holds no '_'. */
  lemma IntToStringNoUnderscore(n: int)
    ensures '_' !in Decimal.IntToString(n)
  {
    var s := Decimal.IntToString(n);
    var d := Decimal.NatToString(if n < 0 then -n else n);
    assert s == (if n < 0 then "-" + d else d);
    forall i | 0 <= i < |s|
      ensures s[i] != '_'
    {
      if n < 0 && i > 0 {
        assert s[i] == d[i - 1];
      }
    }
  }

  predicate NoUnderscore(tid: TupleId)
  {
    '_' !in tid.nodeName && '_' !in tid.collectionName && '_' !in tid.hash
  }

  /** Ids whose names and hash hold no '_' never collide: the string determines the tuple id. */
  lemma TupleIdToStringInjective(a: TupleId, b: TupleId)
    requires NoUnderscore(a) && NoUnderscore(b)
    requires TupleIdToString(a) == TupleIdToString(b)
    ensures a == b
  {
    TupleIdToStringParts(a);
    TupleIdToStringParts(b);
    var ta, tb := Decimal.IntToString(a.time), Decimal.IntToString(b.time);
    SplitFourFields(a.nodeName, a.collectionName, a.hash, ta, b.nodeName, b.collectionName, b.hash, tb);
    var lo, hi := if a.time <= b.time then a.time else b.time, if a.time >= b.time then a.time else b.time;
    Decimal.IntToStringRoundTrip(a.time, lo, hi);
    Decimal.IntToStringRoundTrip(b.time, lo, hi);
  }

  /** Four fields joined by '_', the first three without '_', are recovered from the joined text. */
  lemma SplitFourFields(n: string, c: string, h: string, t: string, n': string, c': string, h': string, t': string)
    requires '_' !in n && '_' !in c && '_' !in h
    requires '_' !in n' && '_' !in c' && '_' !in h'
    requires n + "_" + c + "_" + h + "_" + t == n' + "_" + c' + "_" + h' + "_" + t'
    ensures n == n' && c == c' && h == h' && t == t'
  {
    assert n + "_" + c + "_" + h + "_" + t == n + ['_'] + (c + ['_'] + (h + ['_'] + t));
    assert n' + "_" + c' + "_" + h' + "_" + t' == n' + ['_'] + (c' + ['_'] + (h' + ['_'] + t'));
    SplitAtFirst(n, c + ['_'] + (h + ['_'] + t), n', c' + ['_'] + (h' + ['_'] + t'), '_');
    SplitAtFirst(c, h + ['_'] + t, c', h' + ['_'] + t', '_');
    SplitAtFirst(h, t, h', t', '_');
  }

  /** Names holding '_' do collide: moving an underscore between the node and the collection name keeps the id. */
  lemma TupleIdToStringCollides(x: string, y: string, z: string, hash: string, time: int)
    ensures TupleIdToString(TupleId(x + "_" + y, z, hash, time)) == TupleIdToString(TupleId(x, y + "_" + z, hash, time))
  {
    TupleIdToStringParts(TupleId(x + "_" + y, z, hash, time));
    TupleIdToStringParts(TupleId(x, y + "_" + z, hash, time));
  }

  // ---------------------------------------------------------------------
  // The logical-time cursor

  /** `decrement_time`'s new time: `Math.max(0, time - 1)`. */
  function Decremented(time: int): int
  {
    if time - 1 > 0 then time - 1 else 0
  }

  /** `increment_time`'s new time. */
  function Incremented(time: int): int
  {
    time + 1
  }

  /** The cursor never goes below zero, and stepping back from a positive time goes back exactly one. */
  lemma DecrementedSpec(time: int)
    ensures Decremented(time) >= 0
    ensures time > 0 ==> Decremented(time) == time - 1
    ensures time <= 0 ==> Decremented(time) == 0
  {
  }

  /** Stepping forward then back returns to any non-negative time; back then forward returns to any positive one. */
  lemma StepsUndo(time: int)
    ensures time >= 0 ==> Decremented(Incremented(time)) == time
    ensures time > 0 ==> Incremented(Decremented(time)) == time
  {
  }

  // ---------------------------------------------------------------------
  // The current rule

  /** `num_head`: no head without bootstrap rules, otherwise the bootstrap rules plus one. */
  function HeadLength(numBootstrap: nat): (h: nat)
  {
    if numBootstrap == 0 then 0 else numBootstrap + 1
  }

  /** What `render_current_rule` does to the rule list: highlight nothing, highlight one item, or throw on a missing item. */
  datatype Highlight = Nothing | Highlighted(index: nat) | Throws

  /**
   * `render_current_rule` for a node at `time` with `numBootstrap` bootstrap
   * rules and a rule list of `numItems` items. Indexing past the list gives
   * `undefined`, whose `classList` throws; so does `% 0`, which yields NaN.
   * Where the modulus is taken its dividend is non-negative, so JavaScript's
   * truncating `%` agrees with Dafny's.
   */
  function CurrentRule(time: int, numBootstrap: nat, numItems: nat): Highlight
  {
    var h := HeadLength(numBootstrap);
    if time == 0 then Nothing
    else if time <= h then (if 1 <= time <= numItems then Highlighted(time - 1) else Throws)
    else if numItems > h then Highlighted(h + (time - h - 1) % (numItems - h))
    else Throws
  }

  /** At time 0 nothing is highlighted; in the head, time t highlights item t - 1. */
  lemma CurrentRuleHead(time: int, numBootstrap: nat, numItems: nat)
    requires 0 <= time <= HeadLength(numBootstrap) && time <= numItems
    ensures time == 0 ==> CurrentRule(time, numBootstrap, numItems) == Nothing
    ensures time > 0 ==> CurrentRule(time, numBootstrap, numItems) == Highlighted(time - 1)
  {
  }

  /** Past the head, the highlighted item always lies in the cyclic body [h, numItems). */
  lemma CurrentRuleInBody(time: int, numBootstrap: nat, numItems: nat)
    requires time > HeadLength(numBootstrap) && numItems > HeadLength(numBootstrap)
    ensures var r := CurrentRule(time, numBootstrap, numItems);
      r.Highlighted? && HeadLength(numBootstrap) <= r.index < numItems
  {
  }

  /** The body repeats: one full cycle later the same item is highlighted. */
  lemma CurrentRulePeriodic(time: int, numBootstrap: nat, numItems: nat)
    requires time > HeadLength(numBootstrap) && numItems > HeadLength(numBootstrap)
    ensures CurrentRule(time + (numItems - HeadLength(numBootstrap)), numBootstrap, numItems)
         == CurrentRule(time, numBootstrap, numItems)
  {
    var h := HeadLength(numBootstrap);
    ModShift(time - h - 1, numItems - h);
    assert time + (numItems - h) - h - 1 == (time - h - 1) + (numItems - h);
  }

  /**
   * Stepping the cursor forward past the head moves the highlight to the
   * next item, wrapping from the last item back to the first body item; the
   * step out of the head lands on the first body item.
   */
  lemma CurrentRuleAdvances(time: int, numBootstrap: nat, numItems: nat)
    requires time >= HeadLength(numBootstrap) && numItems > HeadLength(numBootstrap) && time > 0
    ensures var h := HeadLength(numBootstrap);
      var next := CurrentRule(Incremented(time), numBootstrap, numItems);
      (time == h ==> next == Highlighted(h)) &&
      (time > h ==> var i := CurrentRule(time, numBootstrap, numItems).index;
                    next == Highlighted(if i + 1 < numItems then i + 1 else h))
  {
    var h := HeadLength(numBootstrap);
    if time > h {
      ModStep(time - h - 1, numItems - h);
      assert Incremented(time) - h - 1 == (time - h - 1) + 1;
    }
  }

  /** A non-zero multiple of n is at least n away from zero. */
  lemma MultipleBound(k: int, n: int)
    requires n > 0
    ensures k > 0 ==> k * n >= n
    ensures k < 0 ==> k * n <= -n
  {
    if k > 0 {
      assert k * n == (k - 1) * n + n;
      assert (k - 1) * n >= 0;
    } else if k < 0 {
      var j := -k;
      assert j * n == (j - 1) * n + n;
      assert (j - 1) * n >= 0;
      assert k * n == -(j * n);
    }
  }

  /** A quotient and remainder that rebuild a are Euclidean division's. */
  lemma ModUnique(a: int, n: int, q: int, m: int)
    requires n > 0 && a == q * n + m && 0 <= m < n
    ensures a % n == m
  {
    var k := q - a / n;
    assert k * n == a % n - m;
    MultipleBound(k, n);
  }

  /** Adding the modulus does not change a remainder. */
  lemma ModShift(a: int, n: int)
    requires a >= 0 && n > 0
    ensures (a + n) % n == a % n
  {
    var q := a / n;
    assert a + n == (q + 1) * n + a % n;
    ModUnique(a + n, n, q + 1, a % n);
  }

  /** Adding one moves a remainder up by one, wrapping from n - 1 to 0. */
  lemma ModStep(a: int, n: int)
    requires a >= 0 && n > 0
    ensures (a + 1) % n == if a % n + 1 < n then a % n + 1 else 0
  {
    var q, m := a / n, a % n;
    assert a == q * n + m;
    if m + 1 < n {
      ModUnique(a + 1, n, q, m + 1);
    } else {
      assert a + 1 == (q + 1) * n;
      ModUnique(a + 1, n, q + 1, 0);
    }
  }

  // ---------------------------------------------------------------------
  // The provenance graph

  /** A cytoscape node's data: its id, the tuple id's fields and the tuple label. */
  datatype GraphNode = GraphNode(id: string, nodeName: string, collectionName: string, hash: string, time: int, tuple: string)

  /** A cytoscape edge from the node with id `source` to the node with id `target`. */
  datatype GraphEdge = GraphEdge(source: string, target: string)

  /** The cytoscape graph's node and edge collections, in insertion order. */
  datatype Graph = Graph(nodes: seq<GraphNode>, edges: seq<GraphEdge>)

  predicate HasNode(g: Graph, id: string)
  {
    exists i :: 0 <= i < |g.nodes| && g.nodes[i].id == id
  }

  /** No two nodes share an id and no edge appears twice. */
  predicate Unique(g: Graph)
  {
    (forall i, j :: 0 <= i < j < |g.nodes| ==> g.nodes[i].id != g.nodes[j].id) &&
    (forall i, j :: 0 <= i < j < |g.edges| ==> g.edges[i] != g.edges[j])
  }

  /** The node `add_node` creates: the tuple label is `"(" + strip_header(tuple).join(",") + ")"`. */
  function NodeOf(tid: TupleId, tuple: Row): GraphNode
  {
    var texts := seq(|StripHeader(tuple)|, i requires 0 <= i < |StripHeader(tuple)| => JsonText(StripHeader(tuple)[i]));
    GraphNode(TupleIdToString(tid), tid.nodeName, tid.collectionName, tid.hash, tid.time, "(" + JoinSep(texts, ",") + ")")
  }

  /** The graph after `add_node(tid, tuple)`. */
  function WithNode(g: Graph, tid: TupleId, tuple: Row): Graph
  {
    if HasNode(g, TupleIdToString(tid)) then g else g.(nodes := g.nodes + [NodeOf(tid, tuple)])
  }

  /** The graph after `add_edge(source, target)`. */
  function WithEdge(g: Graph, source: TupleId, target: TupleId): Graph
  {
    var e := GraphEdge(TupleIdToString(source), TupleIdToString(target));
    if e in g.edges then g else g.(edges := g.edges + [e])
  }

  /**
   * `add_node` leaves the graph as it is when a node with the id exists, and
   * otherwise adds exactly that one node; either way the node is there
   * afterwards, the edges are untouched and ids stay unique.
   */
  lemma WithNodeSpec(g: Graph, tid: TupleId, tuple: Row)
    ensures var g' := WithNode(g, tid, tuple);
      HasNode(g', TupleIdToString(tid)) && g'.edges == g.edges &&
      (HasNode(g, TupleIdToString(tid)) ==> g' == g) &&
      (!HasNode(g, TupleIdToString(tid)) ==> g'.nodes == g.nodes + [NodeOf(tid, tuple)]) &&
      (Unique(g) ==> Unique(g'))
  {
    var g' := WithNode(g, tid, tuple);
    if !HasNode(g, TupleIdToString(tid)) {
      assert g'.nodes[|g.nodes|].id == TupleIdToString(tid);
    }
  }

  /** Adding a node twice is adding it once, whatever tuple comes the second time. */
  lemma WithNodeIdempotent(g: Graph, tid: TupleId, tuple: Row, tuple': Row)
    ensures WithNode(WithNode(g, tid, tuple), tid, tuple') == WithNode(g, tid, tuple)
  {
    WithNodeSpec(g, tid, tuple);
  }

  /** `add_edge` adds the edge exactly when it is missing, touches no node, and keeps edges unique. */
  lemma WithEdgeSpec(g: Graph, source: TupleId, target: TupleId)
    ensures var g' := WithEdge(g, source, target);
      var e := GraphEdge(TupleIdToString(source), TupleIdToString(target));
      e in g'.edges && g'.nodes == g.nodes &&
      (e in g.edges ==> g' == g) &&
      (e !in g.edges ==> g'.edges == g.edges + [e]) &&
      (Unique(g) ==> Unique(g'))
  {
  }

  /** Adding an edge twice is adding it once. */
  lemma WithEdgeIdempotent(g: Graph, source: TupleId, target: TupleId)
    ensures WithEdge(WithEdge(g, source, target), source, target) == WithEdge(g, source, target)
  {
  }

  /** One answer of a backwards lineage query: the source tuple's id and row. */
  datatype LineageRecord = LineageRecord(nodeName: string, collectionName: string, hash: string, time: int, tuple: Row)

  function SourceId(r: LineageRecord): TupleId
  {
    TupleId(r.nodeName, r.collectionName, r.hash, r.time)
  }

  /** The graph after the lineage callback's loop: each record becomes a node and an edge to the target. */
  function Integrated(g: Graph, target: TupleId, records: seq<LineageRecord>): Graph
  {
    if |records| == 0 then g
    else
      var r := records[|records| - 1];
      WithEdge(WithNode(Integrated(g, target, records[..|records| - 1]), SourceId(r), r.tuple), SourceId(r), target)
  }

  /** g' keeps g's nodes and edges, in place, and may add more after them. */
  predicate Grows(g: Graph, g': Graph)
  {
    |g.nodes| <= |g'.nodes| && g'.nodes[..|g.nodes|] == g.nodes &&
    |g.edges| <= |g'.edges| && g'.edges[..|g.edges|] == g.edges
  }

  /** The record's node and its edge to the target are in the graph. */
  predicate Recorded(g: Graph, target: TupleId, r: LineageRecord)
  {
    HasNode(g, TupleIdToString(SourceId(r))) &&
    GraphEdge(TupleIdToString(SourceId(r)), TupleIdToString(target)) in g.edges
  }

  lemma GrowsKeepsRecorded(g: Graph, g': Graph, target: TupleId, r: LineageRecord)
    requires Grows(g, g') && Recorded(g, target, r)
    ensures Recorded(g', target, r)
  {
    var i :| 0 <= i < |g.nodes| && g.nodes[i].id == TupleIdToString(SourceId(r));
    assert g'.nodes[i] == g.nodes[i];
    var e := GraphEdge(TupleIdToString(SourceId(r)), TupleIdToString(target));
    var j :| 0 <= j < |g.edges| && g.edges[j] == e;
    assert g'.edges[j] == e;
  }

  lemma GrowsTransitive(g: Graph, g': Graph, g'': Graph)
    requires Grows(g, g') && Grows(g', g'')
    ensures Grows(g, g'')
  {
    assert g''.nodes[..|g.nodes|] == g''.nodes[..|g'.nodes|][..|g.nodes|];
    assert g''.edges[..|g.edges|] == g''.edges[..|g'.edges|][..|g.edges|];
  }

  /** One step of the callback's loop grows the graph, records its record and keeps it unique. */
  lemma StepSpec(g: Graph, target: TupleId, r: LineageRecord)
    ensures var g' := WithEdge(WithNode(g, SourceId(r), r.tuple), SourceId(r), target);
      Grows(g, g') && Recorded(g', target, r) && (Unique(g) ==> Unique(g'))
  {
    var g1 := WithNode(g, SourceId(r), r.tuple);
    WithNodeSpec(g, SourceId(r), r.tuple);
    WithEdgeSpec(g1, SourceId(r), target);
  }

  /**
   * Integrating lineage only adds: old nodes and edges stay, in place; every
   * record's node and its edge to the target are present afterwards; and
   * ids and edges stay unique.
   */
  lemma IntegratedSpec(g: Graph, target: TupleId, records: seq<LineageRecord>)
    ensures var g' := Integrated(g, target, records);
      Grows(g, g') &&
      (forall k :: 0 <= k < |records| ==> Recorded(g', target, records[k])) &&
      (Unique(g) ==> Unique(g'))
  {
    IntegratedGrows(g, target, records);
    IntegratedRecords(g, target, records);
    if Unique(g) {
      IntegratedUnique(g, target, records);
    }
  }

  lemma {:induction false} IntegratedGrows(g: Graph, target: TupleId, records: seq<LineageRecord>)
    ensures Grows(g, Integrated(g, target, records))
  {
    if |records| > 0 {
      var p := records[..|records| - 1];
      IntegratedGrows(g, target, p);
      var g1 := Integrated(g, target, p);
      StepSpec(g1, target, records[|records| - 1]);
      GrowsTransitive(g, g1, Integrated(g, target, records));
    }
  }

  lemma {:induction false} IntegratedRecords(g: Graph, target: TupleId, records: seq<LineageRecord>)
    ensures forall k :: 0 <= k < |records| ==> Recorded(Integrated(g, target, records), target, records[k])
  {
    if |records| > 0 {
      var p := records[..|records| - 1];
      IntegratedRecords(g, target, p);
      var g1 := Integrated(g, target, p);
      var g' := Integrated(g, target, records);
      StepSpec(g1, target, records[|records| - 1]);
      forall k | 0 <= k < |p|
        ensures Recorded(g', target, records[k])
      {
        assert records[k] == p[k];
        GrowsKeepsRecorded(g1, g', target, p[k]);
      }
    }
  }

  lemma {:induction false} IntegratedUnique(g: Graph, target: TupleId, records: seq<LineageRecord>)
    requires Unique(g)
    ensures Unique(Integrated(g, target, records))
  {
    if |records| > 0 {
      var p := records[..|records| - 1];
      IntegratedUnique(g, target, p);
      StepSpec(Integrated(g, target, p), target, records[|records| - 1]);
    }
  }

  /** A graph already holding every record's node and edge is left as it is. */
  lemma {:induction false} IntegratedNoop(g: Graph, target: TupleId, records: seq<LineageRecord>)
    requires forall k :: 0 <= k < |records| ==> Recorded(g, target, records[k])
    ensures Integrated(g, target, records) == g
  {
    if |records| > 0 {
      var p := records[..|records| - 1];
      assert forall k :: 0 <= k < |p| ==> p[k] == records[k];
      IntegratedNoop(g, target, p);
    }
  }

  /** Integrating the same lineage answer twice is integrating it once. */
  lemma IntegratedIdempotent(g: Graph, target: TupleId, records: seq<LineageRecord>)
    ensures Integrated(Integrated(g, target, records), target, records) == Integrated(g, target, records)
  {
    IntegratedSpec(g, target, records);
    IntegratedNoop(Integrated(g, target, records), target, records);
  }

  // ---------------------------------------------------------------------
  // The debugger's state

  /** `fluent.Collection`. */
  datatype Collection = Collection(name: string, kind: string, columnNames: seq<string>, blackBoxLineage: bool, tuples: seq<Row>)

  /** The requests `refresh_collections` sends: each named collection of the node, at the node's time. */
  datatype RefreshRequest = RefreshRequest(nodeName: string, collectionNames: seq<string>, time: int)

  /** The backwards lineage request: black-box collections send the row's `id` column (`tuple[6]`, undefined when missing). */
  datatype LineageQuery =
    | BlackBoxQuery(nodeName: string, collectionName: string, id: Option<Json>)
    | RegularQuery(nodeName: string, collectionName: string, hash: string, time: int)

  /** `tuple[i]`, None standing for `undefined`. */
  function At(tuple: Row, i: nat): Option<Json>
  {
    if i < |tuple| then Some(tuple[i]) else None
  }

  /** `new fluent.TupleId(...)` from a row's hash and time columns, None when the constructor's type assertions throw. */
  function TargetOf(nodeName: string, collectionName: string, tuple: Row): (r: Option<TupleId>)
    ensures r.Some? <==> |tuple| >= 2 && tuple[0].JStr? && tuple[1].JNum?
  {
    match (At(tuple, 0), At(tuple, 1))
    case (Some(JStr(hash)), Some(JNum(time))) => Some(TupleId(nodeName, collectionName, hash, time))
    case _ => None
  }

  /** The query `backwards_lineage` sends for a clicked row whose target id is `target`. */
  function QueryFor(target: TupleId, collection: Collection, tuple: Row): LineageQuery
  {
    if collection.blackBoxLineage then BlackBoxQuery(target.nodeName, collection.name, At(tuple, 6))
    else RegularQuery(target.nodeName, collection.name, target.hash, target.time)
  }

  /** `fluent.Node`: the selected node; the debugger moves its time and records the clicked hash. */
  class Node {
    const name: string
    const address: string
    const bootstrapRules: seq<string>
    const rules: seq<string>
    var time: int
    var collections: seq<Collection>
    var clickedHash: Option<string>

    constructor (name: string, address: string, bootstrapRules: seq<string>, rules: seq<string>, time: int)
      ensures this.name == name && this.address == address
      ensures this.bootstrapRules == bootstrapRules && this.rules == rules
      ensures this.time == time && collections == [] && clickedHash == None
    {
      this.name := name;
      this.address := address;
      this.bootstrapRules := bootstrapRules;
      this.rules := rules;
      this.time := time;
      collections := [];
      clickedHash := None;
    }
  }

  /** The cytoscape instance. */
  class Cy {
    var nodes: seq<GraphNode>
    var edges: seq<GraphEdge>

    function Contents(): Graph
      reads this
    {
      Graph(nodes, edges)
    }

    constructor ()
      ensures Contents() == Graph([], [])
    {
      nodes := [];
      edges := [];
    }

    /** `add_node`. */
    method AddNode(tid: TupleId, tuple: Row)
      modifies this
      ensures Contents() == WithNode(old(Contents()), tid, tuple)
    {
      var id := TupleIdToString(tid);
      var present := false;
      var i := 0;
      while i < |nodes|
        invariant 0 <= i <= |nodes|
        invariant present <==> exists j :: 0 <= j < i && nodes[j].id == id
      {
        if nodes[i].id == id {
          present := true;
        }
        i := i + 1;
      }
      if !present {
        nodes := nodes + [NodeOf(tid, tuple)];
      }
    }

    /** `add_edge`. */
    method AddEdge(source: TupleId, target: TupleId)
      modifies this
      ensures Contents() == WithEdge(old(Contents()), source, target)
    {
      var e := GraphEdge(TupleIdToString(source), TupleIdToString(target));
      if e !in edges {
        edges := edges + [e];
      }
    }
  }

  /** `fluent.State`, the Vue instance's data: the selected node (null before one is chosen) and the graph. */
  class Debugger {
    var node: Node?
    const cy: Cy

    constructor (cy: Cy)
      ensures node == null && this.cy == cy
    {
      node := null;
      this.cy := cy;
    }

    /** `decrement_time`: with a node selected, step its time back, never below 0, and refresh its collections. */
    method DecrementTime() returns (refresh: Option<RefreshRequest>)
      modifies node
      ensures node == old(node)
      ensures node == null ==> refresh == None
      ensures node != null ==>
        node.time == Decremented(old(node.time)) && node.collections == old(node.collections) &&
        node.clickedHash == old(node.clickedHash) &&
        refresh == Some(RefreshRequest(node.name, CollectionNames(node.collections), node.time))
    {
      refresh := None;
      if node != null {
        node.time := if node.time - 1 > 0 then node.time - 1 else 0;
        var names := CollectionNamesOf(node.collections);
        refresh := Some(RefreshRequest(node.name, names, node.time));
      }
    }

    /** `increment_time`: with a node selected, step its time forward by one and refresh its collections. */
    method IncrementTime() returns (refresh: Option<RefreshRequest>)
      modifies node
      ensures node == old(node)
      ensures node == null ==> refresh == None
      ensures node != null ==>
        node.time == Incremented(old(node.time)) && node.collections == old(node.collections) &&
        node.clickedHash == old(node.clickedHash) &&
        refresh == Some(RefreshRequest(node.name, CollectionNames(node.collections), node.time))
    {
      refresh := None;
      if node != null {
        node.time := node.time + 1;
        var names := CollectionNamesOf(node.collections);
        refresh := Some(RefreshRequest(node.name, names, node.time));
      }
    }

    /**
     * `backwards_lineage(node, collection, tuple)` on the selected node: add
     * the clicked row's node to the graph, remember its hash and send the
     * lineage query. None when building the target id throws, in which case
     * nothing changes.
     */
    method BackwardsLineage(collection: Collection, tuple: Row) returns (request: Option<(TupleId, LineageQuery)>)
      requires node != null
      modifies node, cy
      ensures node == old(node)
      ensures var target := TargetOf(node.name, collection.name, tuple);
        (target.None? ==> request == None && cy.Contents() == old(cy.Contents()) && node.clickedHash == old(node.clickedHash)) &&
        (target.Some? ==>
          request == Some((target.value, QueryFor(target.value, collection, tuple))) &&
          cy.Contents() == WithNode(old(cy.Contents()), target.value, tuple) &&
          node.clickedHash == Some(target.value.hash))
      ensures node.time == old(node.time) && node.collections == old(node.collections)
    {
      var target := TargetOf(node.name, collection.name, tuple);
      if target.None? {
        return None;
      }
      cy.AddNode(target.value, tuple);
      node.clickedHash := Some(target.value.hash);
      request := Some((target.value, QueryFor(target.value, collection, tuple)));
    }

    /** The lineage callback: each answer record becomes a node with an edge to the target. */
    method IntegrateLineage(target: TupleId, records: seq<LineageRecord>)
      modifies cy
      ensures cy.Contents() == Integrated(old(cy.Contents()), target, records)
    {
      var i := 0;
      while i < |records|
        invariant 0 <= i <= |records|
        invariant cy.Contents() == Integrated(old(cy.Contents()), target, records[..i])
      {
        var r := records[i];
        cy.AddNode(SourceId(r), r.tuple);
        cy.AddEdge(SourceId(r), target);
        assert records[..i + 1][..i] == records[..i];
        i := i + 1;
      }
      assert records[..i] == records;
    }
  }

  function CollectionNames(cs: seq<Collection>): (names: seq<string>)
  {
    seq(|cs|, i requires 0 <= i < |cs| => cs[i].name)
  }

  /** `refresh_collections`'s loop gathering the collections' names, in order. */
  method CollectionNamesOf(cs: seq<Collection>) returns (names: seq<string>)
    ensures names == CollectionNames(cs)
  {
    names := [];
    var i := 0;
    while i < |cs|
      invariant 0 <= i <= |cs|
      invariant names == CollectionNames(cs[..i])
    {
      names := names + [cs[i].name];
      i := i + 1;
    }
    assert cs[..i] == cs;
  }
}
