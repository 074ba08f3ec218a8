/**
 * `lineagedb/pqxx_client.h`: the client that ships a fluent node's history
 * and lineage to a lineage database. Nothing but `Exec` may issue a query
 * before `Init`, the collection name "lineage" is reserved, and each call
 * issues its queries in order, stopping at the first that fails.
 *
 * `ExecuteQuery` talks to Postgres; here the database is a script: the k-th
 * query issued gets `outcomes[k]`, or OK once the script has run out. Each
 * query is kept as a structured value holding the arguments it is built
 * from rather than as rendered SQL text.
 */
module LineagePqxxClient {
  import opened Wrappers
  import opened CommonStatus
  import ToSql

  const SIZE_T_MODULUS: int := 0x1_0000_0000_0000_0000
  const INT64_MIN: int := -0x8000_0000_0000_0000
  const INT64_MAX: int := 0x7fff_ffff_ffff_ffff

  /** `detail::size_t_to_int64`: a `static_cast` that reinterprets the 64 bits as two's complement. */
  function SizeToInt64(x: nat): (r: int)
    requires x < SIZE_T_MODULUS
    ensures INT64_MIN <= r <= INT64_MAX
    ensures (r - x) % SIZE_T_MODULUS == 0
  {
    if x <= INT64_MAX then x else x - SIZE_T_MODULUS
  }

  /** The cast back, which the database never performs but which shows that no two hashes collide. */
  function Int64ToSize(r: int): (x: nat)
    requires INT64_MIN <= r <= INT64_MAX
  {
    if r >= 0 then r else r + SIZE_T_MODULUS
  }

  /** The cast loses nothing: it is a bijection between size_t and int64 values. */
  lemma SizeToInt64RoundTrip(x: nat, r: int)
    requires x < SIZE_T_MODULUS && INT64_MIN <= r <= INT64_MAX
    ensures Int64ToSize(SizeToInt64(x)) == x
    ensures SizeToInt64(Int64ToSize(r)) == r
  {
  }

  /** A typed column value. */
  datatype Column = Column(sqlType: ToSql.SqlType, value: ToSql.Value)

  predicate WellTyped(t: seq<Column>)
  {
    forall i :: 0 <= i < |t| ==> ToSql.HasType(t[i].value, t[i].sqlType)
  }

  /** `SqlValues(t)`: `ToSql<T>().Value(x)` of each column, in order. */
  function SqlValues(t: seq<Column>): (r: seq<string>)
    requires WellTyped(t)
  {
    seq(|t|, i requires 0 <= i < |t| => ToSql.ValueText(t[i].sqlType, t[i].value))
  }

  /** One row of the `<node>_lineage` table, NULL columns as None. */
  datatype LineageRow = LineageRow(
    depNodeId: int, depCollectionName: string, depTupleHash: int, depTime: Option<int>,
    ruleNumber: Option<int>, inserted: bool, collectionName: string, tupleHash: int, time: int)

  /** The queries the client issues, each with the arguments its SQL text is formatted from. */
  datatype Query =
    | InsertNode(id: int, node: string, address: string)
    | CreateLineageTable(node: string)
    | InsertCollection(id: int, collectionName: string, collectionType: string, columnNames: seq<string>)
    | CreateCollectionTable(node: string, collectionName: string, columns: seq<string>)
    | InsertRule(id: int, ruleNumber: nat, isBootstrap: bool, rule: string)
    | InsertTupleRow(node: string, collectionName: string, hash: int, time: int, values: seq<string>)
    | MarkTupleDeleted(node: string, collectionName: string, time: int, hash: int)
    | InsertLineage(node: string, row: LineageRow)
    | Raw(text: string)

  /** The transaction name each query runs under. */
  function QueryName(q: Query): string
  {
    match q
    case InsertNode(_, _, _) => "Init"
    case CreateLineageTable(_) => "CreateLineageTable"
    case InsertCollection(_, _, _, _) => "AddCollection"
    case CreateCollectionTable(_, _, _) => "AddCollectionTable"
    case InsertRule(_, _, _, _) => "AddRule"
    case InsertTupleRow(_, _, _, _, _) => "InsertTuple"
    case MarkTupleDeleted(_, _, _, _) => "DeleteTuple"
    case InsertLineage(_, _) => "AddLineage"
    case Raw(_) => "Exec"
  }

  /** The column definitions `"<name> <type> NOT NULL"` of a collection's table. */
  function ColumnDefs(names: seq<string>, types: seq<ToSql.SqlType>): (r: seq<string>)
    requires |names| == |types|
  {
    seq(|types|, i requires 0 <= i < |types| => names[i] + " " + ToSql.TypeName(types[i]) + " NOT NULL")
  }

  /** Every column definition is the column's name, a space, its SQL type and " NOT NULL". */
  lemma ColumnDefsSpec(names: seq<string>, types: seq<ToSql.SqlType>)
    requires |names| == |types|
    ensures |ColumnDefs(names, types)| == |names|
    ensures forall i :: 0 <= i < |names| ==>
      var d := ColumnDefs(names, types)[i];
      |d| >= |names[i]| + 9 && d[..|names[i]|] == names[i] && d[|d| - 9..] == " NOT NULL" &&
      d[|names[i]|..|d| - 9] == " " + ToSql.TypeName(types[i])
  {
  }

  /** The node the client speaks for. */
  datatype Node = Node(name: string, id: int, address: string)

  /** What the client remembers: `initialized_`, plus the queries issued so far. */
  datatype ClientState = ClientState(initialized: bool, issued: seq<Query>)

  /** The database's answer to the k-th query. */
  function Outcome(outcomes: seq<Status>, k: nat): Status
  {
    if k < |outcomes| then outcomes[k] else DefaultStatus()
  }

  /** The calls a fluent node makes on its client. */
  datatype Call =
    | Init
    | AddCollection(collectionName: string, collectionType: string, columnNames: seq<string>, columnTypes: seq<ToSql.SqlType>)
    | AddRule(ruleNumber: nat, isBootstrap: bool, rule: string)
    | InsertTuple(collectionName: string, timeInserted: int, tuple: seq<Column>, tupleHash: nat)
    | DeleteTuple(collectionName: string, timeDeleted: int, tuple: seq<Column>, tupleHash: nat)
    | AddNetworkedLineage(depNodeId: nat, depTime: int, collectionName: string, tupleHash: nat, time: int)
    | AddDerivedLineage(depCollectionName: string, depTupleHash: nat, derivingRule: int, inserted: bool,
                        lineageCollectionName: string, lineageTupleHash: nat, lineageTime: int)
    | Exec(query: string)

  /**
   * What each call's template arguments and `static_assert`s guarantee: a
   * collection has at least one column and one type per name, tuples are
   * well typed and non-empty, and hashes are `std::size_t` values.
   */
  predicate WellFormedCall(c: Call)
  {
    match c
    case AddCollection(_, _, names, types) => |names| == |types| && |types| > 0
    case InsertTuple(_, _, t, h) => |t| > 0 && WellTyped(t) && h < SIZE_T_MODULUS
    case DeleteTuple(_, _, t, h) => |t| > 0 && WellTyped(t) && h < SIZE_T_MODULUS
    case AddNetworkedLineage(dep, _, _, h, _) => dep < SIZE_T_MODULUS && h < SIZE_T_MODULUS
    case AddDerivedLineage(_, dh, _, _, _, h, _) => dh < SIZE_T_MODULUS && h < SIZE_T_MODULUS
    case _ => true
  }

  /** Calls other than `Init` and `Exec`, which return FAILED_PRECONDITION before `Init`. */
  predicate NeedsInit(c: Call)
  {
    !c.Init? && !c.Exec?
  }

  function NotInitialized(): Status
  {
    MakeStatus(FAILED_PRECONDITION, "Call Init first.")
  }

  function ReservedName(): Status
  {
    MakeStatus(INVALID_ARGUMENT, "Lineage is a reserved collection name.")
  }

  /** `ExecuteQuery`: the query is issued and the database's answer returned. */
  function Execute(st: ClientState, outcomes: seq<Status>, q: Query): (ClientState, Status)
  {
    (st.(issued := st.issued + [q]), Outcome(outcomes, |st.issued|))
  }

  /** Two queries under `RETURN_IF_ERROR`: the second is issued only when the first succeeds. */
  function ExecuteBoth(st: ClientState, outcomes: seq<Status>, q1: Query, q2: Query): (ClientState, Status)
  {
    var (st1, s1) := Execute(st, outcomes, q1);
    if !Ok(s1) then (st1, s1) else Execute(st1, outcomes, q2)
  }

  /** The queries a call issues once it is past its checks. */
  function QueriesOf(node: Node, c: Call): (qs: seq<Query>)
    requires WellFormedCall(c)
  {
    match c
    case Init => [InsertNode(node.id, node.name, node.address), CreateLineageTable(node.name)]
    case AddCollection(cn, ct, names, types) =>
      [InsertCollection(node.id, cn, ct, names), CreateCollectionTable(node.name, cn, ColumnDefs(names, types))]
    case AddRule(n, b, rule) => [InsertRule(node.id, n, b, rule)]
    case InsertTuple(cn, time, t, h) => [InsertTupleRow(node.name, cn, SizeToInt64(h), time, SqlValues(t))]
    case DeleteTuple(cn, time, _, h) => [MarkTupleDeleted(node.name, cn, time, SizeToInt64(h))]
    case AddNetworkedLineage(dep, depTime, cn, h, time) =>
      [InsertLineage(node.name, LineageRow(SizeToInt64(dep), cn, SizeToInt64(h), Some(depTime), None, true, cn, SizeToInt64(h), time))]
    case AddDerivedLineage(dcn, dh, rule, ins, cn, h, time) =>
      [InsertLineage(node.name, LineageRow(node.id, dcn, SizeToInt64(dh), None, Some(rule), ins, cn, SizeToInt64(h), time))]
    case Exec(text) => [Raw(text)]
  }

  /**
   * One call on the client: the new state and the returned status. `Init`
   * sets the flag before issuing anything; the other calls except `Exec`
   * first check the flag, and `AddCollection` then the reserved name.
   */
  function Apply(node: Node, st: ClientState, outcomes: seq<Status>, c: Call): (r: (ClientState, Status))
    requires WellFormedCall(c)
  {
    var qs := QueriesOf(node, c);
    if c.Init? then ExecuteBoth(st.(initialized := true), outcomes, qs[0], qs[1])
    else if NeedsInit(c) && !st.initialized then (st, NotInitialized())
    else if c.AddCollection? && c.collectionName == "lineage" then (st, ReservedName())
    else if |qs| == 2 then ExecuteBoth(st, outcomes, qs[0], qs[1])
    else Execute(st, outcomes, qs[0])
  }

  /** A call never forgets queries already issued and never clears the flag. */
  lemma ApplyMonotone(node: Node, st: ClientState, outcomes: seq<Status>, c: Call)
    requires WellFormedCall(c)
    ensures var (st', _) := Apply(node, st, outcomes, c);
      (st.initialized ==> st'.initialized) && |st.issued| <= |st'.issued| && st'.issued[..|st.issued|] == st.issued
  {
    var st' := Apply(node, st, outcomes, c).0;
    assert st'.issued[..|st.issued|] == st.issued;
  }

  /** Before `Init`, every call other than `Exec` fails with FAILED_PRECONDITION and changes nothing. */
  lemma NothingBeforeInit(node: Node, st: ClientState, outcomes: seq<Status>, c: Call)
    requires WellFormedCall(c) && !st.initialized && NeedsInit(c)
    ensures Apply(node, st, outcomes, c) == (st, NotInitialized())
    ensures NotInitialized().code == FAILED_PRECONDITION
  {
  }

  /** `Init` leaves the client initialized even when its first query fails. */
  lemma InitSetsFlagFirst(node: Node, st: ClientState, outcomes: seq<Status>)
    ensures Apply(node, st, outcomes, Init).0.initialized
    ensures !Ok(Outcome(outcomes, |st.issued|)) ==>
      Apply(node, st, outcomes, Init) == (ClientState(true, st.issued + [InsertNode(node.id, node.name, node.address)]), Outcome(outcomes, |st.issued|))
  {
  }

  /** On an initialized client, adding a collection named "lineage" fails with INVALID_ARGUMENT and issues nothing. */
  lemma LineageNameReserved(node: Node, st: ClientState, outcomes: seq<Status>, c: Call)
    requires c.AddCollection? && WellFormedCall(c) && c.collectionName == "lineage" && st.initialized
    ensures Apply(node, st, outcomes, c) == (st, ReservedName())
    ensures ReservedName().code == INVALID_ARGUMENT
  {
  }

  /**
   * Once past its checks, `Init` and `AddCollection` issue their second
   * query exactly when the first succeeds, and return the first failure or
   * the second query's status.
   */
  lemma TwoQueriesStopAtFirstFailure(node: Node, st: ClientState, outcomes: seq<Status>, c: Call)
    requires WellFormedCall(c)
    requires c.Init? || (c.AddCollection? && st.initialized && c.collectionName != "lineage")
    ensures var (st', s) := Apply(node, st, outcomes, c);
      var qs := QueriesOf(node, c);
      var first := Outcome(outcomes, |st.issued|);
      (Ok(first) ==> st'.issued == st.issued + qs && s == Outcome(outcomes, |st.issued| + 1)) &&
      (!Ok(first) ==> st'.issued == st.issued + [qs[0]] && s == first)
  {
    var qs := QueriesOf(node, c);
    assert st.issued + [qs[0]] + [qs[1]] == st.issued + qs;
  }

  /** Each call's statuses, and the state after running the calls in order. */
  function Run(node: Node, st: ClientState, outcomes: seq<Status>, calls: seq<Call>): (r: (ClientState, seq<Status>))
    requires forall i :: 0 <= i < |calls| ==> WellFormedCall(calls[i])
    ensures |r.1| == |calls|
    decreases |calls|
  {
    if |calls| == 0 then (st, [])
    else
      var (st1, s1) := Apply(node, st, outcomes, calls[0]);
      var (st2, ss) := Run(node, st1, outcomes, calls[1..]);
      (st2, [s1] + ss)
  }

  /** A session that never calls `Init` or `Exec` issues no query, and every call in it fails with FAILED_PRECONDITION. */
  lemma {:induction false} NoQueryWithoutInit(node: Node, st: ClientState, outcomes: seq<Status>, calls: seq<Call>)
    requires forall i :: 0 <= i < |calls| ==> WellFormedCall(calls[i]) && NeedsInit(calls[i])
    requires !st.initialized
    ensures Run(node, st, outcomes, calls).0 == st
    ensures forall i :: 0 <= i < |calls| ==> Run(node, st, outcomes, calls).1[i] == NotInitialized()
    decreases |calls|
  {
    if |calls| > 0 {
      NothingBeforeInit(node, st, outcomes, calls[0]);
      NoQueryWithoutInit(node, st, outcomes, calls[1..]);
    }
  }

  /** `InjectablePqxxClient`, over a scripted database. */
  class PqxxClient {
    const node: Node
    /** The database's answers, in the order the queries reach it. */
    const outcomes: seq<Status>
    var initialized: bool
    /** The queries issued so far, in order. */
    var issued: seq<Query>

    function State(): ClientState
      reads this
    {
      ClientState(initialized, issued)
    }

    /** The constructor: the node's id is cast to int64, and the client starts uninitialized. */
    constructor (name: string, id: nat, address: string, outcomes: seq<Status>)
      requires id < SIZE_T_MODULUS
      ensures node == Node(name, SizeToInt64(id), address) && this.outcomes == outcomes
      ensures State() == ClientState(false, [])
    {
      node := Node(name, SizeToInt64(id), address);
      this.outcomes := outcomes;
      initialized := false;
      issued := [];
    }

    /** `ExecuteQuery(name, query)`. */
    method ExecuteQuery(q: Query) returns (status: Status)
      modifies this
      ensures (State(), status) == Execute(old(State()), outcomes, q)
    {
      status := Outcome(outcomes, |issued|);
      issued := issued + [q];
    }

    method Init() returns (status: Status)
      modifies this
      ensures (State(), status) == Apply(node, old(State()), outcomes, Call.Init)
    {
      initialized := true;
      status := ExecuteQuery(InsertNode(node.id, node.name, node.address));
      if !Ok(status) {
        return;
      }
      status := ExecuteQuery(CreateLineageTable(node.name));
    }

    method AddCollection(collectionName: string, collectionType: string, columnNames: seq<string>, columnTypes: seq<ToSql.SqlType>)
      returns (status: Status)
      requires |columnNames| == |columnTypes| && |columnTypes| > 0
      modifies this
      ensures (State(), status) == Apply(node, old(State()), outcomes, Call.AddCollection(collectionName, collectionType, columnNames, columnTypes))
    {
      if !initialized {
        return NotInitialized();
      }
      if collectionName == "lineage" {
        return ReservedName();
      }
      status := ExecuteQuery(InsertCollection(node.id, collectionName, collectionType, columnNames));
      if !Ok(status) {
        return;
      }
      var columns := ColumnDefinitions(columnNames, columnTypes);
      status := ExecuteQuery(CreateCollectionTable(node.name, collectionName, columns));
    }

    method AddRule(ruleNumber: nat, isBootstrap: bool, rule: string) returns (status: Status)
      modifies this
      ensures (State(), status) == Apply(node, old(State()), outcomes, Call.AddRule(ruleNumber, isBootstrap, rule))
    {
      if !initialized {
        return NotInitialized();
      }
      status := ExecuteQuery(InsertRule(node.id, ruleNumber, isBootstrap, rule));
    }

    /** `InsertTuple`; the tuple's `Hash` is computed by the caller. */
    method InsertTuple(collectionName: string, timeInserted: int, t: seq<Column>, tupleHash: nat) returns (status: Status)
      requires |t| > 0 && WellTyped(t) && tupleHash < SIZE_T_MODULUS
      modifies this
      ensures (State(), status) == Apply(node, old(State()), outcomes, Call.InsertTuple(collectionName, timeInserted, t, tupleHash))
    {
      if !initialized {
        return NotInitialized();
      }
      var hash := SizeToInt64(tupleHash);
      status := ExecuteQuery(InsertTupleRow(node.name, collectionName, hash, timeInserted, SqlValues(t)));
    }

    /** `DeleteTuple`; the tuple's `Hash` is computed by the caller. */
    method DeleteTuple(collectionName: string, timeDeleted: int, t: seq<Column>, tupleHash: nat) returns (status: Status)
      requires |t| > 0 && WellTyped(t) && tupleHash < SIZE_T_MODULUS
      modifies this
      ensures (State(), status) == Apply(node, old(State()), outcomes, Call.DeleteTuple(collectionName, timeDeleted, t, tupleHash))
    {
      if !initialized {
        return NotInitialized();
      }
      var hash := SizeToInt64(tupleHash);
      status := ExecuteQuery(MarkTupleDeleted(node.name, collectionName, timeDeleted, hash));
    }

    method AddNetworkedLineage(depNodeId: nat, depTime: int, collectionName: string, tupleHash: nat, time: int)
      returns (status: Status)
      requires depNodeId < SIZE_T_MODULUS && tupleHash < SIZE_T_MODULUS
      modifies this
      ensures (State(), status) == Apply(node, old(State()), outcomes, Call.AddNetworkedLineage(depNodeId, depTime, collectionName, tupleHash, time))
    {
      if !initialized {
        return NotInitialized();
      }
      var hash := SizeToInt64(tupleHash);
      status := ExecuteQuery(InsertLineage(node.name,
        LineageRow(SizeToInt64(depNodeId), collectionName, hash, Some(depTime), None, true, collectionName, hash, time)));
    }

    method AddDerivedLineage(depCollectionName: string, depTupleHash: nat, derivingRule: int, inserted: bool,
                             collectionName: string, tupleHash: nat, time: int)
      returns (status: Status)
      requires depTupleHash < SIZE_T_MODULUS && tupleHash < SIZE_T_MODULUS
      modifies this
      ensures (State(), status) == Apply(node, old(State()), outcomes,
        Call.AddDerivedLineage(depCollectionName, depTupleHash, derivingRule, inserted, collectionName, tupleHash, time))
    {
      if !initialized {
        return NotInitialized();
      }
      status := ExecuteQuery(InsertLineage(node.name,
        LineageRow(node.id, depCollectionName, SizeToInt64(depTupleHash), None, Some(derivingRule), inserted,
                   collectionName, SizeToInt64(tupleHash), time)));
    }

    /** `Exec`: issues the query whether or not `Init` was called. */
    method Exec(query: string) returns (status: Status)
      modifies this
      ensures (State(), status) == Apply(node, old(State()), outcomes, Call.Exec(query))
    {
      status := ExecuteQuery(Raw(query));
    }
  }

  /** `AddCollection`'s loop formatting one column definition per column. */
  method ColumnDefinitions(names: seq<string>, types: seq<ToSql.SqlType>) returns (columns: seq<string>)
    requires |names| == |types|
    ensures columns == ColumnDefs(names, types)
  {
    columns := [];
    var i := 0;
    while i < |types|
      invariant 0 <= i <= |types|
      invariant columns == ColumnDefs(names[..i], types[..i])
    {
      columns := columns + [names[i] + " " + ToSql.TypeName(types[i]) + " NOT NULL"];
      i := i + 1;
    }
    assert names[..i] == names && types[..i] == types;
  }
}
