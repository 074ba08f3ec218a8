/**
 * `lineagedb/mock_client.h`: a lineage database client that issues no
 * queries and only records each call, in order, in one log per method.
 */
module LineageMockClient {
  import opened CommonStatus
  import ToSql
  import LogicalToPhysical

  type LocalTupleId = LogicalToPhysical.LocalTupleId

  /** A physical time point, as a count of clock ticks. */
  type TimePoint = int

  /** A typed column value of a tuple handed to `InsertTuple` / `DeleteTuple`. */
  datatype Column = Column(sqlType: ToSql.SqlType, value: ToSql.Value)

  predicate WellTyped(t: seq<Column>)
  {
    forall i :: 0 <= i < |t| ==> ToSql.HasType(t[i].value, t[i].sqlType)
  }

  /** `AddCollectionTuple`: name, collection type, column names, column types. */
  datatype AddCollectionRecord = AddCollectionRecord(name: string, collectionType: string, columns: seq<string>, types: seq<string>)

  /** `AddRuleTuple`: rule number, whether it is a bootstrap rule, rule text. */
  datatype AddRuleRecord = AddRuleRecord(ruleNumber: nat, isBootstrap: bool, rule: string)

  /** `InsertTupleTuple` and `DeleteTupleTuple`: collection, logical time, physical time, column values. */
  datatype TupleRecord = TupleRecord(collectionName: string, time: int, physicalTime: TimePoint, values: seq<string>)

  /** `AddNetworkedLineageTuple`. */
  datatype NetworkedLineageRecord = NetworkedLineageRecord(depNodeId: nat, depTime: int, collectionName: string, tupleHash: nat, time: int)

  /** `AddDerivedLineageTuple`. */
  datatype DerivedLineageRecord = DerivedLineageRecord(depId: LocalTupleId, ruleNumber: int, inserted: bool, physicalTime: TimePoint, id: LocalTupleId)

  /** `RegisterBlackBoxLineageTuple`: collection name and lineage queries. */
  datatype BlackBoxLineageRecord = BlackBoxLineageRecord(collectionName: string, commands: seq<string>)

  /** `RegisterBlackBoxPythonLineageTuple`: collection name and method. */
  datatype BlackBoxPythonLineageRecord = BlackBoxPythonLineageRecord(collectionName: string, methodName: string)

  /** All nine logs at once, so a contract can say which one a call extends and that the others stay put. */
  datatype Logs = Logs(
    addCollection: seq<AddCollectionRecord>,
    addRule: seq<AddRuleRecord>,
    insertTuple: seq<TupleRecord>,
    deleteTuple: seq<TupleRecord>,
    addNetworkedLineage: seq<NetworkedLineageRecord>,
    addDerivedLineage: seq<DerivedLineageRecord>,
    registerBlackBoxLineage: seq<BlackBoxLineageRecord>,
    registerBlackBoxPythonLineageScript: seq<string>,
    registerBlackBoxPythonLineage: seq<BlackBoxPythonLineageRecord>)

  /** `ToSql<T>().Type()` for each column type, in column order. */
  method TypeNames(types: seq<ToSql.SqlType>) returns (names: seq<string>)
    ensures |names| == |types|
    ensures forall i :: 0 <= i < |types| ==> names[i] == ToSql.TypeName(types[i])
  {
    names := [];
    var i := 0;
    while i < |types|
      invariant 0 <= i <= |types|
      invariant |names| == i
      invariant forall j :: 0 <= j < i ==> names[j] == ToSql.TypeName(types[j])
    {
      names := names + [ToSql.TypeName(types[i])];
      i := i + 1;
    }
  }

  /** `TupleMap` with `ToSql<T>().Value` and then `TupleIter` pushing each string: one SQL text per column, in order. */
  method ValueStrings(t: seq<Column>) returns (strings: seq<string>)
    requires WellTyped(t)
    ensures |strings| == |t|
    ensures forall i :: 0 <= i < |t| ==> strings[i] == ToSql.ValueText(t[i].sqlType, t[i].value)
  {
    strings := [];
    var i := 0;
    while i < |t|
      invariant 0 <= i <= |t|
      invariant |strings| == i
      invariant forall j :: 0 <= j < i ==> strings[j] == ToSql.ValueText(t[j].sqlType, t[j].value)
    {
      strings := strings + [ToSql.ValueText(t[i].sqlType, t[i].value)];
      i := i + 1;
    }
  }

  /** `MockClient`: every call appends exactly one record to its own log and returns OK. */
  class MockClient {
    const name: string
    const id: nat
    const address: string

    var addCollection: seq<AddCollectionRecord>
    var addRule: seq<AddRuleRecord>
    var insertTuple: seq<TupleRecord>
    var deleteTuple: seq<TupleRecord>
    var addNetworkedLineage: seq<NetworkedLineageRecord>
    var addDerivedLineage: seq<DerivedLineageRecord>
    var registerBlackBoxLineage: seq<BlackBoxLineageRecord>
    var registerBlackBoxPythonLineageScript: seq<string>
    var registerBlackBoxPythonLineage: seq<BlackBoxPythonLineageRecord>

    /** The logs, as the getters return them. */
    function Log(): Logs
      reads this
    {
      Logs(addCollection, addRule, insertTuple, deleteTuple, addNetworkedLineage,
           addDerivedLineage, registerBlackBoxLineage, registerBlackBoxPythonLineageScript,
           registerBlackBoxPythonLineage)
    }

    /** `Make`: a client with every log empty. */
    constructor Make(name: string, id: nat, address: string)
      ensures this.name == name && this.id == id && this.address == address
      ensures Log() == Logs([], [], [], [], [], [], [], [], [])
    {
      this.name := name;
      this.id := id;
      this.address := address;
      addCollection := [];
      addRule := [];
      insertTuple := [];
      deleteTuple := [];
      addNetworkedLineage := [];
      addDerivedLineage := [];
      registerBlackBoxLineage := [];
      registerBlackBoxPythonLineageScript := [];
      registerBlackBoxPythonLineage := [];
    }

    /** `AddCollection<Ts...>`: records the column names and one SQL type name per column, in order. */
    method AddCollection(collectionName: string, collectionType: string, columnNames: seq<string>, columnTypes: seq<ToSql.SqlType>)
      returns (status: Status)
      requires |columnNames| == |columnTypes|
      modifies this
      ensures status == DefaultStatus()
      ensures |addCollection| == |old(addCollection)| + 1 && addCollection[..|old(addCollection)|] == old(addCollection)
      ensures var rec := addCollection[|addCollection| - 1];
        rec.name == collectionName && rec.collectionType == collectionType && rec.columns == columnNames &&
        |rec.types| == |columnTypes| && forall i :: 0 <= i < |columnTypes| ==> rec.types[i] == ToSql.TypeName(columnTypes[i])
      ensures Log() == old(Log()).(addCollection := addCollection)
    {
      var columns: seq<string> := [];
      var i := 0;
      while i < |columnNames|
        invariant 0 <= i <= |columnNames|
        invariant columns == columnNames[..i]
      {
        columns := columns + [columnNames[i]];
        i := i + 1;
      }
      assert columnNames[..i] == columnNames;
      var types := TypeNames(columnTypes);
      addCollection := addCollection + [AddCollectionRecord(collectionName, collectionType, columns, types)];
      status := DefaultStatus();
    }

    method AddRule(ruleNumber: nat, isBootstrap: bool, rule: string) returns (status: Status)
      modifies this
      ensures status == DefaultStatus()
      ensures Log() == old(Log()).(addRule := old(addRule) + [AddRuleRecord(ruleNumber, isBootstrap, rule)])
    {
      addRule := addRule + [AddRuleRecord(ruleNumber, isBootstrap, rule)];
      status := DefaultStatus();
    }

    /** `InsertTuple`: records the tuple as one SQL value text per column. */
    method InsertTuple(collectionName: string, timeInserted: int, physicalTimeInserted: TimePoint, t: seq<Column>)
      returns (status: Status)
      requires WellTyped(t)
      modifies this
      ensures status == DefaultStatus()
      ensures |insertTuple| == |old(insertTuple)| + 1 && insertTuple[..|old(insertTuple)|] == old(insertTuple)
      ensures var rec := insertTuple[|insertTuple| - 1];
        rec.collectionName == collectionName && rec.time == timeInserted && rec.physicalTime == physicalTimeInserted &&
        |rec.values| == |t| && forall i :: 0 <= i < |t| ==> rec.values[i] == ToSql.ValueText(t[i].sqlType, t[i].value)
      ensures Log() == old(Log()).(insertTuple := insertTuple)
    {
      var strings := ValueStrings(t);
      insertTuple := insertTuple + [TupleRecord(collectionName, timeInserted, physicalTimeInserted, strings)];
      status := DefaultStatus();
    }

    /** `DeleteTuple`: records the tuple as one SQL value text per column. */
    method DeleteTuple(collectionName: string, timeDeleted: int, physicalTimeDeleted: TimePoint, t: seq<Column>)
      returns (status: Status)
      requires WellTyped(t)
      modifies this
      ensures status == DefaultStatus()
      ensures |deleteTuple| == |old(deleteTuple)| + 1 && deleteTuple[..|old(deleteTuple)|] == old(deleteTuple)
      ensures var rec := deleteTuple[|deleteTuple| - 1];
        rec.collectionName == collectionName && rec.time == timeDeleted && rec.physicalTime == physicalTimeDeleted &&
        |rec.values| == |t| && forall i :: 0 <= i < |t| ==> rec.values[i] == ToSql.ValueText(t[i].sqlType, t[i].value)
      ensures Log() == old(Log()).(deleteTuple := deleteTuple)
    {
      var strings := ValueStrings(t);
      deleteTuple := deleteTuple + [TupleRecord(collectionName, timeDeleted, physicalTimeDeleted, strings)];
      status := DefaultStatus();
    }

    method AddNetworkedLineage(depNodeId: nat, depTime: int, collectionName: string, tupleHash: nat, time: int)
      returns (status: Status)
      modifies this
      ensures status == DefaultStatus()
      ensures Log() == old(Log()).(addNetworkedLineage :=
        old(addNetworkedLineage) + [NetworkedLineageRecord(depNodeId, depTime, collectionName, tupleHash, time)])
    {
      addNetworkedLineage := addNetworkedLineage + [NetworkedLineageRecord(depNodeId, depTime, collectionName, tupleHash, time)];
      status := DefaultStatus();
    }

    method AddDerivedLineage(depId: LocalTupleId, ruleNumber: int, inserted: bool, physicalTime: TimePoint, id: LocalTupleId)
      returns (status: Status)
      modifies this
      ensures status == DefaultStatus()
      ensures Log() == old(Log()).(addDerivedLineage :=
        old(addDerivedLineage) + [DerivedLineageRecord(depId, ruleNumber, inserted, physicalTime, id)])
    {
      addDerivedLineage := addDerivedLineage + [DerivedLineageRecord(depId, ruleNumber, inserted, physicalTime, id)];
      status := DefaultStatus();
    }

    method RegisterBlackBoxLineage(collectionName: string, lineageCommands: seq<string>) returns (status: Status)
      modifies this
      ensures status == DefaultStatus()
      ensures Log() == old(Log()).(registerBlackBoxLineage :=
        old(registerBlackBoxLineage) + [BlackBoxLineageRecord(collectionName, lineageCommands)])
    {
      registerBlackBoxLineage := registerBlackBoxLineage + [BlackBoxLineageRecord(collectionName, lineageCommands)];
      status := DefaultStatus();
    }

    method RegisterBlackBoxPythonLineageScript(script: string) returns (status: Status)
      modifies this
      ensures status == DefaultStatus()
      ensures Log() == old(Log()).(registerBlackBoxPythonLineageScript :=
        old(registerBlackBoxPythonLineageScript) + [script])
    {
      registerBlackBoxPythonLineageScript := registerBlackBoxPythonLineageScript + [script];
      status := DefaultStatus();
    }

    method RegisterBlackBoxPythonLineage(collectionName: string, methodName: string) returns (status: Status)
      modifies this
      ensures status == DefaultStatus()
      ensures Log() == old(Log()).(registerBlackBoxPythonLineage :=
        old(registerBlackBoxPythonLineage) + [BlackBoxPythonLineageRecord(collectionName, methodName)])
    {
      registerBlackBoxPythonLineage := registerBlackBoxPythonLineage + [BlackBoxPythonLineageRecord(collectionName, methodName)];
      status := DefaultStatus();
    }
  }

  /**
   * A sequence of `AddRule` calls on a fresh client leaves the rule log
   * holding one record per call, in call order, and every other log empty.
   */
  method AddRulesInOrder(rules: seq<AddRuleRecord>) returns (client: MockClient)
    ensures client.Log() == Logs([], rules, [], [], [], [], [], [], [])
  {
    client := new MockClient.Make("", 42, "");
    var i := 0;
    while i < |rules|
      invariant 0 <= i <= |rules|
      invariant client.Log() == Logs([], rules[..i], [], [], [], [], [], [], [])
    {
      var status := client.AddRule(rules[i].ruleNumber, rules[i].isBootstrap, rules[i].rule);
      assert rules[..i + 1] == rules[..i] + [rules[i]];
      i := i + 1;
    }
    assert rules[..i] == rules;
  }
}
