# fluent (old): a Dafny model of its sequential core

Fluent is a C++ framework for writing distributed programs as sets of
relational rules over collections (tables, channels, periodics, lattices).
Every tick a node evaluates its rules over relational-algebra trees, tracks
the lineage of every derived tuple and ships its history to a Postgres
"lineagedb"; a browser debugger then walks that lineage back through time.
This project models, in Dafny, the parts of that system that are sequential
logic rather than I/O, and proves what they promise:

- `status.dfy`, `status_or.dfy`: `Status` and `StatusOr` values, `ToString`
  and the CHECK failures of `ValueOrDie` and of building a `StatusOr` from an
  OK status (a `Checked` result in place of a crash).
- `collections.dfy`: `Table`, `Channel` and `Periodic` as classes whose maps
  from tuples to their hash and logical insert times are updated in place,
  with deferred merges and deletes applied by `Tick`.
- `lattices.dfy`: the bool, last-writer-wins, set and map lattices as
  classes whose `Merge` updates the element.
- `aggregates.dfy`, `relations.dfy`, `group_by.dfy`, `hash_join.dfy`: the
  `Sum` and `Count` aggregates and the physical `GroupBy` and `HashJoin`
  operators, each proved against its relational definition.
- `logical_to_physical.dfy`: the lineage each logical operator attaches to
  its output rows.
- `to_sql.dfy`, `mock_pickler.dfy`, `decimal.dfy`, `string_util.dfy`,
  `tuple_util.dfy`: value rendering and parsing, `Join`, `CrunchWhitespace`
  and the tuple helpers.
- `mock_client.dfy`, `pqxx_client.dfy`: the lineagedb clients; the mock
  records every call, the Postgres client refuses everything before `Init`
  and issues its queries in order, stopping at the first failure.
- `disjoint_ranges.dfy`: the interval set of the file-system example's
  lineage script.
- `frontend.dfy`: the debugger's time cursor, its rule highlight and the
  lineage graph it builds.

C++ templates over tuple types become sequences of values; `std::map` and
`std::set` become Dafny maps and sets; the `std::size_t` counters that wrap
(`CountImpl::count_`, `Periodic::id_`, the cast to `int64_t`) are written
modulo 2^64, and other integers are unbounded where the source's width
depends on a template argument. Hash functions (`std::hash`, the node-id hash) and
the database's answers are parameters. Where the debugger's design notes and
`src/frontend/static/index.js` disagree, the model follows the code: the
notes describe jumps across nodes and generation counters that discard stale
answers, and index.js has neither (a lineage answer is always integrated and
the selected node never changes in `backwards_lineage`).

## Model

| member | source | states |
|---|---|---|
| `CommonStatus.ErrorCodeNameInjective` | src/common/error_code.h:24-113 | distinct error codes print distinct names |
| `CommonStatus.ErrorCodeNameHasNoColon` | src/common/error_code.h:113 | an error code's printed name is at least two characters long and holds no ':' |
| `CommonStatus.DefaultStatus` | src/common/status.cc:43 | the default status is OK with an empty message |
| `CommonStatus.MakeStatus` | src/common/status.cc:45-50 | the status keeps the given code, and keeps the message unless the code is OK |
| `CommonStatus.OkDiscardsMessage` | src/common/status.cc:45-50 | a status built with code OK equals the default status, whatever message was passed |
| `CommonStatus.ToString` | src/common/status.cc:56-62 | the text is "OK" exactly for OK statuses; otherwise it starts with the code's name |
| `CommonStatus.ToStringInjective` | src/common/status.h:66-68 | two statuses with the same text are equal in both code and message |
| `CommonStatusOr.DefaultStatusOr` | src/common/status_or.h:113-114 | a default StatusOr is not ok and its status is UNKNOWN with an empty message |
| `CommonStatusOr.FromStatus` | src/common/status_or.h:116-119 | building from a status CHECK-fails exactly when the status is OK; otherwise the StatusOr reports that status |
| `CommonStatusOr.FromValue` | src/common/status_or.h:121-125 | a StatusOr built from a value is ok and yields that value |
| `CommonStatusOr.StatusOf` | src/common/status_or.h:73-79 | `status()` is OK exactly when a value is held |
| `CommonStatusOr.ValueOrDie` | src/common/status_or.h:91-100 | `ValueOrDie` returns exactly when `ok()` holds, and CHECK-fails otherwise |
| `CommonStatusOr.StatusOkIffOk` | src/common/status_or.h:81-89 | `ok()` agrees with `status().ok()` on every StatusOr |
| `Decimal.NatToStringRoundTrip` | src/common/mock_pickler.h:59 | reading the decimal text of a natural number back gives that number |
| `Decimal.IntToStringRoundTrip` | src/common/mock_pickler.h:59-60 | parsing `std::to_string(n)` within any range that holds n gives n back |
| `Decimal.ParseInteger` | src/common/mock_pickler.h:60 | a successful parse lies within the range of the target type |
| `MockPickler.StringRoundTrip` | src/common/mock_pickler.h:31-36 | a string round-trips in both directions |
| `MockPickler.DumpChar` | src/common/mock_pickler.h:41 | a character is dumped as a one-character string |
| `MockPickler.CharRoundTrip` | src/common/mock_pickler.h:39-43 | a character round-trips; `Load` reads only the first character, and an empty string loads as the null character |
| `MockPickler.DumpBool` | src/common/mock_pickler.h:48 | a bool is dumped as "true" or "false" |
| `MockPickler.LoadBool` | src/common/mock_pickler.h:50-53 | loading CHECK-fails exactly on strings other than "true" and "false"; a loaded bool dumps back to the input |
| `MockPickler.BoolRoundTrip` | src/common/mock_pickler.h:46-54 | every bool round-trips |
| `MockPickler.LoadInt` | src/common/mock_pickler.h:60 | a loaded `int` lies within the 32-bit range |
| `MockPickler.LoadLong` | src/common/mock_pickler.h:63-75 | a loaded `long` lies within the 64-bit range |
| `MockPickler.LoadUnsigned` | src/common/mock_pickler.h:77-89 | a loaded unsigned value lies in [0, 2^64) |
| `MockPickler.IntRoundTrip` | src/common/mock_pickler.h:56-61 | every 32-bit `int` round-trips through its decimal text |
| `MockPickler.LongRoundTrip` | src/common/mock_pickler.h:63-75 | every 64-bit `long` round-trips through its decimal text |
| `MockPickler.UnsignedRoundTrip` | src/common/mock_pickler.h:77-89 | every unsigned 64-bit value round-trips through its decimal text |
| `MockPickler.LoadUnsignedWraps` | src/common/mock_pickler.h:81 | "-m" loads as 2^64 - m, so "-1" loads as the largest unsigned value |
| `MockPickler.LoadNeedsDigits` | src/common/mock_pickler.h:56-89 | every string with no digit after its leading white space and optional sign fails to load as int, long and unsigned, where `stoi`/`stol`/`stoul` throw `invalid_argument` |
| `StringUtil.JoinSnoc` | src/common/string_util.h:43-51 | joining one more argument appends ", " and that argument's text |
| `StringUtil.JoinSingleAndEmpty` | src/common/string_util.h:34-36 | `Join()` is "" and `Join(x)` is x |
| `StringUtil.JoinLength` | src/common/string_util.h:13-24 | joining n strings adds exactly n - 1 separators of two characters |
| `StringUtil.JoinPlacesEach` | src/common/string_util.h:13-24 | each string appears in the result at its offset, in order, followed by ", " unless it is last |
| `StringUtil.JoinIterators` | src/common/string_util.h:13-24 | the loop builds the same text as the variadic `Join` of the same strings |
| `StringUtil.NewlinesToSpaces` | src/common/string_util.h:62 | every newline becomes a space and every other character stays |
| `StringUtil.DestutterFacts` | src/common/string_util.h:62 | destuttering keeps the first character and the non-space characters in order, and leaves no two spaces in a row |
| `StringUtil.DestutterIsFilter` | src/common/string_util.h:62 | destuttering drops exactly the spaces followed by another space, so each run of spaces becomes its last space |
| `StringUtil.VisibleOfSpaces` | src/common/string_util.h:62 | turning newlines into spaces keeps the non-white characters in order |
| `StringUtil.CrunchWhitespaceSpec` | src/common/string_util.h:62-79 | the result has no newline, no two spaces in a row, and the input's non-white characters in order |
| `StringUtil.CrunchWhitespaceIsReference` | src/common/string_util.h:62-79 | the result equals the reading where each maximal run of spaces and newlines becomes one space and every other character stays |
| `StringUtil.CrunchWhitespaceSeparates` | src/common/string_util.h:62-79 | white space between two words, newlines included, comes out as exactly one space |
| `StringUtil.CrunchWhitespaceFixpoint` | src/common/string_util.h:62-79 | a string without newlines or double spaces is left unchanged |
| `StringUtil.CrunchWhitespaceIdempotent` | src/common/string_util.h:62-79 | crunching twice is crunching once |
| `StringUtil.CrunchWhitespaceExamples` | src/common/string_util.h:64-78 | all fifteen documented examples hold |
| `TupleUtil.SizetListTakeDrop` | src/common/sizet_list.h:67-87 | Take keeps the first min(N, n) indices, Drop the rest, and together they rebuild the list |
| `TupleUtil.TupleProjectSpec` | src/common/tuple_util.h:219-223 | the projection is (t[I1], ..., t[In]), repeats allowed |
| `TupleUtil.TakeDropSpec` | src/common/tuple_util.h:239-255 | `TupleTake<N>` keeps the first min(N, len) elements, `TupleDrop<N>` the others, and Take ++ Drop is the tuple |
| `TupleUtil.FoldFromSpec` | src/common/tuple_util.h:93-118 | the index-driven fold from position i continues a left fold of the prefix |
| `TupleUtil.TupleFoldIsLeftFold` | src/common/tuple_util.h:150-159 | `TupleFold(a, t, f)` is f(f(f(a, x), y), z) |
| `TupleUtil.TupleIterStatusSpec` | src/common/tuple_util.h:189-207 | the result is the status of the first failing call, and OK exactly when every call succeeds |
| `TupleUtil.TupleIteriStatusSpec` | src/common/tuple_util.h:161-187 | the calls get indices 0, 1, ...; the result is the first failing call's status, and no call follows a failure |
| `TupleUtil.PrintTupleSpec` | src/common/tuple_util.h:257-270 | a tuple prints as "(" + its elements joined by ", " + ")" |
| `Aggregates.NewSum` | src/ra/aggregates.h:52 | a new sum reports 0 |
| `Aggregates.NewCount` | src/ra/aggregates.h:75 | a new count reports 0 |
| `Aggregates.Update` | src/ra/aggregates.h:53-71 | an update keeps the aggregate's kind and column |
| `Aggregates.FreshCount` | src/ra/aggregates.h:71-75 | a count starting at 0 ends as the number of rows modulo 2^64 |
| `Aggregates.SumSpec` | src/ra/aggregates.h:53-54 | after a run of updates the sum has grown by the column total of the rows |
| `Aggregates.CountSpec` | src/ra/aggregates.h:71-75 | after a run of updates the `std::size_t` count has grown by the number of rows, modulo 2^64 |
| `Collections.MergeTupleSpec` | src/collections/table.h:41-44 | merging inserts an absent tuple with {hash, {time}}, adds the time to a present tuple's times, and changes no other entry |
| `Collections.MergeTupleIdempotent` | src/collections/table.h:41-44 | merging the same tuple at the same time twice is merging it once |
| `Collections.MergeDeferred` | src/collections/table.h:57-70 | the first loop of `Tick` unions each buffered entry's times into the contents, inserting absent tuples |
| `Collections.DeleteDeferred` | src/collections/table.h:72-85 | the second loop of `Tick` removes the buffered tuples that are present and returns exactly those entries |
| `Collections.Table.constructor` | src/collections/table.h:26-27 | a new table and both its buffers are empty |
| `Collections.Table.Merge` | src/collections/table.h:41-44 | the contents become the merge of the tuple; the buffers are untouched |
| `Collections.Table.DeferredMerge` | src/collections/table.h:46-49 | only the merge buffer changes; `Get()` stays as it was |
| `Collections.Table.DeferredDelete` | src/collections/table.h:51-54 | only the delete buffer changes; `Get()` stays as it was |
| `Collections.Table.Tick` | src/collections/table.h:56-90 | the contents become the merged contents without the buffered deletes; the removed entries are returned; both buffers are cleared |
| `Collections.TickWithNothingPending` | src/collections/table.h:56-90 | a tick with empty buffers keeps the contents and removes nothing |
| `Collections.TickPartitions` | src/collections/table.h:72-89 | the kept and the returned entries split the merged contents; the returned ones are the buffered deletes that were present |
| `Collections.TickDeletesAfterMerges` | src/collections/table.h:56-85 | a tuple merged and deleted in one tick is absent afterwards; a delete of an absent tuple is ignored |
| `Collections.DeferredMergeThenTick` | src/collections/table.h:46-70 | a deferred merge followed by a tick equals an immediate merge |
| `Collections.Channel.constructor` | src/collections/channel.h:56-62 | a new channel is empty |
| `Collections.Channel.Receive` | src/collections/channel.h:100-103 | the contents become the merge of the received tuple |
| `Collections.Channel.Tick` | src/collections/channel.h:105-109 | a tick returns the previous contents and leaves the channel empty |
| `Collections.Periodic.constructor` | src/collections/periodic.h:50-51 | ids start at 0 and the periodic starts empty |
| `Collections.Periodic.GetAndIncrementId` | src/collections/periodic.h:68 | returns the current id and advances the counter by one, modulo 2^64; the contents are untouched |
| `Collections.Periodic.Merge` | src/collections/periodic.h:70-73 | the contents become the merge of the tuple; the id counter is untouched |
| `Collections.Periodic.Tick` | src/collections/periodic.h:75-79 | a tick returns the old contents and leaves the periodic empty; the id counter is untouched |
| `Collections.PeriodicIdsCountUp` | src/collections/periodic.h:50-68 | a new periodic hands out ids 0, 1, 2, 3 in order |
| `Lattices.BoolOrder` | src/fluent/bool_lattice.h:39-61 | the comparisons through `convert` order false below true, and `==` is equality of the elements |
| `Lattices.BoolLattice.constructor` | src/fluent/bool_lattice.h:11 | a lattice built from a name starts at false |
| `Lattices.BoolLattice.FromElement` | src/fluent/bool_lattice.h:12-13 | a lattice built from an element holds it |
| `Lattices.BoolLattice.Merge` | src/fluent/bool_lattice.h:19-20 | the element becomes the OR of both, so it is at least as large as either |
| `Lattices.BoolMergeLaws` | src/fluent/bool_lattice.h:19-20 | the merged element is commutative, idempotent and associative |
| `Lattices.LwwMergeSpec` | src/fluent/lww_lattice.h:20-31 | the timestamp becomes the larger of the two; on a tie the current pair stays; merging with itself changes nothing |
| `Lattices.LwwMergeIdempotent` | src/fluent/lww_lattice.h:26-31 | merging the same pair again changes nothing |
| `Lattices.LwwLattice.constructor` | src/fluent/lww_lattice.h:14 | the lattice holds the given pair |
| `Lattices.LwwLattice.Merge` | src/fluent/lww_lattice.h:26-31 | both fields are replaced only when the incoming timestamp is strictly larger |
| `Lattices.SetLattice.constructor` | src/fluent/set_lattice.h:21-22 | the lattice holds the given set |
| `Lattices.SetLattice.Merge` | src/fluent/set_lattice.h:34-38 | the element becomes the union, losing nothing from either side |
| `Lattices.SetLattice.MergeOne` | src/fluent/set_lattice.h:39-41 | merging one tuple inserts it |
| `Lattices.SetLattice.Size` | src/fluent/set_lattice.h:64-66 | the size is 0 exactly for the empty set, and at least 1 once a tuple is present |
| `Lattices.SetSizeMonotone` | src/fluent/set_lattice.h:64-66 | merging never shrinks the size: the union is at least as large as either side and at most their sum, which is why `size()` is a max lattice |
| `Lattices.SetMergeIdempotent` | src/fluent/set_lattice.h:29-38 | merging the same set twice adds nothing the second time |
| `Lattices.MapMergeSpec` | src/fluent/map_lattice.h:25-51 | the merged map has the keys of both; shared keys hold V's merge of the two values; the others are copied |
| `Lattices.MapMergeLaws` | src/fluent/map_lattice.h:25-51 | when V's merge is commutative and idempotent, so is the map's |
| `Lattices.MapLattice.constructor` | src/fluent/map_lattice.h:17-18 | the lattice holds the given map |
| `Lattices.MapLattice.InsertPairInPlace` | src/fluent/map_lattice.h:43-51 | an absent key is added with the value; a present key's value is merged with it |
| `Lattices.MapLattice.Merge` | src/fluent/map_lattice.h:32-38 | the loop of `insert_pair` calls leaves the element equal to the map merge |
| `Lattices.MapLattice.At` | src/fluent/map_lattice.h:83-85 | the key is present afterwards; an absent key is inserted with the default value, a present one is unchanged |
| `Lattices.MapLattice.Size` | src/fluent/map_lattice.h:79-81 | the size is 0 exactly for the empty map, and at least 1 once a key is present |
| `Lattices.MapSizeMonotone` | src/fluent/map_lattice.h:79-81 | merging never shrinks the number of keys below either side's |
| `ToSql.ListValue` | src/lineagedb/to_sql.h:140-161 | the loop renders each element in order and yields the corrected array literal of the element literals (see Findings), not the format string as written |
| `ToSql.ParseValue` | src/lineagedb/to_sql.h:56-119 | a literal read back is a value of the requested C++ type |
| `ToSql.ScalarRoundTrip` | src/lineagedb/to_sql.h:56-119 | every bool, char, string and integer literal reads back as the value it renders |
| `ToSql.ArrayLiteralRoundTrip` | src/lineagedb/to_sql.h:136-161 | the corrected array literal carries exactly the joined element literals, followed by the cast to the array type |
| `ToSql.ListValueSpec` | src/lineagedb/to_sql.h:136-161 | a vector's or array's type is "T[]" and its corrected literal (see Findings) holds its elements' literals joined by ", ", each reading back as the element |
| `ToSql.AsWrittenLosesElements` | src/lineagedb/to_sql.h:145-146 | the format string as written does not yield an array literal holding the elements |
| `ToSql.AsWrittenRoundTrip` | src/lineagedb/to_sql.h:145-146 | the format as written carries the joined element literals between "ARRAY[]::T[" and "]", after the type |
| `ToSql.AsWrittenBoolArray` | src/lineagedb/to_sql.h:159-160 | {true, false} renders as written to "ARRAY[]::boolean[true, false]"; the corrected form holds "true, false" |
| `ToSql.EmptyArraysAgree` | src/lineagedb/to_sql.h:145 | with no elements both forms give "ARRAY[]::T[]" |
| `ToSql.UnsignedFitsNumeric20` | src/lineagedb/to_sql.h:102-119 | every unsigned 64-bit value renders in at most 20 digits, as "numeric(20)" needs |
| `Relations.Matching` | src/ra/physical/group_by.h:39-41 | the rows sharing a key are rows of the input |
| `Relations.MatchingSpec` | src/ra/physical/group_by.h:39-41 | a row is in a key's group exactly when it is an input row with that key |
| `Relations.MatchingEmpty` | src/ra/physical/hash_join.h:56 | a key that no row has matches no row |
| `PhysicalGroupBy.UpdateGroup` | src/ra/physical/group_by.h:41-58 | updating a group keeps each aggregate's kind and column |
| `PhysicalGroupBy.Groups` | src/ra/physical/group_by.h:37-42 | every group holds aggregates of the initial kinds and columns |
| `PhysicalGroupBy.GroupsKeys` | src/ra/physical/group_by.h:39-42 | there is one group per distinct key of the input |
| `PhysicalGroupBy.GroupsSpec` | src/ra/physical/group_by.h:39-42 | each group's aggregates are the initial ones fed exactly the rows with that key, in order |
| `PhysicalGroupBy.GroupAggregates` | src/ra/physical/group_by.h:39-58 | with fresh aggregates a group's sums are its column totals and its counts its size modulo 2^64 |
| `PhysicalGroupBy.OutputSpec` | src/ra/physical/group_by.h:44-50 | each output row is a distinct input key followed by its aggregates' results; every key has a row; no input gives no output |
| `PhysicalGroupBy.BuildGroups` | src/ra/physical/group_by.h:37-42 | the loop builds the groups from scratch, as the specification function gives them |
| `PhysicalGroupBy.GroupBy.constructor` | src/ra/physical/group_by.h:32 | a new operator has no groups |
| `PhysicalGroupBy.GroupBy.ToRange` | src/ra/physical/group_by.h:36-51 | the groups are rebuilt from the input alone and the output is their transform |
| `PhysicalHashJoin.BucketsSpec` | src/ra/physical/hash_join.h:43-52 | each bucket holds the left rows with its key, in order; only keys of left rows have buckets |
| `PhysicalHashJoin.Pair` | src/ra/physical/hash_join.h:57-59 | each left row of a bucket is followed by the right row |
| `PhysicalHashJoin.HashJoinIsNestedLoop` | src/ra/physical/hash_join.h:40-61 | the hash join's output is the nested-loop join, in the same order |
| `PhysicalHashJoin.JoinMembership` | src/ra/physical/hash_join.h:54-60 | a row is in the output exactly when it is l ++ r for a left row l and a right row r with equal keys |
| `PhysicalHashJoin.EmptySide` | src/ra/physical/hash_join.h:40-61 | if either side is empty, so is the output |
| `PhysicalHashJoin.BuildHash` | src/ra/physical/hash_join.h:41-52 | the build loop fills the hash table from scratch with the left rows by key |
| `PhysicalHashJoin.ProbeHash` | src/ra/physical/hash_join.h:54-60 | the probe yields each right row's bucket paired with it, and leaves an empty bucket for every missing right key |
| `PhysicalHashJoin.HashJoin.constructor` | src/ra/physical/hash_join.h:35-36 | a new operator has an empty hash table |
| `PhysicalHashJoin.HashJoin.ToRange` | src/ra/physical/hash_join.h:40-61 | the output is the join of the two inputs and the hash table is rebuilt from the left input alone |
| `LogicalToPhysical.IdsLineageSpec` | src/ra/logical_to_physical.h:60-64 | a collection tuple's lineage holds exactly one id (name, hash, t) per insert time t |
| `LogicalToPhysical.CollectionLineage` | src/ra/logical_to_physical.h:60-64 | the loop builds exactly that lineage |
| `LogicalToPhysical.DistinctKeys` | src/ra/physical/group_by.h:44 | the keys of the grouped output are the input's keys, each once |
| `LogicalToPhysical.CollectionCase` | src/ra/logical_to_physical.h:51-69 | one row per collection tuple, with one id per insert time |
| `LogicalToPhysical.IterableCase` | src/ra/logical_to_physical.h:98-106 | the container's tuples, each with empty lineage |
| `LogicalToPhysical.MapCase` | src/ra/logical_to_physical.h:108-119 | f applied to each tuple, lineage unchanged |
| `LogicalToPhysical.FilterRowsSpec` | src/ra/logical_to_physical.h:121-130 | a row survives the filter exactly when it is a child row satisfying f |
| `LogicalToPhysical.FilterCase` | src/ra/logical_to_physical.h:121-130 | exactly the child rows whose tuple satisfies f, each with its lineage |
| `LogicalToPhysical.ProjectCase` | src/ra/logical_to_physical.h:132-139 | the chosen columns of each tuple, lineage unchanged |
| `LogicalToPhysical.CrossRowsSpec` | src/ra/logical_to_physical.h:141-159 | |l| * |r| rows, each a left and a right tuple concatenated with the union of their lineages |
| `LogicalToPhysical.CrossCase` | src/ra/logical_to_physical.h:141-159 | every pair of child rows, with the union of the two lineages |
| `LogicalToPhysical.JoinRowsTuples` | src/ra/logical_to_physical.h:182-190 | the joined tuples are the physical hash join's output over the children's tuples |
| `LogicalToPhysical.JoinRowsNested` | src/ra/logical_to_physical.h:182-204 | the joined tuples are the nested-loop join of the children's tuples |
| `LogicalToPhysical.JoinRowsMembership` | src/ra/logical_to_physical.h:187-204 | a row is a result exactly when it joins a left and a right row with equal keys, lineages unioned |
| `LogicalToPhysical.HashJoinCase` | src/ra/logical_to_physical.h:161-206 | the tuples are the physical hash join's, each carrying the union of the two sides' lineages |
| `LogicalToPhysical.GroupLineageSpec` | src/ra/logical_to_physical.h:244-259 | a group's lineage is the union of the lineages of the rows with its key |
| `LogicalToPhysical.GroupRowsTuples` | src/ra/logical_to_physical.h:251-259 | one row per distinct key, holding the key then the group's aggregate results |
| `LogicalToPhysical.GroupRowsLineage` | src/ra/logical_to_physical.h:244-259 | each grouped row's lineage is the union over its group |
| `LogicalToPhysical.GroupRowsOutput` | src/ra/logical_to_physical.h:251-259 | the set of grouped tuples is the physical group-by's output |
| `LogicalToPhysical.GroupByCase` | src/ra/logical_to_physical.h:230-261 | one row per distinct key with the group's results and the union of its rows' lineages |
| `LineageMockClient.TypeNames` | src/lineagedb/mock_client.h:59-62 | one SQL type name per column type, in column order |
| `LineageMockClient.ValueStrings` | src/lineagedb/mock_client.h:81-86 | one SQL literal per column value, in column order |
| `LineageMockClient.MockClient.Make` | src/lineagedb/mock_client.h:240-245 | the client keeps its name, id and address and starts with every log empty |
| `LineageMockClient.MockClient.AddCollection` | src/lineagedb/mock_client.h:51-68 | appends one record (name, type, column names, column type names) to the collection log, leaves the other logs alone and returns OK |
| `LineageMockClient.MockClient.AddRule` | src/lineagedb/mock_client.h:70-75 | appends (rule number, bootstrap flag, rule) to the rule log only and returns OK |
| `LineageMockClient.MockClient.InsertTuple` | src/lineagedb/mock_client.h:78-92 | appends (collection, time, physical time, column literals) to the insert log only and returns OK |
| `LineageMockClient.MockClient.DeleteTuple` | src/lineagedb/mock_client.h:95-109 | appends (collection, time, physical time, column literals) to the delete log only and returns OK |
| `LineageMockClient.MockClient.AddNetworkedLineage` | src/lineagedb/mock_client.h:111-117 | appends the networked lineage record to its log only and returns OK |
| `LineageMockClient.MockClient.AddDerivedLineage` | src/lineagedb/mock_client.h:119-126 | appends the derived lineage record to its log only and returns OK |
| `LineageMockClient.MockClient.RegisterBlackBoxLineage` | src/lineagedb/mock_client.h:128-134 | appends (collection, lineage commands) to its log only and returns OK |
| `LineageMockClient.MockClient.RegisterBlackBoxPythonLineageScript` | src/lineagedb/mock_client.h:136-141 | appends the script to its log only and returns OK |
| `LineageMockClient.MockClient.RegisterBlackBoxPythonLineage` | src/lineagedb/mock_client.h:143-148 | appends (collection, method) to its log only and returns OK |
| `LineageMockClient.AddRulesInOrder` | src/lineagedb/mock_client.h:70-75 | after a sequence of AddRule calls on a new client the rule log is exactly the calls, in order, and every other log is empty |
| `LineagePqxxClient.SizeToInt64` | src/lineagedb/pqxx_client.h:24-26 | the cast lands in the int64 range and agrees with its argument modulo 2^64 |
| `LineagePqxxClient.SizeToInt64RoundTrip` | src/lineagedb/pqxx_client.h:24-26 | the cast from size_t to int64 is a bijection: casting back recovers the hash, in both directions |
| `LineagePqxxClient.ColumnDefsSpec` | src/lineagedb/pqxx_client.h:161-166 | one definition per column, in column order: the name, a space, the SQL type name and " NOT NULL" |
| `LineagePqxxClient.ColumnDefinitions` | src/lineagedb/pqxx_client.h:161-166 | the loop builds exactly those column definitions |
| `LineagePqxxClient.ApplyMonotone` | src/lineagedb/pqxx_client.h:106-280 | no call clears the initialized flag or takes back a query already issued |
| `LineagePqxxClient.NothingBeforeInit` | src/lineagedb/pqxx_client.h:138-260 | before Init every call but Exec returns FAILED_PRECONDITION and issues nothing |
| `LineagePqxxClient.InitSetsFlagFirst` | src/lineagedb/pqxx_client.h:106-131 | Init leaves the client initialized even when its first query fails, and then issues only that query |
| `LineagePqxxClient.LineageNameReserved` | src/lineagedb/pqxx_client.h:145-148 | adding a collection named "lineage" returns INVALID_ARGUMENT and issues nothing |
| `LineagePqxxClient.TwoQueriesStopAtFirstFailure` | src/lineagedb/pqxx_client.h:109-177 | the second query of Init or AddCollection is issued exactly when the first succeeds; the status is the first failure or the second's |
| `LineagePqxxClient.NoQueryWithoutInit` | src/lineagedb/pqxx_client.h:138-260 | a session of calls that never initializes issues no query and every call fails with FAILED_PRECONDITION |
| `LineagePqxxClient.PqxxClient.constructor` | src/lineagedb/pqxx_client.h:283-292 | the node's id is the size_t id cast to int64 and the client starts uninitialized with no query issued |
| `LineagePqxxClient.PqxxClient.ExecuteQuery` | src/lineagedb/pqxx_client.h:295-306 | the query is issued and the database's answer returned |
| `LineagePqxxClient.PqxxClient.Init` | src/lineagedb/pqxx_client.h:106-131 | sets the flag, then inserts the node row and creates the lineage table, stopping at the first failure |
| `LineagePqxxClient.PqxxClient.AddCollection` | src/lineagedb/pqxx_client.h:134-178 | checks the flag, then the reserved name, then records the collection and creates its table |
| `LineagePqxxClient.PqxxClient.AddRule` | src/lineagedb/pqxx_client.h:180-194 | checks the flag, then inserts the rule row |
| `LineagePqxxClient.PqxxClient.InsertTuple` | src/lineagedb/pqxx_client.h:196-212 | checks the flag, then inserts (hash as int64, time, column literals) into the collection's table |
| `LineagePqxxClient.PqxxClient.DeleteTuple` | src/lineagedb/pqxx_client.h:214-228 | checks the flag, then sets the deletion time of the row with that hash |
| `LineagePqxxClient.PqxxClient.AddNetworkedLineage` | src/lineagedb/pqxx_client.h:230-251 | checks the flag, then inserts a lineage row naming the remote node and its time |
| `LineagePqxxClient.PqxxClient.AddDerivedLineage` | src/lineagedb/pqxx_client.h:253-276 | checks the flag, then inserts a lineage row naming this node and the deriving rule |
| `LineagePqxxClient.PqxxClient.Exec` | src/lineagedb/pqxx_client.h:278-280 | issues the raw query, initialized or not |
| `DisjointRangesModel.RangeUnion` | src/examples/file_system/lineage.py:4-6 | the result encloses both ranges and takes each end from one of them |
| `DisjointRangesModel.Intersect` | src/examples/file_system/lineage.py:8-10 | a point lies in the result exactly when it lies in both ranges |
| `DisjointRangesModel.OverlapSpec` | src/examples/file_system/lineage.py:1-2 | two ranges overlap exactly when some point lies in both |
| `DisjointRangesModel.IntersectInside` | src/examples/file_system/lineage.py:8-10 | the intersection of overlapping ranges holds a point and lies within each range |
| `DisjointRangesModel.UnionSpec` | src/examples/file_system/lineage.py:4-6 | the union of joinable ranges holds exactly the points of either range |
| `DisjointRangesModel.SubsumesSpec` | src/examples/file_system/lineage.py:12-13 | p subsumes q exactly when every point of q lies in p |
| `DisjointRangesModel.Combined` | src/examples/file_system/lineage.py:19-28 | condensing never lengthens the list and keeps the last range's stop |
| `DisjointRangesModel.CombinedCovers` | src/examples/file_system/lineage.py:19-28 | condensing keeps exactly the covered points, and every range holds a point |
| `DisjointRangesModel.CombinedCondensed` | src/examples/file_system/lineage.py:19-28 | condensing a valid list leaves no two ranges touching |
| `DisjointRangesModel.CombinedIdempotent` | src/examples/file_system/lineage.py:19-28 | condensing a condensed list changes nothing |
| `DisjointRangesModel.InsertByStart` | src/examples/file_system/lineage.py:37 | inserting adds exactly the one range to the multiset of ranges |
| `DisjointRangesModel.SortByStart` | src/examples/file_system/lineage.py:37 | sorting is a permutation |
| `DisjointRangesModel.SortByStartSorted` | src/examples/file_system/lineage.py:37 | the sorted list is ordered by start |
| `DisjointRangesModel.SortByStartOfSorted` | src/examples/file_system/lineage.py:37 | a list already ordered by start is left as it is |
| `DisjointRangesModel.OverlapIndices` | src/examples/file_system/lineage.py:31-32 | exactly the indices of the ranges overlapping r, in increasing order |
| `DisjointRangesModel.UnionAll` | src/examples/file_system/lineage.py:41-42 | the merged range encloses r and every overlapping range and takes each end from one of them |
| `DisjointRangesModel.UnionSubsumed` | src/examples/file_system/lineage.py:34-48 | on a valid list the answer is true exactly when one existing range already holds r |
| `DisjointRangesModel.UnionCondensed` | src/examples/file_system/lineage.py:30-48 | after union the list is condensed: sorted, disjoint and with no touching neighbours |
| `DisjointRangesModel.UnionCovers` | src/examples/file_system/lineage.py:30-48 | after union a point is covered exactly when it was covered before or lies in r |
| `DisjointRangesModel.DisjointRanges.constructor` | src/examples/file_system/lineage.py:16-17 | a new object holds no range |
| `DisjointRangesModel.DisjointRanges.Condense` | src/examples/file_system/lineage.py:19-28 | the loop leaves the ranges condensed as the specification function gives them |
| `DisjointRangesModel.DisjointRanges.Union` | src/examples/file_system/lineage.py:30-48 | the new ranges and the answer are those of the union specification, in all three cases |
| `DisjointRangesModel.UnionOverlapping` | src/examples/file_system/lineage.py:41-42 | the loop folds union over the overlapping ranges into r |
| `DebuggerFrontend.StripHeader` | src/frontend/static/index.js:22-24 | the result is the tuple without its first five columns: header and rest concatenate back to the tuple |
| `DebuggerFrontend.TupleIdToStringParts` | src/frontend/static/index.js:111-113 | the id string is node, collection, hash and time joined by "_" |
| `DebuggerFrontend.TupleIdToStringInjective` | src/frontend/static/index.js:111-113 | when no name or hash contains "_", distinct tuple ids give distinct strings |
| `DebuggerFrontend.TupleIdToStringCollides` | src/frontend/static/index.js:111-113 | with "_" inside a name, two distinct ids give the same string |
| `DebuggerFrontend.DecrementedSpec` | src/frontend/static/index.js:237 | the decremented time is never negative: t-1 for a positive t, else 0 |
| `DebuggerFrontend.StepsUndo` | src/frontend/static/index.js:235-247 | incrementing then decrementing a time that is not negative restores it; decrementing a positive time then incrementing restores it |
| `DebuggerFrontend.CurrentRuleHead` | src/frontend/static/index.js:259-268 | at time 0 nothing is highlighted; within the head, time t highlights item t-1 |
| `DebuggerFrontend.CurrentRuleInBody` | src/frontend/static/index.js:269-271 | past the head the highlighted item always lies in the body, between the head length and the item count |
| `DebuggerFrontend.CurrentRulePeriodic` | src/frontend/static/index.js:269-271 | past the head the highlight repeats every (body length) steps |
| `DebuggerFrontend.CurrentRuleAdvances` | src/frontend/static/index.js:267-271 | one step forward from the end of the head highlights the first body item; past the head it highlights the next item, wrapping to the body's start |
| `DebuggerFrontend.WithNodeSpec` | src/frontend/static/index.js:275-292 | afterwards the id is present; an existing id leaves the graph unchanged, a new one appends exactly its node; edges untouched, ids stay unique |
| `DebuggerFrontend.WithNodeIdempotent` | src/frontend/static/index.js:275-292 | adding the same id twice is adding it once, whatever tuple comes second |
| `DebuggerFrontend.WithEdgeSpec` | src/frontend/static/index.js:294-309 | afterwards the edge is present; an existing edge leaves the graph unchanged, a new one is appended; nodes untouched, edges stay unique |
| `DebuggerFrontend.WithEdgeIdempotent` | src/frontend/static/index.js:294-309 | adding the same edge twice is adding it once |
| `DebuggerFrontend.StepSpec` | src/frontend/static/index.js:320-325 | one iteration of the lineage callback keeps the old graph in place, records the source node and its edge to the target, and keeps the graph unique |
| `DebuggerFrontend.IntegratedSpec` | src/frontend/static/index.js:319-326 | integrating lineage keeps every old node and edge in place, records every answer's node and its edge to the target, and keeps the graph unique |
| `DebuggerFrontend.IntegratedNoop` | src/frontend/static/index.js:319-326 | answers already recorded leave the graph unchanged |
| `DebuggerFrontend.IntegratedIdempotent` | src/frontend/static/index.js:319-326 | integrating the same answers twice is integrating them once |
| `DebuggerFrontend.TargetOf` | src/frontend/static/index.js:311-314 | the target id is built exactly when the row's hash column is a string and its time column a number |
| `DebuggerFrontend.Node.constructor` | src/frontend/static/index.js:67-80 | the node keeps its name, address, rules and time, with no collections and no clicked hash |
| `DebuggerFrontend.Cy.constructor` | src/frontend/static/index.js:371-372 | the graph starts empty |
| `DebuggerFrontend.Cy.AddNode` | src/frontend/static/index.js:275-292 | the lookup loop and the add leave the graph as WithNode gives it |
| `DebuggerFrontend.Cy.AddEdge` | src/frontend/static/index.js:294-309 | the graph becomes WithEdge of the old graph |
| `DebuggerFrontend.Debugger.constructor` | src/frontend/static/index.js:45-51 | no node is selected |
| `DebuggerFrontend.Debugger.DecrementTime` | src/frontend/static/index.js:225-240 | with a node selected its time becomes max(0, t-1) and a refresh of all its collections at the new time is requested; otherwise nothing happens |
| `DebuggerFrontend.Debugger.IncrementTime` | src/frontend/static/index.js:225-247 | with a node selected its time becomes t+1 and a refresh of all its collections at the new time is requested; otherwise nothing happens |
| `DebuggerFrontend.Debugger.BackwardsLineage` | src/frontend/static/index.js:311-350 | adds the clicked row's node, remembers its hash and sends the black-box query (id column) or the regular query (hash and time); nothing changes when the id cannot be built |
| `DebuggerFrontend.Debugger.IntegrateLineage` | src/frontend/static/index.js:319-326 | the callback's loop leaves the graph as Integrated gives it |
| `DebuggerFrontend.CollectionNamesOf` | src/frontend/static/index.js:227-230 | the loop gathers every collection's name, in order |

## Left out

- Networking, ZeroMQ/gRPC wiring, the executor and the rule builder: I/O and compile-time plumbing, outside the sequential core.
- `Channel::Merge`: it pickles the tuple and sends it on a socket; only `Receive` and `Tick` are modelled.
- `collections/collection.h` is not part of this model: `MergeCollectionTuple` is modelled as insert-or-add-time, the behaviour `table_test.cc` and `periodic_test.cc` expect.
- `common/error_code.cc` is not part of this model: each error code is assumed to print as its enumerator's spelling.
- `common/string_util.cc` is not part of this model: `CrunchWhitespace` is modelled from its header comment (newlines become spaces, runs of spaces collapse to one).
- `fluent/local_tuple_id.h` is not part of this model: a `LocalTupleId` is modelled as (collection name, hash, logical time), the fields `logical_to_physical.h` builds it from.
- Floating point: `ToSql<float>`, `ToSql<double>`, the floating-point picklers and the `Avg` aggregate are left out.
- `ToSql` of `std::chrono::time_point`: it reads a clock's epoch representation.
- Hashes: `std::hash` and the node-id hash are parameters; their values and collisions are not modelled (the `CHECK_EQ` on hashes in `Table::Tick` becomes a consistency precondition).
- Ordering of `std::map` iteration: `PhysicalGroupBy.OutputSpec`, `PhysicalGroupBy.GroupBy.ToRange` and `LogicalToPhysical.GroupRowsOutput` state the group-by output as a set of rows, not in the key order the map yields.
- `LogicalToPhysical.GroupRows`, `LogicalToPhysical.GroupRowsTuples` and `LogicalToPhysical.GroupByCase` list the groups in the order their keys first occur in the input (`DistinctKeys`), not in the `std::map` key order that `pra::make_group_by` yields; the rows are the same, only their order differs.
- `LineagePqxxClient.PqxxClient.ExecuteQuery`: the transaction and the SQL text are not modelled; queries are a structured datatype and the database's answers are a script given to the constructor.
- `LineagePqxxClient.PqxxClient.constructor`: `Make`'s exception path (a failed connection returning INVALID_ARGUMENT) and the logging are left out, as they depend on the database.
- `LineageMockClient.MockClient.Make`: the `ConnectionConfig` argument is dropped, since the mock never uses it; the getters are the `Log()` function.
- `ToSql.ListValue`: vectors and arrays render the corrected literal "ARRAY[v1, v2]::T[]" everywhere, not the "ARRAY[]::T[v1, v2]" that `src/lineagedb/to_sql.h:145` and `:159` format (see Findings); the column literals that `LineageMockClient.ValueStrings`, `LineageMockClient.MockClient.InsertTuple`, `LineageMockClient.MockClient.DeleteTuple` and `LineagePqxxClient.PqxxClient.InsertTuple` record inherit the corrected form.
- `Aggregates.SumSpec`: the sum has the column's C++ type T, whose width this model does not fix; sums are unbounded integers, and overflow of T is not modelled.
- `Lattices.SetLattice.Size`, `Lattices.MapLattice.Size`: `size()` wraps the count in a `MaxLattice<int>`; `max_lattice.h` is not part of this model, so the size is a plain `nat`, and the narrowing of `std::size_t` to `int` is not modelled.
- Lineage answers are assumed well typed: the `typeof` assertions of `fluent.TupleId` (`src/frontend/static/index.js:99-103`) on each answer become the field types of `TupleId` and `LineageRecord` in `frontend.dfy`, and a time that is a JavaScript number but not an integer is not modelled.
- The edge selector of `add_edge` (`src/frontend/static/index.js:297`) quotes the ids without escaping; the model compares edges by their ids, and a quote inside an id is not modelled.
- `ToSql` strings and characters are rendered quoted without escaping, as the source does; SQL injection through a quote is not modelled.
- `DisjointRangesModel.SortByStart`: Python's stable sort is modelled as a stable insertion sort by start.
- `read_lineage` and the rest of the file-system lineage script: they query Postgres.
- The debugger front-end's AJAX calls, DOM updates, `cy.layout`, `select_node`, `get_collections` and `main`: browser and network I/O. `refresh_collections` is modelled as the request it sends.
- `DebuggerFrontend.Debugger.BackwardsLineage`: the `node` argument is taken to be the selected node, which is how the page calls it; the lineage answer arrives through `DebuggerFrontend.Debugger.IntegrateLineage`.
- `render_current_rule`'s JavaScript `%` truncates toward zero; its operand is never negative there, so Dafny's `%` agrees. An index past the list, or a body of length 0, reads `undefined` and throws: the model returns `Throws`.

## Findings

| source | as written | input that shows it | evidently intended | confidence | as-written member | corrected member |
|---|---|---|---|---|---|---|
| src/lineagedb/to_sql.h:145 | the vector and array literal is formatted as "ARRAY[]::T[v1, v2]", with the elements after the cast | `ToSql<std::array<bool, 2>>().Value({{true, false}})` gives "ARRAY[]::boolean[true, false]" | the elements inside `ARRAY[...]`. The tests disagree on the rest: `src/lineagedb/to_sql_test.cc:43-45` expects "[]" and "[true, false]", and `src/lineagedb/mock_pqxx_client_test.cc:72` expects `ARRAY['x', 'c', 'b']` with no cast. The corrected member's trailing "::T[]" is this model's own choice, so that an empty array has a type | medium, not executed | `ToSql.AsWrittenLosesElements`, `ToSql.AsWrittenBoolArray` | `ToSql.ArrayLiteralRoundTrip` |

Tuple ids in the debugger (`src/frontend/static/index.js:111-113`) join the
node name, collection name, hash and time with "_", so two different ids
whose names contain "_" give the same graph id (`DebuggerFrontend.TupleIdToStringCollides`);
without "_" in the names the map is injective (`DebuggerFrontend.TupleIdToStringInjective`).
