# sqloth, modelled in Dafny

sqloth reads a MySQL schema file and generates random `INSERT` statements for its tables. Foreign keys are honoured: a column that references another column gets the values already generated for its target, so the inserted rows satisfy the constraint. The repository went through three designs of the same pipeline, and each one is modelled in its own modules.

* **Newest revision.**
  * A column graph is built from the schema: an N×N adjacency matrix where `[i][j] == 1` means column i has a foreign key to column j, plus a done flag per node (`domain/model/schema_graph.go`, `domain/dservice/dservice.go`).
  * Values are produced by a recursion that resolves parents before children and then cascades to the children.
  * The columns' values are regrouped per table into records (`GenerateRecordsForTables`).
  * The records are rendered as `INSERT` statements between `SET FOREIGN KEY = 0;` and `SET FOREIGN KEY = 1;` (`domain/model/queries.go`).
  * Column types are parsed by `NewColumnType`, and random literals come from the generators in `domain/model/random.go`.
  * Modules: `ModelTypes`, `Random`, `SchemaModel`, `Adjacency`, `Graph`, `DService`, `Queries`.
* **Previous revision.**
  * The same graph and recursion, under the names `ColumnGraph` and `Constraint` (`domain/model/column_graph.go`, `domain/model/column.go`).
  * Tables render their own `INSERT` statement (`domain/model/table.go`).
  * The file driver's type parser and name trimmer (`driver/file_driver/file_driver.go`).
  * Modules: `PrevColumn`, `PrevColumnGraph`, `PrevTable`, `FileDriver`.
* **Oldest revision.**
  * A topological sort of the columns over a mutable adjacency matrix (`domain/service/sort.go`).
  * Value generation in reverse sorted order, a referencing column copying its target's values (`domain/service/data_generator.go`).
  * Modules: `OldModel`, `SortService`, `DataGenerator`.

How Go constructs are modelled:

* Go's `(value, error)` results are `(value, Error)` pairs (module `Wrappers`).
* Randomness is nondeterministic choice: a generator's contract states what any of its outputs satisfies.
* The Go standard-library functions the core calls live in module `Strings`. These are `strings.Join`, `strings.FieldsFunc`, `strings.Trim`, `strings.Split`, `strconv.Itoa`, `strconv.Atoi` and ASCII `strings.ToLower`. Each is defined there with its own lemmas.
* Objects updated in place are classes:
  * `SchemaModel.Schema` (`AddTable`);
  * the graphs `Graph.SchemaGraph` and `PrevColumnGraph.ColumnGraph`, whose done flags the recursion sets.
* The oldest revision's adjacency matrix is an `array2<int>`. The sort clears it in place, and the caller sees the cleared matrix.
* Columns, tables and nodes are values. Their Go pointer-receiver setters return the updated value.

Three details of the code shape the model:

* **`zeroizeColumn` clears a row, not a column.**
  * `domain/service/sort.go:85-90` clears row i of the oldest matrix, despite its name. `SortService.ZeroizeColumn` does the same.
  * With the matrix's orientation (`[i][j] == 1` when column i references column j), clearing row i is what removes the taken column's outgoing references.
  * So the algorithm is a correct Kahn sort: it lists the unreferenced columns first, and `GenerateColumnData` reverses that list.
* **The previous revision's auto-increment values.**
  * `GenerateData` in `domain/model/column.go` emits the row numbers `0 … n-1` for an auto-increment column.
  * The newest revision's `GenerateData` in `domain/model/schema.go` emits `NULL` instead.
* **The previous graph reads fields the previous column lacks.**
  * `GenerateColumnGraph` in `domain/model/column_graph.go` reads `HasForeignKey` and `ForeignKeys`.
  * The `Column` of `domain/model/column.go` at the same revision has `HasConstraint` and `Constraints` instead.
  * `PrevColumnGraph` reads the column's `Constraints`, with the same meaning.

## Model

| member | source | states |
|---|---|---|
| ModelTypes.NewColumnTypeBase | domain/model/schema.go:140-163 | no error iff the name is one of the registered base names; all integer names map to `int`, any other registered name to itself; on error the base is empty |
| ModelTypes.NewColumnTypeBaseCollapsesIntegers | domain/model/schema.go:150-151 | a parsed base is never `smallint`, `mediumint` or `bigint` |
| ModelTypes.NewColumnType | domain/model/schema.go:104-138 | every error result carries the zero column type |
| ModelTypes.NewColumnTypeOfWord | domain/model/schema.go:104-138 | a single registered word, in any case, parses to its lower-cased base with parameter 0, or 100 for text, varbinary and mediumblob |
| ModelTypes.NewColumnTypeWithParam | domain/model/schema.go:104-138 | `word(p)` parses to the word's base with parameter p, except that the fixed-size bases get 100 |
| ModelTypes.NewColumnTypeUnknown | domain/model/schema.go:110-113 | an unregistered first word gives the zero type and the "unregistered type" error |
| ModelTypes.NewColumnTypeBadParam | domain/model/schema.go:115-121 | a parameter that is not a number gives the zero type and an error |
| Random.CharsLayout | domain/model/random.go:13-16 | the alphabet is the 26 lower-case letters, then the 26 capitals, then the 10 digits |
| Random.CharsAreAlphanumerics | domain/model/random.go:29-34 | a character is in the alphabet iff it is an ASCII letter or digit |
| Random.IntRanges | domain/model/random.go:21-27 | every range in the MySQL integer table is non-empty; its width is positive except for bigint, whose width wraps to -1 in 64 bits |
| Random.Wrap64 | domain/model/random.go:50 | the result lies in the 64-bit range and equals its input when the input does |
| Random.GenerateRandomString | domain/model/random.go:36-42 | exactly n characters, each from the alphabet |
| Random.GenerateRandomInt | domain/model/random.go:44-53 | a decimal that parses: in [0, max) when unsigned, in [min, max) when signed |
| Random.GenerateRandomTinyint | domain/model/random.go:55-61 | "0" or "1" |
| Random.GenerateRandomJson | domain/model/random.go:73-79 | `{"json":"` followed by ten digits and `"}` |
| SchemaModel.NewForeignKey | domain/model/schema.go:188-193 | the key names the given table and column |
| SchemaModel.Column.SetForeignKey | domain/model/schema.go:169-171 | the key is appended at the end, the earlier keys are kept, nothing else changes, and the column then has a foreign key |
| SchemaModel.Column.SetAutoIncrement | domain/model/schema.go:173-175 | the flag is set and nothing else changes |
| SchemaModel.Column.SetUnsigned | domain/model/schema.go:177-179 | the flag takes the given value and nothing else changes |
| SchemaModel.Column.GenerateRandomData | domain/model/schema.go:212-227 | a literal the column's base allows (see `IsRandomValue`); "" for a base the switch does not list |
| SchemaModel.Column.GenerateData | domain/model/schema.go:197-210 | n values: all `NULL` for an auto-increment column, otherwise each a random literal for the column |
| SchemaModel.NewColumnFullName | domain/model/schema.go:77-79 | the table name, a dot, and the column name |
| SchemaModel.NewColumn | domain/model/schema.go:68-75 | the name is the second dot-separated piece; the full name and type are kept; no keys and no flags |
| SchemaModel.NewColumnOfFullName | domain/model/schema.go:68-79 | for dot-free names, the column built from `NewColumnFullName(t, c)` is named c |
| SchemaModel.Table.AddColumns | domain/model/schema.go:51-53 | the column is appended at the end; name and earlier columns are unchanged |
| SchemaModel.NewTable | domain/model/schema.go:44-49 | the given name and no columns |
| SchemaModel.Schema.constructor | domain/model/schema.go:24-26 | an empty schema |
| SchemaModel.Schema.AddTable | domain/model/schema.go:28-30 | the table is appended at the end and becomes the last table |
| SchemaModel.Schema.LastTable | domain/model/schema.go:32-34 | the last table of a non-empty schema |
| Adjacency.OnesInSpec | domain/model/schema_graph.go:88-99 | the positions of the 1s of a row, strictly ascending, and exactly those |
| Adjacency.ParentIndexesSpec | domain/model/schema_graph.go:88-99 | node i's parent list is strictly ascending, holds exactly the j with `[i][j] == 1`, and is non-empty iff i has parents |
| Adjacency.ChildIndexesSpec | domain/model/schema_graph.go:113-124 | node i's child list is strictly ascending, holds exactly the k with `[k][i] == 1`, and is non-empty iff some row has a 1 in column i |
| Adjacency.ParentChildDuality | domain/model/schema_graph.go:88-124 | j is a parent of i iff i is a child of j |
| Graph.NewAdjacencyMatrix | domain/model/schema_graph.go:16-24 | an n×n matrix of zeros |
| Graph.ColumnNode.Done | domain/model/schema_graph.go:40-42 | the flag is set; column and index are unchanged |
| Graph.NewColumnNode | domain/model/schema_graph.go:32-38 | the node holds the given column, flag and index |
| Graph.DoneIdempotent | domain/model/schema_graph.go:40-42 | marking a node done twice is marking it once, and marking a done node changes nothing |
| Graph.SchemaGraph.constructor | domain/model/schema_graph.go:9-12 | the graph holds the given matrix and nodes |
| Graph.SchemaGraph.IsAllDone | domain/model/schema_graph.go:52-59 | true iff every node is done |
| Graph.SchemaGraph.HasParentNodes | domain/model/schema_graph.go:62-72 | an error iff i is not a row; otherwise true iff row i holds a 1 |
| Graph.SchemaGraph.IsParentNodesAreAllDone | domain/model/schema_graph.go:74-86 | an error iff i is not a row; otherwise true iff every parent of i is done |
| Graph.SchemaGraph.ParentNodeIndexes | domain/model/schema_graph.go:88-99 | an error and no indexes iff i is not a row; otherwise exactly i's parents, strictly ascending |
| Graph.SchemaGraph.HasChildrenNodes | domain/model/schema_graph.go:101-111 | an error iff i is not a row; otherwise true iff some row has a 1 in column i |
| Graph.SchemaGraph.ChildrenNodeIndexes | domain/model/schema_graph.go:113-124 | an error and no indexes iff i is not a row; otherwise exactly i's children, strictly ascending |
| DService.FlatIndex | domain/dservice/dservice.go:8-14 | column c of table t becomes node `Offset(t) + c`, keyed `table.column` |
| DService.IndexColumns | domain/dservice/dservice.go:6-15 | one undone node per column, in schema order, and a key map that is a bijection between keys and node indexes |
| DService.LinkForeignKeys | domain/dservice/dservice.go:20-26 | row i gets a 1 exactly at the columns its foreign keys name; the other rows are unchanged |
| DService.GenerateSchemaGraph | domain/dservice/dservice.go:5-36 | a fresh graph: one undone node per column in schema order, and `[a][b] == 1` iff a foreign key of column a names column b |
| DService.DerivedValues | domain/dservice/dservice.go:77-86 | a column with parents gets n values |
| DService.SingleParentCopies | domain/dservice/dservice.go:77-87 | a column with a single parent gets an exact copy of the parent's values |
| DService.MarkResolved | domain/dservice/dservice.go:58-88 | storing a node's values and marking it done keeps the resolution invariant; done flags only grow; done entries are untouched |
| DService.DeriveValues | domain/dservice/dservice.go:77-86 | row by row, the parents' values concatenated in ascending parent order |
| DService.ConcatParentRow | domain/dservice/dservice.go:79-84 | one row: the parents' row-j values concatenated in ascending parent order |
| DService.GenerateValuesForColumnsByRecursion | domain/dservice/dservice.go:51-106 | node i ends done, and the invariant holds: every done node has its values, random when it has no parents, derived from its parents otherwise |
| DService.ResolveParents | domain/dservice/dservice.go:97-104 | visiting the undone parents leaves node i done, without breaking the invariant |
| DService.CascadeToChildren | domain/dservice/dservice.go:89-96 | after the visit to each child, no node is left with all parents done and itself undone |
| DService.GenerateValuesForColumns | domain/dservice/dservice.go:40-48 | on an acyclic graph: every node ends done, the dictionary holds exactly the columns' full names, each with n values generated or derived as its foreign keys demand |
| DService.InsertedColumns | domain/dservice/dservice.go:114-119 | exactly the columns that are not auto-increment, in order |
| DService.RowOfSpec | domain/dservice/dservice.go:112-120 | a record holds row r of each inserted column's values, in column order |
| DService.RecordsMapKeys | domain/dservice/dservice.go:108-125 | the record map's keys are exactly the table names |
| DService.RecordsMapLength | domain/dservice/dservice.go:110-123 | every table gets n records |
| DService.RecordsMapLast | domain/dservice/dservice.go:109-123 | a table named only once gets its own records |
| DService.ResolvedValuesCover | domain/dservice/dservice.go:40-48 | the dictionary `GenerateValuesForColumns` returns covers every column `GenerateRecordsForTables` asks for |
| DService.GenerateRecordsForTables | domain/dservice/dservice.go:108-125 | the map from table name to its n records |
| DService.TableRecords | domain/dservice/dservice.go:111-122 | one table's n records |
| Queries.QuerizeRecord | domain/model/queries.go:20-27 | the record's quoted values, comma-joined in parentheses, followed by a comma |
| Queries.InsertStatementShape | domain/model/queries.go:9-13 | every statement starts with `INSERT INTO <table> VALUES` and ends with `;` |
| Queries.InsertFor | domain/model/queries.go:9-13 | one table's statement: its records' tuples joined by commas, then `;` |
| Queries.QuerizeRecords | domain/model/queries.go:10-12 | the records' tuples, each followed by a comma, concatenated in order |
| Queries.InsertFinish | domain/model/queries.go:13 | cutting the trailing comma and appending `;` gives the statement |
| Queries.GenerateQuery | domain/model/queries.go:3-18 | nothing for an empty map; otherwise the foreign-key-off line, one statement per table in some order of the keys, then the foreign-key-on line |
| PrevColumn.StrToColumnTypeBase | domain/model/column.go:31-54 | no error iff the name is a known base, in which case it is returned unchanged |
| PrevColumn.StrToColumnTypeBaseIsCaseSensitive | domain/model/column.go:31-54 | every name holding a capital letter is rejected, since all nine base names are lower-case; `bigint` is rejected too |
| PrevColumn.NewConstraint | domain/model/column.go:65-70 | the constraint names the given table and column |
| PrevColumn.Column.SetConstraint | domain/model/column.go:97-99 | the constraint is appended at the end, nothing else changes, and the column then has a constraint |
| PrevColumn.Column.GenerateRandomData | domain/model/column.go:116-131 | a literal the column's base allows; "" for a base the switch does not list |
| PrevColumn.Column.GenerateData | domain/model/column.go:101-114 | n values: the row numbers 0 … n-1 in decimal for an auto-increment column, otherwise random literals |
| PrevColumn.NewColumnFullName | domain/model/column.go:89-91 | the table name, a dot, and the column name |
| PrevColumn.NewColumn | domain/model/column.go:80-87 | the name is the second dot-separated piece; full name and type are kept; no constraints |
| PrevColumn.NewColumnOfFullName | domain/model/column.go:80-91 | for dot-free names, the column built from `NewColumnFullName(t, c)` is named c |
| PrevColumnGraph.NewAdjacencyMatrix | domain/model/column_graph.go:15-23 | an n×n matrix of zeros |
| PrevColumnGraph.ColumnNode.Done | domain/model/column_graph.go:31-33 | the flag is set; column and index are unchanged |
| PrevColumnGraph.DoneIdempotent | domain/model/column_graph.go:31-33 | marking done is idempotent |
| PrevColumnGraph.ColumnGraph.constructor | domain/model/column_graph.go:8-11 | the graph holds the given matrix and nodes |
| PrevColumnGraph.ColumnGraph.IsAllDone | domain/model/column_graph.go:80-87 | true iff every node is done |
| PrevColumnGraph.ColumnGraph.HasParentNodes | domain/model/column_graph.go:90-100 | an error iff i is not a row; otherwise true iff row i holds a 1 |
| PrevColumnGraph.ColumnGraph.IsParentNodesAreAllDone | domain/model/column_graph.go:102-114 | an error iff i is not a row; otherwise true iff every parent of i is done |
| PrevColumnGraph.ColumnGraph.ParentNodeIndexes | domain/model/column_graph.go:116-127 | an error and no indexes iff i is not a row; otherwise exactly i's parents, strictly ascending |
| PrevColumnGraph.ColumnGraph.HasChildrenNodes | domain/model/column_graph.go:129-139 | an error iff i is not a row; otherwise true iff some row has a 1 in column i |
| PrevColumnGraph.ColumnGraph.ChildrenNodeIndexes | domain/model/column_graph.go:141-152 | an error and no indexes iff i is not a row; otherwise exactly i's children, strictly ascending |
| PrevColumnGraph.FlatIndex | domain/model/column_graph.go:46-56 | column c of table t becomes node `Offset(t) + c` |
| PrevColumnGraph.IndexColumns | domain/model/column_graph.go:44-57 | one undone node per column in schema order, and a bijective key map |
| PrevColumnGraph.LinkConstraints | domain/model/column_graph.go:62-68 | row i gets a 1 exactly at the columns its constraints name; the other rows are unchanged |
| PrevColumnGraph.GenerateColumnGraph | domain/model/column_graph.go:43-78 | one undone node per column, and `[a][b] == 1` iff a constraint of column a names column b |
| PrevColumnGraph.SingleParentCopies | domain/model/column.go:172-182 | a column with a single parent gets an exact copy of its parent's values |
| PrevColumnGraph.MarkResolved | domain/model/column.go:153-183 | storing a node's values and marking it done keeps the resolution invariant |
| PrevColumnGraph.DeriveValues | domain/model/column.go:172-181 | row by row, the parents' values concatenated in ascending parent order |
| PrevColumnGraph.GenerateValuesForColumnsByRecursion | domain/model/column.go:146-201 | node i ends done and the resolution invariant holds |
| PrevColumnGraph.GenerateValuesForColumns | domain/model/column.go:135-143 | on an acyclic graph: every node ends done, and every column has n values generated or derived as its constraints demand |
| PrevTable.Table.AddColumns | domain/model/table.go:19-21 | the column is appended; name and earlier columns unchanged |
| PrevTable.NewTable | domain/model/table.go:12-17 | the given name and columns |
| PrevTable.Table.RandomRow | domain/model/table.go:29-33 | one quoted random literal per column, in column order |
| PrevTable.Table.GenerateQuery | domain/model/table.go:24-42 | `INSERT INTO <t> VALUES` and numOfData parenthesised rows of random literals, joined by commas, then `;` |
| PrevTable.InsertAllEmpty | domain/model/table.go:39 | with no rows the statement is `INSERT INTO <t> VALUES ;` |
| PrevTable.AgreesWithInsertStatement | domain/model/table.go:24-42 | for one row or more, none of them empty, the statement is the newest revision's; each empty row makes it one character longer (`()` against `)`), so with an empty row or with no rows they differ |
| PrevTable.TuplesLengthGap | domain/model/table.go:31-37 | the joined tuples are longer than the newest revision's by one character per empty row |
| PrevTable.EmptyRowRendering | domain/model/table.go:31-37 | a single empty row renders as `()` here and as `)` in the newest revision |
| FileDriver.StrToColumnType | driver/file_driver/file_driver.go:109-143 | an error result carries the zero type; a success carries a known base |
| FileDriver.StrToColumnTypeOfWord | driver/file_driver/file_driver.go:109-143 | a single known word, in any case, parses to its lower-cased base, with parameter 100 for text, varbinary and mediumblob and 0 otherwise |
| FileDriver.StrToColumnTypeWithParam | driver/file_driver/file_driver.go:120-137 | `word(p)` parses to the base with parameter p, or 100 for the fixed-size bases |
| FileDriver.StrToColumnTypeUnknown | driver/file_driver/file_driver.go:115-118 | an unknown first word gives the zero type and the "unregistered type" error |
| FileDriver.StrToColumnTypeBadParam | driver/file_driver/file_driver.go:120-126 | a parameter that is not a number gives the zero type and an error |
| FileDriver.ParsersAgree | driver/file_driver/file_driver.go:109-143 | on a non-integer family word, the file driver's parser and the newest `NewColumnType` agree |
| FileDriver.BasesAgree | domain/model/column.go:31-54 | the previous and newest base parsers accept the same non-integer names, with the same result |
| FileDriver.TrimSqlQuery | driver/file_driver/file_driver.go:145-148 | no longer than the input, and neither end is a parenthesis or backquote |
| FileDriver.TrimSqlQueryKeepsInterior | driver/file_driver/file_driver.go:145-148 | the result is the input minus a prefix and a suffix made only of trimmed characters |
| FileDriver.TrimSqlQueryIdempotent | driver/file_driver/file_driver.go:145-148 | trimming twice is trimming once |
| FileDriver.TrimSqlQueryUnquotes | driver/file_driver/file_driver.go:145-148 | a back-quoted name that neither starts nor ends with a parenthesis or backquote loses exactly its two quotes |
| FileDriver.TrimSqlQueryExample | driver/file_driver/file_driver.go:145-148 | the single example: "`customer`" trims to "customer" |
| SortService.SumOfIntList | domain/service/sort.go:46-52 | the sum of the list |
| SortService.SumOfFlags | domain/service/sort.go:24 | over 0/1 flags the sum lies in [0, n] and equals n iff every flag is set |
| SortService.NewAdjacencyMatrix | domain/service/sort.go:57-65 | a fresh n×n matrix of zeros |
| SortService.ZeroizeColumn | domain/service/sort.go:85-90 | row i becomes zero; every other entry is unchanged |
| SortService.GenerateAdjacencyMatrix | domain/service/sort.go:67-83 | a fresh square matrix with a 1 exactly where a constrained column's key and its target's key are both indexed |
| SortService.LinkTable | domain/service/sort.go:72-80 | the entries of one table's constrained columns are set; nothing else changes |
| SortService.ConstrainedColumnIsEdge | domain/service/sort.go:73-76 | each constrained, indexed column and its indexed target give an edge |
| SortService.IsRoot | domain/service/sort.go:27-32 | true iff no column references column j |
| SortService.Visit | domain/service/sort.go:26-38 | an undone, unreferenced column is listed, flagged, and its references cleared; the sort invariant is kept |
| SortService.Sweep | domain/service/sort.go:25-40 | one pass over the flags keeps the sort invariant and lists at least one more column on an acyclic matrix |
| SortService.GenerateSortedColumnList | domain/service/sort.go:15-44 | on an acyclic matrix: a permutation of the columns where every referencing column comes before the column it references; the matrix ends all zero |
| SortService.OrderGivesRank | domain/service/sort.go:15-44 | a topological order exists only for an acyclic matrix: it yields a rank that decreases along every reference |
| SortService.MaxRankUndone | domain/service/sort.go:24-41 | while some column is undone, there is an undone column of maximal rank, and on an acyclic matrix whose done rows are cleared, no row references it: each sweep can take it |
| DataGenerator.ReverseSlice | domain/service/data_generator.go:43-49 | the list reversed |
| DataGenerator.ReversedAt | domain/service/data_generator.go:43-49 | the same length, with entry i moved to position `len-1-i` |
| DataGenerator.ReversedTwice | domain/service/data_generator.go:43-49 | reversing twice gives the list back |
| DataGenerator.ReversedSameEntries | domain/service/data_generator.go:43-49 | a reversal holds the same entries |
| DataGenerator.LastRef | domain/service/data_generator.go:21-28 | -1 for an all-zero row; otherwise the last nonzero position, with only zeros after it |
| DataGenerator.LastConstraint | domain/service/data_generator.go:21-28 | a constraint is found iff the row has a nonzero entry, and the index found is the last one |
| DataGenerator.ColumnValues | domain/service/data_generator.go:29-38 | n values for an unconstrained column; the target's stored values otherwise ([] when absent) |
| DataGenerator.ReversedOrdered | domain/service/data_generator.go:19 | in the reversed topological order, each referenced column comes before the columns referencing it |
| DataGenerator.FilledStep | domain/service/data_generator.go:20-38 | storing one more column's values keeps every visited column filled |
| DataGenerator.GenerateColumnData | domain/service/data_generator.go:10-41 | the keys are the names of the listed columns; given a topological order and distinct names, every unconstrained column has n values and every constrained one has its last target's values |
| DataGenerator.TableRows | domain/service/data_generator.go:55-63 | row i of a table holds the i-th value of each of its columns, in column order |
| DataGenerator.QuotedRecords | domain/service/data_generator.go:55-63 | the records of one table, each value single-quoted |
| DataGenerator.TableQuery | domain/service/data_generator.go:53-71 | one table's statement built from its rows |
| DataGenerator.GenerateQuery | domain/service/data_generator.go:51-74 | one statement per table, in schema order, each the `INSERT` of its n rows |

## Left out

- File reading and the regular expressions of `GetSchema`, `NewFileDriver`, the command line and the use case: only the file driver's `strToColumnType` and `trimSqlQuery` are in the core. Schemas are given as values.
- `generateRandomDate` depends on the clock and the time library: a date column's value is an arbitrary string.
- The distribution of the random generators: the contracts state what any output satisfies, not how likely it is.
- `strings.ToLower` is modelled on ASCII only; Unicode case folding is not modelled.
- Queries.GenerateQuery: Go's map iteration order is unspecified, so the order of the statements is an existentially chosen enumeration of the keys, returned as a ghost value.
- Go pointers and aliasing: setters on columns and tables return new values. `LastTable` returns the table, not a pointer into the schema.
- DService.GenerateValuesForColumns: the Go recursion does not terminate on a cyclic foreign-key graph. The model therefore requires a ghost rank that decreases along every edge. The same holds for PrevColumnGraph.GenerateValuesForColumns and SortService.GenerateSortedColumnList, whose outer loop would run forever.
- DService.GenerateValuesForColumns and PrevColumnGraph.GenerateValuesForColumns require unique full names and every node undone. Both hold for a graph fresh from `GenerateSchemaGraph` (or `GenerateColumnGraph`) when each column's full name is its `table.column` key, which is how the schema builder names columns. No lemma links the two: a column's `FullName` is stored as given.
- DService.GenerateSchemaGraph: distinct keys are required. With duplicate `table.column` keys the Go map keeps the last index, and that case is not modelled. The same holds for PrevColumnGraph.GenerateColumnGraph.
- The previous revision's one-argument `generateRandomInt` is not part of this model: an `int` column's random value in that revision is an arbitrary string.
- The previous revision's `generateRandomString`, `generateRandomTinyint` and `generateRandomJson` are taken to behave as the newest revision's.
- The oldest revision's schema helpers are not part of this model: `GetMapFromColumnToIndex`, `GetMapFromIndexToColumnName`, `GetMapFromIndexToColumn`, `HasConstraint` and the column generator.
  - The maps become parameters.
  - `HasConstraint` becomes a flag on the column.
  - The generated values are arbitrary strings of the right count (`DataGenerator.RandomValues`).
- SortService.GenerateSortedColumnList: the unused schema parameter is dropped.
- DataGenerator.GenerateColumnData: the order and uniqueness properties are stated under their hypotheses (a topological order, distinct names) so that the operation stays total, as in Go.
- Inputs on which the Go code panics are excluded by preconditions, and the panics are not modelled:
  - ModelTypes.NewColumnType and FileDriver.StrToColumnType require a type string with at least one field. Go indexes `l[0]` unchecked, so a string made only of `(`, `)` and `,` panics.
  - SchemaModel.Column.GenerateRandomData, SchemaModel.Column.GenerateData and their PrevColumn counterparts require a non-negative size for string bases (`RandomDataDefined`). `make([]rune, n)` panics on a negative size, and `varchar(-1)` parses to -1.
  - Random.GenerateRandomInt requires a positive range width for a signed column. `rand.Intn` panics otherwise, and signed `bigint` is such a case.
  - SchemaModel.NewColumn and PrevColumn.NewColumn require a `.` in the full name, because `Split(...)[1]` panics without one.
  - SchemaModel.Schema.LastTable requires a non-empty schema.
  - The graph queries of Graph.SchemaGraph and PrevColumnGraph.ColumnGraph require the matrix to be square with one node per row (`Valid`). This excludes out-of-range node indexes.
  - DService.GenerateRecordsForTables and DataGenerator.GenerateQuery require every column to have n values, since Go indexes `[i]` on each column's values.
  - SortService.GenerateSortedColumnList requires a square matrix, and SortService.ZeroizeColumn requires a row index within it.
- Counts are `nat`: a negative row count makes the Go loops do nothing. That case is not modelled.
- Methods such as StoreAndCascade, CascadeToChildren, Visit, Sweep, LinkTable and ColumnValues are inner loops or branches of the Go functions, factored out. They add no behaviour.
