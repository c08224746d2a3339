/**
 * The entities the oldest revision's services use (domain/service/sort.go,
 * domain/service/data_generator.go), as far as those files show them: a
 * table with columns, a column with a name and at most one foreign-key
 * constraint. That revision's model files are not part of this model, so
 * `HasConstraint` is a flag here and the random literal generator of a
 * column is an arbitrary choice.
 */
module OldModel {
  /** The referenced table and column of a constraint. */
  datatype Constraint = Constraint(TableName: string, ColumnName: string)

  datatype Column = Column(Name: string, HasConstraint: bool, Constraint: Constraint)

  datatype Table = Table(Name: string, Columns: seq<Column>)

  /** The `table.column` key the services use to look up a column. */
  function Key(tableName: string, columnName: string): string
  {
    tableName + "." + columnName
  }

  /** The key a constraint names. */
  function TargetKey(c: Constraint): string
  {
    Key(c.TableName, c.ColumnName)
  }
}
