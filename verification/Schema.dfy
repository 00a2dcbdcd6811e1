/** The database schema model of pkg/schema/schema.go. */
module Schema {
  datatype Table = Table(
    schema: string,
    name: string,
    columns: seq<Column>,
    primaryKey: seq<string>,
    foreignKeys: seq<ForeignKey>,
    checks: seq<CheckConstraint>,
    indexes: seq<Index>)

  datatype Column = Column(name: string, dataType: string, isNullable: bool, defaultValue: string)

  datatype ForeignKey = ForeignKey(columns: seq<string>, referencedTable: string, referencedCols: seq<string>)

  datatype CheckConstraint = CheckConstraint(name: string, expression: string)

  datatype Index = Index(name: string, columns: seq<string>, isUnique: bool)

  /** The names of the tables in a list. */
  function Names(tables: seq<Table>): set<string> {
    set t | t in tables :: t.name
  }

  function NamesOf(columns: seq<Column>): set<string> {
    set c | c in columns :: c.name
  }

  function ColumnNames(table: Table): set<string> {
    NamesOf(table.columns)
  }

  predicate DistinctColumns(table: Table) {
    forall i, j | 0 <= i < j < |table.columns| :: table.columns[i].name != table.columns[j].name
  }

  /** No two tables of the list share a name. */
  predicate DistinctNames(tables: seq<Table>) {
    forall i, j | 0 <= i < j < |tables| :: tables[i].name != tables[j].name
  }
}
