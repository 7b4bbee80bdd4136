/** A read-only table over the rows of a query result (querymodel.cpp). Each row
    is a map from column name to value; the column names are the keys of the
    first row, in the key order of Qt's ordered map. */
module QueryModel {
  import opened Wrappers
  import QStrings

  /** A cell value (`QVariant`); `Null` is the empty variant. */
  datatype Variant = Null | Text(text: string) | Int(value: int)

  /** One result row (`QMap<QString, QVariant>`). */
  type Row = map<string, Variant>

  /** The table's state: the rows and the column names taken from them. */
  datatype Table = Table(rows: seq<Row>, columnNames: seq<string>)

  /** A model index: invalid, or a row and column that are not negative. */
  datatype ModelIndex = InvalidIndex | Index(row: nat, column: nat)

  datatype Orientation = Horizontal | Vertical

  /** `Qt::DisplayRole`. */
  const DisplayRole: int := 0

  /** The column names match the first row: none when there are no rows, and
      otherwise each key of the first row exactly once, in ascending key order. */
  ghost predicate ColumnsOfFirstRow(t: Table)
  {
    if |t.rows| == 0 then t.columnNames == []
    else
      && QStrings.StrictlyAscending(t.columnNames)
      && forall k :: k in t.columnNames <==> k in t.rows[0]
  }

  /** The smallest key of a non-empty set, found by one pass over it. */
  method LeastKey(keys: set<string>) returns (least: string)
    requires keys != {}
    ensures least in keys
    ensures forall k :: k in keys && k != least ==> QStrings.Less(least, k)
  {
    least :| least in keys;
    var rest := keys - {least};
    while rest != {}
      invariant rest <= keys && least in keys && least !in rest
      invariant forall k :: k in keys && k !in rest && k != least ==> QStrings.Less(least, k)
      decreases |rest|
    {
      var k :| k in rest;
      if QStrings.Less(k, least) {
        forall z | z in keys && z !in rest && z != least
          ensures QStrings.Less(k, z)
        {
          QStrings.LessTransitive(k, least, z);
        }
        least := k;
      } else if k != least {
        QStrings.LessTotal(k, least);
      }
      rest := rest - {k};
    }
  }

  /** `QMap::keys`: every key once, in ascending order. */
  method SortedKeys(row: Row) returns (keys: seq<string>)
    ensures QStrings.StrictlyAscending(keys)
    ensures forall k :: k in keys <==> k in row
    ensures |keys| == |row|
  {
    keys := [];
    var remaining := row.Keys;
    while remaining != {}
      invariant remaining <= row.Keys
      invariant forall k :: k in keys <==> k in row && k !in remaining
      invariant QStrings.StrictlyAscending(keys)
      invariant forall i, k :: 0 <= i < |keys| && k in remaining ==> QStrings.Less(keys[i], k)
      decreases |remaining|
    {
      var least := LeastKey(remaining);
      keys := keys + [least];
      remaining := remaining - {least};
    }
    QStrings.AscendingCardinality(keys, row.Keys);
  }

  /** `setData`: takes the rows as given and derives the column names from the
      first row alone; whatever the table held before is dropped. */
  method SetData(data: seq<Row>) returns (t: Table)
    ensures t.rows == data
    ensures ColumnsOfFirstRow(t)
    ensures RowCount(t) == |data|
    ensures ColumnCount(t) == if |data| == 0 then 0 else |data[0]|
  {
    var names: seq<string> := [];
    if |data| > 0 {
      names := SortedKeys(data[0]);
    }
    t := Table(data, names);
  }

  /** `rowCount`: every row set is counted. A table with no rows has no
      columns either. */
  function RowCount(t: Table): (n: nat)
    ensures n == |t.rows|
    ensures ColumnsOfFirstRow(t) && n == 0 ==> |t.columnNames| == 0
  {
    |t.rows|
  }

  /** `columnCount`: one column per key of the first row, so no key is counted
      twice and none is missed. */
  function ColumnCount(t: Table): (n: nat)
    ensures ColumnsOfFirstRow(t) ==> n == if |t.rows| == 0 then 0 else |t.rows[0]|
  {
    FirstRowCardinality(t);
    |t.columnNames|
  }

  /** Column names that match a first row are as many as its keys. */
  lemma FirstRowCardinality(t: Table)
    ensures ColumnsOfFirstRow(t) && |t.rows| > 0 ==> |t.columnNames| == |t.rows[0]|
  {
    if ColumnsOfFirstRow(t) && |t.rows| > 0 {
      QStrings.AscendingCardinality(t.columnNames, t.rows[0].Keys);
    }
  }

  /** `data`. An invalid index or a role other than display gives the empty
      variant; otherwise the row's value under the column's name, or the empty
      variant when that row has no such key. The index must lie inside the
      table, as for every index a view obtains from the model. */
  function Data(t: Table, index: ModelIndex, role: int): (v: Variant)
    requires index.Index? ==> index.row < RowCount(t) && index.column < ColumnCount(t)
    ensures index.InvalidIndex? || role != DisplayRole ==> v == Null
    ensures index.Index? && role == DisplayRole ==>
              var row := t.rows[index.row];
              var name := t.columnNames[index.column];
              (name in row ==> v == row[name]) && (name !in row ==> v == Null)
  {
    if index.InvalidIndex? || role != DisplayRole then Null
    else
      var row := t.rows[index.row];
      var name := t.columnNames[index.column];
      if name in row then row[name] else Null
  }

  /** `headerData`, with the horizontal branch taken only for a section that is
      a column position. Horizontally it names the column; vertically it
      numbers rows from 1; any other role gives the empty variant. */
  function HeaderData(t: Table, section: int, orientation: Orientation, role: int): (v: Variant)
    ensures role != DisplayRole ==> v == Null
    ensures role == DisplayRole && orientation == Horizontal ==>
              if 0 <= section < ColumnCount(t) then v == Text(t.columnNames[section]) else v == Null
    ensures role == DisplayRole && orientation == Vertical ==> v == Int(section + 1)
  {
    if role != DisplayRole then Null
    else if orientation == Horizontal && 0 <= section < |t.columnNames| then Text(t.columnNames[section])
    else if orientation == Vertical then Int(section + 1)
    else Null
  }

  /** `headerData` as written: the horizontal branch checks only
      `section < columnCount`, so a negative section reaches the list lookup,
      which is out of range. `None` marks that out-of-range lookup. */
  function HeaderDataAsWritten(t: Table, section: int, orientation: Orientation, role: int): (r: Option<Variant>)
    ensures r.None? <==> role == DisplayRole && orientation == Horizontal && section < 0
    ensures role != DisplayRole ==> r == Some(Null)
    ensures role == DisplayRole && orientation == Horizontal && 0 <= section < ColumnCount(t) ==>
              r == Some(Text(t.columnNames[section]))
    ensures role == DisplayRole && orientation == Vertical ==> r == Some(Int(section + 1))
  {
    if role != DisplayRole then Some(Null)
    else if orientation == Horizontal && section < |t.columnNames| then
      if 0 <= section then Some(Text(t.columnNames[section])) else None
    else if orientation == Vertical then Some(Int(section + 1))
    else Some(Null)
  }

  /** Section -1 of a horizontal header passes the guard as written and is
      looked up out of range, for every table. */
  lemma NegativeSectionLooksUpOutOfRange(t: Table)
    ensures HeaderDataAsWritten(t, -1, Horizontal, DisplayRole) == None
  {
  }

  /** Wherever the lookup as written stays in range, it agrees with `HeaderData`;
      the two differ only on negative horizontal sections. */
  lemma HeaderDataAgreesWhereDefined(t: Table, section: int, orientation: Orientation, role: int)
    ensures HeaderDataAsWritten(t, section, orientation, role).Some? ==>
              HeaderDataAsWritten(t, section, orientation, role).value == HeaderData(t, section, orientation, role)
    ensures HeaderDataAsWritten(t, section, orientation, role).None? <==>
              role == DisplayRole && orientation == Horizontal && section < 0
  {
  }

  /** The first row has a value in every column: its cells are never empty
      for lack of a key. */
  lemma FirstRowFillsEveryColumn(t: Table, column: nat)
    requires ColumnsOfFirstRow(t)
    requires RowCount(t) > 0 && column < ColumnCount(t)
    ensures t.columnNames[column] in t.rows[0]
    ensures Data(t, Index(0, column), DisplayRole) == t.rows[0][t.columnNames[column]]
  {
    assert t.columnNames[column] in t.columnNames;
  }

  /** Every key of the first row is the name of exactly one column, and the
      horizontal header of that column shows it. */
  lemma EveryFirstRowKeyHasOneColumn(t: Table, key: string)
    requires ColumnsOfFirstRow(t)
    requires RowCount(t) > 0 && key in t.rows[0]
    ensures exists j :: 0 <= j < ColumnCount(t) && t.columnNames[j] == key
                     && HeaderData(t, j, Horizontal, DisplayRole) == Text(key)
    ensures forall i, j :: 0 <= i < j < ColumnCount(t) ==> t.columnNames[i] != t.columnNames[j]
  {
    assert key in t.columnNames;
    var j :| 0 <= j < |t.columnNames| && t.columnNames[j] == key;
    assert HeaderData(t, j, Horizontal, DisplayRole) == Text(key);
    forall i, j | 0 <= i < j < ColumnCount(t) ensures t.columnNames[i] != t.columnNames[j] {
      assert QStrings.Less(t.columnNames[i], t.columnNames[j]);
      QStrings.LessIrreflexive(t.columnNames[i]);
    }
  }

  /** A key the first row lacks never becomes a column, so a later row's value
      under that key is never shown. */
  lemma KeyMissingFromFirstRowNotShown(t: Table, key: string, index: ModelIndex)
    requires ColumnsOfFirstRow(t)
    requires RowCount(t) > 0 && key !in t.rows[0]
    requires index.Index? && index.row < RowCount(t) && index.column < ColumnCount(t)
    ensures t.columnNames[index.column] != key
  {
    assert t.columnNames[index.column] in t.columnNames;
  }
}
