/** The row filter of the weather table's proxy (weatherproxymodel.cpp): a row
    passes when the filter text is empty, when no column is chosen, or when the
    chosen column's text contains the filter text, ignoring case. The source
    model behind the proxy is an input: a row is the list of its cells' texts. */
module WeatherProxyModel {
  import QStrings

  /** The proxy's filter settings. */
  datatype Proxy = Proxy(filterText: string, filterColumnIndex: int)

  /** A fresh proxy: no filter text, and column -1, which means no column. */
  function NewProxy(): (p: Proxy)
    ensures p.filterText == [] && p.filterColumnIndex == -1
  {
    Proxy([], -1)
  }

  /** `setFilterString`: replaces the filter text, keeps the column. */
  function SetFilterString(p: Proxy, text: string): (q: Proxy)
    ensures q.filterText == text
    ensures q.filterColumnIndex == p.filterColumnIndex
  {
    p.(filterText := text)
  }

  /** `setFilterColumn`: replaces the column, keeps the filter text. */
  function SetFilterColumn(p: Proxy, column: int): (q: Proxy)
    ensures q.filterColumnIndex == column
    ensures q.filterText == p.filterText
  {
    p.(filterColumnIndex := column)
  }

  /** The text the source model shows in `column` of a row; a column the row
      does not have is an invalid index, whose data converts to empty text. */
  function CellText(row: seq<string>, column: int): string
  {
    if 0 <= column < |row| then row[column] else []
  }

  /** `filterAcceptsRow`. */
  function FilterAcceptsRow(p: Proxy, row: seq<string>): (accepted: bool)
    ensures p.filterText == [] ==> accepted
    ensures p.filterColumnIndex < 0 ==> accepted
    ensures p.filterText != [] && p.filterColumnIndex >= 0 ==>
              (accepted <==> exists i :: QStrings.MatchAt(CellText(row, p.filterColumnIndex), p.filterText, i))
  {
    if p.filterText == [] then true
    else if p.filterColumnIndex < 0 then true
    else QStrings.ContainsIgnoringCase(CellText(row, p.filterColumnIndex), p.filterText)
  }

  /** A freshly built proxy lets every row through, whatever column is chosen
      later as long as no text is set, and whatever text is set as long as no
      column is chosen. */
  lemma FreshProxyAcceptsAll(row: seq<string>, text: string, column: int)
    ensures FilterAcceptsRow(NewProxy(), row)
    ensures FilterAcceptsRow(SetFilterString(NewProxy(), text), row)
    ensures FilterAcceptsRow(SetFilterColumn(NewProxy(), column), row)
  {
  }

  /** The case of the letters in the filter text does not matter. */
  lemma FilterTextCaseIrrelevant(p: Proxy, row: seq<string>)
    ensures FilterAcceptsRow(SetFilterString(p, QStrings.FoldString(p.filterText)), row)
         == FilterAcceptsRow(p, row)
  {
    QStrings.FoldedNeedleFoundAlike(CellText(row, p.filterColumnIndex), p.filterText);
  }

  /** The case of the letters in the row's cells does not matter either. */
  lemma CellCaseIrrelevant(p: Proxy, row: seq<string>)
    ensures FilterAcceptsRow(p, seq(|row|, i requires 0 <= i < |row| => QStrings.FoldString(row[i])))
         == FilterAcceptsRow(p, row)
  {
    var folded := seq(|row|, i requires 0 <= i < |row| => QStrings.FoldString(row[i]));
    var column := p.filterColumnIndex;
    if 0 <= column < |row| {
      assert CellText(folded, column) == QStrings.FoldString(CellText(row, column));
      QStrings.FoldedHayFoundAlike(CellText(row, column), p.filterText);
    }
  }

  /** With a filter text set, a column past the end of the row holds no text,
      so the row is rejected. */
  lemma MissingColumnRejects(p: Proxy, row: seq<string>)
    requires p.filterText != []
    requires p.filterColumnIndex >= |row|
    ensures !FilterAcceptsRow(p, row)
  {
  }

  /** The filter text itself, in any case, is found in a cell equal to it. */
  lemma CellEqualToTextAccepted(p: Proxy, row: seq<string>)
    requires 0 <= p.filterColumnIndex < |row|
    requires QStrings.EqualIgnoringCase(row[p.filterColumnIndex], p.filterText)
    ensures FilterAcceptsRow(p, row)
  {
    var cell := row[p.filterColumnIndex];
    assert cell[0..|p.filterText|] == cell;
    assert QStrings.MatchAt(cell, p.filterText, 0);
  }
}
