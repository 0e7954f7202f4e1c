/**
 * The list item and the comparers of Chummer/Backend/Datastructures/ListItem.cs. Culture-aware
 * string comparison, date and decimal parsing, `FastEscape` and the trimming helpers are calls into
 * code outside this model, so each is a function parameter; object references are identities.
 */
module ListItems {
  import opened Common

  /** An object reference: null, or an object identity. */
  datatype ObjRef = Null | Ref(id: nat)

  datatype Error = NullReference | ArgumentOutOfRange

  type Outcome<R> = Result<R, Error>

  /** `ListItem`: a value and a display name. */
  datatype ListItem = ListItem(value: ObjRef, name: string)

  /** `Equals(ListItem)`: equal names and the same value object (reference equality on `object`). */
  function ItemEquals(x: ListItem, y: ListItem): (r: bool)
    ensures r <==> x == y
  {
    x.name == y.name && x.value == y.value
  }

  /** `==` on two list items. */
  function OpEquals(x: ListItem, y: ListItem): (r: bool)
    ensures r <==> x == y
  {
    ItemEquals(x, y)
  }

  /** `!=` on two list items. */
  function OpNotEquals(x: ListItem, y: ListItem): (r: bool)
    ensures r <==> x != y
  {
    !ItemEquals(x, y)
  }

  /**
   * Item equality holds exactly when both fields are equal, so it is reflexive, symmetric and
   * transitive; `==` is that equality and `!=` its negation.
   */
  lemma ItemEqualsIsIdentity(x: ListItem, y: ListItem, z: ListItem)
    ensures ItemEquals(x, y) <==> x == y
    ensures OpEquals(x, y) <==> x.name == y.name && x.value == y.value
    ensures OpNotEquals(x, y) <==> !OpEquals(x, y)
    ensures ItemEquals(x, x)
    ensures ItemEquals(x, y) ==> ItemEquals(y, x)
    ensures ItemEquals(x, y) && ItemEquals(y, z) ==> ItemEquals(x, z)
    ensures OpNotEquals(x, y) <==> x != y
  {
  }

  /** `Equals(object)`: the value's own `Equals` on the argument; a null value throws. */
  function EqualsObject(x: ListItem, obj: ObjRef, valueEquals: (nat, ObjRef) -> bool): (r: Outcome<bool>)
    ensures r.Err? <==> x.value.Null?
    ensures r.Err? ==> r.error == NullReference
    ensures r.Ok? ==> r.value == valueEquals(x.value.id, obj)
  {
    if x.value.Null? then Err(NullReference) else Ok(valueEquals(x.value.id, obj))
  }

  /** `GetHashCode()`: the value's hash code; a null value throws. */
  function HashCode(x: ListItem, hash: nat -> Int32): (r: Outcome<Int32>)
    ensures r.Err? <==> x.value.Null?
    ensures r.Err? ==> r.error == NullReference
    ensures r.Ok? ==> r.value == hash(x.value.id)
  {
    if x.value.Null? then Err(NullReference) else Ok(hash(x.value.id))
  }

  /**
   * `Equals(object)` and `GetHashCode()` read only the value: items with the same value agree on
   * both whatever their names, and items equal under `Equals(ListItem)` have the same hash code.
   */
  lemma ObjectEqualityReadsOnlyValue(x: ListItem, y: ListItem, obj: ObjRef,
                                     valueEquals: (nat, ObjRef) -> bool, hash: nat -> Int32)
    ensures x.value == y.value ==> EqualsObject(x, obj, valueEquals) == EqualsObject(y, obj, valueEquals)
    ensures x.value == y.value ==> HashCode(x, hash) == HashCode(y, hash)
    ensures ItemEquals(x, y) ==> HashCode(x, hash) == HashCode(y, hash)
    ensures x.value.Null? ==> EqualsObject(x, obj, valueEquals) == Err(NullReference) && HashCode(x, hash) == Err(NullReference)
  {
  }

  // ---------------------------------------------------------------------------------------------
  // Static comparers

  /**
   * `CompareTreeNodes.CompareText(tx, ty)` on the nodes' texts: null sorts first, two nulls are
   * equal, and two texts compare as the culture comparison of their `[`/`]`-stripped forms.
   */
  function CompareText(tx: Option<string>, ty: Option<string>, escape: string -> string,
                       compare: (string, string) -> Int32): (r: Int32)
    ensures tx.None? && ty.None? ==> r == 0
    ensures tx.None? && ty.Some? ==> r == -1
    ensures tx.Some? && ty.None? ==> r == 1
    ensures tx.Some? && ty.Some? ==> r == compare(escape(tx.value), escape(ty.value))
  {
    if tx.None? then (if ty.None? then 0 else -1)
    else if ty.None? then 1
    else compare(escape(tx.value), escape(ty.value))
  }

  /** When the culture comparison is antisymmetric, so is `CompareText`. */
  lemma CompareTextAntisymmetric(tx: Option<string>, ty: Option<string>, escape: string -> string,
                                 compare: (string, string) -> Int32)
    requires forall a, b :: compare(a, b) as int == -(compare(b, a) as int)
    ensures CompareText(tx, ty, escape, compare) as int == -(CompareText(ty, tx, escape, compare) as int)
  {
  }

  /** `DateTime.Compare` on tick counts: the three-way order of `CompareDecimals`, on integers. */
  function CompareTicks(a: int, b: int): (r: Int32)
    ensures r == 0 <==> a == b
    ensures r < 0 <==> a < b
    ensures -1 <= r <= 1
  {
    CompareDecimals(a as real, b as real)
  }

  /**
   * `CompareListViewItems.CompareTextAsDates(lx, ly)`: reverse chronological order. A null or
   * unparseable item sorts first; two such are equal.
   */
  function CompareTextAsDates(lx: Option<string>, ly: Option<string>, parseDate: string -> Option<int>): (r: Int32)
    ensures var dx := if lx.Some? then parseDate(lx.value) else None;
            var dy := if ly.Some? then parseDate(ly.value) else None;
            (dx.None? && dy.None? ==> r == 0)
            && (dx.None? && dy.Some? ==> r == -1)
            && (dx.Some? && dy.None? ==> r == 1)
            && (dx.Some? && dy.Some? ==> r == CompareTicks(dy.value, dx.value))
  {
    var dx := if lx.Some? then parseDate(lx.value) else None;
    if dx.None? then
      var dy := if ly.Some? then parseDate(ly.value) else None;
      if dy.None? then 0 else -1
    else
      var dy := if ly.Some? then parseDate(ly.value) else None;
      if dy.None? then 1 else CompareTicks(dy.value, dx.value)
  }

  /** `CompareTextAsDates` is antisymmetric, and between two parsed dates the later one sorts first. */
  lemma CompareTextAsDatesAntisymmetric(lx: Option<string>, ly: Option<string>, parseDate: string -> Option<int>)
    ensures CompareTextAsDates(lx, ly, parseDate) as int == -(CompareTextAsDates(ly, lx, parseDate) as int)
    ensures lx.Some? && ly.Some? && parseDate(lx.value).Some? && parseDate(ly.value).Some?
            && parseDate(lx.value).value > parseDate(ly.value).value
            ==> CompareTextAsDates(lx, ly, parseDate) < 0
  {
  }

  // ---------------------------------------------------------------------------------------------
  // Column sorters

  /** `SortOrder`: `NoSort` is `SortOrder.None`. */
  datatype SortOrder = NoSort | Ascending | Descending

  /** `decimal.Compare`. */
  function CompareDecimals(a: real, b: real): (r: Int32)
    ensures r == 0 <==> a == b
    ensures r < 0 <==> a < b
    ensures -1 <= r <= 1
  {
    if a < b then -1 else if a == b then 0 else 1
  }

  /**
   * The sort order applied to a raw comparison: `None` gives 0 before anything is compared,
   * `Ascending` the raw result, any other order its (32-bit) negation.
   */
  function ApplyOrder(order: SortOrder, raw: Outcome<Int32>): (r: Outcome<Int32>)
    ensures order == NoSort ==> r == Ok(0)
    ensures order == Ascending ==> r == raw
    ensures order == Descending ==> (r.Ok? <==> raw.Ok?) && (r.Ok? ==> r.value == Negate32(raw.value))
    ensures order == Descending && raw.Err? ==> r == raw
  {
    if order == NoSort then Ok(0)
    else if order == Ascending then raw
    else if raw.Err? then raw
    else Ok(Negate32(raw.value))
  }

  /** Descending reverses ascending: negating twice gives back the raw result. */
  lemma DescendingReversesAscending(raw: Outcome<Int32>)
    ensures ApplyOrder(Descending, raw).Ok? ==> Negate32(ApplyOrder(Descending, raw).value) == ApplyOrder(Ascending, raw).value
    ensures raw.Ok? && raw.value != IntMinValue ==> ApplyOrder(Descending, raw) == Ok(-raw.value)
  {
  }

  /** `decimal.TryParse` of a possibly null string. */
  function ParseDecimal(s: Option<string>, parse: string -> Option<real>): (r: Option<real>)
    ensures s.None? ==> r.None?
  {
    if s.None? then None else parse(s.value)
  }

  /**
   * The raw comparison of `DataGridViewColumnSorter.Compare` on the two cell texts: two numbers
   * compare as decimals, a number sorts before a non-number, and two non-numbers compare as
   * case-insensitive strings.
   */
  function DataGridRaw(strX: Option<string>, strY: Option<string>, trimNumber: string -> string,
                       parse: string -> Option<real>, compareIgnoreCase: (Option<string>, Option<string>) -> Int32): (r: Int32)
    ensures var nx := ParseDecimal(if strX.Some? then Some(trimNumber(strX.value)) else None, parse);
            var ny := ParseDecimal(if strY.Some? then Some(trimNumber(strY.value)) else None, parse);
            (nx.Some? && ny.Some? ==> r == CompareDecimals(nx.value, ny.value))
            && (nx.Some? && ny.None? ==> r == -1)
            && (nx.None? && ny.Some? ==> r == 1)
            && (nx.None? && ny.None? ==> r == compareIgnoreCase(strX, strY))
  {
    var numberX := if strX.Some? then Some(trimNumber(strX.value)) else None;
    var numberY := if strY.Some? then Some(trimNumber(strY.value)) else None;
    var decX := ParseDecimal(numberX, parse);
    if decX.Some? then
      var decY := ParseDecimal(numberY, parse);
      if decY.Some? then CompareDecimals(decX.value, decY.value) else -1
    else if ParseDecimal(numberY, parse).Some? then 1
    else compareIgnoreCase(strX, strY)
  }

  /** When the string comparison is antisymmetric, so is the raw data-grid comparison. */
  lemma DataGridRawAntisymmetric(strX: Option<string>, strY: Option<string>, trimNumber: string -> string,
                                 parse: string -> Option<real>, compareIgnoreCase: (Option<string>, Option<string>) -> Int32)
    requires forall a, b :: compareIgnoreCase(a, b) as int == -(compareIgnoreCase(b, a) as int)
    ensures DataGridRaw(strX, strY, trimNumber, parse, compareIgnoreCase) as int
         == -(DataGridRaw(strY, strX, trimNumber, parse, compareIgnoreCase) as int)
  {
  }

  /** `row?.Cells[column].Value.ToString()`: a null row gives null; a column outside the cells throws. */
  function CellText(row: Option<seq<string>>, column: Int32): (r: Outcome<Option<string>>)
    ensures row.None? ==> r == Ok(None)
    ensures row.Some? && 0 <= column < |row.value| ==> r == Ok(Some(row.value[column]))
    ensures row.Some? && !(0 <= column < |row.value|) ==> r == Err(ArgumentOutOfRange)
  {
    if row.None? then Ok(None)
    else if 0 <= column < |row.value| then Ok(Some(row.value[column]))
    else Err(ArgumentOutOfRange)
  }

  /** Whether an object value `is IComparable`; null is not. */
  function IsComparable(v: ObjRef, comparable: nat -> bool): bool
  {
    v.Ref? && comparable(v.id)
  }

  /** A list-view item or sub-item: its text, and its value when it is one of the `…WithValue` kinds. */
  datatype Carried = Plain | WithValue(value: ObjRef)

  datatype SubItem = SubItem(text: string, carried: Carried)

  datatype ListViewItem = ListViewItem(text: string, carried: Carried, subItems: seq<SubItem>)

  /**
   * The value comparison both list-view branches try first: when both sides carry values and one
   * of them is comparable, the left one's `CompareTo` when it is comparable, else the negated
   * `CompareTo` of the right one.
   */
  function CompareValues(cx: Option<Carried>, cy: Option<Carried>, comparable: nat -> bool,
                         compareTo: (nat, ObjRef) -> Int32): (r: Option<Int32>)
    ensures r.Some? <==> cx.Some? && cy.Some? && cx.value.WithValue? && cy.value.WithValue?
                         && (IsComparable(cx.value.value, comparable) || IsComparable(cy.value.value, comparable))
    ensures r.Some? && IsComparable(cx.value.value, comparable) ==> r.value == compareTo(cx.value.value.id, cy.value.value)
    ensures r.Some? && !IsComparable(cx.value.value, comparable) ==> r.value == Negate32(compareTo(cy.value.value.id, cx.value.value))
  {
    if cx.Some? && cy.Some? && cx.value.WithValue? && cy.value.WithValue?
       && (IsComparable(cx.value.value, comparable) || IsComparable(cy.value.value, comparable)) then
      var vx := cx.value.value;
      var vy := cy.value.value;
      if IsComparable(vx, comparable) then Some(compareTo(vx.id, vy)) else Some(Negate32(compareTo(vy.id, vx)))
    else None
  }

  /** `item?.SubItems[column]`: a null item gives null; an index outside the sub-items throws. */
  function SubItemAt(item: Option<ListViewItem>, column: Int32): (r: Outcome<Option<SubItem>>)
    ensures item.None? ==> r == Ok(None)
    ensures item.Some? && 0 <= column < |item.value.subItems| ==> r == Ok(Some(item.value.subItems[column]))
    ensures item.Some? && !(0 <= column < |item.value.subItems|) ==> r == Err(ArgumentOutOfRange)
  {
    if item.None? then Ok(None)
    else if 0 <= column < |item.value.subItems| then Ok(Some(item.value.subItems[column]))
    else Err(ArgumentOutOfRange)
  }

  /** The foreign calls the list-view comparison makes. */
  datatype ListViewCalls = ListViewCalls(
    comparable: nat -> bool,
    compareTo: (nat, ObjRef) -> Int32,
    parseDate: string -> Option<int>,
    escapeNuyen: string -> string,
    parse: string -> Option<real>,
    compareIgnoreCase: (Option<string>, Option<string>) -> Int32)

  /**
   * The raw comparison of `ListViewColumnSorter.Compare`. Column 0 compares carried values, else
   * the item texts as dates. Any other column compares the sub-items' carried values, else their
   * nuyen-stripped texts: as decimals when both parse, otherwise as case-insensitive strings.
   */
  function ListViewRaw(x: Option<ListViewItem>, y: Option<ListViewItem>, column: Int32, calls: ListViewCalls): (r: Outcome<Int32>)
    ensures column == 0 ==> r.Ok?
    ensures column != 0 && x.Some? && !(0 <= column < |x.value.subItems|) ==> r == Err(ArgumentOutOfRange)
  {
    if column == 0 then
      var byValue := CompareValues(if x.Some? then Some(x.value.carried) else None,
                                   if y.Some? then Some(y.value.carried) else None,
                                   calls.comparable, calls.compareTo);
      if byValue.Some? then Ok(byValue.value)
      else Ok(CompareTextAsDates(if x.Some? then Some(x.value.text) else None,
                                 if y.Some? then Some(y.value.text) else None, calls.parseDate))
    else
      var sx := SubItemAt(x, column);
      if sx.Err? then Err(sx.error)
      else
        var sy := SubItemAt(y, column);
        if sy.Err? then Err(sy.error)
        else
          var byValue := CompareValues(if sx.value.Some? then Some(sx.value.value.carried) else None,
                                       if sy.value.Some? then Some(sy.value.value.carried) else None,
                                       calls.comparable, calls.compareTo);
          if byValue.Some? then Ok(byValue.value)
          else
            var strX := if sx.value.Some? then Some(calls.escapeNuyen(sx.value.value.text)) else None;
            var strY := if sy.value.Some? then Some(calls.escapeNuyen(sy.value.value.text)) else None;
            var decX := ParseDecimal(strX, calls.parse);
            var decY := ParseDecimal(strY, calls.parse);
            if decX.Some? && decY.Some? then Ok(CompareDecimals(decX.value, decY.value))
            else Ok(calls.compareIgnoreCase(strX, strY))
  }

  /** `ListViewColumnSorter`: the column and order a list view sorts by. */
  class ListViewColumnSorter {
    var sortColumn: Int32
    var order: SortOrder

    constructor ()
      ensures sortColumn == 0 && order == NoSort
    {
      sortColumn := 0;
      order := NoSort;
    }

    /** The `SortColumn` setter. */
    method SetSortColumn(column: Int32)
      modifies this
      ensures sortColumn == column && order == old(order)
    {
      sortColumn := column;
    }

    /** The `Order` setter. */
    method SetOrder(o: SortOrder)
      modifies this
      ensures order == o && sortColumn == old(sortColumn)
    {
      order := o;
    }

    /** `Compare(x, y)`: the raw comparison on the sort column, with the sort order applied. */
    function Compare(x: Option<ListViewItem>, y: Option<ListViewItem>, calls: ListViewCalls): (r: Outcome<Int32>)
      reads this
      ensures r == ApplyOrder(order, ListViewRaw(x, y, sortColumn, calls))
      ensures order == NoSort ==> r == Ok(0)
    {
      if order == NoSort then Ok(0)
      else
        var raw := ListViewRaw(x, y, sortColumn, calls);
        if order == Ascending then raw
        else if raw.Err? then raw
        else Ok(Negate32(raw.value))
    }
  }

  /** `DataGridViewColumnSorter`: the column and order a data grid sorts by. */
  class DataGridViewColumnSorter {
    var sortColumn: Int32
    var order: SortOrder

    constructor ()
      ensures sortColumn == 0 && order == NoSort
    {
      sortColumn := 0;
      order := NoSort;
    }

    /** The `SortColumn` setter. */
    method SetSortColumn(column: Int32)
      modifies this
      ensures sortColumn == column && order == old(order)
    {
      sortColumn := column;
    }

    /** The `Order` setter. */
    method SetOrder(o: SortOrder)
      modifies this
      ensures order == o && sortColumn == old(sortColumn)
    {
      order := o;
    }

    /**
     * `Compare(x, y)`: `None` gives 0 before any cell is read; otherwise the raw comparison of the
     * two rows' cell texts in the sort column, with the sort order applied.
     */
    function Compare(x: Option<seq<string>>, y: Option<seq<string>>, trimNumber: string -> string,
                     parse: string -> Option<real>, compareIgnoreCase: (Option<string>, Option<string>) -> Int32): (r: Outcome<Int32>)
      reads this
      ensures order == NoSort ==> r == Ok(0)
      ensures order != NoSort && (CellText(x, sortColumn).Err? || CellText(y, sortColumn).Err?) ==> r == Err(ArgumentOutOfRange)
      ensures order != NoSort && CellText(x, sortColumn).Ok? && CellText(y, sortColumn).Ok?
              ==> r == ApplyOrder(order, Ok(DataGridRaw(CellText(x, sortColumn).value, CellText(y, sortColumn).value,
                                                        trimNumber, parse, compareIgnoreCase)))
    {
      if order == NoSort then Ok(0)
      else
        var cx := CellText(x, sortColumn);
        if cx.Err? then Err(cx.error)
        else
          var cy := CellText(y, sortColumn);
          if cy.Err? then Err(cy.error)
          else
            var raw := DataGridRaw(cx.value, cy.value, trimNumber, parse, compareIgnoreCase);
            if order == Ascending then Ok(raw) else Ok(Negate32(raw))
    }
  }

  /**
   * With an antisymmetric string comparison, a data-grid sorter in either direction is
   * antisymmetric on rows it can read.
   */
  lemma DataGridSorterAntisymmetric(s: DataGridViewColumnSorter, x: Option<seq<string>>, y: Option<seq<string>>,
                                    trimNumber: string -> string, parse: string -> Option<real>,
                                    compareIgnoreCase: (Option<string>, Option<string>) -> Int32)
    requires forall a, b :: compareIgnoreCase(a, b) as int == -(compareIgnoreCase(b, a) as int)
    requires CellText(x, s.sortColumn).Ok? && CellText(y, s.sortColumn).Ok?
    ensures s.Compare(x, y, trimNumber, parse, compareIgnoreCase).Ok?
    ensures s.Compare(x, y, trimNumber, parse, compareIgnoreCase).value as int
         == -(s.Compare(y, x, trimNumber, parse, compareIgnoreCase).value as int)
  {
    var sx := CellText(x, s.sortColumn).value;
    var sy := CellText(y, s.sortColumn).value;
    DataGridRawAntisymmetric(sx, sy, trimNumber, parse, compareIgnoreCase);
    var raw := DataGridRaw(sx, sy, trimNumber, parse, compareIgnoreCase);
    assert raw != IntMinValue;
  }
}
