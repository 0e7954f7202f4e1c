/**
 * The column description of Chummer/Controls/Table/TableColumn.cs: a column that is configured
 * through guarded setters and then made live, after which only the preferred width may change.
 * Delegates (the cell factory, extractor, sorter, tooltip extractor) are opaque ids; a null one
 * is `None`.
 */
module TableColumns {
  import opened Common

  datatype Error = InvalidOperation | ArgumentOutOfRange | ArgumentNull | NullReference

  type Outcome<R> = Result<R, Error>

  /**
   * The cached item sorter `CreateSorter` builds. Both shapes are closures over the column, so a
   * call reads the column's current `Sorter` (and, for `Extracting`, its current `Extractor`).
   */
  datatype ItemSorter = Direct | Extracting

  /**
   * What a call of the cached item sorter runs with the column's current fields: the sorter, and
   * the extractor applied to both items when the shape is `Extracting`. A field that is null by
   * then makes the call throw.
   */
  function SorterCall(shape: ItemSorter, sorter: Option<nat>, extractor: Option<nat>): (r: Outcome<(nat, Option<nat>)>)
    ensures r.Ok? <==> sorter.Some? && (shape.Extracting? ==> extractor.Some?)
    ensures r.Ok? ==> r.value.0 == sorter.value
    ensures r.Ok? ==> r.value.1 == (if shape == Direct then None else extractor)
  {
    if sorter.None? then Err(NullReference)
    else if shape.Direct? then Ok((sorter.value, None))
    else if extractor.None? then Err(NullReference)
    else Ok((sorter.value, Some(extractor.value)))
  }

  class TableColumn {
    var cellFactory: Option<nat>
    var sorter: Option<nat>
    var live: bool
    var text: Option<string>
    var tag: Option<string>
    var minWidth: Int32
    var prefWidth: Int32
    var extractor: Option<nat>
    var itemSorter: Option<ItemSorter>
    var toolTipExtractor: Option<nat>
    /** `_setDependencies`, fetched from the string-set pool; null once handed back. */
    var dependencies: Option<set<string>>
    const pool: Pool

    /** The constructor proper, once the cell factory is known to be non-null. */
    constructor (cellFactory: nat, pool: Pool)
      modifies pool
      ensures this.cellFactory == Some(cellFactory) && this.pool == pool
      ensures sorter == None && !live && text == None && tag == None && minWidth == 0 && prefWidth == 0
      ensures extractor == None && itemSorter == None && toolTipExtractor == None && dependencies == Some({})
      ensures pool.gets == old(pool.gets) + 1 && pool.returned == old(pool.returned)
    {
      this.cellFactory := Some(cellFactory);
      sorter := None;
      live := false;
      text := None;
      tag := None;
      minWidth := 0;
      prefWidth := 0;
      extractor := None;
      itemSorter := None;
      toolTipExtractor := None;
      this.pool := pool;
      new;
      pool.Get();
      dependencies := Some({});
    }

    /** `CheckLive()`: the configuring-state guard every setter except `PrefWidth` runs first. */
    function CheckLive(): (r: Outcome<()>)
      reads this
      ensures r.Ok? <==> !live
      ensures r.Err? ==> r.error == InvalidOperation
    {
      if live then Err(InvalidOperation) else Ok(())
    }

    /** `AddDependency(s)`: configuring only; adding a dependency already there changes nothing. */
    method AddDependency(s: string) returns (r: Outcome<()>)
      modifies this
      ensures live ==> r == Err(InvalidOperation)
      ensures !live && old(dependencies).None? ==> r == Err(NullReference)
      ensures r.Ok? <==> !live && old(dependencies).Some?
      ensures r.Ok? ==> dependencies == Some(old(dependencies).value + {s})
      ensures r.Err? ==> dependencies == old(dependencies)
      ensures live == old(live) && sorter == old(sorter) && extractor == old(extractor)
      ensures text == old(text) && tag == old(tag) && minWidth == old(minWidth) && prefWidth == old(prefWidth)
      ensures itemSorter == old(itemSorter) && cellFactory == old(cellFactory) && toolTipExtractor == old(toolTipExtractor)
    {
      r := CheckLive();
      if r.Err? {
        return;
      }
      if dependencies.None? {
        return Err(NullReference);
      }
      dependencies := Some(dependencies.value + {s});
    }

    /** The `Extractor` setter. */
    method SetExtractor(v: Option<nat>) returns (r: Outcome<()>)
      modifies this
      ensures r == CheckLive()
      ensures extractor == (if r.Ok? then v else old(extractor))
      ensures live == old(live) && sorter == old(sorter) && text == old(text) && tag == old(tag)
      ensures minWidth == old(minWidth) && prefWidth == old(prefWidth) && itemSorter == old(itemSorter)
      ensures dependencies == old(dependencies) && cellFactory == old(cellFactory) && toolTipExtractor == old(toolTipExtractor)
    {
      r := CheckLive();
      if r.Ok? {
        extractor := v;
      }
    }

    /** The `MinWidth` setter: the live check comes before the negative check; either leaves the width. */
    method SetMinWidth(v: Int32) returns (r: Outcome<()>)
      modifies this
      ensures live ==> r == Err(InvalidOperation)
      ensures !live && v < 0 ==> r == Err(ArgumentOutOfRange)
      ensures r.Ok? <==> !live && v >= 0
      ensures minWidth == (if r.Ok? then v else old(minWidth))
      ensures live == old(live) && sorter == old(sorter) && text == old(text) && tag == old(tag)
      ensures extractor == old(extractor) && prefWidth == old(prefWidth) && itemSorter == old(itemSorter)
      ensures dependencies == old(dependencies) && cellFactory == old(cellFactory) && toolTipExtractor == old(toolTipExtractor)
    {
      r := CheckLive();
      if r.Err? {
        return;
      }
      if v < 0 {
        return Err(ArgumentOutOfRange);
      }
      minWidth := v;
    }

    /** The `Sorter` setter; an item sorter already cached is kept. */
    method SetSorter(v: Option<nat>) returns (r: Outcome<()>)
      modifies this
      ensures r == CheckLive()
      ensures sorter == (if r.Ok? then v else old(sorter))
      ensures live == old(live) && extractor == old(extractor) && text == old(text) && tag == old(tag)
      ensures minWidth == old(minWidth) && prefWidth == old(prefWidth) && itemSorter == old(itemSorter)
      ensures dependencies == old(dependencies) && cellFactory == old(cellFactory) && toolTipExtractor == old(toolTipExtractor)
    {
      r := CheckLive();
      if r.Ok? {
        sorter := v;
      }
    }

    /** The `Text` setter. */
    method SetText(v: Option<string>) returns (r: Outcome<()>)
      modifies this
      ensures r == CheckLive()
      ensures text == (if r.Ok? then v else old(text))
      ensures live == old(live) && sorter == old(sorter) && extractor == old(extractor) && tag == old(tag)
      ensures minWidth == old(minWidth) && prefWidth == old(prefWidth) && itemSorter == old(itemSorter)
      ensures dependencies == old(dependencies) && cellFactory == old(cellFactory) && toolTipExtractor == old(toolTipExtractor)
    {
      r := CheckLive();
      if r.Ok? {
        text := v;
      }
    }

    /** The `Tag` setter. */
    method SetTag(v: Option<string>) returns (r: Outcome<()>)
      modifies this
      ensures r == CheckLive()
      ensures tag == (if r.Ok? then v else old(tag))
      ensures live == old(live) && sorter == old(sorter) && extractor == old(extractor) && text == old(text)
      ensures minWidth == old(minWidth) && prefWidth == old(prefWidth) && itemSorter == old(itemSorter)
      ensures dependencies == old(dependencies) && cellFactory == old(cellFactory) && toolTipExtractor == old(toolTipExtractor)
    {
      r := CheckLive();
      if r.Ok? {
        tag := v;
      }
    }

    /** The `PrefWidth` setter: no live check; a value below `MinWidth` is silently ignored. */
    method SetPrefWidth(v: Int32)
      modifies this
      ensures prefWidth == (if v >= old(minWidth) then v else old(prefWidth))
      ensures live == old(live) && sorter == old(sorter) && extractor == old(extractor) && text == old(text)
      ensures tag == old(tag) && minWidth == old(minWidth) && itemSorter == old(itemSorter)
      ensures dependencies == old(dependencies) && cellFactory == old(cellFactory) && toolTipExtractor == old(toolTipExtractor)
    {
      if v >= minWidth {
        prefWidth := v;
      }
    }

    /** `MakeLive()`: a configuring column becomes live; a live one throws and stays live. */
    method MakeLive() returns (r: Outcome<()>)
      modifies this
      ensures r.Ok? <==> !old(live)
      ensures r.Err? ==> r.error == InvalidOperation
      ensures live
      ensures sorter == old(sorter) && extractor == old(extractor) && text == old(text) && tag == old(tag)
      ensures minWidth == old(minWidth) && prefWidth == old(prefWidth) && itemSorter == old(itemSorter)
      ensures dependencies == old(dependencies) && cellFactory == old(cellFactory) && toolTipExtractor == old(toolTipExtractor)
    {
      r := CheckLive();
      if r.Ok? {
        live := true;
      }
    }

    /**
     * `CreateSorter()`: with no item sorter cached and a sorter set, build one (extracting when an
     * extractor is set) and cache it; return the cache, which is null while no sorter was ever set.
     */
    method CreateSorter() returns (r: Option<ItemSorter>)
      modifies this
      ensures old(itemSorter).Some? ==> r == old(itemSorter)
      ensures old(itemSorter).None? && sorter.None? ==> r == None
      ensures old(itemSorter).None? && sorter.Some? ==> r == Some(if extractor.None? then Direct else Extracting)
      ensures itemSorter == r
      ensures live == old(live) && sorter == old(sorter) && extractor == old(extractor) && text == old(text)
      ensures tag == old(tag) && minWidth == old(minWidth) && prefWidth == old(prefWidth)
      ensures dependencies == old(dependencies) && cellFactory == old(cellFactory) && toolTipExtractor == old(toolTipExtractor)
    {
      if itemSorter.None? && sorter.Some? {
        if extractor.None? {
          itemSorter := Some(Direct);
        } else {
          itemSorter := Some(Extracting);
        }
      }
      r := itemSorter;
    }

    /** `Dispose()`: every delegate becomes null and the dependency set, if still held, goes back to the pool. */
    method Dispose()
      modifies this, pool
      ensures cellFactory == None && sorter == None && extractor == None && itemSorter == None && toolTipExtractor == None
      ensures dependencies == None
      ensures pool.gets == old(pool.gets)
      ensures pool.returned == old(pool.returned) + (if old(dependencies).Some? then 1 else 0)
      ensures live == old(live) && text == old(text) && tag == old(tag) && minWidth == old(minWidth) && prefWidth == old(prefWidth)
    {
      cellFactory := None;
      sorter := None;
      extractor := None;
      itemSorter := None;
      toolTipExtractor := None;
      if dependencies.Some? {
        pool.Return();
        dependencies := None;
      }
    }
  }

  /**
   * `new TableColumn(cellFactory)` as written: the field initialiser fetches the dependency set
   * from the pool before the constructor body tests the factory, so a null factory throws with
   * that set fetched and never handed back.
   */
  method NewTableColumn(cellFactory: Option<nat>, pool: Pool) returns (r: Outcome<TableColumn>)
    modifies pool
    ensures r.Err? <==> cellFactory.None?
    ensures r.Err? ==> r.error == ArgumentNull
    ensures r.Ok? ==> fresh(r.value) && r.value.cellFactory == cellFactory && !r.value.live
    ensures r.Ok? ==> r.value.dependencies == Some({})
    ensures pool.gets == old(pool.gets) + 1 && pool.returned == old(pool.returned)
  {
    if cellFactory.None? {
      pool.Get();
      return Err(ArgumentNull);
    }
    var c := new TableColumn(cellFactory.value, pool);
    return Ok(c);
  }

  /** The constructor with the factory tested before the set is fetched: a null factory leaves the pool alone. */
  method NewTableColumnCorrected(cellFactory: Option<nat>, pool: Pool) returns (r: Outcome<TableColumn>)
    modifies pool
    ensures r.Err? <==> cellFactory.None?
    ensures r.Err? ==> r.error == ArgumentNull && pool.gets == old(pool.gets)
    ensures r.Ok? ==> fresh(r.value) && r.value.cellFactory == cellFactory && !r.value.live
    ensures r.Ok? ==> r.value.dependencies == Some({}) && pool.gets == old(pool.gets) + 1
    ensures pool.returned == old(pool.returned)
  {
    if cellFactory.None? {
      return Err(ArgumentNull);
    }
    var c := new TableColumn(cellFactory.value, pool);
    return Ok(c);
  }

  /**
   * A null factory on a fresh pool: as written one set is left outstanding, with no column to
   * dispose that could return it; with the test first none is.
   */
  method NullFactoryOutstandingSets() returns (asWritten: int, corrected: int)
    ensures asWritten == 1 && corrected == 0
  {
    var p1 := new Pool();
    var r1 := NewTableColumn(None, p1);
    asWritten := p1.gets - p1.returned;
    var p2 := new Pool();
    var r2 := NewTableColumnCorrected(None, p2);
    corrected := p2.gets - p2.returned;
  }

  /**
   * A column's life: configure it, make it live, then every guarded setter is refused and a second
   * `MakeLive` throws, while the preferred width still follows the rule against the minimum width.
   */
  method ConfigureThenLive(pool: Pool)
    modifies pool
  {
    var c := new TableColumn(0, pool);
    var ok := c.SetMinWidth(10);
    assert ok.Ok? && c.minWidth == 10;
    var bad := c.SetMinWidth(-1);
    assert bad == Err(ArgumentOutOfRange) && c.minWidth == 10;
    c.SetPrefWidth(5);
    assert c.prefWidth == 0;
    c.SetPrefWidth(20);
    assert c.prefWidth == 20;
    var d := c.AddDependency("Name");
    assert c.dependencies.value == {"Name"};
    var d2 := c.AddDependency("Name");
    assert c.dependencies == Some({"Name"});
    var s := c.SetSorter(Some(7));
    var sorted := c.CreateSorter();
    assert sorted == Some(Direct);
    var e := c.SetExtractor(Some(3));
    var again := c.CreateSorter();
    assert again == Some(Direct);
    assert SorterCall(again.value, c.sorter, c.extractor) == Ok((7, None));
    var live := c.MakeLive();
    assert live.Ok?;
    var twice := c.MakeLive();
    assert twice == Err(InvalidOperation);
    var t := c.SetText(Some("Header"));
    assert t == Err(InvalidOperation) && c.text == None;
    var w := c.SetMinWidth(1);
    assert w == Err(InvalidOperation) && c.minWidth == 10;
    var dep := c.AddDependency("Other");
    assert dep == Err(InvalidOperation) && c.dependencies == Some({"Name"});
    c.SetPrefWidth(30);
    assert c.prefWidth == 30;
  }
}
