/** The `/stock` report: one of three message shapes, listing the in-stock
    entries of the history in history order. */
module StockReport {
  import opened Wrappers
  import opened StockHistory
  import opened Reconcile
  import opened Persistence

  /** One listed product: the stored name and url. */
  datatype Listed = Listed(name: string, url: string)

  /** The three message shapes: no data yet; everything sold out; a header
      with the number of in-stock entries, one line per entry, and the time of
      the report. */
  datatype Report = NoData | AllSoldOut | InStock(count: nat, items: seq<Listed>, at: string)

  /** Why building the report raised: an entry that is not an object (its
      `.get` does not exist), or an in-stock record without a name or url. */
  datatype ReportError = NotARecord(key: string) | MissingField(key: string)

  /** The in-stock entries, in history order. */
  function InStockEntries(h: History): (r: History)
    ensures |r| <= |h|
    ensures forall e :: e in r <==> e in h && InStockValue(e.1)
  {
    if |h| == 0 then []
    else (if InStockValue(h[0].1) then [h[0]] else []) + InStockEntries(h[1..])
  }

  /** Selection keeps history order: selecting from a concatenation is
      concatenating the selections. */
  lemma {:induction false} InStockEntriesAppend(a: History, b: History)
    ensures InStockEntries(a + b) == InStockEntries(a) + InStockEntries(b)
    decreases |a|
  {
    if |a| > 0 {
      assert (a + b)[1..] == a[1..] + b;
      InStockEntriesAppend(a[1..], b);
    } else {
      assert a + b == b;
    }
  }

  /** The selection is empty exactly when no entry is in stock, and holds
      only in-stock records. */
  lemma SelectedAreInStock(h: History)
    ensures forall i :: 0 <= i < |InStockEntries(h)| ==>
      InStockEntries(h)[i].1.Record? && InStockValue(InStockEntries(h)[i].1)
    ensures |InStockEntries(h)| == 0 <==> forall i :: 0 <= i < |h| ==> !InStockValue(h[i].1)
  {
  }

  lemma IncompleteEntryIsInHistory(h: History)
    requires exists i :: (0 <= i < |InStockEntries(h)|
      && (InStockEntries(h)[i].1.name.None? || InStockEntries(h)[i].1.url.None?))
    ensures exists k :: 0 <= k < |h| && InStockValue(h[k].1) && (h[k].1.name.None? || h[k].1.url.None?)
  {
  }

  /** The key of the first entry that is not an object, if any. */
  function FirstNonRecord(h: History): (r: Option<string>)
    ensures r.None? <==> forall i :: 0 <= i < |h| ==> h[i].1.Record?
    ensures r.Some? ==> exists i :: 0 <= i < |h| && h[i].0 == r.value && !h[i].1.Record?
  {
    if |h| == 0 then None
    else if !h[0].1.Record? then Some(h[0].0)
    else
      var r := FirstNonRecord(h[1..]);
      assert r.Some? ==> exists i :: 0 <= i < |h| - 1 && h[1..][i].0 == r.value && !h[1..][i].1.Record?;
      assert forall i :: 1 <= i < |h| ==> h[i] == h[1..][i - 1];
      r
  }

  /** The report lines for the given records, failing at the first one
      without a name or url. */
  function ListItems(entries: History): (r: Result<seq<Listed>, ReportError>)
    requires forall i :: 0 <= i < |entries| ==> entries[i].1.Record?
    ensures r.Ok? <==> forall i :: 0 <= i < |entries| ==>
      entries[i].1.name.Some? && entries[i].1.url.Some?
    ensures r.Err? ==> r.error.MissingField?
    ensures r.Ok? ==> |r.value| == |entries|
    ensures r.Ok? ==> forall i :: 0 <= i < |entries| ==>
      r.value[i] == Listed(entries[i].1.name.value, entries[i].1.url.value)
  {
    if |entries| == 0 then Ok([])
    else
      var v := entries[0].1;
      if v.name.None? || v.url.None? then Err(MissingField(entries[0].0))
      else
        match ListItems(entries[1..])
        case Err(e) => Err(e)
        case Ok(rest) =>
          assert forall i :: 1 <= i < |entries| ==> entries[i] == entries[1..][i - 1];
          Ok([Listed(v.name.value, v.url.value)] + rest)
  }

  /** `get_stock_report`. An empty history gives the "no data yet" message;
      a history with a non-object entry raises; when no entry is in stock the
      "all sold out" message is chosen; otherwise the header counts the
      in-stock entries and exactly those are listed, in history order. */
  function GetStockReport(h: History, now: string): (r: Result<Report, ReportError>)
    ensures r == Ok(NoData) <==> |h| == 0
    ensures r.Err? && r.error.NotARecord? ==> exists i :: 0 <= i < |h| && !h[i].1.Record?
    ensures (exists i :: 0 <= i < |h| && !h[i].1.Record?) ==> r.Err? && r.error.NotARecord?
    ensures r.Err? && r.error.MissingField? ==>
      exists i :: 0 <= i < |h| && InStockValue(h[i].1) && (h[i].1.name.None? || h[i].1.url.None?)
    ensures r.Ok? ==> forall i :: 0 <= i < |h| ==> h[i].1.Record?
    ensures r == Ok(AllSoldOut) <==>
      && |h| > 0
      && (forall i :: 0 <= i < |h| ==> h[i].1.Record?)
      && (forall i :: 0 <= i < |h| ==> !InStockValue(h[i].1))
    ensures r.Ok? && r.value.InStock? ==>
      && r.value.count == |r.value.items| == |InStockEntries(h)| > 0
      && r.value.at == now
      && (forall i :: 0 <= i < |r.value.items| ==>
            InStockEntries(h)[i].1.name.Some? && InStockEntries(h)[i].1.url.Some?)
      && forall i :: 0 <= i < |r.value.items| ==>
           r.value.items[i] == Listed(InStockEntries(h)[i].1.name.value, InStockEntries(h)[i].1.url.value)
  {
    if |h| == 0 then Ok(NoData)
    else
      match FirstNonRecord(h)
      case Some(k) => Err(NotARecord(k))
      case None =>
        var entries := InStockEntries(h);
        SelectedAreInStock(h);
        if |entries| == 0 then
          Ok(AllSoldOut)
        else
          match ListItems(entries)
          case Err(e) =>
            IncompleteEntryIsInHistory(h);
            Err(e)
          case Ok(items) => Ok(InStock(|entries|, items, now))
  }

  /** The keys of the in-stock entries of a dictionary. */
  function InStockKeys(m: map<string, Value>): set<string>
  {
    set k | k in m && InStockValue(m[k])
  }

  /** The header count is the number of distinct products recorded in stock. */
  lemma {:induction false} InStockCount(h: History)
    requires Wf(h)
    ensures |InStockEntries(h)| == |InStockKeys(ToMap(h))|
    decreases |h|
  {
    if |h| > 0 {
      var k, v := h[0].0, h[0].1;
      var m := ToMap(h[1..]);
      assert Wf(h[1..]);
      InStockCount(h[1..]);
      assert k !in m by {
        ToMapKeys(h[1..], k);
        assert forall i :: 0 <= i < |h| - 1 ==> Keys(h[1..])[i] == h[i + 1].0 != k;
      }
      if InStockValue(v) {
        assert InStockKeys(m[k := v]) == InStockKeys(m) + {k};
      } else {
        assert InStockKeys(m[k := v]) == InStockKeys(m);
      }
    }
  }

  /** For the history the watcher holds after loading its status file and
      running a cycle, the header count is the number of distinct products
      recorded in stock. */
  lemma CycleReportCount(f: StoredFile, obs: seq<Observation>, now: string)
    requires f.Parsed? && f.doc.Object? ==> Wf(f.doc.entries)
    ensures var h := Reconcile.Fold(LoadHistory(f), obs, now).0;
            |InStockEntries(h)| == |InStockKeys(ToMap(h))|
  {
    ReconcileKeepsWf(LoadHistory(f), obs, now);
    InStockCount(Reconcile.Fold(LoadHistory(f), obs, now).0);
  }

  /** A product just observed in stock appears in the next report, unless
      the report cannot be built at all. */
  lemma ObservedInStockIsListed(h: History, o: Observation, now: string, at: string)
    requires !o.soldOut
    ensures var r := GetStockReport(Observe(h, o, now).0, at);
            r.Err? || (r.value.InStock? && Listed(o.name, o.url) in r.value.items)
  {
    var h1 := Observe(h, o, now).0;
    ObservedIsSelected(h, o, now);
    SelectedIsListed(h1, (Id(o), Stamp(o, now)), at);
  }

  /** The record just written for an in-stock observation is selected. */
  lemma ObservedIsSelected(h: History, o: Observation, now: string)
    requires !o.soldOut
    ensures (Id(o), Stamp(o, now)) in InStockEntries(Observe(h, o, now).0)
  {
    var h1 := Observe(h, o, now).0;
    assert ToMap(h1)[Id(o)] == Stamp(o, now);
    ToMapEntryIn(h1, Id(o));
  }

  /** A selected record with a name and a url is listed, unless the report
      raises. */
  lemma SelectedIsListed(h: History, e: Entry, at: string)
    requires e in InStockEntries(h)
    requires e.1.name.Some? && e.1.url.Some?
    ensures var r := GetStockReport(h, at);
            r.Err? || (r.value.InStock? && Listed(e.1.name.value, e.1.url.value) in r.value.items)
  {
    var entries := InStockEntries(h);
    var j :| 0 <= j < |entries| && entries[j] == e;
    var r := GetStockReport(h, at);
    if r.Ok? {
      assert e in h && InStockValue(e.1);
      assert r.value.InStock?;
      assert r.value.items[j] == Listed(e.1.name.value, e.1.url.value);
    }
  }
}
