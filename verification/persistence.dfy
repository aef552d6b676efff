/** Loading the stock history at start-up. Reading the file and parsing JSON
    are not modelled: the loader receives what they produced. */
module Persistence {
  import opened StockHistory

  /** The top-level value of a parsed status file: an object, or any other
      JSON value, known only by its truthiness (`null`, `false`, `0`, `""`
      and `[]` are falsy). */
  datatype Document = Object(entries: History) | NonObject(truthy: bool)

  /** What opening and parsing the status file gave: no file, an error while
      reading or parsing it, or a parsed document. */
  datatype StoredFile = Missing | Unreadable | Parsed(doc: Document)

  /** The legacy-format test: the object is non-empty and its first value is
      a bare boolean. In dictionary terms, the value stored under the first
      key in insertion order is a boolean. */
  predicate IsLegacy(h: History): (legacy: bool)
    ensures legacy <==> |Keys(h)| > 0 && Keys(h)[0] in ToMap(h) && ToMap(h)[Keys(h)[0]].Flag?
  {
    |h| > 0 && h[0].1.Flag?
  }

  /** `load_history` as written. A missing or unreadable file, a legacy
      object and a truthy non-object (whose `.values()` raises, caught by the
      bare `except`) all give the empty object; any other object is returned
      unchanged. A falsy non-object passes the `if data and ...` guard and is
      returned unchanged too, so the watcher's history is then not an object
      at all. */
  function LoadAsWritten(f: StoredFile): (d: Document)
    ensures d.NonObject? <==> f == Parsed(NonObject(false))
    ensures d.NonObject? ==> d == f.doc
    ensures d.Object? && |d.entries| > 0 ==> f.Parsed? && f.doc == d && !IsLegacy(d.entries)
    ensures f.Parsed? && f.doc.Object? && !IsLegacy(f.doc.entries) ==> d == f.doc
  {
    match f
    case Missing => Object([])
    case Unreadable => Object([])
    case Parsed(doc) =>
      match doc
      case Object(entries) => if IsLegacy(entries) then Object([]) else doc
      case NonObject(truthy) => if truthy then Object([]) else doc
  }

  /** The evidently intended loader: every outcome is a history. It is empty
      unless the file held a non-legacy object, which is then kept as it was,
      order included. */
  function LoadHistory(f: StoredFile): (h: History)
    ensures f.Parsed? && f.doc.Object? && !IsLegacy(f.doc.entries) ==> h == f.doc.entries
    ensures !(f.Parsed? && f.doc.Object? && !IsLegacy(f.doc.entries)) ==> h == []
    ensures !IsLegacy(h)
    ensures (f.Parsed? && f.doc.Object? ==> Wf(f.doc.entries)) ==> Wf(h)
  {
    match f
    case Parsed(Object(entries)) => if IsLegacy(entries) then [] else entries
    case _ => []
  }

  /** The corrected loader agrees with the source wherever the source yields
      an object. */
  lemma LoadHistoryAgrees(f: StoredFile)
    requires LoadAsWritten(f).Object?
    ensures LoadHistory(f) == LoadAsWritten(f).entries
  {
  }

  /** The input on which they part: a status file holding `null` (or `[]`,
      `0`, `false`, `""`) is loaded as that value rather than as a history. */
  lemma FalsyDocumentEscapes()
    ensures !LoadAsWritten(Parsed(NonObject(false))).Object?
    ensures LoadAsWritten(Parsed(NonObject(false))) == NonObject(false)
    ensures LoadHistory(Parsed(NonObject(false))) == []
  {
  }
}
