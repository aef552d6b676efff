# Tobacco watcher: stock reconciliation in Dafny

This project models the stock-reconciliation core of the tobacco watcher
(`watcher.py`) and proves properties of it. Each cycle the watcher visits the
configured collection pages. It classifies every product card as sold out or
in stock, and it folds what it saw into a persisted stock history. When an item
that was sold out, or was never seen, is now in stock, it sends a restock
notification. It also answers a `/stock` command with a report of the in-stock
entries.

The model is written as pure functions over immutable data:

- `Sanitizer`: the name cleaner. It deletes every match of `<[^>]+>` in one
  left-to-right pass and then applies Python's `str.strip()`.
- `Cards`: the card classifier `check_stock`. A card is modelled after the
  site's selectors have been applied to it: the name element's text if it
  exists, and the status button (its `disabled` attribute and its text) if it
  exists.
- `StockHistory`: the history, modelled as a JSON object that keeps insertion
  order like a Python dict, mapping product identities to stored values. Each
  value is a record, a legacy bare boolean, or any other JSON value. `ToMap`
  gives its dictionary view.
- `Reconcile`: the body of `run`. Cards become observations, and observations
  are folded into the history in order, producing restock events.
  `ScanTarget` and `Run` are the source's two nested loops, proved equal to
  the fold.
- `Persistence`: the format check of `load_history`, applied to what reading
  and parsing the status file produced.
- `StockReport`: `get_stock_report`. It returns one of three message shapes, or
  the error the Python code would raise.

A product seen for the first time in stock is notified at once
(`Reconcile.UnknownPriorNotifies`).

A parsed JSON object is a Python dict, so it never repeats a key. The model's
`Document.Object` does not enforce this. Instead the loader, each write and
each cycle are proved to keep the no-repeated-key property (`StockHistory.Wf`).

## Model

| member | source | states |
|---|---|---|
| `Sanitizer.StripTags` | watcher.py:79 | The regex pass returns `s` with some characters deleted and the rest kept in order (a subsequence). It leaves no `<`, one or more non-`>` characters, `>` run: every remaining `<` is directly followed by `>` or has no `>` after it. |
| `Sanitizer.StripTagsPlainPrefix` | watcher.py:79 | Text before the first `<` is copied through unchanged, and the rest is processed on its own. |
| `Sanitizer.StripTagsDropsTag` | watcher.py:79 | A match of `<[^>]+>` at the front is deleted whole, and scanning resumes right after its `>`. |
| `Sanitizer.StripTagsEmptyBrackets` | watcher.py:79 | An empty pair `<>` is not a match: both characters are kept, and the rest is processed on its own. |
| `Sanitizer.Strip` | watcher.py:79 | `strip()` returns the infix left after removing whitespace margins (Python's `isspace` set), with no whitespace at either end. |
| `Sanitizer.Sanitize` | watcher.py:76-79 | A cleaned name contains no substring matching `<[^>]+>` and has no leading or trailing whitespace. |
| `Sanitizer.StripTagsKeepsTagFree` | watcher.py:79 | On a string with no tag, tag removal is the identity. |
| `Sanitizer.SanitizeIdempotent` | watcher.py:79 | Cleaning an already-cleaned name changes nothing. |
| `Sanitizer.SanitizePlainText` | watcher.py:79 | A name with no `<` only loses its whitespace margins. |
| `Sanitizer.SanitizeWrapped` | watcher.py:76-79 | A plain, trimmed name wrapped in an element's opening and closing tags (such as `<tc>`) is cleaned to the bare name. |
| `Cards.CheckStock` | watcher.py:66-92 | Three outcomes. No name element gives `(None, True)`. A name but no button gives `(None, None)`. Otherwise the result is the name text passed through `Sanitize`, and it is sold out exactly when the button has `disabled`. |
| `Cards.MarkupIgnored` | watcher.py:76-92 | A card whose name text wraps a plain name in tags classifies exactly as a card with the bare name. |
| `Cards.SoldOutTextIgnored` | watcher.py:83-90 | The configured sold-out text is never consulted: an enabled button reading that text still means in stock. |
| `StockHistory.Get` | watcher.py:125 | `dict.get` finds a value exactly for keys of the dictionary view, and returns the value stored there. |
| `StockHistory.Put` | watcher.py:135-140 | Assignment changes only the written key in the dictionary view. An existing key keeps its position, and a new key is appended. |
| `StockHistory.PutKeepsWf` | watcher.py:135-140 | Assignment never creates a duplicate key. |
| `Reconcile.Observe` | watcher.py:121-151 | The entry at `name + "_" + url` becomes exactly `{name, url, is_sold_out, updated_at}` and every other key is unchanged. A notification is due exactly when the item is in stock now and the prior entry was not an in-stock record. |
| `Reconcile.WasSoldOut` | watcher.py:125-129 | The prior state counts as in stock only for a dict whose `is_sold_out` is present and false. A missing entry, a non-dict value and a dict without the flag all count as sold out. |
| `Reconcile.UnknownPriorNotifies` | watcher.py:124-132 | An absent entry, a non-record entry and a record without `is_sold_out` all count as sold out, so an in-stock observation of them notifies. |
| `Reconcile.ObserveTwice` | watcher.py:125-140 | The second of two identical observations never notifies and leaves `is_sold_out` unchanged. |
| `Reconcile.CardObservation` | watcher.py:113-119 | A card contributes an observation exactly when it has a name and a button and its cleaned name is non-empty. The observation's name is the sanitised name text, its url is the target's, and its state is the button's. |
| `Reconcile.CardObservations` | watcher.py:111-119 | A page yields at most one observation per card, each with the target's url and a non-empty name. |
| `Reconcile.CardObservationsSound` | watcher.py:111-119 | Every observation of a page comes from one of its cards. |
| `Reconcile.CardObservationsComplete` | watcher.py:111-119 | Every usable card of the page contributes its observation. |
| `Reconcile.ScanObservations` | watcher.py:101-106 | A target whose fetch returned nothing contributes no observation. |
| `Reconcile.ObservationsExactly` | watcher.py:100-106 | An observation belongs to the cycle exactly when it is an observation of one of its targets. |
| `Reconcile.ObservationsAppend` | watcher.py:100-106 | Targets are processed in `watch_list` order: the observations of `a + b` are those of `a` followed by those of `b`. |
| `Reconcile.FailedFetchSkipped` | watcher.py:100-103 | A cycle with a failed target gives the same history and events as the cycle without it. |
| `Reconcile.Absorb` | watcher.py:124-149 | One step of the cycle: the identity's entry becomes the new record, and a restock event is appended exactly when the item is in stock and the history did not record it as in stock. |
| `Reconcile.Fold` | watcher.py:100-151 | The cycle fold. It sends at most one notification per observation. Existing keys keep their order, and new identities are appended after them, at most one per observation. |
| `Reconcile.ReconcileHistory` | watcher.py:111-140 | After a cycle the history has the old keys plus the observed identities. Unobserved entries are unchanged. Each observed identity holds the record of its last observation. |
| `Reconcile.ReconcileEvents` | watcher.py:124-149 | Every restock event comes from an in-stock observation of that name and url in the same cycle, made while the history did not record that identity as in stock. |
| `Reconcile.ReconcileNotifies` | watcher.py:124-149 | Conversely, every in-stock observation made while the history did not record its identity as in stock sends a restock notification. |
| `Reconcile.ReconcileEventsExactly` | watcher.py:124-149 | A cycle notifies about a (name, url) pair exactly when some in-stock observation of it met a history that did not record it as in stock. |
| `Reconcile.DistinctCycleEvents` | watcher.py:121-149 | When no two observations share an identity, the cycle's events are exactly the in-stock observations that the starting history did not record as in stock, in observation order. |
| `Reconcile.ReconcileKeepsWf` | watcher.py:135-140 | A cycle never creates a repeated key. |
| `Reconcile.SameNameLaterWins` | watcher.py:121-140 | Two cards with one name on one page collapse into one entry, and the later card's record is kept. |
| `Reconcile.SecondPassQuiet` | watcher.py:125-151 | Repeating a cycle whose observations agree per identity sends no notification. |
| `Reconcile.IdentityInjective` | watcher.py:120-121 | When urls contain no `_`, distinct (name, url) pairs get distinct identities. |
| `Reconcile.IdentityCollision` | watcher.py:121 | Without that condition two products can share an identity. |
| `Reconcile.ReconcileAppend` | watcher.py:100-151 | Processing targets one after another composes: folding `a + b` is folding `a`, then `b`, with the events of both in order. |
| `Reconcile.ScanTarget` | watcher.py:105-151 | The per-card loop computes the fold of the target's observations. |
| `Reconcile.Run` | watcher.py:94-156 | The per-target loop computes the fold of the whole cycle's observations, and it never creates a repeated key. |
| `Persistence.LoadAsWritten` | watcher.py:31-44 | The loader as written. A missing file, an unreadable file, a legacy object and a truthy non-object give `{}`. A non-legacy object is returned as loaded. A falsy non-object is returned as loaded too, and it is the only non-object result. |
| `Persistence.LoadHistory` | watcher.py:31-44 | The corrected loader returns the loaded object unchanged when it is a non-legacy object, and `{}` otherwise. Its first value is never a bare boolean, and it has no repeated key when the document has none. |
| `Persistence.LoadHistoryAgrees` | watcher.py:33-44 | The corrected loader agrees with the source wherever the source yields an object. |
| `Persistence.IsLegacy` | watcher.py:38 | The legacy test holds exactly when the value under the first key, in insertion order, is a bare boolean. |
| `Persistence.FalsyDocumentEscapes` | watcher.py:38-41 | A status file holding a falsy non-object is returned as that same value by the source, and as `{}` by the corrected loader. |
| `StockReport.InStockEntries` | watcher.py:202-206 | The selection holds exactly the entries whose `is_sold_out` is present and false. |
| `StockReport.InStockEntriesAppend` | watcher.py:204-206 | The selection keeps history order. |
| `StockReport.SelectedAreInStock` | watcher.py:204-208 | The selection is empty exactly when no entry is in stock, and a missing flag counts as sold out. |
| `StockReport.FirstNonRecord` | watcher.py:204-205 | `info.get` raises on the first value that is not a dict. The result is absent exactly when every value is a dict, and otherwise names a key whose value is not one. |
| `StockReport.ListItems` | watcher.py:212-213 | Listing succeeds exactly when every selected record has a name and a url, and then gives one line per record, in order. A failure is always a missing field. |
| `StockReport.GetStockReport` | watcher.py:197-216 | Empty history gives "no data yet". Any non-object entry makes it raise `NotARecord`, ahead of any missing field. No in-stock entry gives "all sold out". Otherwise the header count equals the number of in-stock entries, and exactly those are listed in history order. An in-stock record without a name or url raises. |
| `StockReport.InStockCount` | watcher.py:211 | The header count equals the number of distinct products recorded in stock. |
| `StockReport.CycleReportCount` | watcher.py:199-211 | For the history held after loading a status file and running a cycle, the header count is the number of distinct products recorded in stock. |
| `StockReport.SelectedIsListed` | watcher.py:204-213 | Every in-stock record with a name and a url appears as a line of the report, unless building the report raises. |
| `StockReport.ObservedInStockIsListed` | watcher.py:199-213 | A product just observed in stock is listed in the next report, unless building the report raises. |

## Left out

- Fetching (`fetch_page`, the retrying session) and BeautifulSoup selector evaluation, including `get_text(strip=True)`: these are network calls and a foreign HTML parser. A fetch is an `Option` of already-extracted cards. `None` stands for a failed request or an empty body.
- Reading and writing `stock_status.json` (`load_history`'s file access, `save_history`): these are file I/O. The loader receives the parse outcome.
- `send_notification`, `send_telegram_message`, `poll_telegram_commands` and the whole of `notifier.py`: these are HTTP calls and an endless polling loop. Notifications are the emitted `Restock(name, url)` events.
- Report text: the HTML markup, emoji and the `%H:%M` time format are not modelled. The report is its shape, its count, its listed (name, url) pairs and an opaque time string.
- Reconcile.Run: the source reads the clock once per written record. The model passes one opaque timestamp for the whole cycle, so records written in one cycle share a timestamp.
- Reconcile.Run: `run` returns a `results` list that is always empty. The model returns the history and the events instead.
- The `is_sold_out` value of a stored record is kept only as its truthiness, which is all the code uses.
- StockHistory.Value: a stored `name` or `url` is modelled as a string, and `None` means the key is absent. A record whose `name` or `url` is present but not a string, such as `"name": null`, is not represented. The report would print such a value through `str()` (`None` for `null`), while the model can only express it as a missing key, which raises.
- The polling thread reads the history while `run` writes it: the model does not cover concurrency.
- `config.py` (static data and environment variables) and `main.py` (an endless sleep loop) are not part of this model.

## Findings

| source | as written | input that shows it | evidently intended | confidence | as-written member | corrected member |
|---|---|---|---|---|---|---|
| watcher.py:38-41 | `if data and isinstance(list(data.values())[0], bool)` guards the format check with `data`'s truthiness. A falsy document that is not an object skips the check and is returned as the history. | a status file containing `null` (likewise `[]`, `0`, `false` or `""`) | every document that is not a usable object loads as `{}`, as a truthy non-object already does through the bare `except` | medium; not executed | `Persistence.LoadAsWritten` (shown by `Persistence.FalsyDocumentEscapes`) | `Persistence.LoadHistory` |

With such a file the history is not a dict. Every cycle that observes a
product then raises on `.get` before saving, so the status file keeps the
falsy value. The rest of the model uses `Persistence.LoadHistory`,
so the history is always an object.
