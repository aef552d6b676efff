/** One scan cycle of the watcher: every configured target's cards are
    classified, each usable card becomes an observation, and the observations
    are folded into the stock history in order, emitting a restock event
    whenever an item that was sold out (or never seen) is now in stock. */
module Reconcile {
  import opened Wrappers
  import opened StockHistory
  import opened Cards
  import opened Sanitizer

  /** A configured watch-list entry. `name` is a label for the page; it is not
      part of any product's identity. */
  datatype Target = Target(name: string, url: string, selectors: Selectors)

  /** A target and what fetching it gave: `None` when the request failed or
      the body was empty, otherwise the cards the card selector matched. */
  datatype Scan = Scan(target: Target, page: Option<seq<Card>>)

  /** A usable card: a non-empty product name on a target url, and its state. */
  datatype Observation = Observation(name: string, url: string, soldOut: bool)

  /** A restock notification, sent as the product's name and its page. */
  datatype Event = Restock(name: string, url: string)

  /** The history key of a product: its name and page url joined by `_`. */
  function Identity(name: string, url: string): string
  {
    name + "_" + url
  }

  function Id(o: Observation): string
  {
    Identity(o.name, o.url)
  }

  /** The prior state as the notification rule reads it: only a record whose
      `is_sold_out` is present and false counts as in stock; a missing entry,
      a non-record value or a record without the flag counts as sold out. */
  function WasSoldOut(prior: Option<Value>): (soldOut: bool)
    ensures !soldOut <==> prior.Some? && InStockValue(prior.value)
  {
    match prior
    case Some(Record(_, _, Some(soldOut), _)) => soldOut
    case _ => true
  }

  /** The history holds an in-stock record for `id`. */
  predicate RecordedInStock(m: map<string, Value>, id: string)
  {
    id in m && InStockValue(m[id])
  }

  /** The record written for an observation at time `now`. */
  function Stamp(o: Observation, now: string): Value
  {
    Record(Some(o.name), Some(o.url), Some(o.soldOut), Some(now))
  }

  /** Folds one observation into the history. The entry at the product's
      identity is overwritten with the new record and nothing else changes;
      a new identity goes to the end. The notification flag is set exactly
      when the item is now in stock and the history did not already record
      it as in stock. */
  function Observe(h: History, o: Observation, now: string): (r: (History, bool))
    ensures ToMap(r.0) == ToMap(h)[Id(o) := Stamp(o, now)]
    ensures Id(o) in Keys(h) ==> Keys(r.0) == Keys(h)
    ensures Id(o) !in Keys(h) ==> Keys(r.0) == Keys(h) + [Id(o)]
    ensures r.1 <==> !o.soldOut && !RecordedInStock(ToMap(h), Id(o))
  {
    var notify := WasSoldOut(Get(h, Id(o))) && !o.soldOut;
    (Put(h, Id(o), Stamp(o, now)), notify)
  }

  /** An in-stock observation notifies when the prior entry is absent, is
      not a record, or is a record without the sold-out flag; in particular a
      product never seen before notifies at once. */
  lemma UnknownPriorNotifies(h: History, o: Observation, now: string)
    requires !o.soldOut
    requires Get(h, Id(o)).None? || !Get(h, Id(o)).value.Record? || Get(h, Id(o)).value.soldOut.None?
    ensures Observe(h, o, now).1
  {
  }

  /** Observing the same thing twice: the second pass never notifies and
      leaves the sold-out flag as the first pass wrote it. */
  lemma ObserveTwice(h: History, o: Observation, t1: string, t2: string)
    ensures var h1 := Observe(h, o, t1).0;
            && !Observe(h1, o, t2).1
            && ToMap(Observe(h1, o, t2).0)[Id(o)].soldOut == ToMap(h1)[Id(o)].soldOut
  {
  }

  /** The observation a card contributes, if any: cards without a name
      element, without a status button, or whose name sanitises to the empty
      string are skipped. */
  function CardObservation(target: Target, card: Card): (r: Option<Observation>)
    ensures r.Some? <==>
      CheckStock(card, target.selectors).Product? && CheckStock(card, target.selectors).name != ""
    ensures r.Some? ==> r.value.url == target.url && r.value.name != ""
    ensures r.Some? ==> card.button.Some? && r.value.soldOut == card.button.value.disabled
    ensures r.Some? ==> card.nameText.Some? && r.value.name == Sanitize(card.nameText.value)
    ensures r.Some? ==> r.value.name == CheckStock(card, target.selectors).name
  {
    match CheckStock(card, target.selectors)
    case Product(name, soldOut) =>
      if name != "" then Some(Observation(name, target.url, soldOut)) else None
    case _ => None
  }

  function OptionToSeq<T>(x: Option<T>): (s: seq<T>)
  {
    match x
    case None => []
    case Some(v) => [v]
  }

  /** The observations of a target's cards, in page order. */
  function CardObservations(target: Target, cards: seq<Card>): (obs: seq<Observation>)
    ensures |obs| <= |cards|
    ensures forall o :: o in obs ==> o.url == target.url && o.name != ""
  {
    if |cards| == 0 then []
    else
      CardObservations(target, cards[..|cards| - 1])
      + OptionToSeq(CardObservation(target, cards[|cards| - 1]))
  }

  /** Every observation of a page comes from one of its cards. */
  lemma {:induction false} CardObservationsSound(target: Target, cards: seq<Card>, o: Observation)
    requires o in CardObservations(target, cards)
    ensures exists c :: c in cards && CardObservation(target, c) == Some(o)
    decreases |cards|
  {
    var init := cards[..|cards| - 1];
    var last := cards[|cards| - 1];
    if o in CardObservations(target, init) {
      CardObservationsSound(target, init, o);
      var c :| c in init && CardObservation(target, c) == Some(o);
      assert c in cards;
    } else {
      assert last in cards;
    }
  }

  /** Every usable card of the page contributes its observation. */
  lemma {:induction false} CardObservationsComplete(target: Target, cards: seq<Card>, c: Card)
    requires c in cards && CardObservation(target, c).Some?
    ensures CardObservation(target, c).value in CardObservations(target, cards)
    decreases |cards|
  {
    if c != cards[|cards| - 1] {
      var init := cards[..|cards| - 1];
      assert c in init;
      CardObservationsComplete(target, init, c);
    }
  }

  /** A target whose fetch gave nothing contributes no observation. */
  function ScanObservations(scan: Scan): (obs: seq<Observation>)
    ensures scan.page.None? ==> obs == []
    ensures forall o :: o in obs ==> o.url == scan.target.url && o.name != ""
  {
    match scan.page
    case None => []
    case Some(cards) => CardObservations(scan.target, cards)
  }

  /** The observations of a whole cycle, target by target. */
  function Observations(scans: seq<Scan>): seq<Observation>
  {
    if |scans| == 0 then []
    else Observations(scans[..|scans| - 1]) + ScanObservations(scans[|scans| - 1])
  }

  /** The cycle's observations are exactly those of its targets. */
  lemma ObservationsExactly(scans: seq<Scan>, o: Observation)
    ensures o in Observations(scans) <==> exists s :: s in scans && o in ScanObservations(s)
  {
    if o in Observations(scans) {
      ObservationsSound(scans, o);
    } else {
      forall s | s in scans ensures o !in ScanObservations(s) {
        var i :| 0 <= i < |scans| && scans[i] == s;
        if o in ScanObservations(s) {
          ObservationsComplete(scans, i, o);
        }
      }
    }
  }

  /** Every observation of the cycle comes from one of its targets. */
  lemma {:induction false} ObservationsSound(scans: seq<Scan>, o: Observation)
    requires o in Observations(scans)
    ensures exists s :: s in scans && o in ScanObservations(s)
    decreases |scans|
  {
    var init := scans[..|scans| - 1];
    var last := scans[|scans| - 1];
    if o in Observations(init) {
      ObservationsSound(init, o);
      var s :| s in init && o in ScanObservations(s);
      assert s in scans;
    } else {
      assert last in scans;
    }
  }

  /** Every observation of every target is an observation of the cycle. */
  lemma ObservationsComplete(scans: seq<Scan>, i: nat, o: Observation)
    requires i < |scans| && o in ScanObservations(scans[i])
    ensures o in Observations(scans)
  {
    ObservationsAround(scans, i);
    InMiddle(o, Observations(scans[..i]), ScanObservations(scans[i]), Observations(scans[i + 1..]));
  }

  /** The cycle's observations, split around the target at position `i`. */
  lemma ObservationsAround(scans: seq<Scan>, i: nat)
    requires i < |scans|
    ensures Observations(scans)
         == Observations(scans[..i]) + ScanObservations(scans[i]) + Observations(scans[i + 1..])
  {
    SplitAt(scans, i);
    ObservationsAppend(scans[..i + 1], scans[i + 1..]);
    ObservationsSnoc(scans, i);
  }

  lemma InMiddle<T>(x: T, a: seq<T>, b: seq<T>, c: seq<T>)
    requires x in b
    ensures x in a + b + c
  {
  }

  /** Folds a sequence of observations into the history, in order, collecting
      the restock events. */
  function Fold(h: History, obs: seq<Observation>, now: string): (r: (History, seq<Event>))
    ensures |r.1| <= |obs|
    ensures |Keys(h)| <= |Keys(r.0)| <= |Keys(h)| + |obs|
    ensures Keys(r.0)[..|Keys(h)|] == Keys(h)
  {
    if |obs| == 0 then (h, [])
    else Absorb(Fold(h, obs[..|obs| - 1], now), obs[|obs| - 1], now)
  }

  /** One step of the fold: observe, and append a restock event when the
      observation calls for one. */
  function Absorb(acc: (History, seq<Event>), o: Observation, now: string): (r: (History, seq<Event>))
    ensures r.0 == Observe(acc.0, o, now).0
    ensures ToMap(r.0) == ToMap(acc.0)[Id(o) := Stamp(o, now)]
    ensures r.1 == acc.1 + (if !o.soldOut && !RecordedInStock(ToMap(acc.0), Id(o))
                            then [Restock(o.name, o.url)] else [])
  {
    var (h, notify) := Observe(acc.0, o, now);
    (h, if notify then acc.1 + [Restock(o.name, o.url)] else acc.1)
  }

  lemma ReconcileSnoc(h: History, obs: seq<Observation>, o: Observation, now: string)
    ensures Fold(h, obs + [o], now) == Absorb(Fold(h, obs, now), o, now)
  {
  }

  /** The identities a sequence of observations touches. */
  function Ids(obs: seq<Observation>): set<string>
  {
    set o | o in obs :: Id(o)
  }

  /** No later observation in `obs` has the identity of `obs[i]`. */
  predicate LastOfId(obs: seq<Observation>, i: nat)
    requires i < |obs|
  {
    forall j :: i < j < |obs| ==> Id(obs[j]) != Id(obs[i])
  }

  /** What a cycle does to the history: the touched identities are added,
      every other entry is left as it was, and each touched identity holds
      the record of the LAST observation with that identity. */
  lemma {:induction false} ReconcileHistory(h: History, obs: seq<Observation>, now: string)
    ensures forall k :: k in ToMap(Fold(h, obs, now).0) <==> k in ToMap(h) || k in Ids(obs)
    ensures forall k :: k in ToMap(h) && k !in Ids(obs) ==>
      ToMap(Fold(h, obs, now).0)[k] == ToMap(h)[k]
    ensures forall i :: 0 <= i < |obs| && LastOfId(obs, i) ==>
      && Id(obs[i]) in ToMap(Fold(h, obs, now).0)
      && ToMap(Fold(h, obs, now).0)[Id(obs[i])] == Stamp(obs[i], now)
    decreases |obs|
  {
    if |obs| > 0 {
      var init := obs[..|obs| - 1];
      var o := obs[|obs| - 1];
      ReconcileHistory(h, init, now);
      assert Ids(obs) == Ids(init) + {Id(o)} by {
        assert obs == init + [o];
      }
      forall i | 0 <= i < |obs| - 1 && LastOfId(obs, i)
        ensures LastOfId(init, i) && Id(obs[i]) != Id(o)
      {
        assert init[i] == obs[i];
      }
    }
  }

  /** Observation `i` of the cycle is an in-stock observation of the event's
      name and url, made while the history did not record that identity as
      in stock. */
  predicate Caused(h: History, obs: seq<Observation>, now: string, i: int, e: Event)
  {
    && 0 <= i < |obs|
    && obs[i] == Observation(e.name, e.url, false)
    && !RecordedInStock(ToMap(Fold(h, obs[..i], now).0), Id(obs[i]))
  }

  /** Every restock event comes from an in-stock observation of that name and
      url in the same cycle, made when the history did not yet record that
      identity as in stock. */
  lemma {:induction false} ReconcileEvents(h: History, obs: seq<Observation>, now: string)
    ensures forall e :: e in Fold(h, obs, now).1 ==> Observation(e.name, e.url, false) in obs
    ensures forall e :: e in Fold(h, obs, now).1 ==> exists i :: Caused(h, obs, now, i, e)
    decreases |obs|
  {
    if |obs| > 0 {
      var init := obs[..|obs| - 1];
      ReconcileEvents(h, init, now);
      forall e | e in Fold(h, obs, now).1
        ensures exists i :: Caused(h, obs, now, i, e)
      {
        if e in Fold(h, init, now).1 {
          var i :| Caused(h, init, now, i, e);
          CausedExtends(h, obs, now, i, e);
        } else {
          assert Caused(h, obs, now, |obs| - 1, e);
        }
      }
    }
  }

  /** A cause among earlier observations stays a cause when the cycle goes on. */
  lemma CausedExtends(h: History, obs: seq<Observation>, now: string, i: int, e: Event)
    requires |obs| > 0 && Caused(h, obs[..|obs| - 1], now, i, e)
    ensures Caused(h, obs, now, i, e)
  {
    assert obs[..|obs| - 1][..i] == obs[..i];
  }

  /** Conversely, every in-stock observation made while the history did not
      record its identity as in stock sends a restock notification. */
  lemma ReconcileNotifies(h: History, obs: seq<Observation>, now: string, i: nat)
    requires i < |obs| && !obs[i].soldOut
    requires !RecordedInStock(ToMap(Fold(h, obs[..i], now).0), Id(obs[i]))
    ensures Restock(obs[i].name, obs[i].url) in Fold(h, obs, now).1
  {
    var a, b := obs[..i + 1], obs[i + 1..];
    SplitAt(obs, i);
    ReconcileAppend(h, a, b, now);
    assert Fold(h, a, now) == Absorb(Fold(h, obs[..i], now), obs[i], now);
  }

  /** Both directions together: a cycle notifies about (name, url) exactly
      when some in-stock observation of it met a history that did not record
      it as in stock. */
  lemma ReconcileEventsExactly(h: History, obs: seq<Observation>, now: string, name: string, url: string)
    ensures Restock(name, url) in Fold(h, obs, now).1 <==>
      exists i :: Caused(h, obs, now, i, Restock(name, url))
  {
    ReconcileEvents(h, obs, now);
    if i :| Caused(h, obs, now, i, Restock(name, url)) {
      ReconcileNotifies(h, obs, now, i);
    }
  }

  /** No two observations share an identity. */
  predicate DistinctIds(obs: seq<Observation>)
  {
    forall i, j :: 0 <= i < j < |obs| ==> Id(obs[i]) != Id(obs[j])
  }

  /** The notifications a cycle is meant to send, read off the history as it
      was before the cycle: one per in-stock observation whose identity the
      history did not record as in stock, in observation order. */
  function FreshRestocks(m: map<string, Value>, obs: seq<Observation>): (events: seq<Event>)
    ensures |events| <= |obs|
  {
    if |obs| == 0 then []
    else
      var o := obs[|obs| - 1];
      FreshRestocks(m, obs[..|obs| - 1])
      + (if !o.soldOut && !RecordedInStock(m, Id(o)) then [Restock(o.name, o.url)] else [])
  }

  /** When every observation has its own identity, the cycle's events are
      exactly the fresh restocks measured against the starting history. */
  lemma {:induction false} DistinctCycleEvents(h: History, obs: seq<Observation>, now: string)
    requires DistinctIds(obs)
    ensures Fold(h, obs, now).1 == FreshRestocks(ToMap(h), obs)
    decreases |obs|
  {
    if |obs| > 0 {
      var init := obs[..|obs| - 1];
      var o := obs[|obs| - 1];
      assert DistinctIds(init) by {
        assert forall i :: 0 <= i < |init| ==> init[i] == obs[i];
      }
      DistinctCycleEvents(h, init, now);
      ReconcileHistory(h, init, now);
      assert Id(o) !in Ids(init) by {
        forall x | x in init ensures Id(x) != Id(o) {
          var i :| 0 <= i < |init| && init[i] == x;
          assert obs[i] == x;
        }
      }
      var m := ToMap(Fold(h, init, now).0);
      assert RecordedInStock(m, Id(o)) == RecordedInStock(ToMap(h), Id(o));
    }
  }

  /** A cycle never creates a repeated key. */
  lemma {:induction false} ReconcileKeepsWf(h: History, obs: seq<Observation>, now: string)
    requires Wf(h)
    ensures Wf(Fold(h, obs, now).0)
    decreases |obs|
  {
    if |obs| > 0 {
      var init := obs[..|obs| - 1];
      var o := obs[|obs| - 1];
      ReconcileKeepsWf(h, init, now);
      PutKeepsWf(Fold(h, init, now).0, Id(o), Stamp(o, now));
    }
  }

  /** The sold-out flag recorded for `k`, when `k` holds a record with one. */
  function RecordedFlag(m: map<string, Value>, k: string): Option<bool>
  {
    if k in m && m[k].Record? then m[k].soldOut else None
  }

  /** Observations that agree on the state of every identity they mention. */
  predicate Consistent(obs: seq<Observation>)
  {
    forall i, j :: 0 <= i < |obs| && 0 <= j < |obs| && Id(obs[i]) == Id(obs[j]) ==>
      obs[i].soldOut == obs[j].soldOut
  }

  /** The history records, for every observation in `all`, that observation's
      state. */
  predicate Settled(m: map<string, Value>, all: seq<Observation>)
  {
    forall i :: 0 <= i < |all| ==> RecordedFlag(m, Id(all[i])) == Some(all[i].soldOut)
  }

  /** After folding in consistent observations, the history records each of
      their states. */
  lemma {:induction false} ReconcileSettles(h: History, obs: seq<Observation>, now: string)
    requires Consistent(obs)
    ensures Settled(ToMap(Fold(h, obs, now).0), obs)
    decreases |obs|
  {
    if |obs| > 0 {
      var init := obs[..|obs| - 1];
      var o := obs[|obs| - 1];
      assert Consistent(init) by {
        forall i, j | 0 <= i < |init| && 0 <= j < |init| && Id(init[i]) == Id(init[j])
          ensures init[i].soldOut == init[j].soldOut
        {
          assert init[i] == obs[i] && init[j] == obs[j];
        }
      }
      ReconcileSettles(h, init, now);
      forall i | 0 <= i < |obs| - 1
        ensures RecordedFlag(ToMap(Fold(h, obs, now).0), Id(obs[i])) == Some(obs[i].soldOut)
      {
        assert init[i] == obs[i];
      }
    }
  }

  /** Folding observations into a history that already records their
      states emits nothing and keeps it that way. */
  lemma {:induction false} SettledIsQuiet(h: History, pre: seq<Observation>, all: seq<Observation>, now: string)
    requires Consistent(all)
    requires Settled(ToMap(h), all)
    requires forall o :: o in pre ==> o in all
    ensures Settled(ToMap(Fold(h, pre, now).0), all)
    ensures Fold(h, pre, now).1 == []
    decreases |pre|
  {
    if |pre| > 0 {
      var init := pre[..|pre| - 1];
      var o := pre[|pre| - 1];
      assert forall x :: x in init ==> x in pre;
      SettledIsQuiet(h, init, all, now);
      assert o in pre;
      SettledStep(Fold(h, init, now).0, o, all, now);
    }
  }

  /** One observation drawn from a consistent, settled set changes no
      recorded state and sends no notification. */
  lemma SettledStep(h: History, o: Observation, all: seq<Observation>, now: string)
    requires Consistent(all)
    requires Settled(ToMap(h), all)
    requires o in all
    ensures Settled(ToMap(Observe(h, o, now).0), all)
    ensures !Observe(h, o, now).1
  {
    var j :| 0 <= j < |all| && all[j] == o;
    var m2 := ToMap(Observe(h, o, now).0);
    assert RecordedFlag(ToMap(h), Id(o)) == Some(o.soldOut);
    forall i | 0 <= i < |all|
      ensures RecordedFlag(m2, Id(all[i])) == Some(all[i].soldOut)
    {
      if Id(all[i]) == Id(o) {
        assert all[i].soldOut == all[j].soldOut;
      }
    }
  }

  /** Running a cycle a second time on the same observations sends no
      notification, provided the cycle does not report one identity both in
      and out of stock. */
  lemma SecondPassQuiet(h: History, obs: seq<Observation>, t1: string, t2: string)
    requires Consistent(obs)
    ensures Fold(Fold(h, obs, t1).0, obs, t2).1 == []
  {
    ReconcileSettles(h, obs, t1);
    SettledIsQuiet(Fold(h, obs, t1).0, obs, obs, t2);
  }

  /** Two cards with the same name on the same page collapse into one entry,
      and the later card's state is the one kept. */
  lemma SameNameLaterWins(h: History, first: Observation, second: Observation, now: string)
    requires first.name == second.name && first.url == second.url
    ensures var final := Fold(h, [first, second], now).0;
            && |Keys(final)| <= |Keys(h)| + 1
            && ToMap(final)[Id(second)] == Stamp(second, now)
  {
    ReconcileSnoc(h, [], first, now);
    ReconcileSnoc(h, [first], second, now);
    assert [] + [first] == [first] && [first] + [second] == [first, second];
    var h1 := Observe(h, first, now).0;
    assert Id(second) in Keys(h1);
  }

  /** The identity is unambiguous as long as urls contain no `_`, which holds
      for every configured url. */
  lemma IdentityInjective(n1: string, u1: string, n2: string, u2: string)
    requires '_' !in u1 && '_' !in u2
    requires Identity(n1, u1) == Identity(n2, u2)
    ensures n1 == n2 && u1 == u2
  {
    var s := Identity(n1, u1);
    UrlIsLastPart(n1, u1);
    UrlIsLastPart(n2, u2);
    assert u1 == s[|s| - |u1|..] == u2;
    assert n1 == s[..|n1|] == n2;
  }

  /** Length of the longest suffix of `s` without `_`. */
  function LastPartLength(s: string): (n: nat)
    ensures n <= |s|
  {
    if |s| == 0 || s[|s| - 1] == '_' then 0 else 1 + LastPartLength(s[..|s| - 1])
  }

  /** In an identity built from a url without `_`, the url is exactly the
      part after the last `_`. */
  lemma {:induction false} UrlIsLastPart(name: string, url: string)
    requires '_' !in url
    ensures LastPartLength(Identity(name, url)) == |url|
    decreases |url|
  {
    if |url| > 0 {
      var u' := url[..|url| - 1];
      assert url[|url| - 1] in url;
      assert Identity(name, url)[..|Identity(name, url)| - 1] == Identity(name, u');
      assert forall c :: c in u' ==> c in url;
      UrlIsLastPart(name, u');
    }
  }

  /** Without that condition two products can share one identity. */
  lemma IdentityCollision()
    ensures Identity("a_b", "c") == Identity("a", "b_c")
  {
  }

  /** Observations of a concatenation of scans are the concatenation of their
      observations. */
  lemma {:induction false} ObservationsAppend(a: seq<Scan>, b: seq<Scan>)
    ensures Observations(a + b) == Observations(a) + Observations(b)
    decreases |b|
  {
    if |b| == 0 {
      assert a + b == a;
    } else {
      var b', x := b[..|b| - 1], b[|b| - 1];
      calc {
        Observations(a + b);
      == { DropLast(a, b); }
        Observations(a + b') + ScanObservations(x);
      == { ObservationsAppend(a, b'); }
        Observations(a) + Observations(b') + ScanObservations(x);
      }
    }
  }

  /** A target whose fetch failed does not affect the cycle: the cycle gives
      the same history and events as the cycle without that target. */
  lemma FailedFetchSkipped(h: History, scans: seq<Scan>, i: nat, now: string)
    requires i < |scans| && scans[i].page.None?
    ensures Observations(scans) == Observations(scans[..i] + scans[i + 1..])
    ensures Fold(h, Observations(scans), now)
         == Fold(h, Observations(scans[..i] + scans[i + 1..]), now)
  {
    var pre, post := scans[..i], scans[i + 1..];
    var before, after := Observations(pre), Observations(post);
    ObservationsAround(scans, i);
    assert ScanObservations(scans[i]) == [];
    AppendEmpty(before);
    ObservationsAppend(pre, post);
    assert Observations(scans) == before + after;
  }

  /** The observations of one more scan. */
  lemma ObservationsSnoc(scans: seq<Scan>, i: nat)
    requires i < |scans|
    ensures Observations(scans[..i + 1]) == Observations(scans[..i]) + ScanObservations(scans[i])
  {
    assert scans[..i + 1][..i] == scans[..i];
  }

  lemma CardObservationsSnoc(target: Target, cards: seq<Card>, j: nat)
    requires j < |cards|
    ensures CardObservations(target, cards[..j + 1])
         == CardObservations(target, cards[..j]) + OptionToSeq(CardObservation(target, cards[j]))
  {
    assert cards[..j + 1][..j] == cards[..j];
  }

  /** Folding `a + b` is folding `a`, then folding `b` from where `a` left
      the history, with the events of both in order. */
  lemma {:induction false} ReconcileAppend(h: History, a: seq<Observation>, b: seq<Observation>, now: string)
    ensures Fold(h, a + b, now).0 == Fold(Fold(h, a, now).0, b, now).0
    ensures Fold(h, a + b, now).1 == Fold(h, a, now).1 + Fold(Fold(h, a, now).0, b, now).1
    decreases |b|
  {
    if |b| == 0 {
      assert a + b == a;
    } else {
      var b', x := b[..|b| - 1], b[|b| - 1];
      SplitLast(a, b);
      var r1 := Fold(h, a, now);
      ReconcileAppend(h, a, b', now);
      ReconcileSnoc(h, a + b', x, now);
      ReconcileSnoc(r1.0, b', x, now);
      AbsorbPrefix(Fold(h, a + b', now), Fold(r1.0, b', now), r1.1, x, now);
    }
  }

  lemma SplitLast<T>(a: seq<T>, b: seq<T>)
    requires |b| > 0
    ensures b == b[..|b| - 1] + [b[|b| - 1]]
    ensures a + b == (a + b[..|b| - 1]) + [b[|b| - 1]]
  {
  }

  /** The last element of a non-empty `b`, seen inside `a + b`. */
  lemma DropLast<T>(a: seq<T>, b: seq<T>)
    requires |b| > 0
    ensures (a + b)[..|a + b| - 1] == a + b[..|b| - 1]
    ensures (a + b)[|a + b| - 1] == b[|b| - 1]
  {
  }

  /** `s` split right after position `i`. */
  lemma SplitAt<T>(s: seq<T>, i: nat)
    requires i < |s|
    ensures s == s[..i + 1] + s[i + 1..]
    ensures s[..i + 1][..i] == s[..i] && s[..i + 1][i] == s[i] && |s[..i + 1]| == i + 1
  {
  }

  lemma AppendEmpty<T>(s: seq<T>)
    ensures s + [] == s
  {
  }

  lemma WholeSlice<T>(s: seq<T>)
    ensures s[..|s|] == s
  {
  }

  /** Absorbing into accumulators that differ only by a prefix of events. */
  lemma AbsorbPrefix(acc: (History, seq<Event>), acc': (History, seq<Event>), prefix: seq<Event>,
                     o: Observation, now: string)
    requires acc.0 == acc'.0 && acc.1 == prefix + acc'.1
    ensures Absorb(acc, o, now).0 == Absorb(acc', o, now).0
    ensures Absorb(acc, o, now).1 == prefix + Absorb(acc', o, now).1
  {
  }

  /** The inner loop of `run` over one target's cards: classify each card and
      fold the usable ones into the history. */
  method ScanTarget(history: History, scan: Scan, now: string) returns (h: History, events: seq<Event>)
    ensures (h, events) == Fold(history, ScanObservations(scan), now)
  {
    h, events := history, [];
    if scan.page.None? {
      return;
    }
    var cards := scan.page.value;
    var j := 0;
    while j < |cards|
      invariant 0 <= j <= |cards|
      invariant (h, events) == Fold(history, CardObservations(scan.target, cards[..j]), now)
    {
      ghost var before := CardObservations(scan.target, cards[..j]);
      CardObservationsSnoc(scan.target, cards, j);
      var verdict := CheckStock(cards[j], scan.target.selectors);
      if verdict.Product? && verdict.name != "" {
        var o := Observation(verdict.name, scan.target.url, verdict.soldOut);
        var id := Identity(o.name, o.url);
        var notify := WasSoldOut(Get(h, id)) && !o.soldOut;
        h := Put(h, id, Stamp(o, now));
        if notify {
          events := events + [Restock(o.name, o.url)];
        }
        ReconcileSnoc(history, before, o, now);
      } else {
        AppendEmpty(before);
      }
      j := j + 1;
    }
    WholeSlice(cards);
  }

  /** `run`: one scan cycle over every target. It computes the same history
      and events as folding the cycle's observations. */
  method Run(history: History, scans: seq<Scan>, now: string) returns (h: History, events: seq<Event>)
    ensures (h, events) == Fold(history, Observations(scans), now)
    ensures Wf(history) ==> Wf(h)
  {
    h, events := history, [];
    var i := 0;
    while i < |scans|
      invariant 0 <= i <= |scans|
      invariant (h, events) == Fold(history, Observations(scans[..i]), now)
    {
      var found;
      h, found := ScanTarget(h, scans[i], now);
      events := events + found;
      ObservationsSnoc(scans, i);
      ReconcileAppend(history, Observations(scans[..i]), ScanObservations(scans[i]), now);
      i := i + 1;
    }
    WholeSlice(scans);
    if Wf(history) {
      ReconcileKeepsWf(history, Observations(scans), now);
    }
  }
}
