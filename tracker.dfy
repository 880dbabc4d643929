/**
 * The tracker's state and its operations: the catalog of tracked products
 * (an insertion-ordered dictionary from id to url, name and last price), the
 * price history file, the saved catalog file and the alerts sent.
 */
module Tracker {
  import opened Wrappers
  import opened Prices
  import opened ChangeRule
  import opened History
  import opened ProductIds
  import opened Fetch

  /** One catalog entry: `{"url": ..., "name": ..., "last_price": ...}`. */
  datatype Product = Product(url: string, name: string, lastPrice: real)

  /**
   * The catalog: `entries` maps each id to its product and `ids` lists the
   * ids in the dictionary's insertion order, each once.
   */
  datatype Catalog = Catalog(ids: seq<string>, entries: map<string, Product>)
  {
    predicate Valid()
    {
      && (forall i, j :: 0 <= i < j < |ids| ==> ids[i] != ids[j])
      && (forall id :: id in entries ==> id in ids)
      && (forall i :: 0 <= i < |ids| ==> ids[i] in entries)
    }

    /** A new id goes last in the order; every other entry is kept. */
    function Insert(id: string, p: Product): (c: Catalog)
      requires Valid() && id !in entries
      ensures c.Valid()
      ensures c.ids == ids + [id] && c.entries.Keys == entries.Keys + {id}
      ensures c.entries[id] == p && forall k :: k in entries ==> c.entries[k] == entries[k]
    {
      Catalog(ids + [id], entries[id := p])
    }

    /** `del` of the id at position `k` of the order; every other entry and the order of the rest are kept. */
    function Delete(k: nat): (c: Catalog)
      requires Valid() && k < |ids|
      ensures c.Valid()
      ensures c.ids == ids[..k] + ids[k + 1..]
      ensures c.entries.Keys == entries.Keys - {ids[k]}
      ensures forall id :: id in c.entries ==> c.entries[id] == entries[id]
    {
      var rest := ids[..k] + ids[k + 1..];
      RemoveAtIndex(ids, k);
      Catalog(rest, entries - {ids[k]})
    }
  }

  /** Taking out position `k` of a list without repeats leaves every other element, once, and not that one. */
  lemma RemoveAtIndex(ids: seq<string>, k: nat)
    requires k < |ids| && forall i, j :: 0 <= i < j < |ids| ==> ids[i] != ids[j]
    ensures var rest := ids[..k] + ids[k + 1..];
      && (forall i, j :: 0 <= i < j < |rest| ==> rest[i] != rest[j])
      && (forall i :: 0 <= i < |rest| ==> rest[i] in ids && rest[i] != ids[k])
      && (forall id :: id in ids && id != ids[k] ==> id in rest)
  {
    var rest := ids[..k] + ids[k + 1..];
    assert forall i :: 0 <= i < |rest| ==> rest[i] == if i < k then ids[i] else ids[i + 1];
    forall id | id in ids && id != ids[k] ensures id in rest {
      var i :| 0 <= i < |ids| && ids[i] == id;
      assert rest[if i < k then i else i - 1] == id;
    }
  }

  /** Deleting the entry just inserted gives back the catalog as it was. */
  lemma DeleteUndoesInsert(c: Catalog, id: string, p: Product)
    requires c.Valid() && id !in c.entries
    ensures c.Insert(id, p).Delete(|c.ids|) == c
  {
    var d := c.Insert(id, p).Delete(|c.ids|);
    assert d.ids == c.ids;
    assert d.entries == c.entries;
  }

  /** An alert handed to the mail channel: its subject's class and the message data. */
  datatype Alert = Alert(subject: Subject, name: string, current: real, previous: Option<real>, url: string, timestamp: string)

  /**
   * What one run of the check is given: what fetching each retrieved url
   * gives, the run's timestamp, the ids whose CSV write fails, the email switch.
   */
  datatype CheckInputs = CheckInputs(fetched: map<string, Option<Details>>, timestamp: string, csvFailures: set<string>, emailEnabled: bool)

  /** `fetch_product_details(url)` for every page retrieved in a run. */
  function FetchAll(pages: map<string, Page>): (m: map<string, Option<Details>>)
    ensures m.Keys == pages.Keys
    ensures forall u :: u in m ==> m[u] == FetchProductDetails(pages, u)
  {
    map u | u in pages :: FetchProductDetails(pages, u)
  }

  /** What fetching `url` gave in a run: nothing for a page that was not retrieved. */
  function FetchedFor(env: CheckInputs, url: string): Option<Details>
  {
    if url in env.fetched then env.fetched[url] else None
  }

  /** The state a run of the check carries from one product to the next. */
  datatype Pass = Pass(entries: map<string, Product>, history: HistoryFile, outbox: seq<Alert>, changes: nat, dirty: bool)

  /**
   * A product after a check: unchanged when the fetch failed; otherwise with
   * the fetched name, and with the fetched price when the rule records it.
   */
  function Refreshed(product: Product, fetched: Option<Details>, last: Option<real>): Product
  {
    match fetched
    case None => product
    case Some(d) => product.(name := d.name, lastPrice := if ShouldRecord(d.price, last) then d.price else product.lastPrice)
  }

  /** The body of the check loop for the product `id`. */
  function CheckProduct(p: Pass, id: string, env: CheckInputs): (q: Pass)
    requires id in p.entries
    ensures q.entries.Keys == p.entries.Keys
  {
    var product := p.entries[id];
    var fetched := FetchedFor(env, product.url);
    match fetched
    case None => p
    case Some(d) =>
      var last := LastLoggedPrice(p.history, id);
      var entries := p.entries[id := Refreshed(product, fetched, last)];
      if ShouldRecord(d.price, last) then
        var saved := id !in env.csvFailures;
        Pass(entries,
             if saved then Appended(p.history, PriceRow(env.timestamp, d.name, d.price, product.url, id)) else p.history,
             if env.emailEnabled then p.outbox + [Alert(SubjectOf(d.price, last), d.name, d.price, last, product.url, env.timestamp)]
             else p.outbox,
             if saved then p.changes + 1 else p.changes,
             true)
      else
        Pass(entries, p.history, p.outbox, p.changes, p.dirty || product.name != d.name)
  }

  /** The check loop over `ids`, in order. */
  function CheckProducts(p: Pass, ids: seq<string>, env: CheckInputs): (q: Pass)
    requires forall i :: 0 <= i < |ids| ==> ids[i] in p.entries
    ensures q.entries.Keys == p.entries.Keys
    decreases |ids|
  {
    if ids == [] then p
    else CheckProduct(CheckProducts(p, ids[..|ids| - 1], env), ids[|ids| - 1], env)
  }

  /** Running one more product of the list extends the run over the prefix by one step. */
  lemma CheckProductsSnoc(p: Pass, ids: seq<string>, i: nat, env: CheckInputs)
    requires i < |ids| && forall j :: 0 <= j < |ids| ==> ids[j] in p.entries
    ensures CheckProducts(p, ids[..i + 1], env) == CheckProduct(CheckProducts(p, ids[..i], env), ids[i], env)
  {
    assert ids[..i + 1][..i] == ids[..i];
  }

  predicate Distinct(ids: seq<string>)
  {
    forall i, j :: 0 <= i < j < |ids| ==> ids[i] != ids[j]
  }

  /** One product's step writes no row that another id matches. */
  lemma CheckProductKeepsOtherHistory(p: Pass, x: string, env: CheckInputs, id: string)
    requires x in p.entries && x != id
    ensures LastLoggedPrice(CheckProduct(p, x, env).history, id) == LastLoggedPrice(p.history, id)
  {
    var product := p.entries[x];
    var d := FetchedFor(env, product.url);
    if d.Some? {
      LastLoggedPriceIgnoresOthers(p.history, PriceRow(env.timestamp, d.value.name, d.value.price, product.url, x), id);
    }
  }

  /** A run only appends rows for the ids it visits, so any other id's last logged price stays as it was. */
  lemma {:induction false} CheckProductsKeepsOtherHistory(p: Pass, ids: seq<string>, env: CheckInputs, id: string)
    requires forall i :: 0 <= i < |ids| ==> ids[i] in p.entries
    requires id !in ids
    ensures LastLoggedPrice(CheckProducts(p, ids, env).history, id) == LastLoggedPrice(p.history, id)
    decreases |ids|
  {
    if ids != [] {
      var init := ids[..|ids| - 1];
      assert id !in init by {
        assert forall i :: 0 <= i < |init| ==> init[i] == ids[i];
      }
      CheckProductsKeepsOtherHistory(p, init, env, id);
      CheckProductKeepsOtherHistory(CheckProducts(p, init, env), ids[|ids| - 1], env, id);
    }
  }

  /**
   * Every product is refreshed against the history as it was before the run,
   * not against the catalog's own last price; products not visited are untouched.
   */
  lemma {:induction false} CheckProductsEntry(p: Pass, ids: seq<string>, env: CheckInputs, id: string)
    requires forall i :: 0 <= i < |ids| ==> ids[i] in p.entries
    requires Distinct(ids) && id in p.entries
    ensures var q := CheckProducts(p, ids, env);
      q.entries[id] == if id in ids then Refreshed(p.entries[id], FetchedFor(env, p.entries[id].url), LastLoggedPrice(p.history, id))
                       else p.entries[id]
    decreases |ids|
  {
    if ids != [] {
      var init := ids[..|ids| - 1];
      var x := ids[|ids| - 1];
      assert forall i :: 0 <= i < |init| ==> init[i] == ids[i];
      assert x !in init;
      assert id in ids <==> id in init || id == x;
      CheckProductsEntry(p, init, env, id);
      if id == x {
        CheckProductsKeepsOtherHistory(p, init, env, x);
      }
    }
  }

  /**
   * The per-product properties of a run, for one product: a failed fetch leaves
   * it as it was, its url never changes, and its last price changes only when
   * the rule records the fetched price against the logged history.
   */
  lemma CheckProductsProductFacts(p: Pass, ids: seq<string>, env: CheckInputs, id: string)
    requires forall i :: 0 <= i < |ids| ==> ids[i] in p.entries
    requires Distinct(ids) && id in p.entries
    ensures var q := CheckProducts(p, ids, env);
      var d := FetchedFor(env, p.entries[id].url);
      && (d.None? ==> q.entries[id] == p.entries[id])
      && q.entries[id].url == p.entries[id].url
      && (q.entries[id].lastPrice != p.entries[id].lastPrice ==>
            id in ids && d.Some? && ShouldRecord(d.value.price, LastLoggedPrice(p.history, id)) && q.entries[id].lastPrice == d.value.price)
  {
    CheckProductsEntry(p, ids, env, id);
  }

  /** Appending never leaves a file that exists but is empty. */
  lemma {:induction false} CheckProductsNonEmptyHistory(p: Pass, ids: seq<string>, env: CheckInputs)
    requires forall i :: 0 <= i < |ids| ==> ids[i] in p.entries
    requires p.history != File([])
    ensures CheckProducts(p, ids, env).history != File([])
    decreases |ids|
  {
    if ids != [] {
      CheckProductsNonEmptyHistory(p, ids[..|ids| - 1], env);
    }
  }

  /** One product's step leaves that product's last logged price at the rounded new price exactly when it records and writes it. */
  lemma CheckProductLastLogged(p: Pass, x: string, env: CheckInputs)
    requires x in p.entries && p.history != File([])
    ensures var d := FetchedFor(env, p.entries[x].url);
      var last := LastLoggedPrice(p.history, x);
      LastLoggedPrice(CheckProduct(p, x, env).history, x) ==
        if d.Some? && ShouldRecord(d.value.price, last) && x !in env.csvFailures then Some(RoundCents(d.value.price)) else last
  {
    var d := FetchedFor(env, p.entries[x].url);
    if d.Some? {
      LastLoggedPriceOfAppended(p.history, env.timestamp, d.value.name, d.value.price, p.entries[x].url, x);
    }
  }

  /**
   * After a run, the history answers for each visited product with the price
   * just recorded for it (rounded to cents), or with what it held before
   * when nothing was recorded or the write failed.
   */
  lemma {:induction false} CheckProductsLastLogged(p: Pass, ids: seq<string>, env: CheckInputs, id: string)
    requires forall i :: 0 <= i < |ids| ==> ids[i] in p.entries
    requires Distinct(ids) && id in ids
    requires p.history != File([])
    ensures var d := FetchedFor(env, p.entries[id].url);
      var last := LastLoggedPrice(p.history, id);
      LastLoggedPrice(CheckProducts(p, ids, env).history, id) ==
        if d.Some? && ShouldRecord(d.value.price, last) && id !in env.csvFailures then Some(RoundCents(d.value.price)) else last
    decreases |ids|
  {
    var init := ids[..|ids| - 1];
    var x := ids[|ids| - 1];
    assert forall i :: 0 <= i < |init| ==> init[i] == ids[i];
    assert x !in init;
    var q := CheckProducts(p, init, env);
    CheckProductsNonEmptyHistory(p, init, env);
    if id == x {
      CheckProductsKeepsOtherHistory(p, init, env, x);
      CheckProductsEntry(p, init, env, x);
      CheckProductLastLogged(q, x, env);
    } else {
      assert id in init;
      CheckProductsLastLogged(p, init, env, id);
      CheckProductKeepsOtherHistory(q, x, env, id);
    }
  }

  /** The counting facts of a run, for a single product's step. */
  lemma CheckProductCounts(p: Pass, x: string, env: CheckInputs)
    requires x in p.entries
    ensures var q := CheckProduct(p, x, env);
      && p.changes <= q.changes <= p.changes + 1
      && |Rows(p.history)| <= |Rows(q.history)|
      && Rows(p.history) == Rows(q.history)[..|Rows(p.history)|]
      && |Rows(q.history)| == |Rows(p.history)| + (q.changes - p.changes) + (if p.history.Absent? && q.changes > p.changes then 1 else 0)
      && (q.history.Absent? <==> p.history.Absent? && q.changes == p.changes)
      && (!env.emailEnabled ==> q.outbox == p.outbox)
  {
  }

  /**
   * One product's step writes a history row exactly when the fetch succeeds,
   * the rule records the price and the write succeeds, and that row is the
   * price row for the fetched details; it queues an alert exactly when the
   * fetch succeeds, the rule records and email is on, and that alert carries
   * the subject class of the change against the logged price.
   */
  lemma CheckProductAppendsIff(p: Pass, x: string, env: CheckInputs)
    requires x in p.entries
    ensures var d := FetchedFor(env, p.entries[x].url);
      var q := CheckProduct(p, x, env);
      var records := d.Some? && ShouldRecord(d.value.price, LastLoggedPrice(p.history, x));
      && (q.history != p.history <==> records && x !in env.csvFailures)
      && (q.history != p.history ==>
            q.history == Appended(p.history, PriceRow(env.timestamp, d.value.name, d.value.price, p.entries[x].url, x)))
      && (q.outbox != p.outbox <==> records && env.emailEnabled)
      && (q.outbox != p.outbox ==>
            q.outbox == p.outbox + [Alert(SubjectOf(d.value.price, LastLoggedPrice(p.history, x)), d.value.name, d.value.price,
                                          LastLoggedPrice(p.history, x), p.entries[x].url, env.timestamp)])
  {
    var d := FetchedFor(env, p.entries[x].url);
    if d.Some? {
      var row := PriceRow(env.timestamp, d.value.name, d.value.price, p.entries[x].url, x);
      assert |Rows(Appended(p.history, row))| > |Rows(p.history)|;
      var a := Alert(SubjectOf(d.value.price, LastLoggedPrice(p.history, x)), d.value.name, d.value.price,
                     LastLoggedPrice(p.history, x), p.entries[x].url, env.timestamp);
      assert |p.outbox + [a]| > |p.outbox|;
    }
  }

  /**
   * A run keeps every earlier history row, adds exactly one row per change it
   * counts (plus the header if it created the file), counts at most one change
   * per product, and leaves alerts alone when email is off.
   */
  lemma {:induction false} CheckProductsCounts(p: Pass, ids: seq<string>, env: CheckInputs)
    requires forall i :: 0 <= i < |ids| ==> ids[i] in p.entries
    ensures var q := CheckProducts(p, ids, env);
      && p.changes <= q.changes <= p.changes + |ids|
      && |Rows(p.history)| <= |Rows(q.history)|
      && Rows(p.history) == Rows(q.history)[..|Rows(p.history)|]
      && |Rows(q.history)| == |Rows(p.history)| + (q.changes - p.changes) + (if p.history.Absent? && q.changes > p.changes then 1 else 0)
      && (q.history.Absent? <==> p.history.Absent? && q.changes == p.changes)
      && (!env.emailEnabled ==> q.outbox == p.outbox)
    decreases |ids|
  {
    if ids != [] {
      var init := ids[..|ids| - 1];
      CheckProductsCounts(p, init, env);
      var q := CheckProducts(p, init, env);
      CheckProductCounts(q, ids[|ids| - 1], env);
      var r := CheckProducts(p, ids, env);
      assert Rows(q.history) == Rows(r.history)[..|Rows(q.history)|];
      assert Rows(p.history) == Rows(q.history)[..|Rows(p.history)|];
      assert Rows(p.history) == Rows(r.history)[..|Rows(p.history)|];
    }
  }

  /** A single product's step that sets no dirty flag changed no entry and wrote no history row. */
  lemma CheckProductClean(p: Pass, x: string, env: CheckInputs)
    requires x in p.entries
    ensures var q := CheckProduct(p, x, env);
      !q.dirty ==> !p.dirty && q.entries == p.entries && q.history == p.history && q.changes == p.changes
  {
    var product := p.entries[x];
    var d := FetchedFor(env, product.url);
    if d.Some? && !ShouldRecord(d.value.price, LastLoggedPrice(p.history, x)) && product.name == d.value.name {
      assert Refreshed(product, d, LastLoggedPrice(p.history, x)) == product;
      assert p.entries[x := product] == p.entries;
    }
  }

  /** A run that sets no dirty flag changed no entry and wrote no history row. */
  lemma {:induction false} CheckProductsClean(p: Pass, ids: seq<string>, env: CheckInputs)
    requires forall i :: 0 <= i < |ids| ==> ids[i] in p.entries
    ensures var q := CheckProducts(p, ids, env);
      !q.dirty ==> !p.dirty && q.entries == p.entries && q.history == p.history && q.changes == p.changes
    decreases |ids|
  {
    if ids != [] {
      CheckProductsClean(p, ids[..|ids| - 1], env);
      CheckProductClean(CheckProducts(p, ids[..|ids| - 1], env), ids[|ids| - 1], env);
    }
  }

  /** The step for a product whose fetch succeeded, with its parts spelled out. */
  lemma CheckProductFetched(p: Pass, id: string, env: CheckInputs, d: Details)
    requires id in p.entries && FetchedFor(env, p.entries[id].url) == Some(d)
    ensures var product := p.entries[id];
      var last := LastLoggedPrice(p.history, id);
      var named := p.entries[id := product.(name := d.name)];
      CheckProduct(p, id, env) ==
        if ShouldRecord(d.price, last) then
          Pass(named[id := named[id].(lastPrice := d.price)],
               if id !in env.csvFailures then Appended(p.history, PriceRow(env.timestamp, d.name, d.price, product.url, id)) else p.history,
               if env.emailEnabled then p.outbox + [Alert(SubjectOf(d.price, last), d.name, d.price, last, product.url, env.timestamp)] else p.outbox,
               if id !in env.csvFailures then p.changes + 1 else p.changes,
               true)
        else
          Pass(named, p.history, p.outbox, p.changes, p.dirty || product.name != d.name)
  {
    var product := p.entries[id];
    var named := p.entries[id := product.(name := d.name)];
    assert named[id := named[id].(lastPrice := d.price)] == p.entries[id := product.(name := d.name, lastPrice := d.price)];
  }

  /** The tracker's global state, updated in place by its operations. */
  class PriceTracker {
    /** `TRACKED_PRODUCTS` */
    var catalog: Catalog
    /** The history CSV file */
    var history: HistoryFile
    /** The catalog as last written to the products JSON file, if it ever was */
    var stored: Option<Catalog>
    /** `EMAIL_ENABLED` */
    var emailEnabled: bool
    /** Every alert handed to the mail channel, in order */
    var outbox: seq<Alert>

    ghost predicate Valid()
      reads this
    {
      catalog.Valid()
    }

    /** The state after loading: the files' contents are given. */
    constructor (catalog: Catalog, history: HistoryFile, stored: Option<Catalog>, emailEnabled: bool)
      requires catalog.Valid()
      ensures Valid()
      ensures this.catalog == catalog && this.history == history && this.stored == stored
      ensures this.emailEnabled == emailEnabled && outbox == []
    {
      this.catalog := catalog;
      this.history := history;
      this.stored := stored;
      this.emailEnabled := emailEnabled;
      outbox := [];
    }

    /** `save_tracked_products`: writes the whole catalog; `ok` says whether the write succeeds. */
    method SaveTrackedProducts(ok: bool) returns (saved: bool)
      modifies this`stored
      ensures saved == ok
      ensures stored == if ok then Some(catalog) else old(stored)
    {
      if ok {
        stored := Some(catalog);
      }
      saved := ok;
    }

    /** `save_to_csv`: appends one row (after the header on a new file); `ok` says whether the write succeeds. */
    method SaveToCsv(timestamp: string, name: string, price: real, url: string, id: string, ok: bool) returns (saved: bool)
      modifies this`history
      ensures saved == ok
      ensures history == if ok then Appended(old(history), PriceRow(timestamp, name, price, url, id)) else old(history)
    {
      if ok {
        history := Appended(history, PriceRow(timestamp, name, price, url, id));
      }
      saved := ok;
    }

    /**
     * One pass of the loop in `check_all_products` for the product `id`, given
     * what fetching its url gave: on success refresh its name, and when the rule fires log the price, set
     * the last price, queue an alert and count the change if the row was written.
     */
    method CheckProductStep(id: string, fetched: Option<Details>, env: CheckInputs, changes: nat, dirty: bool)
      returns (changes': nat, dirty': bool)
      requires id in catalog.entries && env.emailEnabled == emailEnabled && fetched == FetchedFor(env, catalog.entries[id].url)
      modifies this`catalog, this`history, this`outbox
      ensures catalog.ids == old(catalog.ids) && emailEnabled == old(emailEnabled) && stored == old(stored)
      ensures Pass(catalog.entries, history, outbox, changes', dirty') ==
              CheckProduct(Pass(old(catalog.entries), old(history), old(outbox), changes, dirty), id, env)
    {
      changes', dirty' := changes, dirty;
      var product := catalog.entries[id];
      if fetched.None? {
        return;
      }
      var name, price := fetched.value.name, fetched.value.price;
      ghost var p := Pass(catalog.entries, history, outbox, changes, dirty);
      ghost var named := p.entries[id := product.(name := name)];
      CheckProductFetched(p, id, env, fetched.value);
      if product.name != name {
        catalog := catalog.(entries := catalog.entries[id := catalog.entries[id].(name := name)]);
        dirty' := true;
      } else {
        assert named == p.entries;
      }
      assert catalog.entries == named && dirty' == (dirty || product.name != name);
      var last := GetLastLoggedPrice(history, id);
      if ShouldRecord(price, last) {
        var saved := SaveToCsv(env.timestamp, name, price, product.url, id, id !in env.csvFailures);
        catalog := catalog.(entries := catalog.entries[id := catalog.entries[id].(lastPrice := price)]);
        dirty' := true;
        if emailEnabled {
          outbox := outbox + [Alert(SubjectOf(price, last), name, price, last, product.url, env.timestamp)];
        }
        if saved {
          changes' := changes' + 1;
        }
      }
    }

    /**
     * The loop of `check_all_products` over the catalog in order, given what
     * fetching each url gives: returns the count of written changes and
     * whether any entry was touched.
     */
    method CheckEachProduct(env: CheckInputs) returns (changes: nat, dirty: bool)
      requires env.emailEnabled == emailEnabled && Valid()
      modifies this
      ensures catalog.ids == old(catalog.ids) && emailEnabled == old(emailEnabled) && stored == old(stored)
      ensures Pass(catalog.entries, history, outbox, changes, dirty) ==
              CheckProducts(Pass(old(catalog.entries), old(history), old(outbox), 0, false), old(catalog.ids), env)
    {
      var ids := catalog.ids;
      ghost var start := Pass(catalog.entries, history, outbox, 0, false);
      changes, dirty := 0, false;
      for i := 0 to |ids|
        invariant catalog.ids == ids && emailEnabled == env.emailEnabled && stored == old(stored)
        invariant catalog.entries.Keys == start.entries.Keys
        invariant Pass(catalog.entries, history, outbox, changes, dirty) == CheckProducts(start, ids[..i], env)
      {
        CheckProductsSnoc(start, ids, i, env);
        var fetched := FetchedFor(env, catalog.entries[ids[i]].url);
        changes, dirty := CheckProductStep(ids[i], fetched, env, changes, dirty);
      }
      assert ids[..|ids|] == ids;
    }

    /**
     * `check_all_products`: fetches every tracked url, visits the products in
     * catalog order, refreshes names, records changed prices against the
     * history, counts the changes whose row was written, and saves the catalog
     * once if anything was touched.
     */
    method CheckAllProducts(pages: map<string, Page>, timestamp: string, csvFailures: set<string>, jsonOk: bool)
      returns (changes: nat)
      requires Valid()
      modifies this
      ensures Valid()
      ensures emailEnabled == old(emailEnabled)
      ensures var q := CheckProducts(Pass(old(catalog.entries), old(history), old(outbox), 0, false), old(catalog.ids),
                                     CheckInputs(FetchAll(pages), timestamp, csvFailures, old(emailEnabled)));
        && catalog == Catalog(old(catalog.ids), q.entries)
        && history == q.history && outbox == q.outbox && changes == q.changes
        && stored == if q.dirty && jsonOk then Some(catalog) else old(stored)
    {
      if |catalog.ids| == 0 {
        return 0;
      }
      var env := CheckInputs(FetchAll(pages), timestamp, csvFailures, emailEnabled);
      var dirty;
      changes, dirty := CheckEachProduct(env);
      if dirty {
        var _ := SaveTrackedProducts(jsonOk);
      }
    }

    /**
     * The second half of `add_product`, once the id is known to be new and the
     * fetch gave `d`: insert the product, log its first price, save the
     * catalog, raise a "new product" alert, and report whether both writes succeeded.
     */
    method TrackNewProduct(id: string, url: string, d: Details, timestamp: string, csvOk: bool, jsonOk: bool)
      returns (ok: bool)
      requires Valid() && id !in catalog.entries
      modifies this
      ensures Valid()
      ensures emailEnabled == old(emailEnabled)
      ensures catalog == old(catalog).Insert(id, Product(url, d.name, d.price))
      ensures history == if csvOk then Appended(old(history), PriceRow(timestamp, d.name, d.price, url, id)) else old(history)
      ensures stored == if jsonOk then Some(catalog) else old(stored)
      ensures outbox == old(outbox) + if emailEnabled then [Alert(NewProduct, d.name, d.price, None, url, timestamp)] else []
      ensures ok == (csvOk && jsonOk)
    {
      catalog := catalog.Insert(id, Product(url, d.name, d.price));
      var csvSaved := SaveToCsv(timestamp, d.name, d.price, url, id, csvOk);
      var jsonSaved := SaveTrackedProducts(jsonOk);
      if emailEnabled {
        outbox := outbox + [Alert(SubjectOf(d.price, None), d.name, d.price, None, url, timestamp)];
      }
      ok := csvSaved && jsonSaved;
    }

    /**
     * `add_product`: refuses a tracked id or a failed fetch without touching
     * anything; otherwise tracks the product as `TrackNewProduct` says.
     */
    method AddProduct(url: string, path: string, hashText: string, pages: map<string, Page>, timestamp: string,
                      csvOk: bool, jsonOk: bool) returns (ok: bool)
      requires Valid()
      modifies this
      ensures Valid()
      ensures emailEnabled == old(emailEnabled)
      ensures var id := ProductId(path, hashText);
        var d := FetchProductDetails(pages, url);
        if id in old(catalog.entries) || d.None? then
          && !ok
          && catalog == old(catalog) && history == old(history) && stored == old(stored) && outbox == old(outbox)
        else
          && catalog == old(catalog).Insert(id, Product(url, d.value.name, d.value.price))
          && history == (if csvOk then Appended(old(history), PriceRow(timestamp, d.value.name, d.value.price, url, id)) else old(history))
          && stored == (if jsonOk then Some(catalog) else old(stored))
          && outbox == old(outbox) + (if emailEnabled then [Alert(NewProduct, d.value.name, d.value.price, None, url, timestamp)] else [])
          && ok == (csvOk && jsonOk)
    {
      var id := GenerateProductId(path, hashText);
      if id in catalog.entries {
        return false;
      }
      var fetched := FetchProductDetails(pages, url);
      if fetched.None? {
        return false;
      }
      ok := TrackNewProduct(id, url, fetched.value, timestamp, csvOk, jsonOk);
    }

    /**
     * `remove_product` after the prompt: `choice` is the number typed (None
     * when it is not an integer). A choice from 1 to the catalog size deletes
     * that entry and saves the catalog; anything else changes nothing. The
     * history is never touched.
     */
    method RemoveProduct(choice: Option<int>, jsonOk: bool)
      requires Valid()
      modifies this`catalog, this`stored
      ensures Valid()
      ensures history == old(history) && outbox == old(outbox) && emailEnabled == old(emailEnabled)
      ensures if choice.Some? && 1 <= choice.value <= |old(catalog.ids)| then
          && catalog == old(catalog).Delete(choice.value - 1)
          && stored == (if jsonOk then Some(catalog) else old(stored))
        else
          catalog == old(catalog) && stored == old(stored)
    {
      var before := catalog;
      if |before.ids| == 0 || choice.None? {
        return;
      }
      var n := choice.value;
      if 1 <= n <= |before.ids| {
        var after := before.Delete(n - 1);
        assert after.Valid();
        catalog := after;
        var _ := SaveTrackedProducts(jsonOk);
      }
    }
  }
}
