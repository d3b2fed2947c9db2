/**
 * GET /goods/cart: the user's cart entries joined with the goods they
 * reference, through a dictionary keyed by goods id. A dangling reference
 * yields a line without goods.
 */
module CartView {
  import opened Wrappers
  import opened Catalog
  import opened Cart

  /** One line of the rendered cart: a quantity and a goods record, the record absent when the id is dangling. */
  datatype Line = Line(quantity: int, goods: Option<Goods>)

  /** The cart query filtered by user (app.js:164-166): the user's entries, in store order. */
  function EntriesOf(es: seq<Entry>, u: UserId): (r: seq<Entry>)
    ensures |r| <= |es|
    ensures forall e :: e in r <==> e in es && e.userId == u
  {
    if es == [] then []
    else
      assert es == [es[0]] + es[1..];
      (if es[0].userId == u then [es[0]] else []) + EntriesOf(es[1..], u)
  }

  /** The goods id of each cart entry, position by position (app.js:168). */
  function GoodsIds(cart: seq<Entry>): seq<GoodsId>
  {
    seq(|cart|, i requires 0 <= i < |cart| => cart[i].goodsId)
  }

  /** The goods query restricted to a list of ids (app.js:171-173): the matching records, in store order. */
  function SelectIds(gs: seq<Goods>, ids: seq<GoodsId>): (r: seq<Goods>)
    ensures forall g :: g in r <==> g in gs && g.goodsId in ids
  {
    if gs == [] then []
    else
      var last := gs[|gs| - 1];
      assert gs == gs[..|gs| - 1] + [last];
      SelectIds(gs[..|gs| - 1], ids) + (if last.goodsId in ids then [last] else [])
  }

  /** The dictionary from goods id to record built by a left fold (app.js:175-183): a later duplicate overwrites an earlier one. */
  function KeyById(gs: seq<Goods>): (m: map<GoodsId, Goods>)
    ensures m.Keys == set g | g in gs :: g.goodsId
    ensures forall k :: k in m ==> m[k] in gs && m[k].goodsId == k
  {
    if gs == [] then map[]
    else
      var last := gs[|gs| - 1];
      assert gs == gs[..|gs| - 1] + [last];
      KeyById(gs[..|gs| - 1])[last.goodsId := last]
  }

  /** Dictionary lookup (app.js:188): nothing when the key is missing. */
  function Get(m: map<GoodsId, Goods>, k: GoodsId): Option<Goods>
  {
    if k in m then Some(m[k]) else None
  }

  /** One line per cart entry with its quantity and the looked-up record (app.js:186-189). */
  function Lines(cart: seq<Entry>, byId: map<GoodsId, Goods>): seq<Line>
  {
    seq(|cart|, i requires 0 <= i < |cart| => Line(cart[i].quantity, Get(byId, cart[i].goodsId)))
  }

  /**
   * The cart view of user `u`: one line per cart entry of `u`, in the same
   * order, with the entry's quantity and the referenced goods record, or no
   * goods exactly when the catalog holds no record with that id.
   */
  function View(entries: seq<Entry>, catalog: seq<Goods>, u: UserId): (r: seq<Line>)
    ensures |r| == |EntriesOf(entries, u)|
    ensures forall i :: 0 <= i < |r| ==> r[i].quantity == EntriesOf(entries, u)[i].quantity
    ensures forall i :: 0 <= i < |r| ==>
              (r[i].goods.Some? ==> r[i].goods.value in catalog
                                    && r[i].goods.value.goodsId == EntriesOf(entries, u)[i].goodsId)
    ensures forall i :: 0 <= i < |r| ==>
              (r[i].goods.None? <==> forall g :: g in catalog ==> g.goodsId != EntriesOf(entries, u)[i].goodsId)
  {
    var cart := EntriesOf(entries, u);
    var ids := GoodsIds(cart);
    var byId := KeyById(SelectIds(catalog, ids));
    assert forall i :: 0 <= i < |cart| ==> cart[i].goodsId in ids by {
      forall i | 0 <= i < |cart| ensures cart[i].goodsId in ids {
        assert ids[i] == cart[i].goodsId;
      }
    }
    Lines(cart, byId)
  }

  /** The dictionary holds, for each id, the last record carrying it. */
  lemma {:induction false} KeyByIdLastWins(gs: seq<Goods>, i: nat)
    requires i < |gs|
    requires forall j :: i < j < |gs| ==> gs[j].goodsId != gs[i].goodsId
    ensures Get(KeyById(gs), gs[i].goodsId) == Some(gs[i])
  {
    var init := gs[..|gs| - 1];
    if i < |gs| - 1 {
      assert forall j :: i < j < |init| ==> init[j] == gs[j];
      KeyByIdLastWins(init, i);
      assert init[i] == gs[i];
    }
  }

  /** Selecting the cart's ids first does not change what the dictionary says about those ids. */
  lemma {:induction false} SelectKeepsLookup(gs: seq<Goods>, ids: seq<GoodsId>, k: GoodsId)
    requires k in ids
    ensures Get(KeyById(SelectIds(gs, ids)), k) == Get(KeyById(gs), k)
  {
    if gs != [] {
      var init, last := gs[..|gs| - 1], gs[|gs| - 1];
      SelectKeepsLookup(init, ids, k);
      var s := SelectIds(init, ids);
      if last.goodsId in ids {
        assert (s + [last])[..|s|] == s;
      } else {
        assert s + [] == s;
      }
    }
  }

  /** A line's goods is the last catalog record with the entry's goods id. */
  lemma ViewPicksLast(entries: seq<Entry>, catalog: seq<Goods>, u: UserId, i: nat, k: nat)
    requires i < |EntriesOf(entries, u)| && k < |catalog|
    requires catalog[k].goodsId == EntriesOf(entries, u)[i].goodsId
    requires forall j :: k < j < |catalog| ==> catalog[j].goodsId != catalog[k].goodsId
    ensures View(entries, catalog, u)[i].goods == Some(catalog[k])
  {
    var cart := EntriesOf(entries, u);
    var ids := GoodsIds(cart);
    assert ids[i] == cart[i].goodsId;
    SelectKeepsLookup(catalog, ids, cart[i].goodsId);
    KeyByIdLastWins(catalog, k);
  }

  /** With unique goods ids, each line carries exactly what findById would return. */
  lemma ViewMatchesFindById(entries: seq<Entry>, catalog: seq<Goods>, u: UserId)
    requires IdsUnique(catalog)
    ensures forall i :: 0 <= i < |View(entries, catalog, u)| ==>
              View(entries, catalog, u)[i].goods == FindById(catalog, EntriesOf(entries, u)[i].goodsId)
  {
    var r, cart := View(entries, catalog, u), EntriesOf(entries, u);
    forall i | 0 <= i < |r| ensures r[i].goods == FindById(catalog, cart[i].goodsId) {
      var f := FindById(catalog, cart[i].goodsId);
      if r[i].goods.Some? {
        var a, b := r[i].goods.value, f.value;
        var ia :| 0 <= ia < |catalog| && catalog[ia] == a;
        var ib :| 0 <= ib < |catalog| && catalog[ib] == b;
        assert ia == ib;
      }
    }
  }

  /** A user with no cart entries sees an empty cart. */
  lemma EmptyCart(entries: seq<Entry>, catalog: seq<Goods>, u: UserId)
    requires forall e :: e in entries ==> e.userId != u
    ensures View(entries, catalog, u) == []
  {
    NoEntriesOf(entries, u);
  }

  lemma {:induction false} NoEntriesOf(es: seq<Entry>, u: UserId)
    requires forall e :: e in es ==> e.userId != u
    ensures EntriesOf(es, u) == []
  {
    if es != [] {
      assert es[0] in es;
      NoEntriesOf(es[1..], u);
    }
  }
}
