/**
 * The goods collection: the records the crawl creates, the listing query
 * (category filter, newest first) and the lookup by id.
 */
module Catalog {
  import opened Wrappers

  /** The store-assigned identifier of a goods record. */
  type GoodsId = nat

  /** The fields of a goods record that a caller supplies on creation. */
  datatype GoodsInfo = GoodsInfo(name: string, thumbnailUrl: string, category: string, price: string)

  /** A stored goods record: its id and creation date are set by the store. */
  datatype Goods = Goods(goodsId: GoodsId, date: int, info: GoodsInfo)

  /** The caller-supplied fields of each record, in order. */
  function Infos(gs: seq<Goods>): seq<GoodsInfo>
  {
    seq(|gs|, i requires 0 <= i < |gs| => gs[i].info)
  }

  lemma InfosAppend(a: seq<Goods>, b: seq<Goods>)
    ensures Infos(a + b) == Infos(a) + Infos(b)
  {
    assert forall i :: 0 <= i < |a + b| ==> Infos(a + b)[i] == (Infos(a) + Infos(b))[i];
  }

  /** No two records share an id. */
  ghost predicate IdsUnique(gs: seq<Goods>)
  {
    forall i, j :: 0 <= i < j < |gs| ==> gs[i].goodsId != gs[j].goodsId
  }

  // ---------------------------------------------------------------------
  // Listing: Goods.find(category ? { category } : undefined).sort("-date")
  // ---------------------------------------------------------------------

  /** The records of category `c`, in store order. */
  function OfCategory(gs: seq<Goods>, c: string): (r: seq<Goods>)
    ensures |r| <= |gs|
    ensures forall g :: g in r <==> g in gs && g.info.category == c
    ensures multiset(r) <= multiset(gs)
  {
    if gs == [] then []
    else
      assert gs == [gs[0]] + gs[1..];
      (if gs[0].info.category == c then [gs[0]] else []) + OfCategory(gs[1..], c)
  }

  /** The filter is applied only when the query carries a truthy category. */
  function FilterCategory(gs: seq<Goods>, category: Option<string>): (r: seq<Goods>)
    ensures forall g :: g in r <==> g in gs && (Present(category) ==> g.info.category == category.value)
  {
    if Present(category) then OfCategory(gs, category.value) else gs
  }

  /** Ordered by `date`, newest first. */
  ghost predicate NewestFirst(gs: seq<Goods>)
  {
    forall i, j :: 0 <= i < j < |gs| ==> gs[i].date >= gs[j].date
  }

  /** Putting a record no older than the head in front keeps the order. */
  lemma ConsNewestFirst(x: Goods, gs: seq<Goods>)
    requires NewestFirst(gs)
    requires gs == [] || x.date >= gs[0].date
    ensures NewestFirst([x] + gs)
  {
    var r := [x] + gs;
    forall i, j | 0 <= i < j < |r| ensures r[i].date >= r[j].date {
      assert r[j] == gs[j - 1];
      if i > 0 { assert r[i] == gs[i - 1]; }
    }
  }

  function InsertByDate(g: Goods, gs: seq<Goods>): (r: seq<Goods>)
    requires NewestFirst(gs)
    ensures |r| == |gs| + 1 && (r[0] == g || (gs != [] && r[0] == gs[0]))
    ensures NewestFirst(r)
    ensures multiset(r) == multiset(gs) + multiset{g}
  {
    if gs == [] || g.date >= gs[0].date then
      ConsNewestFirst(g, gs);
      [g] + gs
    else
      assert NewestFirst(gs[1..]);
      var rest := InsertByDate(g, gs[1..]);
      assert gs == [gs[0]] + gs[1..];
      ConsNewestFirst(gs[0], rest);
      [gs[0]] + rest
  }

  function SortNewestFirst(gs: seq<Goods>): (r: seq<Goods>)
    ensures NewestFirst(r)
    ensures multiset(r) == multiset(gs)
  {
    if gs == [] then []
    else
      assert gs == [gs[0]] + gs[1..];
      InsertByDate(gs[0], SortNewestFirst(gs[1..]))
  }

  /** GET /goods: the same records as the category filter, each as often, newest first. */
  function ListGoods(gs: seq<Goods>, category: Option<string>): (r: seq<Goods>)
    ensures NewestFirst(r)
    ensures multiset(r) == multiset(FilterCategory(gs, category))
    ensures forall g :: g in r <==> g in gs && (Present(category) ==> g.info.category == category.value)
    ensures !Present(category) ==> multiset(r) == multiset(gs)
  {
    var r := SortNewestFirst(FilterCategory(gs, category));
    assert forall g :: g in r <==> g in multiset(FilterCategory(gs, category));
    r
  }

  // ---------------------------------------------------------------------
  // Lookup: Goods.findById(goodsId), 404 when absent
  // ---------------------------------------------------------------------

  function FindById(gs: seq<Goods>, id: GoodsId): (r: Option<Goods>)
    ensures r.Some? ==> r.value in gs && r.value.goodsId == id
    ensures r.None? <==> forall g :: g in gs ==> g.goodsId != id
  {
    if gs == [] then None
    else if gs[0].goodsId == id then Some(gs[0])
    else FindById(gs[1..], id)
  }

  /** In a store whose ids are unique, looking up a record's id yields that record. */
  lemma {:induction false} FindByIdStored(gs: seq<Goods>, g: Goods)
    requires IdsUnique(gs)
    requires g in gs
    ensures FindById(gs, g.goodsId) == Some(g)
  {
    if gs[0] != g {
      assert g in gs[1..];
      assert IdsUnique(gs[1..]) by {
        forall i, j | 0 <= i < j < |gs[1..]| ensures gs[1..][i].goodsId != gs[1..][j].goodsId {
          assert gs[1..][i] == gs[i + 1] && gs[1..][j] == gs[j + 1];
        }
      }
      var k :| 0 <= k < |gs| && gs[k] == g;
      assert gs[0].goodsId != g.goodsId;
      FindByIdStored(gs[1..], g);
    }
  }

  /** The goods collection. Ids come from a counter, so they are never reused. */
  class GoodsStore {
    var goods: seq<Goods>
    var nextId: GoodsId

    ghost predicate Valid()
      reads this
    {
      && IdsUnique(goods)
      && forall i :: 0 <= i < |goods| ==> goods[i].goodsId < nextId
    }

    constructor ()
      ensures Valid() && goods == []
    {
      goods := [];
      nextId := 0;
    }

    /** Goods.create: always inserts one new record; nothing is deduplicated. */
    method Create(info: GoodsInfo, now: int) returns (id: GoodsId)
      requires Valid()
      modifies this
      ensures Valid()
      ensures goods == old(goods) + [Goods(id, now, info)]
      ensures forall g :: g in old(goods) ==> g.goodsId != id
    {
      id := nextId;
      goods := goods + [Goods(id, now, info)];
      nextId := nextId + 1;
    }
  }
}
