/**
 * The cart collection: (userId, goodsId, quantity) entries with an upsert
 * (PUT /goods/:goodsId/cart) and a delete (DELETE /goods/:goodsId/cart).
 * Entries are kept in insertion order; queries over them answer in that order.
 */
module Cart {
  import opened Wrappers
  import opened Catalog

  type UserId = nat

  /** One cart entry. The quantity is stored as given: it is not validated. */
  datatype Entry = Entry(userId: UserId, goodsId: GoodsId, quantity: int)

  predicate IsFor(e: Entry, u: UserId, g: GoodsId)
  {
    e.userId == u && e.goodsId == g
  }

  /** At most one entry per (userId, goodsId). */
  ghost predicate UniqueKeys(es: seq<Entry>)
  {
    forall i, j :: 0 <= i < j < |es| ==> !IsFor(es[j], es[i].userId, es[i].goodsId)
  }

  /** The single-entry lookup by user and goods id (app.js:202-205): the position of the first matching entry. */
  function FindEntry(es: seq<Entry>, u: UserId, g: GoodsId): (r: Option<nat>)
    ensures r.Some? ==> && r.value < |es| && IsFor(es[r.value], u, g)
                        && forall j :: 0 <= j < r.value ==> !IsFor(es[j], u, g)
    ensures r.None? <==> forall j :: 0 <= j < |es| ==> !IsFor(es[j], u, g)
  {
    if es == [] then None
    else if IsFor(es[0], u, g) then Some(0)
    else match FindEntry(es[1..], u, g)
      case None => None
      case Some(i) => Some(i + 1)
  }

  /** The quantity stored for (u, g), if any. */
  function QuantityOf(es: seq<Entry>, u: UserId, g: GoodsId): (r: Option<int>)
    ensures r.None? <==> forall j :: 0 <= j < |es| ==> !IsFor(es[j], u, g)
    ensures r.Some? ==> exists j :: 0 <= j < |es| && es[j] == Entry(u, g, r.value)
  {
    match FindEntry(es, u, g)
    case Some(i) => Some(es[i].quantity)
    case None => None
  }

  /** The entries for (u, g), in order. */
  function Only(es: seq<Entry>, u: UserId, g: GoodsId): seq<Entry>
  {
    if es == [] then [] else Pick(es[0], u, g) + Only(es[1..], u, g)
  }

  /** The entries for every other key, in order. */
  function Without(es: seq<Entry>, u: UserId, g: GoodsId): seq<Entry>
  {
    if es == [] then [] else Drop(es[0], u, g) + Without(es[1..], u, g)
  }

  function Pick(e: Entry, u: UserId, g: GoodsId): seq<Entry>
  {
    if IsFor(e, u, g) then [e] else []
  }

  function Drop(e: Entry, u: UserId, g: GoodsId): seq<Entry>
  {
    if IsFor(e, u, g) then [] else [e]
  }

  /** The cart after a PUT: the found entry's quantity overwritten, or a new entry appended. */
  function Upserted(es: seq<Entry>, u: UserId, g: GoodsId, q: int): (r: seq<Entry>)
    ensures Entry(u, g, q) in r
    ensures |es| <= |r| <= |es| + 1
  {
    match FindEntry(es, u, g)
    case Some(i) =>
      var r := es[i := es[i].(quantity := q)];
      assert r[i] == Entry(u, g, q);
      r
    case None => es + [Entry(u, g, q)]
  }

  /** The cart after a DELETE: the found entry removed, or nothing changed. */
  function Deleted(es: seq<Entry>, u: UserId, g: GoodsId): (r: seq<Entry>)
    ensures |r| <= |es| <= |r| + 1
    ensures forall e :: e in r ==> e in es
  {
    match FindEntry(es, u, g)
    case Some(i) => es[..i] + es[i + 1..]
    case None => es
  }

  // ---------------------------------------------------------------------
  // Facts about the filters
  // ---------------------------------------------------------------------

  lemma {:induction false} SplitAppend(a: seq<Entry>, b: seq<Entry>, u: UserId, g: GoodsId)
    ensures Only(a + b, u, g) == Only(a, u, g) + Only(b, u, g)
    ensures Without(a + b, u, g) == Without(a, u, g) + Without(b, u, g)
  {
    if a == [] {
      assert a + b == b;
    } else {
      var c := a + b;
      assert c[0] == a[0] && c[1..] == a[1..] + b;
      SplitAppend(a[1..], b, u, g);
      calc {
        Only(c, u, g);
        Pick(a[0], u, g) + Only(a[1..] + b, u, g);
        Pick(a[0], u, g) + (Only(a[1..], u, g) + Only(b, u, g));
        (Pick(a[0], u, g) + Only(a[1..], u, g)) + Only(b, u, g);
      }
      calc {
        Without(c, u, g);
        Drop(a[0], u, g) + Without(a[1..] + b, u, g);
        Drop(a[0], u, g) + (Without(a[1..], u, g) + Without(b, u, g));
        (Drop(a[0], u, g) + Without(a[1..], u, g)) + Without(b, u, g);
      }
    }
  }

  lemma {:induction false} NoneFor(es: seq<Entry>, u: UserId, g: GoodsId)
    requires forall j :: 0 <= j < |es| ==> !IsFor(es[j], u, g)
    ensures Only(es, u, g) == []
    ensures Without(es, u, g) == es
  {
    if es != [] {
      assert es == [es[0]] + es[1..];
      NoneFor(es[1..], u, g);
    }
  }

  lemma {:induction false} Single(x: Entry, u: UserId, g: GoodsId)
    ensures Only([x], u, g) == if IsFor(x, u, g) then [x] else []
    ensures Without([x], u, g) == if IsFor(x, u, g) then [] else [x]
  {
    assert [x][0] == x && [x][1..] == [];
  }

  lemma Split3(a: seq<Entry>, x: Entry, b: seq<Entry>, u: UserId, g: GoodsId)
    ensures Only(a + [x] + b, u, g) == Only(a, u, g) + Only([x], u, g) + Only(b, u, g)
    ensures Without(a + [x] + b, u, g) == Without(a, u, g) + Without([x], u, g) + Without(b, u, g)
  {
    SplitAppend(a + [x], b, u, g);
    SplitAppend(a, [x], u, g);
  }

  /** The position `i` is the one FindEntry reports when it is the first (u, g) entry. */
  lemma {:induction false} FindEntryIs(es: seq<Entry>, u: UserId, g: GoodsId, i: nat)
    requires i < |es| && IsFor(es[i], u, g)
    requires forall j :: 0 <= j < i ==> !IsFor(es[j], u, g)
    ensures FindEntry(es, u, g) == Some(i)
  {
    if i > 0 {
      assert !IsFor(es[0], u, g);
      assert forall j :: 0 <= j < i - 1 ==> es[1..][j] == es[j + 1];
      FindEntryIs(es[1..], u, g, i - 1);
    }
  }

  /** In a cart with unique keys, no entry after a (u, g) entry is for (u, g). */
  lemma UniqueAfter(es: seq<Entry>, u: UserId, g: GoodsId, i: nat)
    requires UniqueKeys(es)
    requires i < |es| && IsFor(es[i], u, g)
    ensures forall j :: i < j < |es| ==> !IsFor(es[j], u, g)
  {
  }

  /** When only position i is for (u, g), neither side of it holds a (u, g) entry. */
  lemma AroundOnly(es: seq<Entry>, u: UserId, g: GoodsId, i: nat)
    requires i < |es|
    requires forall j :: 0 <= j < i ==> !IsFor(es[j], u, g)
    requires forall j :: i < j < |es| ==> !IsFor(es[j], u, g)
    ensures Only(es[..i], u, g) == [] && Without(es[..i], u, g) == es[..i]
    ensures Only(es[i + 1..], u, g) == [] && Without(es[i + 1..], u, g) == es[i + 1..]
  {
    var a, b := es[..i], es[i + 1..];
    forall j | 0 <= j < |a| ensures !IsFor(a[j], u, g) {
      assert a[j] == es[j];
    }
    NoneFor(a, u, g);
    forall j | 0 <= j < |b| ensures !IsFor(b[j], u, g) {
      assert b[j] == es[i + 1 + j];
    }
    NoneFor(b, u, g);
  }

  /** A found (u, g) entry stays the first one when only its quantity changes. */
  lemma FindAfterOverwrite(es: seq<Entry>, u: UserId, g: GoodsId, i: nat, q: int)
    requires FindEntry(es, u, g) == Some(i)
    ensures FindEntry(es[i := es[i].(quantity := q)], u, g) == Some(i)
  {
    FindEntryIs(es[i := es[i].(quantity := q)], u, g, i);
  }

  /** An appended (u, g) entry is the one found when no earlier entry matches. */
  lemma FindAfterAppend(es: seq<Entry>, u: UserId, g: GoodsId, e: Entry)
    requires FindEntry(es, u, g) == None
    requires IsFor(e, u, g)
    ensures FindEntry(es + [e], u, g) == Some(|es|)
  {
    FindEntryIs(es + [e], u, g, |es|);
  }

  // ---------------------------------------------------------------------
  // Upsert
  // ---------------------------------------------------------------------

  /** Updating position i is splicing the new value between the two sides. */
  lemma UpdateSplit(es: seq<Entry>, i: nat, x: Entry)
    requires i < |es|
    ensures es[i := x] == es[..i] + [x] + es[i + 1..]
    ensures es == es[..i] + [es[i]] + es[i + 1..]
  {
    var r := es[..i] + [x] + es[i + 1..];
    assert |r| == |es|;
    forall j | 0 <= j < |es| ensures es[i := x][j] == r[j] {
      if j < i { assert r[j] == es[j]; }
      else if j > i { assert r[j] == es[i + 1..][j - i - 1]; }
    }
  }

  lemma OverwriteOnly(es: seq<Entry>, u: UserId, g: GoodsId, i: nat, e: Entry)
    requires i < |es| && IsFor(e, u, g)
    requires forall j :: 0 <= j < i ==> !IsFor(es[j], u, g)
    requires forall j :: i < j < |es| ==> !IsFor(es[j], u, g)
    ensures Only(es[i := e], u, g) == [e]
  {
    var a, b := es[..i], es[i + 1..];
    UpdateSplit(es, i, e);
    AroundOnly(es, u, g, i);
    Split3(a, e, b, u, g);
    Single(e, u, g);
    assert [] + [e] + [] == [e];
  }

  lemma OverwriteWithout(es: seq<Entry>, u: UserId, g: GoodsId, i: nat, e: Entry)
    requires i < |es| && IsFor(e, u, g) && IsFor(es[i], u, g)
    ensures Without(es[i := e], u, g) == Without(es, u, g)
  {
    var a, b := es[..i], es[i + 1..];
    UpdateSplit(es, i, e);
    Split3(a, e, b, u, g);
    Split3(a, es[i], b, u, g);
    Single(e, u, g);
    Single(es[i], u, g);
  }

  /** Overwriting the only (u, g) entry: it is the one left, and the others are unchanged. */
  lemma OverwriteState(es: seq<Entry>, u: UserId, g: GoodsId, q: int, i: nat)
    requires i < |es| && IsFor(es[i], u, g)
    requires forall j :: 0 <= j < i ==> !IsFor(es[j], u, g)
    requires forall j :: i < j < |es| ==> !IsFor(es[j], u, g)
    ensures Only(es[i := es[i].(quantity := q)], u, g) == [Entry(u, g, q)]
    ensures Without(es[i := es[i].(quantity := q)], u, g) == Without(es, u, g)
  {
    var e := es[i].(quantity := q);
    assert e == Entry(u, g, q);
    OverwriteOnly(es, u, g, i, e);
    OverwriteWithout(es, u, g, i, e);
  }

  /** Changing quantities only keeps the keys unique. */
  lemma SameKeys(es: seq<Entry>, r: seq<Entry>)
    requires UniqueKeys(es)
    requires |r| == |es|
    requires forall j :: 0 <= j < |r| ==> r[j].userId == es[j].userId && r[j].goodsId == es[j].goodsId
    ensures UniqueKeys(r)
  {
  }

  /** Appending when there is no (u, g) entry: it is the one left, and the others are unchanged. */
  lemma InsertState(es: seq<Entry>, u: UserId, g: GoodsId, q: int)
    requires forall j :: 0 <= j < |es| ==> !IsFor(es[j], u, g)
    ensures Only(es + [Entry(u, g, q)], u, g) == [Entry(u, g, q)]
    ensures Without(es + [Entry(u, g, q)], u, g) == Without(es, u, g)
  {
    var e := Entry(u, g, q);
    SplitAppend(es, [e], u, g);
    NoneFor(es, u, g);
    Single(e, u, g);
  }

  /** Appending an entry whose key is new keeps the keys unique. */
  lemma AppendKeepsUnique(es: seq<Entry>, e: Entry)
    requires UniqueKeys(es)
    requires forall j :: 0 <= j < |es| ==> !IsFor(es[j], e.userId, e.goodsId)
    ensures UniqueKeys(es + [e])
  {
    var r := es + [e];
    forall j, k | 0 <= j < k < |r| ensures !IsFor(r[k], r[j].userId, r[j].goodsId) {
      assert r[j] == es[j];
      if k < |es| { assert r[k] == es[k]; } else { assert r[k] == e; }
    }
  }

  /**
   * After a PUT, (u, g) has exactly one entry, with quantity q; the entries
   * for every other key are the same, in the same order; keys stay unique.
   */
  lemma UpsertedState(es: seq<Entry>, u: UserId, g: GoodsId, q: int)
    requires UniqueKeys(es)
    ensures Only(Upserted(es, u, g, q), u, g) == [Entry(u, g, q)]
    ensures Without(Upserted(es, u, g, q), u, g) == Without(es, u, g)
    ensures QuantityOf(Upserted(es, u, g, q), u, g) == Some(q)
    ensures UniqueKeys(Upserted(es, u, g, q))
  {
    match FindEntry(es, u, g)
    case Some(i) =>
      UniqueAfter(es, u, g, i);
      OverwriteState(es, u, g, q, i);
      FindAfterOverwrite(es, u, g, i, q);
      var r := es[i := es[i].(quantity := q)];
      SameKeys(es, r);
    case None =>
      InsertState(es, u, g, q);
      FindAfterAppend(es, u, g, Entry(u, g, q));
      AppendKeepsUnique(es, Entry(u, g, q));
  }

  /** A second PUT for the same key leaves the cart as if only the second had happened. */
  lemma UpsertedTwice(es: seq<Entry>, u: UserId, g: GoodsId, q1: int, q2: int)
    ensures Upserted(Upserted(es, u, g, q1), u, g, q2) == Upserted(es, u, g, q2)
  {
    match FindEntry(es, u, g)
    case Some(i) =>
      FindAfterOverwrite(es, u, g, i, q1);
    case None =>
      FindAfterAppend(es, u, g, Entry(u, g, q1));
  }

  /** The PUT updates in place when the key is present and grows the cart by one otherwise. */
  lemma UpsertedSize(es: seq<Entry>, u: UserId, g: GoodsId, q: int)
    ensures FindEntry(es, u, g).Some? ==> |Upserted(es, u, g, q)| == |es|
    ensures FindEntry(es, u, g).None? ==> |Upserted(es, u, g, q)| == |es| + 1
  {
  }

  // ---------------------------------------------------------------------
  // Delete
  // ---------------------------------------------------------------------

  lemma RemoveAtState(es: seq<Entry>, u: UserId, g: GoodsId, i: nat)
    requires i < |es| && IsFor(es[i], u, g)
    requires forall j :: 0 <= j < i ==> !IsFor(es[j], u, g)
    requires forall j :: i < j < |es| ==> !IsFor(es[j], u, g)
    ensures es[..i] + es[i + 1..] == Without(es, u, g)
  {
    var a, b := es[..i], es[i + 1..];
    calc {
      Without(es, u, g);
      { assert es == a + [es[i]] + b; }
      Without(a + [es[i]] + b, u, g);
      { Split3(a, es[i], b, u, g); }
      Without(a, u, g) + Without([es[i]], u, g) + Without(b, u, g);
      { AroundOnly(es, u, g, i); Single(es[i], u, g); }
      a + [] + b;
      { assert a + [] == a; }
      a + b;
    }
  }

  /** Removing one entry keeps the keys unique. */
  lemma RemoveKeepsUnique(es: seq<Entry>, i: nat)
    requires UniqueKeys(es)
    requires i < |es|
    ensures UniqueKeys(es[..i] + es[i + 1..])
  {
    var r := es[..i] + es[i + 1..];
    forall j, k | 0 <= j < k < |r| ensures !IsFor(r[k], r[j].userId, r[j].goodsId) {
      var j', k' := if j < i then j else j + 1, if k < i then k else k + 1;
      assert r[j] == es[j'] && r[k] == es[k'];
    }
  }

  /** Without(es, u, g) has no (u, g) entry at all. */
  lemma {:induction false} WithoutNone(es: seq<Entry>, u: UserId, g: GoodsId)
    ensures forall j :: 0 <= j < |Without(es, u, g)| ==> !IsFor(Without(es, u, g)[j], u, g)
  {
    if es != [] {
      WithoutNone(es[1..], u, g);
    }
  }

  /** In a cart with unique keys, DELETE removes exactly the (u, g) entry and keeps the rest in order. */
  lemma DeletedState(es: seq<Entry>, u: UserId, g: GoodsId)
    requires UniqueKeys(es)
    ensures Deleted(es, u, g) == Without(es, u, g)
    ensures Only(Deleted(es, u, g), u, g) == []
    ensures QuantityOf(Deleted(es, u, g), u, g) == None
    ensures UniqueKeys(Deleted(es, u, g))
  {
    match FindEntry(es, u, g) {
      case Some(i) =>
        UniqueAfter(es, u, g, i);
        RemoveAtState(es, u, g, i);
        RemoveKeepsUnique(es, i);
      case None =>
        NoneFor(es, u, g);
    }
    WithoutNone(es, u, g);
    NoneFor(Without(es, u, g), u, g);
  }

  /** DELETE of an absent key is a no-op. */
  lemma DeletedAbsent(es: seq<Entry>, u: UserId, g: GoodsId)
    requires forall j :: 0 <= j < |es| ==> !IsFor(es[j], u, g)
    ensures Deleted(es, u, g) == es
  {
  }

  /** DELETE is idempotent. */
  lemma DeletedIdempotent(es: seq<Entry>, u: UserId, g: GoodsId)
    requires UniqueKeys(es)
    ensures Deleted(Deleted(es, u, g), u, g) == Deleted(es, u, g)
  {
    DeletedState(es, u, g);
  }

  /** A PUT followed by a DELETE of the same key leaves only the other keys' entries. */
  lemma UpsertThenDelete(es: seq<Entry>, u: UserId, g: GoodsId, q: int)
    requires UniqueKeys(es)
    ensures Deleted(Upserted(es, u, g, q), u, g) == Without(es, u, g)
  {
    UpsertedState(es, u, g, q);
    DeletedState(Upserted(es, u, g, q), u, g);
  }

  /** The cart collection. Its invariant: at most one entry per (userId, goodsId). */
  class CartStore {
    var entries: seq<Entry>

    ghost predicate Valid()
      reads this
    {
      UniqueKeys(entries)
    }

    constructor ()
      ensures Valid() && entries == []
    {
      entries := [];
    }

    /** PUT /goods/:goodsId/cart: overwrite the quantity of the existing entry, or insert one. */
    method Put(u: UserId, g: GoodsId, q: int)
      requires Valid()
      modifies this
      ensures Valid()
      ensures entries == Upserted(old(entries), u, g, q)
      ensures Only(entries, u, g) == [Entry(u, g, q)]
      ensures Without(entries, u, g) == Without(old(entries), u, g)
    {
      UpsertedState(entries, u, g, q);
      var existing := FindEntry(entries, u, g);
      if existing.Some? {
        entries := entries[existing.value := entries[existing.value].(quantity := q)];
      } else {
        entries := entries + [Entry(u, g, q)];
      }
    }

    /** DELETE /goods/:goodsId/cart: remove the entry if there is one, otherwise do nothing. */
    method Remove(u: UserId, g: GoodsId)
      requires Valid()
      modifies this
      ensures Valid()
      ensures entries == Deleted(old(entries), u, g)
      ensures entries == Without(old(entries), u, g)
      ensures (forall j :: 0 <= j < |old(entries)| ==> !IsFor(old(entries)[j], u, g)) ==> entries == old(entries)
    {
      DeletedState(entries, u, g);
      var existing := FindEntry(entries, u, g);
      if existing.Some? {
        entries := entries[..existing.value] + entries[existing.value + 1..];
      }
    }
  }
}
