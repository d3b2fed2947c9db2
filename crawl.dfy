/**
 * The crawl route's normaliser: each `ol li` listing of the bestseller page
 * is kept or skipped, its price text cleaned, and every kept listing becomes
 * one new goods record of the book category.
 */
module Crawl {
  import opened Wrappers
  import opened Catalog

  /**
   * What the selector engine yields for one listing: the description text,
   * the image's `src` and `alt` attributes and the price text. A missing
   * attribute is None; a missing element gives an empty text.
   */
  datatype Listing = Listing(desc: Option<string>, image: Option<string>, title: Option<string>, price: Option<string>)

  /** The fixed category of every crawled record ("books"). */
  const Books: string := "도서"

  /** All four fields are truthy, the guard at app.js:133. */
  predicate Complete(l: Listing)
  {
    Present(l.desc) && Present(l.image) && Present(l.title) && Present(l.price)
  }

  /** Everything but the last character, the first step of app.js:134; "" stays "". */
  function DropLast(s: string): string
  {
    if s == "" then "" else s[..|s| - 1]
  }

  /** Putting the dropped character back gives the text again; "" has nothing to drop. */
  lemma DropLastRestores(s: string)
    ensures s != "" ==> DropLast(s) + [s[|s| - 1]] == s
    ensures s == "" ==> DropLast(s) == ""
  {
  }

  /** What one character contributes to the comma-free text. */
  function KeepChar(c: char): (r: string)
    ensures ',' !in r
    ensures c != ',' ==> r == [c]
  {
    if c == ',' then "" else [c]
  }

  /** A comma contributes nothing. */
  lemma KeepCharComma()
    ensures KeepChar(',') == ""
  {
  }

  /** Every comma deleted, the second step of app.js:134. */
  function RemoveCommas(s: string): (r: string)
    ensures ',' !in r
    ensures |r| <= |s|
  {
    if s == "" then "" else KeepChar(s[0]) + RemoveCommas(s[1..])
  }

  /** Price cleanup: drop the trailing currency glyph, then the thousands separators. */
  function CleanPrice(text: string): (r: string)
    ensures ',' !in r
    ensures text != "" ==> |r| < |text|
  {
    RemoveCommas(DropLast(text))
  }

  /** Comma removal works piecewise. */
  lemma {:induction false} RemoveCommasAppend(a: string, b: string)
    ensures RemoveCommas(a + b) == RemoveCommas(a) + RemoveCommas(b)
  {
    if a == "" {
      assert a + b == b;
    } else {
      var c := a + b;
      assert c[0] == a[0] && c[1..] == a[1..] + b;
      RemoveCommasAppend(a[1..], b);
      calc {
        RemoveCommas(c);
        KeepChar(a[0]) + RemoveCommas(a[1..] + b);
        KeepChar(a[0]) + (RemoveCommas(a[1..]) + RemoveCommas(b));
        (KeepChar(a[0]) + RemoveCommas(a[1..])) + RemoveCommas(b);
      }
    }
  }

  /** A text without commas is left exactly as it is. */
  lemma {:induction false} RemoveCommasNoComma(s: string)
    requires ',' !in s
    ensures RemoveCommas(s) == s
  {
    if s != "" {
      assert s == [s[0]] + s[1..];
      RemoveCommasNoComma(s[1..]);
    }
  }

  /** The cleaned price of `body` followed by one glyph is `body` without its commas. */
  lemma CleanPriceGlyph(body: string, glyph: char)
    ensures CleanPrice(body + [glyph]) == RemoveCommas(body)
  {
    assert (body + [glyph])[..|body|] == body;
  }

  /** "10,000원" becomes "10000" and "7,500원" becomes "7500". */
  lemma CleanPriceExamples()
    ensures CleanPrice("10,000원") == "10000"
    ensures CleanPrice("7,500원") == "7500"
  {
    CleanPriceTenThousand();
    CleanPriceSevenFiveHundred();
  }

  // Each literal price gets its own lemma: proving the two literal splits in
  // one context is markedly more expensive for the solver.

  lemma CleanPriceTenThousand()
    ensures CleanPrice("10,000원") == "10000"
  {
    ThousandsPrice("10", "000", '원');
    assert "10,000원" == "10" + [','] + "000" + ['원'];
  }

  lemma CleanPriceSevenFiveHundred()
    ensures CleanPrice("7,500원") == "7500"
  {
    ThousandsPrice("7", "500", '원');
    assert "7,500원" == "7" + [','] + "500" + ['원'];
  }

  /** A price text "<high>,<low><glyph>" with comma-free groups cleans to "<high><low>". */
  lemma ThousandsPrice(high: string, low: string, glyph: char)
    requires ',' !in high && ',' !in low
    ensures CleanPrice(high + [','] + low + [glyph]) == high + low
  {
    var s := high + [','] + low;
    assert s + [glyph] == high + [','] + low + [glyph];
    CleanPriceGlyph(s, glyph);
    assert RemoveCommas([',']) == "" by {
      assert [','][1..] == "";
    }
    RemoveCommasAppend(high + [','], low);
    RemoveCommasAppend(high, [',']);
    RemoveCommasNoComma(high);
    RemoveCommasNoComma(low);
    assert RemoveCommas(high + [',']) == high;
  }

  /** The record a listing becomes, or None when the listing is skipped. */
  function Normalize(l: Listing): (r: Option<GoodsInfo>)
    ensures r.Some? <==> Complete(l)
    ensures r.Some? ==> && r.value.name == l.title.value
                        && r.value.thumbnailUrl == l.image.value
                        && r.value.category == Books
                        && r.value.price == CleanPrice(l.price.value)
                        && ',' !in r.value.price
  {
    if Complete(l) then
      Some(GoodsInfo(l.title.value, l.image.value, Books, CleanPrice(l.price.value)))
    else
      None
  }

  /** The records one listing contributes: one when it is kept, none when it is skipped. */
  function Kept(l: Listing): seq<GoodsInfo>
  {
    match Normalize(l)
    case Some(x) => [x]
    case None => []
  }

  /** A listing gives at most one record, and gives one exactly when it is complete. */
  lemma KeptAtMostOne(l: Listing)
    ensures |Kept(l)| <= 1
    ensures Kept(l) != [] <==> Complete(l)
  {
  }

  /** The records a crawl over `ls` creates, in listing order. */
  function KeptInfos(ls: seq<Listing>): (r: seq<GoodsInfo>)
    ensures |r| <= |ls|
  {
    if ls == [] then [] else Kept(ls[0]) + KeptInfos(ls[1..])
  }

  lemma KeptInfosCons(l: Listing, ls: seq<Listing>)
    ensures KeptInfos([l] + ls) == Kept(l) + KeptInfos(ls)
  {
    assert ([l] + ls)[0] == l && ([l] + ls)[1..] == ls;
  }

  lemma {:induction false} KeptInfosAppend(a: seq<Listing>, b: seq<Listing>)
    ensures KeptInfos(a + b) == KeptInfos(a) + KeptInfos(b)
  {
    if a == [] {
      assert a + b == b;
    } else {
      var c := a + b;
      assert c[0] == a[0] && c[1..] == a[1..] + b;
      KeptInfosAppend(a[1..], b);
      calc {
        KeptInfos(c);
        Kept(a[0]) + KeptInfos(a[1..] + b);
        Kept(a[0]) + (KeptInfos(a[1..]) + KeptInfos(b));
        (Kept(a[0]) + KeptInfos(a[1..])) + KeptInfos(b);
      }
    }
  }

  /** Crawling one more listing adds that listing's records at the end. */
  lemma KeptInfosSnoc(ls: seq<Listing>, i: nat)
    requires i < |ls|
    ensures KeptInfos(ls[..i + 1]) == KeptInfos(ls[..i]) + Kept(ls[i])
  {
    assert ls[..i + 1] == ls[..i] + [ls[i]];
    KeptInfosAppend(ls[..i], [ls[i]]);
    KeptInfosCons(ls[i], []);
    assert [ls[i]] + [] == [ls[i]];
  }

  /** A record is created exactly for the complete listings, and from nothing else. */
  lemma {:induction false} KeptInfosFrom(ls: seq<Listing>, x: GoodsInfo)
    ensures x in KeptInfos(ls) <==> exists i :: 0 <= i < |ls| && Normalize(ls[i]) == Some(x)
  {
    if ls != [] {
      KeptInfosFrom(ls[1..], x);
      if x in KeptInfos(ls[1..]) {
        var i :| 0 <= i < |ls[1..]| && Normalize(ls[1..][i]) == Some(x);
        assert Normalize(ls[i + 1]) == Some(x);
      }
      if exists i :: 0 <= i < |ls| && Normalize(ls[i]) == Some(x) {
        var i :| 0 <= i < |ls| && Normalize(ls[i]) == Some(x);
        if i > 0 {
          assert Normalize(ls[1..][i - 1]) == Some(x);
        }
      }
    }
  }

  /** Every crawled record is a book with a comma-free price. */
  lemma KeptInfosShape(ls: seq<Listing>, x: GoodsInfo)
    requires x in KeptInfos(ls)
    ensures x.category == Books && ',' !in x.price
  {
    KeptInfosFrom(ls, x);
  }

  /** One record per complete listing: none when no listing is complete, all when every one is. */
  lemma {:induction false} KeptInfosCount(ls: seq<Listing>)
    ensures (forall i :: 0 <= i < |ls| ==> !Complete(ls[i])) ==> KeptInfos(ls) == []
    ensures (forall i :: 0 <= i < |ls| ==> Complete(ls[i])) ==> |KeptInfos(ls)| == |ls|
  {
    if ls != [] {
      KeptInfosCount(ls[1..]);
      assert forall i :: 0 <= i < |ls[1..]| ==> ls[1..][i] == ls[i + 1];
    }
  }

  /** A complete, an incomplete and a complete listing yield the two complete ones' records. */
  lemma KeptOfThree(l1: Listing, l2: Listing, l3: Listing)
    requires Complete(l1) && !Complete(l2) && Complete(l3)
    ensures KeptInfos([l1, l2, l3]) == [Normalize(l1).value, Normalize(l3).value]
  {
    assert [l1, l2, l3] == [l1] + ([l2] + ([l3] + []));
    KeptInfosCons(l1, [l2] + ([l3] + []));
    KeptInfosCons(l2, [l3] + []);
    KeptInfosCons(l3, []);
  }

  /** A page with two complete listings and one without an image yields two records. */
  lemma ThreeListingScenario(d1: string, d2: string, d3: string, img1: string, img2: string,
                             t1: string, t2: string, t3: string)
    requires d1 != "" && d2 != "" && d3 != "" && img1 != "" && img2 != ""
    requires t1 != "" && t2 != "" && t3 != ""
    ensures KeptInfos([Listing(Some(d1), Some(img1), Some(t1), Some("10,000원")),
                       Listing(Some(d3), None, Some(t3), Some("5,000원")),
                       Listing(Some(d2), Some(img2), Some(t2), Some("7,500원"))])
         == [GoodsInfo(t1, img1, Books, "10000"), GoodsInfo(t2, img2, Books, "7500")]
  {
    CleanPriceExamples();
    KeptOfThree(Listing(Some(d1), Some(img1), Some(t1), Some("10,000원")),
                Listing(Some(d3), None, Some(t3), Some("5,000원")),
                Listing(Some(d2), Some(img2), Some(t2), Some("7,500원")));
  }

  /** A kept listing extends the records created so far by its own record. */
  lemma KeptStep(ls: seq<Listing>, i: nat, added: seq<Goods>, x: Goods)
    requires i < |ls| && Normalize(ls[i]) == Some(x.info)
    requires Infos(added) == KeptInfos(ls[..i])
    ensures Infos(added + [x]) == KeptInfos(ls[..i + 1])
  {
    KeptInfosSnoc(ls, i);
    InfosAppend(added, [x]);
    assert Infos([x]) == [x.info] == Kept(ls[i]);
  }

  /** A skipped listing adds no record. */
  lemma SkipStep(ls: seq<Listing>, i: nat)
    requires i < |ls| && Normalize(ls[i]).None?
    ensures KeptInfos(ls[..i + 1]) == KeptInfos(ls[..i])
  {
    KeptInfosSnoc(ls, i);
    assert KeptInfos(ls[..i]) + [] == KeptInfos(ls[..i]);
  }

  /**
   * The crawl loop over the page's listings: every kept listing is created
   * in the goods store, stamped with the clock reading `now`; records
   * already in the store are untouched.
   */
  method Run(store: GoodsStore, listings: seq<Listing>, now: int)
    requires store.Valid()
    modifies store
    ensures store.Valid()
    ensures |store.goods| == |old(store.goods)| + |KeptInfos(listings)|
    ensures store.goods[..|old(store.goods)|] == old(store.goods)
    ensures Infos(store.goods[|old(store.goods)|..]) == KeptInfos(listings)
    ensures forall k :: |old(store.goods)| <= k < |store.goods| ==> store.goods[k].date == now
  {
    ghost var before := store.goods;
    ghost var added: seq<Goods> := [];
    for i := 0 to |listings|
      invariant store.Valid()
      invariant store.goods == before + added
      invariant Infos(added) == KeptInfos(listings[..i])
      invariant forall k :: 0 <= k < |added| ==> added[k].date == now
    {
      var kept := Normalize(listings[i]);
      if kept.Some? {
        var id := store.Create(kept.value, now);
        ghost var x := Goods(id, now, kept.value);
        KeptStep(listings, i, added, x);
        added := added + [x];
      } else {
        SkipStep(listings, i);
      }
    }
    assert listings[..|listings|] == listings;
    assert store.goods[..|before|] == before && store.goods[|before|..] == added;
  }

  /** Crawling the same page twice creates every kept listing twice. */
  method RunTwice(store: GoodsStore, listings: seq<Listing>, now: int)
    requires store.Valid()
    modifies store
    ensures store.Valid()
    ensures |store.goods| == |old(store.goods)| + 2 * |KeptInfos(listings)|
    ensures store.goods[..|old(store.goods)|] == old(store.goods)
    ensures Infos(store.goods[|old(store.goods)|..]) == KeptInfos(listings) + KeptInfos(listings)
  {
    ghost var before := store.goods;
    Run(store, listings, now);
    ghost var middle := store.goods;
    Run(store, listings, now);
    ghost var after := store.goods;
    assert after[|before|..] == middle[|before|..] + after[|middle|..] by {
      assert after == middle + after[|middle|..];
    }
    InfosAppend(middle[|before|..], after[|middle|..]);
    assert after[..|before|] == middle[..|before|] by {
      assert after[..|middle|] == middle;
    }
  }
}
