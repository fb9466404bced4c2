/**
 * The shopping cart of the catalog page: three pure `previous -> next`
 * reducers over an immutable cart. Prices are integer cents.
 *
 * Saving the cart to and restoring it from browser storage is not modelled;
 * a restored cart is simply an arbitrary `ShoppingCart` value.
 */
module Cart {
  import opened Books

  /** One line of the cart: a book, how many copies, and the stored line price. */
  datatype CartItem = CartItem(book: Book, quantity: int, subtotal: int)

  /** The cart with its two stored totals and the page the shopper was on. */
  datatype ShoppingCart = ShoppingCart(items: seq<CartItem>, totalPrice: int, itemCount: int,
                                       lastViewedUrl: string)

  /** The cart a first visit starts with. */
  function EmptyCart(path: string): ShoppingCart
  {
    ShoppingCart([], 0, 0, path)
  }

  /** Sum of the stored line prices. */
  function SumSubtotals(items: seq<CartItem>): int
  {
    if |items| == 0 then 0 else items[0].subtotal + SumSubtotals(items[1..])
  }

  /** Sum of the quantities. */
  function SumQuantities(items: seq<CartItem>): int
  {
    if |items| == 0 then 0 else items[0].quantity + SumQuantities(items[1..])
  }

  /** The stored totals agree with the items. */
  predicate TotalsConsistent(c: ShoppingCart)
  {
    c.totalPrice == SumSubtotals(c.items) && c.itemCount == SumQuantities(c.items)
  }

  /** Every line holds at least one copy and is priced at quantity times the book's price. */
  predicate LinesWellFormed(items: seq<CartItem>)
  {
    forall i :: 0 <= i < |items| ==>
      items[i].quantity >= 1 && items[i].subtotal == items[i].quantity * items[i].book.price
  }

  /** No book appears on two lines. */
  predicate UniqueBooks(items: seq<CartItem>)
  {
    forall i, j :: 0 <= i < j < |items| ==> items[i].book.bookId != items[j].book.bookId
  }

  /** The invariant the three reducers keep. */
  predicate CartInvariant(c: ShoppingCart)
  {
    TotalsConsistent(c) && LinesWellFormed(c.items) && UniqueBooks(c.items)
  }

  predicate InCart(items: seq<CartItem>, bookId: int)
  {
    exists i :: 0 <= i < |items| && items[i].book.bookId == bookId
  }

  /** Replaces the items and recomputes both totals as folds over them. */
  function Refold(c: ShoppingCart, items: seq<CartItem>): (r: ShoppingCart)
    ensures TotalsConsistent(r)
    ensures r.items == items && r.lastViewedUrl == c.lastViewedUrl
  {
    c.(items := items, totalPrice := SumSubtotals(items), itemCount := SumQuantities(items))
  }

  /** One more copy on the line of `bookId`, repriced at the line's own book price. */
  function Bump(item: CartItem, bookId: int): CartItem
  {
    if item.book.bookId == bookId
    then item.(quantity := item.quantity + 1, subtotal := (item.quantity + 1) * item.book.price)
    else item
  }

  /** `addToCart`: bump the existing line, or append a new line and add to the totals. */
  function AddToCart(c: ShoppingCart, book: Book, path: string): (r: ShoppingCart)
    ensures |r.items| == |c.items| + (if InCart(c.items, book.bookId) then 0 else 1)
    ensures InCart(r.items, book.bookId)
    ensures r.lastViewedUrl == path
    ensures forall i :: 0 <= i < |c.items| && c.items[i].book.bookId != book.bookId ==>
              r.items[i] == c.items[i]
    ensures forall i :: 0 <= i < |c.items| && c.items[i].book.bookId == book.bookId ==>
              r.items[i].book == c.items[i].book && r.items[i].quantity == c.items[i].quantity + 1
    ensures forall i :: 0 <= i < |c.items| && c.items[i].book.bookId == book.bookId ==>
              r.items[i].subtotal == r.items[i].quantity * c.items[i].book.price
    ensures InCart(c.items, book.bookId) ==> TotalsConsistent(r)
  {
    if InCart(c.items, book.bookId) then
      var items := seq(|c.items|, i requires 0 <= i < |c.items| => Bump(c.items[i], book.bookId));
      var k :| 0 <= k < |c.items| && c.items[k].book.bookId == book.bookId;
      assert items[k].book.bookId == book.bookId;
      Refold(c, items).(lastViewedUrl := path)
    else
      var items := c.items + [CartItem(book, 1, book.price)];
      assert items[|c.items|].book.bookId == book.bookId;
      c.(items := items, totalPrice := c.totalPrice + book.price,
         itemCount := c.itemCount + 1, lastViewedUrl := path)
  }

  /** Every line of `items` that is not for `bookId` is still in `r`. */
  predicate KeepsOtherBooks(items: seq<CartItem>, r: seq<CartItem>, bookId: int)
  {
    forall i :: 0 <= i < |items| && items[i].book.bookId != bookId ==> items[i] in r
  }

  /** The items without any line for `bookId`, in their order. */
  function WithoutBook(items: seq<CartItem>, bookId: int): (r: seq<CartItem>)
    ensures |r| <= |items|
    ensures !InCart(r, bookId)
    ensures forall x :: x in r ==> x in items
    ensures !InCart(items, bookId) ==> r == items
    ensures KeepsOtherBooks(items, r, bookId)
  {
    if |items| == 0 then []
    else
      var rest := WithoutBook(items[1..], bookId);
      assert forall i :: 1 <= i < |items| ==> items[i] == items[1..][i - 1];
      assert !InCart(items, bookId) ==> !InCart(items[1..], bookId) by {
        if InCart(items[1..], bookId) {
          var i :| 0 <= i < |items[1..]| && items[1..][i].book.bookId == bookId;
          assert items[i + 1].book.bookId == bookId;
        }
      }
      if items[0].book.bookId == bookId then rest
      else
        assert !InCart([items[0]] + rest, bookId);
        assert !InCart(items, bookId) ==> items == [items[0]] + items[1..];
        [items[0]] + rest
  }

  /** `removeFromCart`: drop the book's lines and refold; the last-viewed page is kept. */
  function RemoveFromCart(c: ShoppingCart, bookId: int): (r: ShoppingCart)
    ensures !InCart(r.items, bookId)
    ensures TotalsConsistent(r)
    ensures r.lastViewedUrl == c.lastViewedUrl
    ensures !InCart(c.items, bookId) ==> r.items == c.items
    ensures KeepsOtherBooks(c.items, r.items, bookId)
  {
    Refold(c, WithoutBook(c.items, bookId))
  }

  /** The line of `bookId` set to `quantity` copies, repriced. */
  function SetQuantity(item: CartItem, bookId: int, quantity: int): CartItem
  {
    if item.book.bookId == bookId
    then item.(quantity := quantity, subtotal := quantity * item.book.price)
    else item
  }

  /** `updateQuantity`: a quantity below 1 is ignored; otherwise set it and refold. */
  function UpdateQuantity(c: ShoppingCart, bookId: int, quantity: int): (r: ShoppingCart)
    ensures quantity < 1 ==> r == c
    ensures |r.items| == |c.items| && r.lastViewedUrl == c.lastViewedUrl
    ensures quantity >= 1 ==> TotalsConsistent(r)
    ensures forall i :: 0 <= i < |c.items| ==> r.items[i].book == c.items[i].book
    ensures forall i :: 0 <= i < |c.items| && c.items[i].book.bookId != bookId ==>
              r.items[i] == c.items[i]
    ensures quantity >= 1 ==> forall i :: 0 <= i < |c.items| && c.items[i].book.bookId == bookId ==>
              r.items[i].quantity == quantity
    ensures quantity >= 1 ==> forall i :: 0 <= i < |c.items| && c.items[i].book.bookId == bookId ==>
              r.items[i].subtotal == quantity * c.items[i].book.price
  {
    if quantity < 1 then c
    else Refold(c, seq(|c.items|, i requires 0 <= i < |c.items| => SetQuantity(c.items[i], bookId, quantity)))
  }

  // ---------------------------------------------------------------------------
  // Sums
  // ---------------------------------------------------------------------------

  lemma {:induction false} SumAppend(items: seq<CartItem>, x: CartItem)
    ensures SumSubtotals(items + [x]) == SumSubtotals(items) + x.subtotal
    ensures SumQuantities(items + [x]) == SumQuantities(items) + x.quantity
  {
    if |items| > 0 {
      assert (items + [x])[1..] == items[1..] + [x];
      SumAppend(items[1..], x);
    } else {
      assert items + [x] == [x];
    }
  }

  /**
   * Two item lists that differ only at position `k` differ in their sums by
   * exactly the change at `k`.
   */
  lemma {:induction false} SumOneChanged(s: seq<CartItem>, t: seq<CartItem>, k: int)
    requires |s| == |t| && 0 <= k < |s|
    requires forall i :: 0 <= i < |s| && i != k ==> s[i] == t[i]
    ensures SumSubtotals(t) == SumSubtotals(s) - s[k].subtotal + t[k].subtotal
    ensures SumQuantities(t) == SumQuantities(s) - s[k].quantity + t[k].quantity
  {
    if k == 0 {
      assert s[1..] == t[1..];
    } else {
      SumOneChanged(s[1..], t[1..], k - 1);
    }
  }

  lemma UniqueTail(items: seq<CartItem>)
    requires UniqueBooks(items) && |items| > 0
    ensures UniqueBooks(items[1..])
  {
    forall i, j | 0 <= i < j < |items[1..]|
      ensures items[1..][i].book.bookId != items[1..][j].book.bookId
    {
      assert items[1..][i] == items[i + 1] && items[1..][j] == items[j + 1];
    }
  }

  lemma {:induction false} WithoutBookDropsOnlyThatLine(items: seq<CartItem>, k: int)
    requires UniqueBooks(items) && 0 <= k < |items|
    ensures WithoutBook(items, items[k].book.bookId) == items[..k] + items[k + 1..]
  {
    var id := items[k].book.bookId;
    var t := items[1..];
    UniqueTail(items);
    if k == 0 {
      forall j | 0 <= j < |t| ensures t[j].book.bookId != id {
        assert t[j] == items[j + 1];
      }
      assert WithoutBook(t, id) == t;
      assert items[..0] + items[1..] == t;
    } else {
      assert t[k - 1] == items[k];
      WithoutBookDropsOnlyThatLine(t, k - 1);
      assert items[0].book.bookId != id;
      assert WithoutBook(items, id) == [items[0]] + WithoutBook(t, id);
      DropSplit(items, k);
    }
  }

  /** Removing index `k > 0` is keeping the head and removing index `k - 1` of the tail. */
  lemma DropSplit<T>(s: seq<T>, k: int)
    requires 0 < k < |s|
    ensures s[..k] + s[k + 1..] == [s[0]] + (s[1..][..k - 1] + s[1..][k..])
  {
    assert s[1..][..k - 1] == s[1..k];
    assert s[1..][k..] == s[k + 1..];
    assert s[..k] == [s[0]] + s[1..k];
  }

  /** Dropping lines keeps the remaining lines well formed and unique. */
  /**
   * The filter's exact count: no line of `bookId` remains, and every other
   * line remains exactly as often as it was in the cart.
   */
  lemma {:induction false} WithoutBookCounts(items: seq<CartItem>, bookId: int, x: CartItem)
    ensures multiset(WithoutBook(items, bookId))[x] ==
              if x.book.bookId == bookId then 0 else multiset(items)[x]
  {
    if |items| > 0 {
      WithoutBookCounts(items[1..], bookId, x);
      assert items == [items[0]] + items[1..];
      assert multiset(items) == multiset([items[0]]) + multiset(items[1..]);
      if items[0].book.bookId != bookId {
        var rest := WithoutBook(items[1..], bookId);
        assert multiset([items[0]] + rest) == multiset([items[0]]) + multiset(rest);
      }
    }
  }

  /** With unique books, the first line's book is on no line that survives from the rest. */
  lemma HeadNotInRest(items: seq<CartItem>, bookId: int)
    requires UniqueBooks(items) && |items| > 0
    ensures forall j :: 0 <= j < |WithoutBook(items[1..], bookId)| ==>
              items[0].book.bookId != WithoutBook(items[1..], bookId)[j].book.bookId
  {
    var rest := WithoutBook(items[1..], bookId);
    forall j | 0 <= j < |rest| ensures items[0].book.bookId != rest[j].book.bookId {
      assert rest[j] in items[1..];
      var m :| 0 <= m < |items[1..]| && items[1..][m] == rest[j];
      assert items[m + 1] == rest[j];
    }
  }

  /** Every surviving line is a line of the cart, so well-formed lines stay well formed. */
  lemma WithoutBookKeepsWellFormed(items: seq<CartItem>, bookId: int)
    requires LinesWellFormed(items)
    ensures LinesWellFormed(WithoutBook(items, bookId))
  {
    var r := WithoutBook(items, bookId);
    forall i | 0 <= i < |r|
      ensures r[i].quantity >= 1 && r[i].subtotal == r[i].quantity * r[i].book.price
    {
      assert r[i] in items;
    }
  }

  /** A line whose book is on no line of a unique list can go in front of it. */
  lemma ConsUnique(x: CartItem, rest: seq<CartItem>)
    requires UniqueBooks(rest)
    requires forall j :: 0 <= j < |rest| ==> x.book.bookId != rest[j].book.bookId
    ensures UniqueBooks([x] + rest)
  {
    var r := [x] + rest;
    forall i, j | 0 <= i < j < |r| ensures r[i].book.bookId != r[j].book.bookId {
      assert r[j] == rest[j - 1];
      if i > 0 {
        assert r[i] == rest[i - 1];
      }
    }
  }

  lemma {:induction false} WithoutBookKeepsUnique(items: seq<CartItem>, bookId: int)
    requires UniqueBooks(items)
    ensures UniqueBooks(WithoutBook(items, bookId))
  {
    if |items| > 0 {
      UniqueTail(items);
      var rest := WithoutBook(items[1..], bookId);
      WithoutBookKeepsUnique(items[1..], bookId);
      if items[0].book.bookId != bookId {
        assert WithoutBook(items, bookId) == [items[0]] + rest;
        HeadNotInRest(items, bookId);
        ConsUnique(items[0], rest);
      }
    }
  }

  lemma WithoutBookKeepsLines(items: seq<CartItem>, bookId: int)
    requires LinesWellFormed(items) && UniqueBooks(items)
    ensures LinesWellFormed(WithoutBook(items, bookId)) && UniqueBooks(WithoutBook(items, bookId))
  {
    WithoutBookKeepsWellFormed(items, bookId);
    WithoutBookKeepsUnique(items, bookId);
  }

  // ---------------------------------------------------------------------------
  // The reducers keep the invariant
  // ---------------------------------------------------------------------------

  lemma EmptyCartInvariant(path: string)
    ensures CartInvariant(EmptyCart(path)) && EmptyCart(path).lastViewedUrl == path
  {
  }

  /**
   * Adding a new book increments the totals instead of refolding them, so
   * consistent totals stay consistent (and totals already off stay off by
   * the same amount).
   */
  lemma AddNewKeepsDrift(c: ShoppingCart, book: Book, path: string)
    requires !InCart(c.items, book.bookId)
    ensures AddToCart(c, book, path).items == c.items + [CartItem(book, 1, book.price)]
    ensures AddToCart(c, book, path).totalPrice - SumSubtotals(AddToCart(c, book, path).items) == c.totalPrice - SumSubtotals(c.items)
    ensures AddToCart(c, book, path).itemCount - SumQuantities(AddToCart(c, book, path).items) == c.itemCount - SumQuantities(c.items)
  {
    SumAppend(c.items, CartItem(book, 1, book.price));
  }

  /** Adding one copy adds one to the item count and that line's book price to the total. */
  lemma AddToCartTotals(c: ShoppingCart, book: Book, path: string)
    requires CartInvariant(c)
    ensures AddToCart(c, book, path).itemCount == c.itemCount + 1
    ensures !InCart(c.items, book.bookId) ==> AddToCart(c, book, path).totalPrice == c.totalPrice + book.price
    ensures forall k :: 0 <= k < |c.items| && c.items[k].book.bookId == book.bookId ==>
              AddToCart(c, book, path).totalPrice == c.totalPrice + c.items[k].book.price
  {
    var r := AddToCart(c, book, path);
    if InCart(c.items, book.bookId) {
      forall k | 0 <= k < |c.items| && c.items[k].book.bookId == book.bookId
        ensures r.totalPrice == c.totalPrice + c.items[k].book.price
        ensures r.itemCount == c.itemCount + 1
      {
        SumOneChanged(c.items, r.items, k);
        var q := c.items[k].quantity;
        assert r.items[k].subtotal == (q + 1) * c.items[k].book.price;
        assert (q + 1) * c.items[k].book.price == q * c.items[k].book.price + c.items[k].book.price;
      }
    } else {
      AddNewKeepsDrift(c, book, path);
    }
  }

  lemma AddToCartInvariant(c: ShoppingCart, book: Book, path: string)
    requires CartInvariant(c)
    ensures CartInvariant(AddToCart(c, book, path))
  {
    var r := AddToCart(c, book, path);
    if InCart(c.items, book.bookId) {
      forall i | 0 <= i < |r.items|
        ensures r.items[i].quantity >= 1
        ensures r.items[i].subtotal == r.items[i].quantity * r.items[i].book.price
      {
      }
    } else {
      AddNewKeepsDrift(c, book, path);
      forall i, j | 0 <= i < j < |r.items|
        ensures r.items[i].book.bookId != r.items[j].book.bookId
      {
        if j == |c.items| {
          assert r.items[i] == c.items[i];
        }
      }
    }
  }

  lemma RemoveFromCartInvariant(c: ShoppingCart, bookId: int)
    requires CartInvariant(c)
    ensures CartInvariant(RemoveFromCart(c, bookId))
  {
    WithoutBookKeepsLines(c.items, bookId);
  }

  lemma UpdateQuantityInvariant(c: ShoppingCart, bookId: int, quantity: int)
    requires CartInvariant(c)
    ensures CartInvariant(UpdateQuantity(c, bookId, quantity))
  {
  }

  /**
   * Adding a book the cart does not hold and then removing it gives back the
   * cart, except that it remembers the page of the add.
   */
  lemma RemoveUndoesAddNew(c: ShoppingCart, book: Book, path: string)
    requires CartInvariant(c) && !InCart(c.items, book.bookId)
    ensures RemoveFromCart(AddToCart(c, book, path), book.bookId) == c.(lastViewedUrl := path)
  {
    var r := AddToCart(c, book, path);
    AddNewKeepsDrift(c, book, path);
    assert r.items[|c.items|].book.bookId == book.bookId;
    assert UniqueBooks(r.items) by { AddToCartInvariant(c, book, path); }
    WithoutBookDropsOnlyThatLine(r.items, |c.items|);
    assert r.items[..|c.items|] + r.items[|c.items| + 1..] == c.items;
  }

  /** Two adds of the same book to an empty cart give one line of two copies. */
  lemma AddTwiceToEmpty(book: Book, path: string)
    ensures AddToCart(AddToCart(EmptyCart(path), book, path), book, path).items == [CartItem(book, 2, 2 * book.price)]
    ensures AddToCart(AddToCart(EmptyCart(path), book, path), book, path).totalPrice == 2 * book.price && AddToCart(AddToCart(EmptyCart(path), book, path), book, path).itemCount == 2
  {
    var once := AddToCart(EmptyCart(path), book, path);
    assert once.items == [CartItem(book, 1, book.price)];
    assert InCart(once.items, book.bookId) by { assert once.items[0].book.bookId == book.bookId; }
    var twice := AddToCart(once, book, path);
    assert twice.items[0] == CartItem(book, 2, 2 * book.price);
    assert twice.items == [CartItem(book, 2, 2 * book.price)];
    assert SumSubtotals(twice.items) == 2 * book.price;
    assert SumQuantities(twice.items) == 2;
  }

  /** Setting a line to the quantity it already has changes nothing. */
  lemma UpdateToSameQuantity(c: ShoppingCart, k: int)
    requires CartInvariant(c) && 0 <= k < |c.items|
    ensures UpdateQuantity(c, c.items[k].book.bookId, c.items[k].quantity) == c
  {
    var r := UpdateQuantity(c, c.items[k].book.bookId, c.items[k].quantity);
    assert r.items == c.items by {
      forall i | 0 <= i < |c.items| ensures r.items[i] == c.items[i] {
        if i != k {
          assert c.items[i].book.bookId != c.items[k].book.bookId;
        }
      }
    }
  }

  /** Only the last of two quantity updates to the same book counts. */
  lemma UpdateQuantityLastWins(c: ShoppingCart, bookId: int, q1: int, q2: int)
    requires q1 >= 1 && q2 >= 1
    ensures UpdateQuantity(UpdateQuantity(c, bookId, q1), bookId, q2) == UpdateQuantity(c, bookId, q2)
  {
    var a := UpdateQuantity(UpdateQuantity(c, bookId, q1), bookId, q2);
    var b := UpdateQuantity(c, bookId, q2);
    assert a.items == b.items;
  }

  /** With unique lines, a quantity update moves the total by exactly that line's change. */
  lemma UpdateQuantityTotals(c: ShoppingCart, k: int, quantity: int)
    requires CartInvariant(c) && 0 <= k < |c.items| && quantity >= 1
    ensures UpdateQuantity(c, c.items[k].book.bookId, quantity).itemCount == c.itemCount - c.items[k].quantity + quantity
    ensures UpdateQuantity(c, c.items[k].book.bookId, quantity).totalPrice == c.totalPrice - c.items[k].subtotal + quantity * c.items[k].book.price
  {
    var r := UpdateQuantity(c, c.items[k].book.bookId, quantity);
    forall i | 0 <= i < |c.items| && i != k ensures r.items[i] == c.items[i] {
      assert c.items[i].book.bookId != c.items[k].book.bookId;
    }
    SumOneChanged(c.items, r.items, k);
  }
}
