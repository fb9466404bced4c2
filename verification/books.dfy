/**
 * The `Book` entity shared by the backend and the frontend, the sort keys
 * both tiers order books by, and the stable sort they use.
 */
module Books {
  import opened Text

  /** A catalog record. Prices are integer cents. */
  datatype Book = Book(
    bookId: int,
    title: string,
    author: string,
    publisher: string,
    isbn: string,
    classification: string,
    category: string,
    pageCount: int,
    price: int)

  /** Category equality up to case, as both tiers test it. */
  predicate MatchesCategory(b: Book, category: string)
  {
    Lower(b.category) == Lower(category)
  }

  /** The books whose category matches, in their original order. */
  function KeepCategory(s: seq<Book>, category: string): (r: seq<Book>)
    ensures |r| <= |s|
  {
    if |s| == 0 then []
    else (if MatchesCategory(s[0], category) then [s[0]] else []) + KeepCategory(s[1..], category)
  }

  /** The filter keeps every copy of each matching book and no copy of any other. */
  lemma {:induction false} KeepCategoryCounts(s: seq<Book>, category: string)
    ensures forall b :: multiset(KeepCategory(s, category))[b]
                        == if MatchesCategory(b, category) then multiset(s)[b] else 0
  {
    if |s| > 0 {
      KeepCategoryCounts(s[1..], category);
      assert s == [s[0]] + s[1..];
    }
  }

  /** Filtering distributes over concatenation, so it keeps the relative order of what it keeps. */
  lemma {:induction false} KeepCategoryAppend(a: seq<Book>, b: seq<Book>, category: string)
    ensures KeepCategory(a + b, category) == KeepCategory(a, category) + KeepCategory(b, category)
  {
    if |a| == 0 {
      assert a + b == b;
    } else {
      var ab := a + b;
      assert ab[0] == a[0] && ab[1..] == a[1..] + b;
      var head := if MatchesCategory(a[0], category) then [a[0]] else [];
      assert KeepCategory(ab, category) == head + KeepCategory(a[1..] + b, category);
      assert KeepCategory(a, category) == head + KeepCategory(a[1..], category);
      KeepCategoryAppend(a[1..], b, category);
      assert head + (KeepCategory(a[1..], category) + KeepCategory(b, category))
          == (head + KeepCategory(a[1..], category)) + KeepCategory(b, category);
    }
  }

  /**
   * The optional category filter of a list query: a blank category keeps
   * every book, any other keeps the books whose category matches it.
   */
  function FilterCategory(s: seq<Book>, category: string): seq<Book>
  {
    if IsBlank(category) then s else KeepCategory(s, category)
  }

  /** Every filtered book is a book of the input that passes the filter. */
  lemma FilterCategorySound(s: seq<Book>, category: string)
    ensures forall b :: b in multiset(FilterCategory(s, category)) ==>
              b in s && (IsBlank(category) || MatchesCategory(b, category))
  {
    forall b | b in multiset(FilterCategory(s, category))
      ensures b in s && (IsBlank(category) || MatchesCategory(b, category))
    {
      if !IsBlank(category) {
        KeepCategoryCounts(s, category);
        assert multiset(KeepCategory(s, category))[b] > 0;
      }
    }
  }

  /** The fields a page of books can be sorted by. */
  datatype Field = Title | Author | Publisher | Isbn | Classification | Category | PageCount | Price

  /** The value of a sort field: text, or a number. */
  datatype SortKey = Text(text: string) | Number(number: int)

  function KeyOf(f: Field, b: Book): SortKey
  {
    match f
    case Title => Text(b.title)
    case Author => Text(b.author)
    case Publisher => Text(b.publisher)
    case Isbn => Text(b.isbn)
    case Classification => Text(b.classification)
    case Category => Text(b.category)
    case PageCount => Number(b.pageCount)
    case Price => Number(b.price)
  }

  /**
   * Three-way comparison of sort keys: text lexicographically, numbers
   * numerically. One field always yields keys of one kind; ordering text
   * before numbers only makes the comparison total.
   */
  function CompareKeys(x: SortKey, y: SortKey): int
  {
    match (x, y)
    case (Text(a), Text(b)) => Compare(a, b)
    case (Number(a), Number(b)) => CompareInt(a, b)
    case (Text(_), Number(_)) => -1
    case (Number(_), Text(_)) => 1
  }

  /** Ascending three-way comparison of two books on one field. */
  function CompareBy(f: Field, a: Book, b: Book): int
  {
    CompareKeys(KeyOf(f, a), KeyOf(f, b))
  }

  /** The order argument of a list query asks for descending order when it folds to "desc". */
  predicate IsDescending(sortOrder: string)
  {
    Lower(sortOrder) == "desc"
  }

  /**
   * A comparator: one field in ascending or descending order, or the
   * comparator that reports every pair as a tie.
   */
  datatype Comparator = ByField(field: Field, descending: bool) | Unordered

  function Cmp(c: Comparator, a: Book, b: Book): int
  {
    match c
    case ByField(f, desc) => if desc then -CompareBy(f, a, b) else CompareBy(f, a, b)
    case Unordered => 0
  }

  lemma CompareByAntisymmetric(f: Field, a: Book, b: Book)
    ensures CompareBy(f, a, b) == -CompareBy(f, b, a)
  {
    var x, y := KeyOf(f, a), KeyOf(f, b);
    if x.Text? && y.Text? {
      CompareAntisymmetric(x.text, y.text);
    }
  }

  lemma CompareByTransitive(f: Field, a: Book, b: Book, c: Book)
    requires CompareBy(f, a, b) <= 0 && CompareBy(f, b, c) <= 0
    ensures CompareBy(f, a, c) <= 0
  {
    var x, y, z := KeyOf(f, a), KeyOf(f, b), KeyOf(f, c);
    if x.Text? && y.Text? && z.Text? {
      CompareTransitive(x.text, y.text, z.text);
    }
  }

  /** Swapping the arguments of a comparator negates its answer. */
  lemma CmpAntisymmetric(c: Comparator, a: Book, b: Book)
    ensures Cmp(c, a, b) == -Cmp(c, b, a)
  {
    if c.ByField? {
      CompareByAntisymmetric(c.field, a, b);
    }
  }

  /** "May precede" is transitive for every comparator. */
  lemma CmpTransitive(c: Comparator, a: Book, b: Book, d: Book)
    requires Cmp(c, a, b) <= 0 && Cmp(c, b, d) <= 0
    ensures Cmp(c, a, d) <= 0
  {
    if c.ByField? {
      if c.descending {
        CompareByAntisymmetric(c.field, a, b);
        CompareByAntisymmetric(c.field, b, d);
        CompareByAntisymmetric(c.field, a, d);
        CompareByTransitive(c.field, d, b, a);
      } else {
        CompareByTransitive(c.field, a, b, d);
      }
    }
  }

  /** Every earlier book may precede every later one. */
  ghost predicate SortedBy(c: Comparator, s: seq<Book>)
  {
    forall i, j :: 0 <= i < j < |s| ==> Cmp(c, s[i], s[j]) <= 0
  }

  /**
   * Inserts `x` in front of the first book it may precede, so that `x` stays
   * ahead of every book it ties with.
   */
  function Insert(c: Comparator, x: Book, s: seq<Book>): (r: seq<Book>)
    ensures multiset(r) == multiset(s) + multiset{x}
  {
    if |s| == 0 then [x]
    else if Cmp(c, x, s[0]) <= 0 then [x] + s
    else
      assert s == [s[0]] + s[1..];
      [s[0]] + Insert(c, x, s[1..])
  }

  /** Inserting into a sorted sequence keeps it sorted. */
  lemma {:induction false} InsertSorted(c: Comparator, x: Book, s: seq<Book>)
    requires SortedBy(c, s)
    ensures SortedBy(c, Insert(c, x, s))
  {
    if |s| == 0 {
    } else if Cmp(c, x, s[0]) <= 0 {
      forall j | 0 <= j < |s| ensures Cmp(c, x, s[j]) <= 0 {
        if j > 0 { CmpTransitive(c, x, s[0], s[j]); }
      }
      SortedCons(c, x, s);
    } else {
      var t := s[1..];
      var rest := Insert(c, x, t);
      SortedTail(c, s);
      InsertSorted(c, x, t);
      CmpAntisymmetric(c, x, s[0]);
      forall j | 0 <= j < |rest| ensures Cmp(c, s[0], rest[j]) <= 0 {
        assert rest[j] in multiset(rest);
        HeadPrecedesInserted(c, x, s, rest[j]);
      }
      SortedCons(c, s[0], rest);
      assert Insert(c, x, s) == [s[0]] + rest;
    }
  }

  /** A book that may precede every book of a sorted sequence may lead it. */
  lemma SortedCons(c: Comparator, h: Book, s: seq<Book>)
    requires SortedBy(c, s)
    requires forall j :: 0 <= j < |s| ==> Cmp(c, h, s[j]) <= 0
    ensures SortedBy(c, [h] + s)
  {
    var r := [h] + s;
    forall i, j | 0 <= i < j < |r| ensures Cmp(c, r[i], r[j]) <= 0 {
      assert r[j] == s[j - 1];
      if i > 0 {
        assert r[i] == s[i - 1];
      }
    }
  }

  /** In a sorted `s` whose head `x` may not precede, the head may precede everything `x` joins. */
  lemma HeadPrecedesInserted(c: Comparator, x: Book, s: seq<Book>, y: Book)
    requires SortedBy(c, s) && |s| > 0 && Cmp(c, s[0], x) <= 0
    requires y in multiset(s[1..]) + multiset{x}
    ensures Cmp(c, s[0], y) <= 0
  {
    if y != x {
      var k :| 0 <= k < |s[1..]| && s[1..][k] == y;
      assert s[k + 1] == y;
    }
  }

  /**
   * Stable insertion sort: the result is a permutation of the input, sorted
   * by the comparator.
   */
  function Sort(c: Comparator, s: seq<Book>): (r: seq<Book>)
    ensures multiset(r) == multiset(s)
    ensures SortedBy(c, r)
  {
    if |s| == 0 then []
    else
      assert s == [s[0]] + s[1..];
      InsertSorted(c, s[0], Sort(c, s[1..]));
      Insert(c, s[0], Sort(c, s[1..]))
  }

  lemma SortLength(c: Comparator, s: seq<Book>)
    ensures |Sort(c, s)| == |s|
  {
    assert |Sort(c, s)| == |multiset(Sort(c, s))| == |multiset(s)| == |s|;
  }

  /** The books of `s` that tie with `k`, in their order in `s`. */
  function Ties(c: Comparator, s: seq<Book>, k: Book): seq<Book>
  {
    if |s| == 0 then []
    else (if Cmp(c, s[0], k) == 0 then [s[0]] else []) + Ties(c, s[1..], k)
  }

  lemma TiesCons(c: Comparator, x: Book, s: seq<Book>, k: Book)
    ensures Ties(c, [x] + s, k) == (if Cmp(c, x, k) == 0 then [x] else []) + Ties(c, s, k)
  {
    assert ([x] + s)[1..] == s;
  }

  lemma {:induction false} InsertTies(c: Comparator, x: Book, s: seq<Book>, k: Book)
    ensures Ties(c, Insert(c, x, s), k)
         == (if Cmp(c, x, k) == 0 then [x] else []) + Ties(c, s, k)
  {
    if |s| == 0 {
    } else if Cmp(c, x, s[0]) <= 0 {
      TiesCons(c, x, s, k);
    } else {
      var t := s[1..];
      var rest := Insert(c, x, t);
      var hx := if Cmp(c, x, k) == 0 then [x] else [];
      var h0 := if Cmp(c, s[0], k) == 0 then [s[0]] else [];
      assert Insert(c, x, s) == [s[0]] + rest;
      TiesCons(c, s[0], rest, k);
      InsertTies(c, x, t, k);
      assert s == [s[0]] + t;
      TiesCons(c, s[0], t, k);
      NotBothTie(c, x, s[0], k);
      SwapHeads(hx, h0, Ties(c, t, k));
    }
  }

  /** Two books in strict order cannot both tie with a third. */
  lemma NotBothTie(c: Comparator, x: Book, y: Book, k: Book)
    requires Cmp(c, x, y) > 0
    ensures !(Cmp(c, x, k) == 0 && Cmp(c, y, k) == 0)
  {
    if Cmp(c, x, k) == 0 && Cmp(c, y, k) == 0 {
      CmpAntisymmetric(c, y, k);
      CmpTransitive(c, x, k, y);
      assert false;
    }
  }

  lemma SwapHeads<T>(a: seq<T>, b: seq<T>, t: seq<T>)
    requires a == [] || b == []
    ensures b + (a + t) == a + (b + t)
  {
  }

  /**
   * The sort is stable: books that tie keep their relative order, for every
   * class of tied books.
   */
  lemma {:induction false} SortIsStable(c: Comparator, s: seq<Book>, k: Book)
    ensures Ties(c, Sort(c, s), k) == Ties(c, s, k)
  {
    if |s| > 0 {
      SortIsStable(c, s[1..], k);
      InsertTies(c, s[0], Sort(c, s[1..]), k);
    }
  }

  /** With a comparator that ties every pair, sorting changes nothing. */
  lemma {:induction false} SortUnorderedIsIdentity(s: seq<Book>)
    ensures Sort(Unordered, s) == s
  {
    if |s| > 0 {
      SortUnorderedIsIdentity(s[1..]);
      assert Sort(Unordered, s) == Insert(Unordered, s[0], Sort(Unordered, s[1..]));
      assert s == [s[0]] + s[1..];
    }
  }

  /** No two distinct books of `m` tie under `c`. */
  ghost predicate NoTies(c: Comparator, m: multiset<Book>)
  {
    forall a, b :: a in m && b in m && Cmp(c, a, b) == 0 ==> a == b
  }

  lemma CmpReflexive(c: Comparator, a: Book)
    ensures Cmp(c, a, a) == 0
  {
    CompareByAntisymmetric(if c.ByField? then c.field else Title, a, a);
  }

  /** The head of a sorted sequence may precede each of its books. */
  lemma HeadIsLeast(c: Comparator, s: seq<Book>, x: Book)
    requires SortedBy(c, s)
    requires x in multiset(s)
    ensures |s| > 0 && Cmp(c, s[0], x) <= 0
  {
    var j :| 0 <= j < |s| && s[j] == x;
    if j == 0 {
      CmpReflexive(c, x);
    }
  }

  /** A book that strictly precedes every other book of `s` comes first once `s` is sorted. */
  lemma StrictLeastSortsFirst(c: Comparator, s: seq<Book>, k: int)
    requires 0 <= k < |s|
    requires forall i :: 0 <= i < |s| && i != k ==> Cmp(c, s[k], s[i]) < 0
    ensures |Sort(c, s)| == |s| && Sort(c, s)[0] == s[k]
  {
    var sorted := Sort(c, s);
    SortLength(c, s);
    assert s[k] in multiset(sorted);
    HeadIsLeast(c, sorted, s[k]);
    assert sorted[0] in multiset(s);
    var i :| 0 <= i < |s| && s[i] == sorted[0];
    if i != k {
      CmpAntisymmetric(c, s[k], s[i]);
      assert false;
    }
  }

  lemma SortedTail(c: Comparator, s: seq<Book>)
    requires SortedBy(c, s) && |s| > 0
    ensures SortedBy(c, s[1..])
  {
    var t := s[1..];
    forall i, j | 0 <= i < j < |t| ensures Cmp(c, t[i], t[j]) <= 0 {
      assert t[i] == s[i + 1] && t[j] == s[j + 1];
    }
  }

  lemma NoTiesSubset(c: Comparator, m: multiset<Book>, n: multiset<Book>)
    requires NoTies(c, m) && n <= m
    ensures NoTies(c, n)
  {
  }

  lemma SortedHeadsAgree(c: Comparator, r1: seq<Book>, r2: seq<Book>)
    requires multiset(r1) == multiset(r2) && |r1| > 0
    requires SortedBy(c, r1) && SortedBy(c, r2)
    requires NoTies(c, multiset(r1))
    ensures |r2| > 0 && r1[0] == r2[0]
  {
    var x := r1[0];
    assert x in multiset(r2);
    HeadIsLeast(c, r2, x);
    var y := r2[0];
    assert y in multiset(r1);
    HeadIsLeast(c, r1, y);
    CmpAntisymmetric(c, x, y);
  }

  /** Two sorted permutations of each other coincide when no two distinct books tie. */
  lemma {:induction false} SortedPermutationUnique(c: Comparator, r1: seq<Book>, r2: seq<Book>)
    requires multiset(r1) == multiset(r2)
    requires SortedBy(c, r1) && SortedBy(c, r2)
    requires NoTies(c, multiset(r1))
    ensures r1 == r2
    decreases |r1|
  {
    assert |r1| == |multiset(r1)| == |multiset(r2)| == |r2|;
    if |r1| > 0 {
      SortedHeadsAgree(c, r1, r2);
      var x, y := r1[0], r2[0];
      var t1, t2 := r1[1..], r2[1..];
      assert r1 == [x] + t1;
      assert r2 == [y] + t2;
      assert multiset(r1) == multiset{x} + multiset(t1);
      assert multiset(r2) == multiset{x} + multiset(t2);
      SortedTail(c, r1);
      SortedTail(c, r2);
      NoTiesSubset(c, multiset(r1), multiset(t1));
      SortedPermutationUnique(c, t1, t2);
    }
  }

  function Reverse(s: seq<Book>): (r: seq<Book>)
    ensures |r| == |s|
    ensures forall i :: 0 <= i < |s| ==> r[i] == s[|s| - 1 - i]
  {
    seq(|s|, i requires 0 <= i < |s| => s[|s| - 1 - i])
  }

  lemma ReversePermutes(s: seq<Book>)
    ensures multiset(Reverse(s)) == multiset(s)
  {
    if |s| > 0 {
      var t := s[1..];
      ReversePermutes(t);
      assert Reverse(s) == Reverse(t) + [s[0]];
      assert s == [s[0]] + t;
    }
  }

  lemma ReverseFlipsOrder(f: Field, s: seq<Book>)
    requires SortedBy(ByField(f, false), s)
    ensures SortedBy(ByField(f, true), Reverse(s))
  {
    var r := Reverse(s);
    forall i, j | 0 <= i < j < |r|
      ensures Cmp(ByField(f, true), r[i], r[j]) <= 0
    {
      assert r[i] == s[|s| - 1 - i] && r[j] == s[|s| - 1 - j];
      assert Cmp(ByField(f, false), r[j], r[i]) <= 0;
      CompareByAntisymmetric(f, r[i], r[j]);
    }
  }

  /** No two books of `s` share the value of field `f`. */
  ghost predicate DistinctKeys(f: Field, s: seq<Book>)
  {
    forall i, j :: 0 <= i < j < |s| ==> CompareBy(f, s[i], s[j]) != 0
  }

  lemma DistinctKeysNoTies(f: Field, s: seq<Book>)
    requires DistinctKeys(f, s)
    ensures NoTies(ByField(f, true), multiset(s))
  {
    forall a, b | a in multiset(s) && b in multiset(s) && Cmp(ByField(f, true), a, b) == 0
      ensures a == b
    {
      var i :| 0 <= i < |s| && s[i] == a;
      var j :| 0 <= j < |s| && s[j] == b;
      if i < j {
        assert false;
      } else if j < i {
        CompareByAntisymmetric(f, a, b);
        assert false;
      }
    }
  }

  /**
   * Sorting by a field in descending order gives exactly the reverse of the
   * ascending order when no two books share that field's value.
   */
  lemma DescendingReversesAscending(f: Field, s: seq<Book>)
    requires DistinctKeys(f, s)
    ensures Sort(ByField(f, true), s) == Reverse(Sort(ByField(f, false), s))
  {
    var asc, desc := ByField(f, false), ByField(f, true);
    var up := Sort(asc, s);
    var down := Reverse(up);
    ReversePermutes(up);
    ReverseFlipsOrder(f, up);
    DistinctKeysNoTies(f, s);
    SortedPermutationUnique(desc, Sort(desc, s), down);
  }
}
