/** What the search does with the hits the index returns: keep the first 100,
    read each hit's id back from its document, drop repeated ids keeping the
    first, look every id up among the books, and answer `null` when there
    were no hits at all. */
module Search {
  import opened Common
  import opened Numbers
  import opened Books
  import opened Documents

  /** The most hits one search asks the index for. */
  const HitsLimit: nat := 100

  predicate NoDuplicates<T(==)>(xs: seq<T>) {
    forall i, j :: 0 <= i < j < |xs| ==> xs[i] != xs[j]
  }

  /** Position of the first occurrence of `x` in `xs`. */
  function FirstIndex<T(==)>(xs: seq<T>, x: T): (k: nat)
    requires x in xs
    ensures k < |xs| && xs[k] == x && x !in xs[..k]
  {
    if xs[0] == x then 0 else 1 + FirstIndex(xs[1..], x)
  }

  // ---------------------------------------------------------------------------
  // Removing repeated ids

  /** LINQ's `Distinct()`: every element once, at its first occurrence. */
  function Distinct(xs: seq<int>): (r: seq<int>)
    ensures NoDuplicates(r)
    ensures forall x :: x in r <==> x in xs
    ensures |r| <= |xs|
  {
    if |xs| == 0 then []
    else
      var init := xs[..|xs| - 1];
      var last := xs[|xs| - 1];
      assert forall x :: x in xs <==> x in init || x == last by {
        assert xs == init + [last];
      }
      if last in init then Distinct(init) else Distinct(init) + [last]
  }

  /** Every element of `r` occurs in `xs`, and the elements of `r` come in the
      order of their first occurrences in `xs`. */
  ghost predicate InFirstOccurrenceOrder(r: seq<int>, xs: seq<int>) {
    && (forall i :: 0 <= i < |r| ==> r[i] in xs)
    && forall i, j :: 0 <= i < j < |r| ==> FirstIndex(xs, r[i]) < FirstIndex(xs, r[j])
  }

  /** The elements of `Distinct(xs)` come in the order of their first
      occurrence in `xs`. */
  lemma {:induction false} DistinctKeepsFirstOccurrenceOrder(xs: seq<int>)
    ensures InFirstOccurrenceOrder(Distinct(xs), xs)
  {
    if |xs| > 0 {
      var init := xs[..|xs| - 1];
      var last := xs[|xs| - 1];
      assert init <= xs;
      DistinctKeepsFirstOccurrenceOrder(init);
      var r := Distinct(xs);
      var p := Distinct(init);
      assert r == p || r == p + [last];
      forall i, j | 0 <= i < j < |r| ensures FirstIndex(xs, r[i]) < FirstIndex(xs, r[j]) {
        assert r[i] == p[i] && p[i] in p && p[i] in init;
        FirstIndexOfPrefix(xs, init, p[i]);
        if j < |p| {
          assert r[j] == p[j] && p[j] in p && p[j] in init;
          FirstIndexOfPrefix(xs, init, p[j]);
        } else {
          assert r[j] == last && last !in init;
          FirstIndexAt(xs, last, |xs| - 1);
        }
      }
    }
  }

  /** `Distinct` is the only sequence without repeats that holds exactly the
      elements of `xs` in first-occurrence order. */
  lemma {:induction false} DistinctUnique(xs: seq<int>, r: seq<int>)
    requires NoDuplicates(r)
    requires forall x :: x in r <==> x in xs
    requires InFirstOccurrenceOrder(r, xs)
    ensures r == Distinct(xs)
  {
    if |xs| == 0 {
      assert forall x :: x !in r;
    } else {
      var init := xs[..|xs| - 1];
      var last := xs[|xs| - 1];
      assert xs == init + [last];
      if last in init {
        assert forall x :: x in r <==> x in init;
        OrderInPrefix(xs, init, r);
        DistinctUnique(init, r);
        assert Distinct(xs) == Distinct(init);
      } else {
        LastOfOrdered(xs, r);
        var r' := r[..|r| - 1];
        assert r == r' + [last];
        MembersWithoutLast(init, last, r');
        OrderOfPrefix(r, xs, |r| - 1);
        OrderInPrefix(xs, init, r');
        DistinctUnique(init, r');
        assert Distinct(xs) == Distinct(init) + [last];
      }
    }
  }

  /** An ordering by first occurrence in `xs` is one in any prefix of `xs`
      that holds all the elements. */
  lemma OrderInPrefix(xs: seq<int>, prefix: seq<int>, r: seq<int>)
    requires prefix <= xs
    requires forall i :: 0 <= i < |r| ==> r[i] in prefix
    requires InFirstOccurrenceOrder(r, xs)
    ensures InFirstOccurrenceOrder(r, prefix)
  {
    forall i | 0 <= i < |r| ensures FirstIndex(xs, r[i]) == FirstIndex(prefix, r[i]) {
      FirstIndexOfPrefix(xs, prefix, r[i]);
    }
  }

  /** A prefix of a sequence in first-occurrence order is in that order too. */
  lemma OrderOfPrefix(r: seq<int>, xs: seq<int>, n: nat)
    requires n <= |r|
    requires InFirstOccurrenceOrder(r, xs)
    ensures InFirstOccurrenceOrder(r[..n], xs)
  {
    forall i, j | 0 <= i < j < n ensures FirstIndex(xs, r[..n][i]) < FirstIndex(xs, r[..n][j]) {
      assert r[..n][i] == r[i] && r[..n][j] == r[j];
    }
  }

  /** When the last element of `xs` occurs nowhere before, a sequence of the
      elements of `xs` in first-occurrence order ends with it. */
  lemma LastOfOrdered(xs: seq<int>, r: seq<int>)
    requires |xs| > 0 && xs[|xs| - 1] !in xs[..|xs| - 1]
    requires forall x :: x in r <==> x in xs
    requires InFirstOccurrenceOrder(r, xs)
    ensures |r| > 0 && r[|r| - 1] == xs[|xs| - 1]
  {
    var last := xs[|xs| - 1];
    FirstIndexAt(xs, last, |xs| - 1);
    assert last in r;
    var k :| 0 <= k < |r| && r[k] == last;
    var z := r[|r| - 1];
    assert z in xs;
    assert FirstIndex(xs, z) < |xs| - 1 || z == last;
    assert FirstIndex(xs, r[k]) <= FirstIndex(xs, z);
  }

  /** Taking the same new element off a repeat-free sequence and off a
      sequence with the same elements leaves two sequences with the same
      elements. */
  lemma MembersWithoutLast(init: seq<int>, last: int, r': seq<int>)
    requires last !in init
    requires NoDuplicates(r' + [last])
    requires forall x :: x in r' + [last] <==> x in init + [last]
    ensures forall x :: x in r' <==> x in init
  {
    var r := r' + [last];
    forall m | 0 <= m < |r'| ensures r'[m] != last {
      assert r[m] == r'[m] && r[|r'|] == last;
    }
    forall x ensures x in r' <==> x in init {
      assert x in r' ==> x in r;
      assert x in init ==> x in init + [last];
    }
  }

  /** The first occurrence of an element of a prefix lies in that prefix. */
  lemma FirstIndexOfPrefix<T>(xs: seq<T>, prefix: seq<T>, x: T)
    requires prefix <= xs && x in prefix
    ensures FirstIndex(xs, x) == FirstIndex(prefix, x)
  {
    var k := FirstIndex(prefix, x);
    assert xs[..k] == prefix[..k] && xs[k] == x;
    FirstIndexAt(xs, x, k);
  }

  /** A position holding `x` with no `x` before it is the first index of `x`. */
  lemma {:induction false} FirstIndexAt<T>(xs: seq<T>, x: T, k: nat)
    requires k < |xs| && xs[k] == x && x !in xs[..k]
    ensures FirstIndex(xs, x) == k
  {
    if k > 0 {
      assert xs[0] != x by { assert xs[0] == xs[..k][0]; }
      assert xs[1..][..k - 1] == xs[..k][1..];
      FirstIndexAt(xs[1..], x, k - 1);
    }
  }

  /** LINQ's `Distinct()` computed the way its iterator does it: a set of ids already
      seen, and each id passed on the first time it shows up. */
  method DistinctIds(xs: seq<int>) returns (r: seq<int>)
    ensures r == Distinct(xs)
  {
    r := [];
    var seen: set<int> := {};
    for i := 0 to |xs|
      invariant r == Distinct(xs[..i])
      invariant forall x :: x in seen <==> x in xs[..i]
    {
      assert xs[..i + 1][..i] == xs[..i];
      if xs[i] !in seen {
        r := r + [xs[i]];
        seen := seen + {xs[i]};
      }
    }
    assert xs[..|xs|] == xs;
  }

  // ---------------------------------------------------------------------------
  // Resolving ids to books

  /** Position of the first book with id `id`, or `|books|` when none has it. */
  function FirstBookIndex(books: seq<Book>, id: int): (k: nat)
    ensures k <= |books|
    ensures k < |books| ==> books[k].id == id
    ensures forall j :: 0 <= j < k ==> books[j].id != id
  {
    if |books| == 0 then 0
    else if books[0].id == id then 0
    else 1 + FirstBookIndex(books[1..], id)
  }

  /** `books.Where(p => p.Id == id).FirstOrDefault()`. */
  function FindBook(books: seq<Book>, id: int): (r: Option<Book>)
    ensures r.None? <==> forall j :: 0 <= j < |books| ==> books[j].id != id
    ensures r.Some? ==> r.value.id == id && r.value in books
    ensures r.Some? ==> exists k :: 0 <= k < |books| && books[k] == r.value && forall j :: 0 <= j < k ==> books[j].id != id
  {
    var k := FirstBookIndex(books, id);
    if k < |books| then Some(books[k]) else None
  }

  /** Whether some book has id `id`. */
  predicate Known(books: seq<Book>, id: int) {
    exists j :: 0 <= j < |books| && books[j].id == id
  }

  function Ids(books: seq<Book>): (r: seq<Int32>)
    ensures |r| == |books|
  {
    seq(|books|, i requires 0 <= i < |books| => books[i].id)
  }

  /** The ids that some book has, in their original order. */
  function KnownIds(ids: seq<int>, books: seq<Book>): seq<int> {
    if |ids| == 0 then []
    else (if Known(books, ids[0]) then [ids[0]] else []) + KnownIds(ids[1..], books)
  }

  /** Every id turned into the first book with that id; unknown ids are
      skipped. */
  function Resolve(ids: seq<int>, books: seq<Book>): (r: seq<Book>)
    ensures |r| <= |ids|
    ensures forall i :: 0 <= i < |r| ==> r[i] in books && r[i].id in ids
  {
    if |ids| == 0 then []
    else
      var rest := Resolve(ids[1..], books);
      match FindBook(books, ids[0])
      case Some(b) => [b] + rest
      case None => rest
  }

  /** The books resolved are those of the known ids, one each, in the order
      of the ids. */
  lemma {:induction false} ResolveIds(ids: seq<int>, books: seq<Book>)
    ensures Ids(Resolve(ids, books)) == KnownIds(ids, books)
  {
    if |ids| > 0 {
      ResolveIds(ids[1..], books);
      var rest := Resolve(ids[1..], books);
      match FindBook(books, ids[0])
      case Some(b) =>
        assert Known(books, ids[0]) by {
          var k := FirstBookIndex(books, ids[0]);
          assert 0 <= k < |books| && books[k].id == ids[0];
        }
        assert Ids([b] + rest) == [b.id] + Ids(rest);
      case None =>
    }
  }

  /** When every id is known, no book is dropped. */
  lemma {:induction false} ResolveAllKnown(ids: seq<int>, books: seq<Book>)
    requires forall i :: 0 <= i < |ids| ==> Known(books, ids[i])
    ensures |Resolve(ids, books)| == |ids|
  {
    if |ids| > 0 {
      ResolveAllKnown(ids[1..], books);
      assert Known(books, ids[0]);
      var j :| 0 <= j < |books| && books[j].id == ids[0];
    }
  }

  /** The books one id resolves to: the first book with that id, or none. */
  function ResolveOne(books: seq<Book>, id: int): seq<Book> {
    match FindBook(books, id)
    case Some(b) => [b]
    case None => []
  }

  /** Resolving one more id appends what that id resolves to. */
  lemma {:induction false} ResolveAppend(ids: seq<int>, id: int, books: seq<Book>)
    ensures Resolve(ids + [id], books) == Resolve(ids, books) + ResolveOne(books, id)
  {
    if |ids| == 0 {
      assert [id][1..] == [];
    } else {
      assert (ids + [id])[1..] == ids[1..] + [id];
      ResolveAppend(ids[1..], id, books);
    }
  }

  /** The `foreach` loop over the ids, adding the book each id finds. */
  method ResolveLoop(ids: seq<int>, books: seq<Book>) returns (found: seq<Book>)
    ensures found == Resolve(ids, books)
  {
    found := [];
    var i := 0;
    while i < |ids|
      invariant 0 <= i <= |ids|
      invariant found == Resolve(ids[..i], books)
    {
      assert ids[..i + 1] == ids[..i] + [ids[i]];
      ResolveAppend(ids[..i], ids[i], books);
      match FindBook(books, ids[i]) {
        case Some(b) => found := found + [b];
        case None =>
      }
      i := i + 1;
    }
    assert ids[..|ids|] == ids;
  }

  /** `r` holds, for each id of `known` in order, the book `FindBook` finds
      for it. */
  predicate FirstBooksOf(r: seq<Book>, known: seq<int>, books: seq<Book>) {
    && |r| == |known|
    && forall k :: 0 <= k < |r| ==> FindBook(books, known[k]) == Some(r[k])
  }

  /** Putting the book found for one more id in front keeps `FirstBooksOf`. */
  lemma FirstBooksCons(r: seq<Book>, known: seq<int>, books: seq<Book>, id: int, b: Book)
    requires FirstBooksOf(r, known, books)
    requires FindBook(books, id) == Some(b)
    ensures FirstBooksOf([b] + r, [id] + known, books)
  {
    var r' := [b] + r;
    var known' := [id] + known;
    forall k | 1 <= k < |r'| ensures FindBook(books, known'[k]) == Some(r'[k]) {
      assert r'[k] == r[k - 1] && known'[k] == known[k - 1];
    }
  }

  /** Resolution maps every known id, in order, to the first book with that
      id. */
  lemma {:induction false} ResolveFirstBooks(ids: seq<int>, books: seq<Book>)
    ensures FirstBooksOf(Resolve(ids, books), KnownIds(ids, books), books)
  {
    if |ids| > 0 {
      ResolveFirstBooks(ids[1..], books);
      var id := ids[0];
      var j := FirstBookIndex(books, id);
      var rest := Resolve(ids[1..], books);
      var known' := KnownIds(ids[1..], books);
      if j < |books| {
        assert Known(books, id);
        assert Resolve(ids, books) == [books[j]] + rest;
        assert KnownIds(ids, books) == [id] + known';
        FirstBooksCons(rest, known', books, id, books[j]);
      } else {
        assert !Known(books, id);
        assert Resolve(ids, books) == rest;
        assert KnownIds(ids, books) == known';
      }
    }
  }

  /** The answer for a list of distinct ids: `null` when there are none,
      otherwise the resolved books (possibly none). */
  function Answer(ids: seq<int>, books: seq<Book>): (r: Option<seq<Book>>)
    ensures r.None? <==> |ids| == 0
    ensures r.Some? ==> Ids(r.value) == KnownIds(ids, books)
  {
    ResolveIds(ids, books);
    if |ids| > 0 then Some(Resolve(ids, books)) else None
  }

  /** A non-empty id list none of whose ids is known gives an empty list,
      not `null`. */
  lemma {:induction false} AnswerUnknownIds(ids: seq<int>, books: seq<Book>)
    requires |ids| > 0
    requires forall i :: 0 <= i < |ids| ==> !Known(books, ids[i])
    ensures Answer(ids, books) == Some([])
  {
    KnownIdsNone(ids, books);
    ResolveIds(ids, books);
  }

  lemma {:induction false} KnownIdsNone(ids: seq<int>, books: seq<Book>)
    requires forall i :: 0 <= i < |ids| ==> !Known(books, ids[i])
    ensures KnownIds(ids, books) == []
  {
    if |ids| > 0 {
      KnownIdsNone(ids[1..], books);
    }
  }

  // ---------------------------------------------------------------------------
  // The whole post-processing

  function Min(a: nat, b: nat): nat {
    if a <= b then a else b
  }

  /** `Convert.ToInt32(doc.Get("id"))`: the id of one hit. */
  function HitId(doc: Document): Result<Int32, ParseError> {
    ToInt32(Get(doc, IdKey))
  }

  /** Converts every element in turn; the first element that does not
      convert makes the whole conversion fail with its error, as an exception
      thrown while a LINQ query is enumerated does. */
  function ConvertAll<A, B, E>(xs: seq<A>, convert: A -> Result<B, E>): Result<seq<B>, E> {
    if |xs| == 0 then Success([])
    else
      var first := convert(xs[0]);
      var rest := ConvertAll(xs[1..], convert);
      if first.Failure? then Failure(first.error)
      else if rest.Failure? then Failure(rest.error)
      else Success([first.value] + rest.value)
  }

  /** The conversion succeeds exactly when every element converts, and then
      gives the converted elements in order; otherwise it reports the error
      of the first element that does not convert. */
  lemma {:induction false} ConvertAllEach<A, B, E>(xs: seq<A>, convert: A -> Result<B, E>)
    ensures ConvertAll(xs, convert).Success? <==> forall i :: 0 <= i < |xs| ==> convert(xs[i]).Success?
    ensures ConvertAll(xs, convert).Success? ==>
              && |ConvertAll(xs, convert).value| == |xs|
              && forall i :: 0 <= i < |xs| ==> ConvertAll(xs, convert).value[i] == convert(xs[i]).value
    ensures ConvertAll(xs, convert).Failure? ==>
              exists k :: && 0 <= k < |xs| && convert(xs[k]) == Failure(ConvertAll(xs, convert).error)
                          && forall i :: 0 <= i < k ==> convert(xs[i]).Success?
  {
    if |xs| > 0 {
      ConvertAllEach(xs[1..], convert);
      assert forall i :: 0 < i < |xs| ==> xs[i] == xs[1..][i - 1];
      var r := ConvertAll(xs, convert);
      if r.Failure? && convert(xs[0]).Success? {
        var k :| && 0 <= k < |xs[1..]| && convert(xs[1..][k]) == Failure(r.error)
                 && forall i :: 0 <= i < k ==> convert(xs[1..][i]).Success?;
        assert convert(xs[k + 1]) == Failure(r.error);
      }
    }
  }

  /** The id of each hit, in hit order. */
  function HitIds(hits: seq<Document>): Result<seq<Int32>, ParseError> {
    ConvertAll(hits, HitId)
  }

  /** A search given the documents the index ranks for the query, best first:
      the first `HitsLimit` of them become distinct ids, then books. */
  function SearchBooks(ranked: seq<Document>, books: seq<Book>): (r: Result<Option<seq<Book>>, ParseError>)
    ensures r.Success? ==> (r.value.None? <==> |ranked| == 0)
    ensures r.Success? && r.value.Some? ==> |r.value.value| <= HitsLimit
  {
    var hits := ranked[..Min(|ranked|, HitsLimit)];
    ConvertAllEach(hits, HitId);
    match HitIds(hits)
    case Failure(e) => Failure(e)
    case Success(ids) =>
      var distinct := Distinct(ids);
      Success(Answer(distinct, books))
  }

  /** The ids read back from the documents of some books are those books' ids. */
  lemma HitIdsOfDocuments(hitBooks: seq<Book>)
    ensures HitIds(IndexDocuments(hitBooks)) == Success(Ids(hitBooks))
  {
    EachHitIdOfDocument(hitBooks);
    ConvertAllSucceeds(IndexDocuments(hitBooks), HitId, Ids(hitBooks));
  }

  /** When each element converts to the matching value, the conversion of
      all of them gives those values. */
  lemma {:induction false} ConvertAllSucceeds<A, B, E>(xs: seq<A>, convert: A -> Result<B, E>, values: seq<B>)
    requires |values| == |xs|
    requires forall i :: 0 <= i < |xs| ==> convert(xs[i]) == Success(values[i])
    ensures ConvertAll(xs, convert) == Success(values)
  {
    if |xs| > 0 {
      ConvertAllSucceeds(xs[1..], convert, values[1..]);
      assert values == [values[0]] + values[1..];
    }
  }

  lemma EachHitIdOfDocument(hitBooks: seq<Book>)
    ensures forall i :: 0 <= i < |hitBooks| ==> HitId(IndexDocuments(hitBooks)[i]) == Success(Ids(hitBooks)[i])
  {
    forall i | 0 <= i < |hitBooks| ensures HitId(IndexDocuments(hitBooks)[i]) == Success(hitBooks[i].id) {
      HitIdOfDocument(hitBooks[i]);
    }
  }

  /** The id read back from a book's document is the book's id. */
  lemma HitIdOfDocument(book: Book)
    ensures HitId(CreateDocument(book)) == Success(book.id)
  {
    DocumentFieldsRoundTrip(book);
  }

  /** Searching an index built from `books`: the search never fails, answers
      `null` exactly when nothing was hit, and otherwise returns one book per
      distinct id among the first 100 hits, in first-hit order, each of them
      taken from `books`. */
  lemma SearchOverIndex(hitBooks: seq<Book>, books: seq<Book>)
    requires forall i :: 0 <= i < |hitBooks| ==> hitBooks[i] in books
    ensures var ranked := IndexDocuments(hitBooks);
            var top := hitBooks[..Min(|hitBooks|, HitsLimit)];
            var r := SearchBooks(ranked, books);
            && r.Success?
            && (r.value.None? <==> |hitBooks| == 0)
            && (r.value.Some? ==> Ids(r.value.value) == Distinct(Ids(top)))
  {
    var ranked := IndexDocuments(hitBooks);
    var n := Min(|hitBooks|, HitsLimit);
    var top := hitBooks[..n];
    assert ranked[..n] == IndexDocuments(top);
    HitIdsOfDocuments(top);
    var ids := Distinct(Ids(top));
    forall i | 0 <= i < |ids| ensures Known(books, ids[i]) {
      assert ids[i] in Ids(top);
      var k :| 0 <= k < |top| && Ids(top)[k] == ids[i];
      assert top[k] in books;
      var j :| 0 <= j < |books| && books[j] == top[k];
    }
    KnownIdsAll(ids, books);
  }

  lemma {:induction false} KnownIdsAll(ids: seq<int>, books: seq<Book>)
    requires forall i :: 0 <= i < |ids| ==> Known(books, ids[i])
    ensures KnownIds(ids, books) == ids
  {
    if |ids| > 0 {
      KnownIdsAll(ids[1..], books);
    }
  }

  /** With unique book ids, the book resolved for an id is the only book
      that has it. */
  lemma ResolveUnique(ids: seq<int>, books: seq<Book>, b: Book)
    requires UniqueIds(books)
    requires b in books && b.id in ids
    ensures b in Resolve(ids, books)
  {
    var k :| 0 <= k < |ids| && ids[k] == b.id;
    ResolveContains(ids, books, k);
    var found := FindBook(books, b.id);
    var j :| 0 <= j < |books| && books[j] == b;
    assert found.Some?;
    var fk := FirstBookIndex(books, b.id);
    assert books[fk].id == books[j].id;
  }

  /** Resolving keeps the book found for every id. */
  lemma {:induction false} ResolveContains(ids: seq<int>, books: seq<Book>, k: int)
    requires 0 <= k < |ids|
    ensures FindBook(books, ids[k]).Some? ==> FindBook(books, ids[k]).value in Resolve(ids, books)
  {
    if k > 0 {
      ResolveContains(ids[1..], books, k - 1);
    }
  }
}
