/**
 The library: an ordered collection of books together with the container of
 rendered cards. Every operation is a function from the pair (books, view)
 to the next pair, so that the link between the two can be stated and kept.
 */
module Library {
  import opened Options
  import opened Seqs
  import opened Books
  import opened View

  datatype State = State(books: seq<Book>, view: seq<Node>)

  /** The data-id attributes of the cards, in document order. */
  function NodeIds(view: seq<Node>): (ids: seq<string>)
    ensures |ids| == |view|
    ensures forall i :: 0 <= i < |view| ==> ids[i] == view[i].dataId
  {
    seq(|view|, i requires 0 <= i < |view| => view[i].dataId)
  }

  /** The view is the books rendered one by one, in collection order. */
  predicate Consistent(books: seq<Book>, view: seq<Node>) {
    |view| == |books| && forall i :: 0 <= i < |books| ==> view[i] == Render(books[i])
  }

  /** The library invariant: unique ids, and a view in step with the books. */
  predicate Valid(s: State) {
    UniqueIds(s.books) && Consistent(s.books, s.view)
  }

  /** The empty library the page starts from. */
  const Empty := State([], [])

  /** Appends the card of `b` at the end of the container. */
  function RenderBook(view: seq<Node>, b: Book): (v: seq<Node>)
    ensures |v| == |view| + 1 && v[..|view|] == view && v[|view|] == Render(b)
  {
    view + [Render(b)]
  }

  /**
   Adds a new book with the given fresh id (the value the id source
   supplies), appends it to the collection and its card to the view, and
   returns the book.
   */
  function AddBook(s: State, id: string, title: string, author: string, pages: nat, read: bool): (r: (State, Book))
    requires id !in Ids(s.books)
    ensures r.1 == Book(id, title, author, pages, read)
    ensures |r.0.books| == |s.books| + 1 && r.0.books[..|s.books|] == s.books && r.0.books[|s.books|] == r.1
    ensures |r.0.view| == |s.view| + 1 && r.0.view[..|s.view|] == s.view && r.0.view[|s.view|] == Render(r.1)
  {
    var b := Book(id, title, author, pages, read);
    (State(s.books + [b], RenderBook(s.view, b)), b)
  }

  /** The collection with every book of the given id filtered out. */
  function WithoutId(books: seq<Book>, id: string): (r: seq<Book>)
    ensures id !in Ids(r)
    ensures id !in Ids(books) ==> r == books
  {
    if |books| == 0 then []
    else if books[0].id == id then WithoutId(books[1..], id)
    else
      assert Ids(books[1..]) == Ids(books)[1..];
      [books[0]] + WithoutId(books[1..], id)
  }

  /** The filter keeps the remaining books in their original relative order. */
  lemma {:induction false} WithoutIdOrder(books: seq<Book>, id: string)
    ensures IsSubsequence(WithoutId(books, id), books)
    decreases |books|
  {
    if |books| > 0 {
      WithoutIdOrder(books[1..], id);
      var r := WithoutId(books, id);
      if books[0].id != id {
        assert r[0] == books[0] && r[1..] == WithoutId(books[1..], id);
      } else if |r| > 0 {
        assert r[0] != books[0] by {
          assert Ids(r)[0] == r[0].id;
        }
      }
    }
  }

  /** The filter keeps every book whose id differs. */
  lemma {:induction false} WithoutIdKeeps(books: seq<Book>, id: string, x: Book)
    requires x in books && x.id != id
    ensures x in WithoutId(books, id)
    decreases |books|
  {
    if books[0] != x {
      WithoutIdKeeps(books[1..], id, x);
    }
  }

  /** The filter keeps exactly the books whose id differs. */
  lemma WithoutIdMembers(books: seq<Book>, id: string)
    ensures forall x :: x in WithoutId(books, id) <==> x in books && x.id != id
  {
    var r := WithoutId(books, id);
    forall x | x in books && x.id != id
      ensures x in r
    {
      WithoutIdKeeps(books, id, x);
    }
    forall x | x in r
      ensures x in books && x.id != id
    {
      WithoutIdOrder(books, id);
      SubsequenceMembers(r, books, x);
      assert Ids(r)[IndexOf(r, x).value] == x.id;
    }
  }

  /** Detaches the first card whose data-id is `id`; nothing happens if none has it. */
  function RemoveBookFromDom(view: seq<Node>, id: string): (v: seq<Node>)
    ensures id !in NodeIds(view) ==> v == view
    ensures forall i :: IndexOf(NodeIds(view), id) == Some(i) ==> v == view[..i] + view[i + 1..]
    ensures |v| == if id in NodeIds(view) then |view| - 1 else |view|
  {
    match IndexOf(NodeIds(view), id)
    case None => view
    case Some(i) => view[..i] + view[i + 1..]
  }

  /** Removes the book: filters it out of the collection and detaches its card. */
  function RemoveBook(s: State, b: Book): (r: State)
    ensures b.id !in Ids(r.books)
    ensures IsSubsequence(r.books, s.books)
    ensures b.id !in Ids(s.books) ==> r.books == s.books
    ensures b.id !in NodeIds(s.view) ==> r.view == s.view
    ensures |r.view| == if b.id in NodeIds(s.view) then |s.view| - 1 else |s.view|
    ensures r.view == RemoveBookFromDom(s.view, b.id)
  {
    WithoutIdOrder(s.books, b.id);
    State(WithoutId(s.books, b.id), RemoveBookFromDom(s.view, b.id))
  }

  /**
   Replaces the first card whose data-id is `b.id` by a fresh card of `b`, at
   the same position; nothing happens if no card has that id.
   */
  function UpdateBook(view: seq<Node>, b: Book): (v: seq<Node>)
    ensures NodeIds(v) == NodeIds(view)
    ensures b.id !in NodeIds(view) ==> v == view
    ensures forall i :: IndexOf(NodeIds(view), b.id) == Some(i) ==>
      v[i] == Render(b) && forall j :: 0 <= j < |view| && j != i ==> v[j] == view[j]
  {
    match IndexOf(NodeIds(view), b.id)
    case None => view
    case Some(i) =>
      var v := view[i := Render(b)];
      assert NodeIds(v) == NodeIds(view);
      v
  }

  /**
   The read button's handler. `b` is the record the button captured when its
   card was built: its flag flips whether or not it is still in the
   collection. The captured object is either the live book or one that has
   been removed, never an out-of-date copy of a live book. If it is live, it
   sits at the first slot with its id, which now holds the flipped record;
   then the card with that id is re-rendered.
   */
  function ToggleBookRead(s: State, b: Book): (r: (State, Book))
    requires UniqueIds(s.books)
    requires b in s.books || b.id !in Ids(s.books)
    ensures r.1 == ToggleRead(b)
    ensures UniqueIds(r.0.books)
    ensures b in s.books ==> r.1 in r.0.books
    ensures Ids(r.0.books) == Ids(s.books)
    ensures b.id !in Ids(s.books) ==> r.0.books == s.books
    ensures forall i :: IndexOf(Ids(s.books), b.id) == Some(i) ==> r.0.books == s.books[i := r.1]
    ensures r.0.view == UpdateBook(s.view, r.1)
  {
    var t := ToggleRead(b);
    var books := match IndexOf(Ids(s.books), b.id)
      case None => s.books
      case Some(i) => s.books[i := t];
    assert Ids(books) == Ids(s.books);
    assert UniqueIds(books) by {
      forall j, k | 0 <= j < k < |books|
        ensures books[j].id != books[k].id
      {
        assert Ids(books)[j] == Ids(s.books)[j] && Ids(books)[k] == Ids(s.books)[k];
      }
    }
    (State(books, UpdateBook(s.view, t)), t)
  }

  /** Clears the container and renders every book in collection order. */
  method RenderAll(s: State) returns (r: State)
    ensures r.books == s.books
    ensures Consistent(r.books, r.view)
  {
    var view: seq<Node> := [];
    var i := 0;
    while i < |s.books|
      invariant 0 <= i <= |s.books|
      invariant Consistent(s.books[..i], view)
    {
      assert s.books[..i + 1] == s.books[..i] + [s.books[i]];
      view := RenderBook(view, s.books[i]);
      i := i + 1;
    }
    assert s.books[..i] == s.books;
    r := State(s.books, view);
  }

  // ---------------------------------------------------------------------
  // The invariant and what it buys

  /** A consistent view carries the collection's ids in the same order. */
  lemma ConsistentIds(books: seq<Book>, view: seq<Node>)
    requires Consistent(books, view)
    ensures NodeIds(view) == Ids(books)
  {
  }

  /** The view determines the collection: each card reads back to its book. */
  lemma ConsistentViewDeterminesBooks(books: seq<Book>, view: seq<Node>)
    requires Consistent(books, view)
    ensures forall i :: 0 <= i < |view| ==> Unrender(view[i]) == Some(books[i])
  {
    forall i | 0 <= i < |view|
      ensures Unrender(view[i]) == Some(books[i])
    {
      UnrenderRender(books[i]);
    }
  }

  lemma AddBookPreservesValid(s: State, id: string, title: string, author: string, pages: nat, read: bool)
    requires Valid(s)
    requires id !in Ids(s.books)
    ensures Valid(AddBook(s, id, title, author, pages, read).0)
  {
    var (s', b) := AddBook(s, id, title, author, pages, read);
    forall i, j | 0 <= i < j < |s'.books|
      ensures s'.books[i].id != s'.books[j].id
    {
      if j == |s.books| {
        assert Ids(s.books)[i] == s'.books[i].id;
      }
    }
  }

  /** Dropping the first book keeps ids unique. */
  lemma UniqueIdsTail(books: seq<Book>)
    requires UniqueIds(books) && |books| > 0
    ensures UniqueIds(books[1..])
    ensures books[0].id !in Ids(books[1..])
  {
    var tail := books[1..];
    forall j, k | 0 <= j < k < |tail|
      ensures tail[j].id != tail[k].id
    {
      assert tail[j] == books[j + 1] && tail[k] == books[k + 1];
    }
    forall k | 0 <= k < |tail|
      ensures Ids(tail)[k] != books[0].id
    {
      assert tail[k] == books[k + 1];
    }
  }

  /** Under unique ids, filtering out an id removes exactly the one book at its index. */
  lemma {:induction false} WithoutIdUnique(books: seq<Book>, i: nat)
    requires UniqueIds(books)
    requires i < |books|
    ensures WithoutId(books, books[i].id) == books[..i] + books[i + 1..]
    decreases i
  {
    var id := books[i].id;
    var tail := books[1..];
    if i == 0 {
      UniqueIdsTail(books);
    } else {
      assert tail[i - 1] == books[i];
      UniqueIdsTail(books);
      WithoutIdUnique(tail, i - 1);
      SpliceCons(books, i);
    }
  }

  /** Deleting the same slot from both sides keeps them consistent. */
  lemma ConsistentDelete(books: seq<Book>, view: seq<Node>, i: nat)
    requires Consistent(books, view)
    requires i < |books|
    ensures Consistent(books[..i] + books[i + 1..], view[..i] + view[i + 1..])
  {
    var bs := books[..i] + books[i + 1..];
    var vs := view[..i] + view[i + 1..];
    forall k | 0 <= k < |bs|
      ensures vs[k] == Render(bs[k])
    {
      if k >= i {
        assert bs[k] == books[k + 1] && vs[k] == view[k + 1];
      }
    }
  }

  /** Deleting one slot keeps ids unique. */
  lemma UniqueIdsDelete(books: seq<Book>, i: nat)
    requires UniqueIds(books)
    requires i < |books|
    ensures UniqueIds(books[..i] + books[i + 1..])
  {
    var bs := books[..i] + books[i + 1..];
    forall j, k | 0 <= j < k < |bs|
      ensures bs[j].id != bs[k].id
    {
      var j' := if j < i then j else j + 1;
      var k' := if k < i then k else k + 1;
      assert bs[j] == books[j'] && bs[k] == books[k'];
    }
  }

  lemma RemoveBookPreservesValid(s: State, b: Book)
    requires Valid(s)
    ensures Valid(RemoveBook(s, b))
    ensures b.id !in Ids(RemoveBook(s, b).books) && b.id !in NodeIds(RemoveBook(s, b).view)
  {
    var r := RemoveBook(s, b);
    ConsistentIds(s.books, s.view);
    if b.id in Ids(s.books) {
      var i := IndexOf(Ids(s.books), b.id).value;
      IndexOfUnique(Ids(s.books), i);
      WithoutIdUnique(s.books, i);
      ConsistentDelete(s.books, s.view, i);
      UniqueIdsDelete(s.books, i);
    }
    ConsistentIds(r.books, r.view);
  }

  /** Overwriting one slot on both sides with a book and its card keeps them consistent. */
  lemma ConsistentUpdate(books: seq<Book>, view: seq<Node>, i: nat, b: Book)
    requires Consistent(books, view)
    requires i < |books|
    ensures Consistent(books[i := b], view[i := Render(b)])
  {
  }

  /** Overwriting a slot with a book of the same id keeps ids unique. */
  lemma UniqueIdsUpdate(books: seq<Book>, i: nat, b: Book)
    requires UniqueIds(books)
    requires i < |books| && books[i].id == b.id
    ensures UniqueIds(books[i := b])
  {
    var bs := books[i := b];
    forall j, k | 0 <= j < k < |bs|
      ensures bs[j].id != bs[k].id
    {
      assert bs[j].id == books[j].id && bs[k].id == books[k].id;
    }
  }

  /** In a consistent state, toggling a live book rewrites its slot on both sides. */
  lemma ToggleBookReadAt(s: State, b: Book, i: nat)
    requires Consistent(s.books, s.view)
    requires UniqueIds(s.books)
    requires b in s.books || b.id !in Ids(s.books)
    requires IndexOf(Ids(s.books), b.id) == Some(i)
    ensures ToggleBookRead(s, b) == (State(s.books[i := ToggleRead(b)], s.view[i := Render(ToggleRead(b))]), ToggleRead(b))
  {
    ConsistentIds(s.books, s.view);
  }

  lemma ToggleBookReadPreservesValid(s: State, b: Book)
    requires Valid(s)
    requires b in s.books || b.id !in Ids(s.books)
    ensures Valid(ToggleBookRead(s, b).0)
  {
    ConsistentIds(s.books, s.view);
    if b.id in Ids(s.books) {
      var i := IndexOf(Ids(s.books), b.id).value;
      ToggleBookReadAt(s, b, i);
      ConsistentUpdate(s.books, s.view, i, ToggleRead(b));
      UniqueIdsUpdate(s.books, i, ToggleRead(b));
    }
  }

  /**
   A button that outlived its book: the captured record's flag flips, and
   neither the collection nor the view changes.
   */
  lemma StaleToggleIsNoOp(s: State, b: Book)
    requires Consistent(s.books, s.view)
    requires UniqueIds(s.books)
    requires b.id !in Ids(s.books)
    ensures ToggleBookRead(s, b).0 == s
    ensures ToggleBookRead(s, b).1.read == !b.read
  {
    ConsistentIds(s.books, s.view);
  }

  /**
   Clicking the read button twice restores both the collection and the view;
   the record handed back is the original one.
   */
  lemma ToggleBookReadTwice(s: State, b: Book)
    requires Valid(s)
    requires b in s.books
    ensures ToggleBookRead(ToggleBookRead(s, b).0, ToggleBookRead(s, b).1) == (s, b)
  {
    var t := ToggleRead(b);
    ToggleReadInvolution(b);
    var i :| 0 <= i < |s.books| && s.books[i] == b;
    IndexOfUnique(Ids(s.books), i);
    ToggleBookReadAt(s, b, i);
    var s1 := State(s.books[i := t], s.view[i := Render(t)]);
    ConsistentUpdate(s.books, s.view, i, t);
    assert Ids(s1.books) == Ids(s.books);
    ToggleBookReadAt(s1, t, i);
    UpdateRestore(s.books, i, t);
    UpdateRestore(s.view, i, Render(t));
  }

  /** Removing a book that is not in the collection changes nothing. */
  lemma RemoveMissingIsNoOp(s: State, b: Book)
    requires Consistent(s.books, s.view)
    requires b.id !in Ids(s.books)
    ensures RemoveBook(s, b) == s
  {
    ConsistentIds(s.books, s.view);
  }

  // ---------------------------------------------------------------------
  // Repeated adds

  /**
   The books of a run of adds carry distinct ids, none already in the
   collection; each stands for the form's fields with the id supplied for it.
   */
  predicate FreshBooks(books: seq<Book>, adds: seq<Book>) {
    UniqueIds(adds) && forall i :: 0 <= i < |adds| ==> adds[i].id !in Ids(books)
  }

  /** After the first book of a run is added, the rest are still fresh. */
  lemma FreshAfterAdd(books: seq<Book>, adds: seq<Book>)
    requires FreshBooks(books, adds)
    requires |adds| > 0
    ensures FreshBooks(books + [adds[0]], adds[1..])
  {
    var books' := books + [adds[0]];
    UniqueIdsTail(adds);
    forall i | 0 <= i < |adds| - 1
      ensures adds[1..][i].id !in Ids(books')
    {
      assert adds[1..][i] == adds[i + 1];
      assert Ids(books') == Ids(books) + [adds[0].id];
    }
  }

  /** The cards of the given books, in order. */
  function RenderSeq(books: seq<Book>): (view: seq<Node>)
    ensures Consistent(books, view)
  {
    if |books| == 0 then [] else [Render(books[0])] + RenderSeq(books[1..])
  }

  /** Adds the given books one after another, as the start-up seeding does. */
  function AddAll(s: State, adds: seq<Book>): (r: State)
    requires FreshBooks(s.books, adds)
    ensures r.books == s.books + adds
    ensures r.view == s.view + RenderSeq(adds)
    decreases |adds|
  {
    if |adds| == 0 then s
    else
      var q := adds[0];
      var (s1, b) := AddBook(s, q.id, q.title, q.author, q.pages, q.read);
      FreshAfterAdd(s.books, adds);
      var r := AddAll(s1, adds[1..]);
      assert s1 == State(s.books + [q], s.view + [Render(q)]);
      assert adds == [q] + adds[1..];
      AppendAssoc(s.books, [q], adds[1..]);
      AppendAssoc(s.view, [Render(q)], RenderSeq(adds[1..]));
      r
  }

  /**
   A run of adds with fresh, distinct ids grows the collection by the number
   of adds and keeps the library invariant, so all ids stay unique.
   */
  lemma {:induction false} AddAllPreservesValid(s: State, adds: seq<Book>)
    requires Valid(s)
    requires FreshBooks(s.books, adds)
    ensures |AddAll(s, adds).books| == |s.books| + |adds|
    ensures Valid(AddAll(s, adds))
    decreases |adds|
  {
    if |adds| > 0 {
      var q := adds[0];
      var (s1, b) := AddBook(s, q.id, q.title, q.author, q.pages, q.read);
      AddBookPreservesValid(s, q.id, q.title, q.author, q.pages, q.read);
      FreshAfterAdd(s.books, adds);
      AddAllPreservesValid(s1, adds[1..]);
      assert AddAll(s, adds) == AddAll(s1, adds[1..]);
    }
  }

  // ---------------------------------------------------------------------
  // Scenarios

  /** Adding "Dune" to an empty library, then marking it read. */
  lemma DuneScenario(id: string)
    ensures var (s1, b) := AddBook(Empty, id, "Dune", "F.Herbert", 412, false);
      && |s1.books| == 1 && |s1.view| == 1
      && s1.view[0].actions.readLabel == MarkAsReadLabel && s1.view[0].badge == None
      && var (s2, _) := ToggleBookRead(s1, b);
      && s2.books[0].read
      && s2.view[0].actions.readLabel == MarkUnreadLabel
      && s2.view[0].badge == Some(ReadBadgeText)
  {
  }

  /** Adding two books and removing the first leaves exactly the second. */
  lemma RemoveFirstOfTwoScenario(id1: string, id2: string)
    requires id1 != id2
    ensures var (s1, b1) := AddBook(Empty, id1, "Dune", "F.Herbert", 412, false);
      var (s2, b2) := AddBook(s1, id2, "Emma", "J.Austen", 474, true);
      var s3 := RemoveBook(s2, b1);
      s3.books == [b2] && s3.view == [Render(b2)]
  {
    var (s1, b1) := AddBook(Empty, id1, "Dune", "F.Herbert", 412, false);
    var (s2, b2) := AddBook(s1, id2, "Emma", "J.Austen", 474, true);
    assert s2.books == [b1, b2] && s2.view == [Render(b1), Render(b2)];
    assert UniqueIds(s2.books);
    WithoutIdUnique(s2.books, 0);
    assert NodeIds(s2.view) == [id1, id2];
    assert IndexOf(NodeIds(s2.view), id1) == Some(0);
  }

}
