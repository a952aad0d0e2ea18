/**
 The rendered view of one book, as a pure description of the card the page
 builds for it: the container tagged with the book's id, an optional READ
 badge, the details block (title, author, pages text) and the actions block
 (read-toggle button and delete button), in that child order.
 */
module View {
  import opened Options
  import opened Decimal
  import opened Books

  const ReadBadgeText := "READ"
  const MarkUnreadLabel := "Mark unread"
  const MarkAsReadLabel := "Mark as read"
  const RemoveLabel := "Remove"
  const PagesSuffix := " pages"

  datatype Details = Details(title: string, author: string, pages: string)

  datatype Actions = Actions(readLabel: string, deleteLabel: string)

  /** A book card; `dataId` is the card's data-id attribute. */
  datatype Node = Node(dataId: string, badge: Option<string>, details: Details, actions: Actions)

  /** The pages line: the page count followed by " pages". */
  function PagesText(pages: nat): (s: string)
    ensures |s| > |PagesSuffix|
    ensures s[|s| - |PagesSuffix|..] == PagesSuffix
    ensures Canonical(s[..|s| - |PagesSuffix|])
    ensures ParseNat(s[..|s| - |PagesSuffix|]) == Some(pages)
  {
    ParseNatToString(pages);
    var s := NatToString(pages) + PagesSuffix;
    assert s[..|s| - |PagesSuffix|] == NatToString(pages);
    s
  }

  function CreateBookDetails(b: Book): (d: Details)
    ensures d.title == b.title && d.author == b.author
    ensures d.pages == PagesText(b.pages)
  {
    Details(b.title, b.author, PagesText(b.pages))
  }

  function CreateBookActions(b: Book): (a: Actions)
    ensures a.readLabel == MarkUnreadLabel <==> b.read
    ensures a.readLabel == MarkAsReadLabel <==> !b.read
    ensures a.deleteLabel == RemoveLabel
  {
    Actions(if b.read then MarkUnreadLabel else MarkAsReadLabel, RemoveLabel)
  }

  /** The card built for a book; it depends on nothing but the book. */
  function Render(b: Book): (n: Node)
    ensures n.dataId == b.id
    ensures n.badge.Some? <==> b.read
    ensures n.badge.Some? ==> n.badge.value == ReadBadgeText
    ensures n.details == CreateBookDetails(b)
    ensures n.actions == CreateBookActions(b)
  {
    Node(b.id, if b.read then Some(ReadBadgeText) else None, CreateBookDetails(b), CreateBookActions(b))
  }

  /**
   Reads a book back from its card: the id from data-id, the read flag from
   the badge, the page count from the pages line.
   */
  function Unrender(n: Node): (r: Option<Book>)
    ensures r.Some? ==> r.value.id == n.dataId && r.value.read == n.badge.Some?
    ensures r.Some? ==> r.value.title == n.details.title && r.value.author == n.details.author
  {
    var t := n.details.pages;
    if |t| < |PagesSuffix| || t[|t| - |PagesSuffix|..] != PagesSuffix then None
    else match ParseNat(t[..|t| - |PagesSuffix|])
      case None => None
      case Some(p) => Some(Book(n.dataId, n.details.title, n.details.author, p, n.badge.Some?))
  }

  /** A card carries every field of its book. */
  lemma UnrenderRender(b: Book)
    ensures Unrender(Render(b)) == Some(b)
  {
    var t := PagesText(b.pages);
    assert t[..|t| - |PagesSuffix|] == NatToString(b.pages);
    ParseNatToString(b.pages);
  }

  /** Distinct books give distinct cards. */
  lemma RenderInjective(a: Book, b: Book)
    ensures Render(a) == Render(b) <==> a == b
  {
    UnrenderRender(a);
    UnrenderRender(b);
  }

  /** The badge and the button label always agree with each other. */
  lemma RenderIndicatorsAgree(b: Book)
    ensures Render(b).badge.Some? <==> Render(b).actions.readLabel == MarkUnreadLabel
    ensures Render(b).badge.None? <==> Render(b).actions.readLabel == MarkAsReadLabel
  {
  }

  /**
   Toggling a book changes exactly its badge and read label on the card;
   toggling twice restores the card.
   */
  lemma RenderToggleRead(b: Book)
    ensures Render(ToggleRead(b)).dataId == Render(b).dataId
    ensures Render(ToggleRead(b)).details == Render(b).details
    ensures Render(ToggleRead(b)).actions.deleteLabel == Render(b).actions.deleteLabel
    ensures Render(ToggleRead(b)).badge.Some? <==> Render(b).badge.None?
    ensures Render(ToggleRead(b)).actions.readLabel != Render(b).actions.readLabel
    ensures Render(ToggleRead(ToggleRead(b))) == Render(b)
  {
  }

}
