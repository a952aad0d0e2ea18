# Book library: the collection and its rendered view

This project models the core of a small client-side book library (`script.js`).
A `Library` holds an ordered list of `Book` records (id, title, author, pages,
read flag). Next to the list it keeps a container of rendered book cards, one
per book, each tagged with the book's id in a `data-id` attribute. The library
supports four mutations:

- adding a book with a fresh id, which appends the book and its card;
- removing a book, which filters it out of the list and detaches its card;
- toggling a book's read flag, which re-renders its card in place;
- re-rendering everything, which clears the container and renders each book
  in order.

The model is functional. A card is a pure description (`View.Node`): its
`data-id`, an optional READ badge, a details block (title, author, the
`"<n> pages"` line) and an actions block (the read-button label and the
"Remove" label). `View.Render` builds the card of a book. The library state
is the pair `Library.State(books, view)`. Each operation is a function from
one state to the next.

The central invariant is `Library.Valid`: book ids are unique, and the view
is the books rendered one by one in collection order (`Library.Consistent`).
Every operation preserves it. The view also determines the books, since each
card reads back to its book (`View.UnrenderRender`).

Modules:

- `Options`: the optional value returned by lookups.
- `Decimal`: the decimal text of a page count, with the inverse parser that
  shows no information is lost.
- `Books`: the book record, `ToggleRead`, ids and uniqueness.
- `Seqs`: first-match lookup (the linear scan behind `querySelector`) and
  subsequences.
- `View`: the card datatype, `Render` and its inverse.
- `Library`: the state, the operations, the invariant lemmas, repeated adds
  and two worked scenarios.

Object references are modelled as values. A book's id is its only join key,
and ids are unique in every reachable state. So "the object the read button
captured" is the book value passed to `Library.ToggleBookRead`. That value is
either the live book itself or a book that has been removed. That, together
with unique ids in the collection, is the operation's precondition. If the
book is live, it sits at the only slot with its id, and the flipped record is
written there. If it has been
removed, only the returned detached record changes.

Two facts about the code shape the model:

- The read button of a read book says "Mark unread" (`script.js:142`).
- `removeBook` and `toggleBookRead` take the book record itself. The only
  lookups by id are the first-match scans for a card's `data-id`
  (`script.js:52`, `script.js:68`), modelled by `Seqs.IndexOf`.

## Model

| member | source | states |
|---|---|---|
| Books.ToggleRead | script.js:13-15 | the read flag is negated and id, title, author and pages are unchanged |
| Books.ToggleReadInvolution | script.js:13-15 | toggling twice gives back the original book, and one toggle always changes it |
| Decimal.NatToString | script.js:111 | the page count is shown as a canonical decimal numeral: at least one digit, no leading zero, a single digit exactly for counts below ten |
| Decimal.ParseNatToString | script.js:111 | reading back the numeral of a count gives that count, so the pages line loses nothing |
| Decimal.NatToStringOfCanonical | script.js:111 | every canonical numeral is the text of the count it denotes, so the two are in one-to-one correspondence |
| View.PagesText | script.js:111 | the pages line is a canonical numeral followed by the suffix " pages", and that numeral reads back as the book's page count |
| View.CreateBookDetails | script.js:104-121 | the details block carries the book's title, its author and its pages line |
| View.CreateBookActions | script.js:136-152 | the read button says "Mark unread" exactly when the book is read and "Mark as read" exactly when it is not; the delete button says "Remove" |
| View.Render | script.js:78-98 | the card's data-id is the book's id, a READ badge is present exactly when the book is read, and the details and actions blocks are those of the book |
| View.UnrenderRender | script.js:78-121 | every field of the book, the read flag and page count included, can be read back from its card |
| View.RenderInjective | script.js:78-121 | two books have the same card if and only if they are the same book |
| View.RenderIndicatorsAgree | script.js:83-142 | on every card the badge is present exactly when the button offers "Mark unread", and absent exactly when it offers "Mark as read" |
| View.RenderToggleRead | script.js:59-62 | toggling a book changes its card's badge and read label and nothing else, and toggling twice restores the card |
| Seqs.IndexOf | script.js:52 | the lookup returns the first position holding the id, and reports a miss exactly when no position holds it |
| Library.RenderBook | script.js:157-160 | the card of the book is appended after all existing cards, which are unchanged |
| Library.AddBook | script.js:33-38 | with a fresh id, exactly one book with the given fields is appended and returned; earlier books are unchanged; exactly its card is appended to the view |
| Library.AddBookPreservesValid | script.js:33-38 | adding a book with a fresh id keeps ids unique and the view in step with the books |
| Library.WithoutId | script.js:44 | the filtered list has no book with the id, and equals the input when the id is absent |
| Library.WithoutIdOrder | script.js:44 | the filtered list is a subsequence of the original: the remaining books keep their relative order |
| Library.WithoutIdMembers | script.js:44 | a book survives the filter if and only if it was in the list and has a different id |
| Library.WithoutIdUnique | script.js:44 | when ids are unique, the filter removes exactly the one book at the id's index |
| Library.RemoveBookFromDom | script.js:51-54 | the first card with the id is detached and all others keep their order; with no such card the view is unchanged |
| Library.RemoveBook | script.js:43-46 | afterwards no book has the id, the remaining books keep their relative order, an absent id leaves the books unchanged, a card-less id leaves the view unchanged, the view shrinks by one exactly when a card had the id, and the view is the old one with exactly the first card carrying the id detached |
| Library.RemoveBookPreservesValid | script.js:43-54 | removal keeps the invariant, and afterwards neither the books nor the cards carry the id |
| Library.RemoveMissingIsNoOp | script.js:43-54 | removing a book whose id is not in the collection leaves books and view unchanged |
| Library.UpdateBook | script.js:67-73 | the first card with the book's id is replaced by a fresh card of the book at the same position; the order of ids and every other card are unchanged; an id without a card changes nothing |
| Library.ToggleBookRead | script.js:59-62 | for a collection with unique ids and a captured record that is either live or removed: ids stay unique; the record comes back flipped, and a live record is still in the collection afterwards; the collection's ids are unchanged; a live book is replaced by its flipped record at its slot; an absent one leaves the books unchanged; the view is updated with the flipped record |
| Library.ToggleBookReadPreservesValid | script.js:59-73 | toggling a live or removed record keeps ids unique and the view in step with the books |
| Library.StaleToggleIsNoOp | script.js:59-73 | in a consistent state with unique ids, a read button whose book was removed flips only its detached record; books and view are unchanged |
| Library.ToggleBookReadTwice | script.js:59-73 | clicking a live book's read button twice restores the books and the view |
| Library.ConsistentIds | script.js:97 | in a consistent state the cards' data-ids are the books' ids in the same order |
| Library.ConsistentViewDeterminesBooks | script.js:78-121 | in a consistent state every card reads back to the book at the same position |
| Library.RenderAll | script.js:165-168 | whatever the view was before, afterwards it is the books rendered one by one in collection order, and the books are unchanged |
| Library.AddAll | script.js:213-215 | a run of adds with fresh, distinct ids appends exactly those books and their cards, in order |
| Library.AddAllPreservesValid | script.js:213-215 | a run of adds grows the collection by the number of adds and keeps all ids unique and the view in step |
| Library.DuneScenario | script.js:33-62 | adding an unread book to an empty library gives one book and one card offering "Mark as read" with no badge; toggling it makes it read, with a READ badge and "Mark unread" |
| Library.RemoveFirstOfTwoScenario | script.js:33-54 | after adding two books and removing the first, exactly the second book and its card remain |

## Left out

- The DOM API itself (`document.createElement`, `querySelector`, `replaceChild`, `innerHTML`) and `className` styling: cards are the abstract `View.Node`, and the container is a sequence of nodes.
- Event-listener wiring and closures (`script.js:143`, `script.js:148`, `script.js:179-201`): only their effect is modelled, as calls to `Library.ToggleBookRead` and `Library.RemoveBook`.
- Form-data collection, modal open and close, and `form.reset`: input and output glue.
- `Number(pages)` and `Boolean(read)` coercion: pages is a `nat` and read a `bool`. Fractional, negative or NaN page counts are not modelled.
- Decimal.NatToString: matches JavaScript's number-to-text conversion for every whole count up to 2^53. Above that, only some counts match. Others differ because JavaScript prints the shortest digits that identify the double and pads them with zeros (2^64 shows as "18446744073709552000"). From 10^21 it uses exponent notation. Neither behaviour is modelled.
- `crypto.randomUUID()`: a foreign randomness source. It becomes a caller-supplied id with a freshness precondition on `Library.AddBook`.
- The library constructor's container lookup and its not-found error: DOM lookup.
- The seed data itself (`script.js:204-212`). `Library.AddAll` models the repeated adds it drives, but not the particular books.
- Library.ToggleBookRead: object identity is modelled through the id. The source mutates the captured object in place, and that object is always either the live book or a removed one. The model requires exactly that of the record passed in (`b in s.books || b.id !in Ids(s.books)`). It does not describe a call with an out-of-date copy of a live book, which the source cannot make. It also requires unique ids in the collection. With two books sharing an id, the source flips the captured object in its own slot, while the model would overwrite the first book with that id. The model promises nothing for that case. The source never reaches it, because every id comes from a fresh `crypto.randomUUID()`.
- Id matching through CSS selectors: the source finds a card with the selector `[data-id="<id>"]` (`script.js:52`, `script.js:68`). The model compares ids by plain string equality. This is exact for the UUIDs the source generates. An id containing `"` would make the selector invalid, so `querySelector` would throw after `removeBook` had already filtered the list. A `\` in an id would be read as a CSS escape. Neither case is modelled.
