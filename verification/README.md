# Product management dashboard — state model

A Dafny model of the state logic of the single React component `App` in
`src/App.js`: a dashboard that lists products fetched from a REST API,
filters them by a search text and a category, and creates, updates and
deletes products through that API.

The component's `useState` slots become the fields of the class
`ProductDashboard.Dashboard`: `products`, `search`, `selectedCategory`,
`formData` and `editingId`. Each event handler becomes a method, and each
method assigns the result of a pure list operation:

- `JsText` (`js_text.dfy`): the string operations the search uses. `Lower` is
  `toLowerCase` on ASCII letters. `Contains` is `includes`, proved equal to
  "the needle occurs at some index".
- `ProductList` (`product_list.dfy`): the `Product` record and the pure list
  patches. `Filtered` is the visible-list projection, `RemoveById` is the
  delete's `filter`, and `ReplaceById` is the update's `map`. The lemmas about
  them cover order, membership, lengths and id counts.
- `ProductDashboard` (`dashboard.dfy`): the form, the editing marker with its
  JavaScript truthiness, the `Request` each handler sends, the `Dashboard`
  class, and two client walkthroughs. The first replays a search and a
  category filter. The second replays an edit round trip, then a delete of the
  product being edited.

The API is not called. A handler method returns the `Request` it would send
(`POST /products`, `PUT /products/{id}`, `DELETE /products/{id}`). The server's
answer arrives as a `Reply` parameter: `Resolved(data)` or `Rejected`.
`Rejected` stands for an awaited call that threw. The source has no `catch`,
so a rejected handler never reaches its setters, and the model changes no
state.

Behaviour kept as the code has it:

- `if (editingId)` is a truthiness test. Ids are modelled as integers, so
  both `null` and the id `0` select create mode. In create mode the marker is
  not cleared: only the update branch calls `setEditingId(null)`.
- An update replaces every entry whose id equals the marker, not just the
  first one.
- A create prepends the reply with no duplicate-id check.
  `PrependUniqueIdsIff` states exactly when the prepend keeps ids distinct,
  and `PrependCanDuplicateIds` exhibits a case where it does not.
- A delete never touches the marker or the form, so the marker can name a
  deleted product. When that id is non-zero, a submit made after that sends a
  `PUT` for the deleted id; its reply then replaces nothing and is dropped, as
  `RemoveThenReplaceDropsReply` and `EditWalkthrough` show.

Two consequences of the code that the model makes explicit:

- A delete shortens the list by exactly one only when ids are distinct, which
  the code never enforces; `RemovePresentUniqueId` proves it under that
  assumption.
- `price` is only copied around, never computed with, so the model keeps it
  as opaque text.

## Model

| member | source | states |
|---|---|---|
| JsText.Lower | src/App.js:71-73 | lower-casing keeps the length, turns each upper-case ASCII letter into its lower-case letter, and changes no other character |
| JsText.ContainsIffOccurs | src/App.js:71-73 | `includes` holds exactly when the needle occurs in the text at some index |
| ProductList.Filtered | src/App.js:70-80 | the visible list is an order-preserving subsequence of the products, and a product is in it exactly when it is a product whose lower-cased title contains the lower-cased search text and whose category equals the selected one (or none is selected) |
| ProductList.SearchIgnoresQueryCase | src/App.js:71-73 | whether a product matches the search does not depend on the case of the typed text |
| ProductList.FilteredCounts | src/App.js:70-80 | each product occurs in the visible list exactly as often as in the product list when it passes the test, and not at all otherwise, so no duplicate copy is dropped |
| ProductList.FilteredAppend | src/App.js:70-80 | filtering a concatenation is the concatenation of the filtered parts, so the filter keeps list order |
| ProductList.FilteredSingle | src/App.js:70-80 | a one-product list survives the filter exactly when its product passes the search and category test |
| ProductList.FilteredShowsAllWhenUnfiltered | src/App.js:71-77 | with empty search text and no selected category the visible list is the product list itself, in the same order |
| ProductList.RemoveById | src/App.js:56 | the delete patch keeps the other entries in order, and a product is left exactly when it was there and its id differs; the length drops by the number of entries carrying the id |
| ProductList.RemoveAbsentIdIsIdentity | src/App.js:56 | deleting an id that no entry carries leaves the list unchanged |
| ProductList.RemovePresentUniqueId | src/App.js:54-57 | with distinct ids, deleting a present id shortens the list by exactly one and keeps the ids distinct |
| ProductList.ReplaceById | src/App.js:42 | the update patch keeps the length; each position whose id equals the marker holds the reply and every other position is unchanged |
| ProductList.ReplaceKeepsIdCounts | src/App.js:42 | when the reply carries the marker's id, the update changes no id's number of occurrences |
| ProductList.UpdatePresentUniqueId | src/App.js:39-43 | with distinct ids, updating a present id with a reply of that id leaves exactly one entry of the id, and it is the reply |
| ProductList.RemoveThenReplaceDropsReply | src/App.js:42-56 | after the entries of an id are deleted, an update addressed to that id changes nothing, so its reply is lost |
| ProductList.PrependUniqueIdsIff | src/App.js:47 | the list after a create has distinct ids exactly when the old list had them and no old entry carries the reply's id |
| ProductList.PrependCanDuplicateIds | src/App.js:47 | the create prepend does no duplicate check: some list with distinct ids gets a repeated id |
| ProductDashboard.SubmitRequest | src/App.js:39-46 | a submit sends the form as the payload; it is a `PUT` addressed to the marker exactly when the marker is truthy, and a `POST` otherwise |
| ProductDashboard.ZeroIdSelectsCreate | src/App.js:39 | both a null marker and the id 0 make a submit create rather than update |
| ProductDashboard.Dashboard.constructor | src/App.js:8-17 | the initial state: no products, empty search, no category, empty form, no marker |
| ProductDashboard.Dashboard.VisibleProducts | src/App.js:70-80 | the rows shown are an order-preserving subsequence of the products, and a product is shown exactly when it passes the search and category test; with nothing typed or selected every product is shown |
| ProductDashboard.Dashboard.LoadProducts | src/App.js:25-28 | a resolved product fetch replaces the list wholesale, and a rejected one changes nothing; no other field changes |
| ProductDashboard.Dashboard.SetSearch | src/App.js:90 | the search text becomes the typed text, and nothing else changes |
| ProductDashboard.Dashboard.SelectCategory | src/App.js:94-98 | the selected category becomes the chosen option, and nothing else changes |
| ProductDashboard.Dashboard.ChangeField | src/App.js:113-128 | one form field takes the typed text, the other two keep theirs, and nothing else changes |
| ProductDashboard.Dashboard.Submit | src/App.js:36-51 | the request is the one `SubmitRequest` picks. On a rejection nothing changes. On success in update mode the list becomes `ReplaceById` of the old one and the marker is cleared. On success in create mode the reply is prepended and the marker is kept. Every success empties the form, and search and category are kept |
| ProductDashboard.Dashboard.Delete | src/App.js:54-57 | sends a `DELETE` for the id. On success the list becomes `RemoveById` of the old one, and on a rejection it is unchanged. The marker, form, search and category are never touched |
| ProductDashboard.Dashboard.Edit | src/App.js:60-67 | the marker becomes the product's id and the form holds the product's title, price and category; products, search and category are kept |

## Left out

- The network. The axios calls are replaced by the returned `Request` and the
  `Reply` parameter. This folds the request and its settled reply into one
  step.
- The category fetch and the `categories` list (src/App.js:10, 30-33). The
  list only fills the drop-down and no logic reads it.
- The `useEffect` that starts both fetches at mount (src/App.js:20-23). It is
  scheduling by React; `LoadProducts` models what the product fetch does.
- Overlapping requests. Stale closures over `products`, and replies that
  arrive out of order, are concurrency. The model applies each handler
  atomically to the current state.
- Rendering, styles, `e.preventDefault()`, and the browser's `required` and
  `type="number"` checks (src/App.js:37, 82-158). The heading and button
  labels are also rendering; they use the same truthiness test as
  `IsTruthy`.
- Full Unicode `toLowerCase`. `Lower` folds only the ASCII letters A-Z.
- Ids other than integers. A string id, or `NaN`, would have its own
  truthiness and `===` behaviour.
- The numeric meaning of `price`, kept as opaque text.
