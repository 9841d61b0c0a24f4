# E-commerce API core, modelled in Dafny

This project models the core of a Django/DRF e-commerce API and proves properties of that model. The core covers:

- a soft-deletable **category tree**: parent links; the ancestor walk and depth; the pre-order descendant listing; the cycle check that runs before a parent is reassigned; the recursive soft-delete cascade of the view set; restore; nested rendering; the root listing.
- **products**: the exact-decimal final price, `in_stock`, the stock updates under the `stock_quantity >= 0` check constraint, and the field validators.
- the **order status engine**:
  - the order code;
  - the four save hooks (previous status, status timestamp, history row with its attribution, stock rule);
  - the soft delete of an order;
  - order creation through the serializer, with its conditional decrement inside one transaction.
- the **request context**: the middleware's per-request slot, and the client address taken from `X-Forwarded-For` or `REMOTE_ADDR`.
- the **product filters**: category, minimum and maximum final price, and in-stock.

Modules (one per file):

| module | file | what it holds |
|---|---|---|
| `Common` | common.dfy | `Option`; order-preserving filtering `Select` and its lemmas |
| `SoftDelete` | soft_delete.dfy | the deletion flag and what the default managers keep |
| `CategoryTree` | category_tree.dfy | the category table as a value: chains, cascade, descendants, rendering, validation |
| `CategoryStore` | category_store.dfy | class `CategoryTable`: the model methods, write validation and view actions that walk or change the table in place |
| `Products` | products.dfy | the product row, final price, validators |
| `ProductFilters` | filters.dfy | the filter set |
| `RequestContext` | request_context.dfy | `get_client_ip`, the context slot and the middleware call |
| `Orders` | orders.dfy | statuses, order code, the hook rules as functions, one order's stock life, the timeline |
| `Shop` | shop.dfy | class `OrderInstance` (an order in memory, with the hooks' state on it) and class `Store` (products, orders, history rows), with `save`, `delete` and the serializer's `create` |

How things are represented:

- Decimals are rationals (`real`). A price has at most 10 digits with 2 decimals, which Python's default 28-digit decimal context computes exactly, so `final_price` is exact.
- Tables are maps from id to row and include deleted rows (what `all_objects` sees). The default managers' filter is `IsLive`.
- The order in which a query returns category rows is an explicit `listing` sequence. `CategoryTable.Create` appends each new id to it, so categories are listed in creation order, not sorted by name.
- The clock (`timezone.now()`) and `uuid4().hex` are parameters.
- The current request is the `current: Option<Request>` parameter of the save methods.

Behaviour the model reproduces as the code has it:

- A change made with no current request records no actor: `changed_by` is None, not "system".
- An order created with status Cancelled still takes its quantity, because the creation branch comes first. As long as it stays Cancelled, nothing gives it back; moving it out of Cancelled and back into Cancelled gives the quantity back.
- Creating an order through the serializer takes the quantity twice: once in the conditional update, and again in the post-save hook of `Order.objects.create`. Creation succeeds only when stock is at least twice the quantity. When stock lies between one and two times the quantity, the check constraint fails and the transaction rolls back.
- Moving an order back into Pending takes the quantity again.
- The previous status is read through the default manager. Saving an order whose stored row is already deleted therefore sees no previous status and records a change from None.
- `post_save` runs after the row is written. A stock update that breaks the constraint outside a transaction leaves the order row and its history row written.
- The update serializer's parent field resolves parents through the default manager. A deleted parent is therefore refused as "does not exist" before `validate_parent_category` can refuse it.
- The destroy cascade only descends into children that are still live, so an already-deleted child's subtree is left as it is. `restore` does not cascade.
- `destroy` loads its target through the view set's queryset, whose `children` prefetch keeps only live, active rows, and the target's `children.filter(delete_status=0)` keeps that restriction. So at the top level only the live, active children are visited: an inactive child of the target and its whole subtree stay live. Below the top level the children are loaded without a prefetch, and every live child is visited.
- The status hooks run inside `save` with no transaction around them. Only the serializer's `create` opens one.
- `decrease_stock` is an unconditional `F()` update. Only the `stock_quantity >= 0` check constraint rejects a result below zero.

## Model

| member | source | states |
|---|---|---|
| CategoryTree.AncestorsStep | api/models.py:120-127 | the chain of a row with a parent is that parent followed by the parent's chain, and its depth is one more than the parent's |
| CategoryTree.AncestorsAreParentChain | api/models.py:120-127 | the chain is empty exactly for a row without parent, starts at the immediate parent, goes up one link per entry and ends at a root |
| CategoryTree.AncestorsDistinct | api/models.py:120-127 | the ancestor walk never revisits a row and never contains the row itself |
| CategoryTree.DepthBelowSize | api/models.py:134-137 | a depth is always smaller than the number of stored rows |
| CategoryTree.ReparentKeepsAcyclic | api/serializers.py:75-92 | a parent that the ancestor walk accepts keeps every parent chain finite |
| CategoryTree.ReparentIntoSubtreeLoops | api/serializers.py:75-92 | a parent that the walk rejects (the instance is on its chain, itself included) would close a loop |
| CategoryTree.AddKeepsAcyclic | api/views.py:78-91 | adding a row whose parent is stored keeps the tree acyclic and leaves every existing chain unchanged |
| CategoryTree.SiblingSubtreesDisjoint | api/models.py:112-118 | the subtrees of two different children share no row |
| CategoryTree.CascadesInSubtree | api/views.py:124-134 | the destroy cascade never leaves the subtree of its start |
| CategoryTree.CascadeCoversLiveSubtree | api/views.py:124-134 | when nothing below the start is deleted, the cascade reaches the whole subtree |
| CategoryTree.DeletedBranchSkipped | api/views.py:124-134 | nothing below an already-deleted row is reached by the cascade |
| CategoryTree.DescendantsAreCascade | api/models.py:112-118 | `get_all_children` lists exactly the rows below `x` that the cascade from `x` reaches |
| CategoryTree.DescendantsDistinct | api/models.py:112-118 | `get_all_children` lists each descendant once |
| CategoryTree.DescendantsPreOrder | api/models.py:112-118 | in the `get_all_children` listing, every entry is followed at once by that entry's own descendant listing (pre-order) |
| CategoryTree.Render | api/serializers.py:25-31 | a rendered category has the requested id, and one nested entry per live, active child, in listing order |
| CategoryTree.RenderEach | api/serializers.py:28-31 | rendering a list of children gives one view per child, with that child's id, in order |
| CategoryTree.RenderFaithful | api/serializers.py:25-31 | at every nesting level, the entries are exactly the live, active children with their stored fields |
| CategoryTree.FaithfulShowsOnlyVisible | api/serializers.py:25-31 | nowhere below the top does a deleted or inactive category appear, and each entry is a child of the entry above it |
| CategoryTree.ListCategoriesShowsLiveRoots | api/views.py:48-67 | `list` shows every live root that matches the `active` filter and nothing else, each as a faithful nested view |
| CategoryTree.DeletedParentRejected | api/serializers.py:67-73 | a deleted category is never accepted as a parent |
| CategoryTree.WriteCheckMatchesAcyclicity | api/serializers.py:67-92 | a create never runs the walk; an accepted write names a live parent and keeps the tree acyclic; a write refused as circular would have closed a loop |
| CategoryTree.FlagChangeKeepsTree | api/models.py:102-110 | a flag change keeps every row and link; only the flagged row changes; restore undoes the soft delete of a live row |
| CategoryTree.HasLiveChild | api/models.py:129-132 | `is_parent` holds exactly when some live row has the category as parent |
| CategoryTree.CascadeComplete | api/views.py:124-134 | once every live child is visited, exactly the rows the cascade reaches are flagged, and nothing else changes |
| CategoryTree.DestroyVersusCascade | api/views.py:114-134 | what `destroy` flags lies within the cascade from the target, and equals it when every live child of the target is active |
| CategoryTree.InactiveChildSkipped | api/views.py:31-36 | an inactive child of the target, and everything in its subtree, is not flagged by `destroy` |
| CategoryStore.CategoryTable.GetAncestors | api/models.py:120-127 | the loop returns the parent chain, immediate parent first, deleted rows included |
| CategoryStore.CategoryTable.Depth | api/models.py:134-137 | depth is the chain length: 0 exactly for a root, the parent's depth plus one otherwise |
| CategoryStore.CategoryTable.GetAllChildren | api/models.py:112-118 | the recursion returns the pre-order descendant listing |
| CategoryStore.CategoryTable.WalksIntoInstance | api/serializers.py:80-90 | the loop reports a circular reference exactly when the instance is on the chain of the proposed parent, itself included |
| CategoryStore.CategoryTable.ValidateWrite | api/serializers.py:67-92 | the reported errors are the field errors, or the outcome of the walk on an update with a parent |
| CategoryStore.CategoryTable.Create | api/views.py:78-91 | a valid create stores one new live row and keeps the tree acyclic; an invalid one changes nothing |
| CategoryStore.CategoryTable.Update | api/views.py:93-106 | a missing or deleted id is not found; a valid update replaces the fields and keeps the flag; an invalid one changes nothing |
| CategoryStore.CategoryTable.SoftDelete | api/models.py:102-105 | only the flag of the category changes, and the row stays stored |
| CategoryStore.CategoryTable.Restore | api/models.py:107-110 | only the flag of the category changes; its deleted children stay deleted |
| CategoryStore.CategoryTable.SoftDeleteRecursive | api/views.py:124-134 | exactly the rows the cascade from `x` reaches are flagged; links and every other row are unchanged |
| CategoryStore.CategoryTable.Destroy | api/views.py:108-134 | a missing or deleted id is not found and nothing changes; otherwise exactly the target and what the cascade reaches from its live, active children are flagged, links are kept, and a second destroy finds nothing |
| CategoryStore.CategoryTable.Retrieve | api/views.py:69-76 | a live id gives its faithful nested view; a deleted or missing id gives none |
| Products.DiscountAmount | api/serializers.py:119-120 | the discount amount is the base price times the discount percentage |
| Products.FinalPriceWithinBase | api/models.py:222-224 | with a discount in 0..100 and a non-negative base, the final price and the discount amount lie between 0 and the base |
| Products.ValidProductPrices | api/models.py:181-195 | every product that passes the field validators has a final price between 0 and its base price |
| Products.FinalPriceExamples | api/models.py:187-190 | 100.00 at 20%, 0% and 100% gives 80.00, 100.00 and 0.00; a discount of -1 or 101 fails validation |
| ProductFilters.FilterInStock | api/filters.py:28-33 | True keeps exactly the products with stock above 0, False those with stock 0, no value keeps the input; the order is preserved |
| ProductFilters.FilterMinPrice | api/filters.py:6-10 | keeps exactly the products whose final price is at least the bound, in order |
| ProductFilters.FilterMaxPrice | api/filters.py:11-15 | keeps exactly the products whose final price is at most the bound, in order |
| ProductFilters.FilterCategory | api/filters.py:22-26 | keeps exactly the products of the given category, in order |
| ProductFilters.FiltersIntersect | api/filters.py:4-33 | the filters applied together keep exactly the products that pass every test, in their original order |
| ProductFilters.InStockExample | api/filters.py:28-32 | of a product with stock 5 and one with stock 0, True keeps the first and False the second |
| RequestContext.TrimStartCuts | api/middlewares.py:13 | stripping on the left removes a whitespace prefix and keeps a suffix that does not start with whitespace |
| RequestContext.TrimEndCuts | api/middlewares.py:13 | stripping on the right removes a whitespace suffix and keeps a prefix that does not end with whitespace |
| RequestContext.StripCuts | api/middlewares.py:13 | `strip()` keeps a slice with no whitespace at either end, and only whitespace is cut off |
| RequestContext.StripUnchanged | api/middlewares.py:13 | a string with no whitespace at either end is its own strip |
| RequestContext.FirstFieldCuts | api/middlewares.py:13 | `split(",")[0]` is a comma-free prefix, ended by a comma or by the end of the string |
| RequestContext.FirstFieldOf | api/middlewares.py:13 | the first field of a comma-free text followed by a comma (or nothing) is that text |
| RequestContext.ForwardedForWins | api/middlewares.py:10-14 | a non-empty forwarded header wins over the remote address; the result is its whole first entry (up to the first comma) with only whitespace cut off at both ends |
| RequestContext.SingleForwardedAddress | api/middlewares.py:10-14 | a single address without commas or surrounding whitespace is returned as sent |
| RequestContext.FallsBackToRemoteAddr | api/middlewares.py:14 | with the header absent or empty, the remote address is returned, possibly None |
| RequestContext.ForwardedForExample | api/middlewares.py:10-13 | "1.2.3.4, 5.6.7.8" gives "1.2.3.4", even when a remote address is present |
| RequestContext.RequestContextMiddleware.Call | api/middlewares.py:21-27 | the handler sees the request it was called with; its outcome passes through; afterwards `get_current_request()` is None, raise or not |
| Orders.UpperHex | api/models.py:306 | upper-casing a hexadecimal digit gives an upper-case hexadecimal digit and keeps decimal digits |
| Orders.OrderCode | api/models.py:304-306 | a generated code is 14 characters: "ORD-" and ten upper-case hexadecimal digits |
| Orders.OrderCodeInjective | api/models.py:304-306 | two codes agree exactly when the first ten digits they come from agree |
| Orders.OldStatus | api/signals.py:10-26 | None for a new order or one the default manager does not find; otherwise the stored status |
| Orders.Stamp | api/signals.py:65-77 | the timestamp is now on creation or when the status moved, and unchanged otherwise |
| Orders.AttributeCases | api/signals.py:37-53 | no request: system, no actor, no address; a request: admin exactly for the `admin` app, api otherwise, the user only when authenticated, the client address |
| Orders.HistoryFor | api/signals.py:29-62 | no row when the status did not move; otherwise exactly one row with the prior and new status, the attribution and the time |
| Orders.StockRuleCases | api/signals.py:80-108 | no change on an unchanged status; take on creation or on a move into Pending; give back on a move into Cancelled, from any prior status including none (a re-save of an order whose stored row is deleted); nothing on other moves |
| Orders.CancelledStays | api/signals.py:103-108 | a life that never leaves Cancelled ends Cancelled |
| Orders.MovesBalance | api/signals.py:96-108 | over moves that never return to Pending or leave Cancelled, stock comes back exactly once, when the order ends Cancelled |
| Orders.StockBalance | api/signals.py:96-108 | an order not created Cancelled takes its quantity once, and on such a life gives it back exactly when it ends Cancelled |
| Orders.CancelledAtCreationKeepsStock | api/signals.py:96-108 | an order created Cancelled takes its quantity and, as long as it stays Cancelled, never gives it back; moving it to Confirmed and back into Cancelled gives the quantity back |
| Orders.ReturnToPendingTakesAgain | api/signals.py:97-101 | Pending, Confirmed, Pending takes twice the quantity; cancelling afterwards gives back only one |
| Orders.Reversed | api/models.py:346-348 | the newest-first order is the reverse of the write order, element by element |
| Orders.CreateThenConfirm | api/signals.py:55-62 | creating then confirming an order leaves two rows for it, newest first: confirmation from Pending, then creation from no status |
| Shop.OrderFieldErrors | api/models.py:267-292 | the product must be live, the quantity at least 1, the status one of the six choices; each error appears exactly when its rule fails |
| Shop.CreateNeedsTwice | api/serializers.py:144-158 | "Not enough stock." exactly when stock < quantity; constraint failure exactly when quantity <= stock < 2 × quantity; created exactly when stock >= 2 × quantity |
| Shop.OrderInstance.PrepareForSave | api/models.py:304-308 | the code is generated only when empty; the previous status and the timestamp follow the pre-save hooks; no other field changes |
| Shop.Store.DecreaseStock | api/models.py:230-232 | subtracts exactly the quantity from that product's stock, or fails on the check constraint and writes nothing |
| Shop.Store.IncreaseStock | api/models.py:234-236 | adds exactly the quantity, under the same constraint |
| Shop.Store.DeleteProduct | api/models.py:29-32 | only the product's flag changes; the row stays stored |
| Shop.Store.ApplyStockRule | api/signals.py:80-108 | at most one stock write, of the amount the stock rule gives |
| Shop.Store.RecordHistory | api/signals.py:29-62 | appends exactly the history rows for the change, attributed to the current request |
| Shop.Store.SaveOrder | api/models.py:304-308 | code, previous status and timestamp as the pre-save hooks set them; the row written; the history appended; the stock rule applied with "created" meaning a new row; on a constraint failure the row and the history stay written |
| Shop.Store.DeleteOrder | api/models.py:29-32 | the row stays stored, flagged deleted; code, previous status and timestamp are set as by `save`; a live order keeps its history and stock; an order whose stored row was already deleted records a change from no status |
| Shop.Store.InsertOrder | api/serializers.py:156 | a new row, coded and stamped; one history row from no status; the quantity taken whatever the status |
| Shop.Store.TakeIfAvailable | api/serializers.py:149-154 | takes the quantity exactly when the product is live and has at least that much stock; otherwise nothing changes |
| Shop.Store.TakeThenInsert | api/serializers.py:148-156 | the outcome follows the stock; on success the stock is down by twice the quantity, with the new row and its creation row |
| Shop.Store.CreateValidated | api/serializers.py:144-158 | as above, and any failure leaves products, orders and history as they were |
| Shop.Store.CreateOrder | api/serializers.py:139-158 | invalid input is reported with its field errors and changes nothing; otherwise creation succeeds exactly when stock >= 2 × quantity |

## Left out

- Sorting by name (`ordering = ["name"]`, and `-created_at` for orders): categories are listed in creation order, and history order is write order.
- `created_at`/`updated_at`, `description`, `image_url`, `notes`: no logic reads them; the history row's `created_at` is the save's clock value.
- Partial updates (PATCH) of categories: only a full update is modelled.
- The whitespace trimming that DRF applies to `name`: the name is taken as given.
- Parsing of query parameters: an `active` value that is not an integer makes `int()` raise, which is not modelled; the filter parameters arrive already parsed, and an absent or unrecognised `in_stock` value is None.
- Pagination of `list`, and the response envelopes and status codes of the views.
- Signal dispatch and the ORM: the hooks are explicit ordered steps of `SaveOrder`.
- Thread-local storage and concurrency: one sequential context slot, one request at a time; each `transaction.atomic` block is all-or-nothing inside one method.
- `GenericIPAddressField` validation and IPv6 normalisation: an address is stored as text, and only the empty address becomes None.
- The float rendering of `final_price` in the product serializer: prices stay exact.
- Shop.OrderFieldErrors: `unit_price` and `total_price` are required decimals with a minimum of 0, but their validation is not modelled, so no error is reported for them; no core logic computes them.
- The unique constraints on `order_code` and on the product `code`: a colliding insert is not modelled.
- Hard deletes and their foreign-key effects (`SET_NULL`, `PROTECT`, `CASCADE`): every delete in the core is a soft delete.
- The width of the integer columns: quantities and stock are unbounded integers.
- Product create and update views, the order views, seeding commands and settings: api/views.py only holds the category view set; the rest is not part of this model.
- `OrderStatusHistory` display ordering and `status_display`: the timeline is the reversed write order.
- `final_price_db`, the annotation the price filters use, is not part of this model; the filters use `final_price` itself.
