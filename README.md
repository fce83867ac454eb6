# Photo browse pagination

A model of the photo display controller of a small photo-sharing web application
(`PhotoDisplayController`). Its one piece of real logic is the browse-page pagination
rule of `showBrowsePage`:

- a category with no entries gets the error view, and nothing is fetched;
- otherwise the page count is the entry count divided by the page size (3), plus one
  when there is a remainder;
- the page asked for is clamped into `[1, numPages]`;
- one of two fetch branches asks the data layer for the zero-based inclusive index range
  `[(page-1)*3, (page-1)*3 + 2]`;
- the browse view gets the photos, the image base URL, the current page, the page count
  and the category as attributes.

The detail-page handler `showPhotoDetails` is modelled too. It passes the browse page back
unchanged, and its vote status is 0 for a visitor who is not logged in.

Files:

- `pagination.dfy` (module `Pagination`): the rule as pure functions over
  mathematical integers for any page size of at least 1. It holds the page count, the
  clamping, the two fetch conditions, the fetch range, the whole-request resolution
  `ResolvePage`, and lemmas about all of them.
- `photo_display.dfy` (module `PhotoDisplay`): the two handlers as imperative methods.
  They update a `Model` object whose attribute map changes one `AddAttribute` at a time,
  as Spring's `Model` does. `ShowBrowsePage` follows the source statement by statement:
  it reassigns the page while clamping, and it takes both fetch branches and the
  unreachable error branch. Its postcondition ties the view name, the requested range and
  the final attribute map to `Pagination.ResolvePage`.

Collaborators are parameters:

- the entry count (`DatabaseAccess.getNumberOfEntries`) is an integer;
- `DatabaseAccess.getTopPhotos`, `DatabaseAccess.getPhoto` (an optional photo, None for null), `VoteController.userLastVote`,
  `PhotoCategory.getEnum` and `FBConnection.getFBAuthUrl` are function parameters;
- the login status (`LoginController.userLoggedIn`), the session's user id (optional), the maps key
  (`GoogleMapsAPI.getApiKey`) and the image and site base URLs are values.

`ShowBrowsePage` also returns the range it passed to `getTopPhotos` (`Fetch`). This makes
"no fetch on an empty category" and "the range fetched" statable.

Besides the empty-category error, the source has a second error exit ("You shouldn't get here") after the two
fetch conditions. The model proves that exit unreachable (`FetchBranchTaken`). The method
marks it with `assert false`.

## Model

| member | source | states |
|---|---|---|
| `Pagination.NumPages` | src/main/java/com/test/controller/PhotoDisplayController.java:55-61 | for a count of at least 1 the page count is at least 1 and `(n-1)*size < count <= n*size` |
| `Pagination.NumPagesIsCeiling` | src/main/java/com/test/controller/PhotoDisplayController.java:55-61 | the two-branch page count is the only `n` with `(n-1)*size < count <= n*size`, i.e. the ceiling of count / size |
| `Pagination.NumPagesClosedForm` | src/main/java/com/test/controller/PhotoDisplayController.java:55-61 | the two-branch page count equals `(count + size - 1) / size` |
| `Pagination.Clamp` | src/main/java/com/test/controller/PhotoDisplayController.java:65-70 | the clamped page lies in `[1, numPages]`, a page already in range is kept, and no page of the range is nearer the request |
| `Pagination.ClampIdempotent` | src/main/java/com/test/controller/PhotoDisplayController.java:65-70 | clamping a clamped page changes nothing |
| `Pagination.ClampIsUniqueNearest` | src/main/java/com/test/controller/PhotoDisplayController.java:65-70 | any page of the range that is at least as near the request as every other is the clamped page |
| `Pagination.RangeStart` | src/main/java/com/test/controller/PhotoDisplayController.java:79 | the first index of page p is `(p-1)*size`, never negative for a page of at least 1 |
| `Pagination.RangeEnd` | src/main/java/com/test/controller/PhotoDisplayController.java:80 | the last index of page p spans exactly `size` indices from the first, and the next page starts right after it |
| `Pagination.FullPageGuard` | src/main/java/com/test/controller/PhotoDisplayController.java:75-76 | the condition of the first fetch branch; for a page in `[1, numPages]` it holds exactly when the page is not the last or the size divides the count |
| `Pagination.LastPartialGuard` | src/main/java/com/test/controller/PhotoDisplayController.java:84 | the condition of the second fetch branch; whenever it holds the first condition does not |
| `Pagination.StartOfValidPage` | src/main/java/com/test/controller/PhotoDisplayController.java:79 | the first index of every page from 1 to numPages names an existing entry: `0 <= start <= count - 1` |
| `Pagination.ResolvePage` | src/main/java/com/test/controller/PhotoDisplayController.java:44-90 | fails, with `EmptyCategory` only, exactly when the count is below 1; otherwise the page count is the ceiling, the page is in range (the request itself when it was in range), the range starts at an existing entry and spans exactly one page size; no page of the range is nearer the request than the page chosen |
| `Pagination.FetchBranchTaken` | src/main/java/com/test/controller/PhotoDisplayController.java:74-95 | with a count of at least 1 and a clamped page one of the two fetch conditions holds, so the error branch is unreachable; the first holds exactly when the page is full, the second exactly when it is not |
| `Pagination.PageFill` | src/main/java/com/test/controller/PhotoDisplayController.java:74-90 | the range fetched spans the page size and starts at an existing entry; the page holds between 1 and size entries, fewer than size exactly on the last page when size does not divide the count |
| `Pagination.EntryOnPage` | src/main/java/com/test/controller/PhotoDisplayController.java:55-61 | every entry index lies in the range of page `index / size + 1`, which is a page between 1 and numPages |
| `Pagination.EntryOnOnePage` | src/main/java/com/test/controller/PhotoDisplayController.java:78-81 | an index lies in the range of no other page, so page ranges never overlap |
| `Pagination.SliceRange` | src/main/java/com/test/controller/PhotoDisplayController.java:78-81 | the data layer's answer for a range: at most `end - start + 1` entries, those of the range that exist, in rank order |
| `Pagination.ServedSize` | src/main/java/com/test/controller/PhotoDisplayController.java:74-90 | the data layer's answer for any page from 1 to numPages holds exactly `min(size, count - start)` entries |
| `Pagination.ServedSizeSevenEntries` | src/main/java/com/test/controller/PhotoDisplayController.java:78-81 | for 7 entries the range 6..8 of the last page returns one entry |
| `Pagination.AllPagesCoverEntries` | src/main/java/com/test/controller/PhotoDisplayController.java:73-90 | fetching pages 1 to numPages in turn and concatenating gives the category's entries exactly, in order |
| `Pagination.PagesFromIsSuffix` | src/main/java/com/test/controller/PhotoDisplayController.java:73-90 | pages p to numPages concatenated are the entries from the first index of page p onwards |
| `Pagination.ResolveSevenEntries` | src/main/java/com/test/controller/PhotoDisplayController.java:55-81 | 7 entries with page 5 requested resolve to page 3 of 3, range 6..8 |
| `Pagination.ResolveNineEntries` | src/main/java/com/test/controller/PhotoDisplayController.java:55-81 | 9 entries with page 2 requested resolve to page 2 of 3, range 3..5 |
| `PhotoDisplay.NumPhotoPerPage` | src/main/java/com/test/controller/PhotoDisplayController.java:24 | the number of photos per page is positive (it is 3) |
| `PhotoDisplay.PhotoOrNull` | src/main/java/com/test/controller/PhotoDisplayController.java:136-137 | the photo attribute is null exactly when the lookup found no photo, and the photo itself otherwise |
| `PhotoDisplay.EmptyCategoryMessage` | src/main/java/com/test/controller/PhotoDisplayController.java:49-50 | the empty-category message names the category |
| `PhotoDisplay.ReAddSameValue` | src/main/java/com/test/controller/PhotoDisplayController.java:108 | adding the page count a second time with the value it already has leaves the attributes as they were |
| `PhotoDisplay.Model.AddAttribute` | src/main/java/com/test/controller/PhotoDisplayController.java:62 | adding an attribute sets that one name to the value and leaves every other name as it was |
| `PhotoDisplay.ShowBrowsePage` | src/main/java/com/test/controller/PhotoDisplayController.java:34-115 | the view is "error" exactly for a count below 1, with only the message attribute added and nothing fetched; otherwise it is "browse", with the fetched range that of `ResolvePage` (starting at an existing entry, one page size long), and with the attributes numPages, photos (what the data layer returned for that range), imageURL, currentPage (the clamped page) and category (the input unchanged) |
| `PhotoDisplay.ShowPhotoDetails` | src/main/java/com/test/controller/PhotoDisplayController.java:125-167 | the view "photo-detail" is rendered exactly when the photo exists and a logged-in session has a user id; otherwise a null dereference stops the handler with only the attributes added before it; prevPage is always passed back unchanged; when rendered, voteStat is 0 for a visitor who is not logged in and the user's last vote otherwise, and the other attributes are the collaborators' answers |

## Left out

- Database access (`DatabaseAccess.getNumberOfEntries`, `getTopPhotos`, `getPhoto`) is not modelled. The count is an input and the fetches are function parameters. `SliceRange` states the slice behaviour that `AllPagesCoverEntries` assumes of `getTopPhotos`.
- `LoginController.userLoggedIn`, `VoteController.userLastVote`, `GoogleMapsAPI.getApiKey`, `FBConnection.getFBAuthUrl` and `PhotoCategory.getEnum` are one-line calls into classes that are not part of this model. They are parameters.
- `PhotoCategory` is not part of this model. A category is its printed name (`Category(name)`), and `category.toString()` in the message is that name.
- The image and site base URLs built from the request's scheme, server and port are plain string concatenation of request fields. They are parameters (`imageURL`, `baseURL`).
- Spring request binding, annotations, `HttpServletRequest`/`HttpSession` and the dispatch from view name to template are framework plumbing. Handlers take plain values and return the view name.
- The console logging is I/O only.
- Java `int` overflow is not modelled; counts and pages are mathematical integers. For the non-negative operands that reach `/` and `%` (a count of at least 1), Java's truncating division agrees with Dafny's. The one overflow the source can reach: with `numEntries == Integer.MAX_VALUE` the last page's `end` is 2147483648, which wraps to `Integer.MIN_VALUE` in Java, so there `end - start + 1 == 3` (`WellFormed`, `PageFill`) does not hold of the Java values.
- `NUM_PHOTO_PER_PAGE` is never reassigned, so it is the constant function `NumPhotoPerPage() = 3`. The `Pagination` functions take any page size of at least 1.
- The message attribute and error view of the failed-retrieval branch are not modelled. The branch is unreachable (`FetchBranchTaken`); in the method it is `assert false`.
- PhotoDisplay.ShowPhotoDetails: a null dereference is modelled only where the source can meet one from its collaborators' answers (a photo id with no photo, a logged-in session without a user id), as the `NullPointerThrown` response. Nulls from the other collaborators (`getEnum`, `getApiKey`, `getFBAuthUrl`, `userLastVote`) are not modelled; they return values. The exception itself, and how Spring turns it into an error page, are not modelled.
- `ShowPhotoDetails` reads the session's user id only when the user is logged in; the model takes it as an optional parameter either way.
