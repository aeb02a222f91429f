# Inca Phyto admin demo and preloader, modelled in Dafny

This project models the parts of the Inca Phyto marketing site that carry
behaviour rather than layout:

- the admin dashboard's product catalogue (`AdminDashboard.tsx`): the
  `Product` record, the seed catalogue, the filtered table view (case-insensitive
  name search plus a category filter or `"all"`), delete-by-id,
  update-by-id, append, the editor form pre-fill, and the comma-separated
  feature field (split on `,`, trim each piece, drop empty pieces; filled
  by joining with `", "`);
- the demo admin session (`AdminLogin.tsx` and the dashboard's guard and
  logout): the exact credential check, the stored `isAdmin` item, the
  loading flag that disables the submit button, and the redirect when the
  item is missing;
- the preloader's progress counter (`Preloader.tsx`): the updater
  `prev >= 100 ? 100 : prev + 2` run by an interval from 0.

Modules:

| file | module | contents |
|---|---|---|
| `optional.dfy` | `Optional` | `Option` for absent stored items and "no product being edited" |
| `seqs.dfy` | `Seqs` | `Array.prototype.filter` / `map` as `Filter` / `Map`, order-preserving subsequence |
| `text.dfy` | `Text` | `trim` with the ECMAScript whitespace set, ASCII `toLowerCase`, `includes`, `split` on one character, `join` |
| `features.dfy` | `Features` | the editor's comma-separated feature field and its round trip |
| `catalogue.dfy` | `Catalogue` | products, seed list, filtered view, delete/update/add, editor form and submit |
| `session.dfy` | `AdminSession` | sign-in, loading flag, logout, dashboard guard |
| `preloader.dfy` | `Preloader` | the progress updater, its closed form, and the interval run |

## Model

| member | source | states |
|---|---|---|
| Catalogue.Visible | src/pages/AdminDashboard.tsx:87-91 | the table shows an order-preserving subsequence of the catalogue; every shown product's lower-cased name contains the lower-cased term and its category equals the filter unless the filter is "all"; every matching product is shown, as often as it occurs |
| Catalogue.VisibleUnfiltered | src/pages/AdminDashboard.tsx:87-91 | with an empty search term and the "all" filter (the initial values) the view is the whole catalogue |
| Catalogue.VisibleIgnoresCase | src/pages/AdminDashboard.tsx:88 | searching for a term or for its lower-cased form shows the same products |
| Catalogue.VisibleUnknownCategory | src/pages/AdminDashboard.tsx:89 | a filter value that is neither "all" nor a category value (one the select does not offer, such as one from stored or foreign state) shows no product |
| Catalogue.Delete | src/pages/AdminDashboard.tsx:139-144 | no product with the deleted id remains; every other product stays, in its original order and with its original multiplicity |
| Catalogue.DeleteAbsent | src/pages/AdminDashboard.tsx:141 | deleting an id no product carries leaves the catalogue unchanged |
| Catalogue.DeleteIdempotent | src/pages/AdminDashboard.tsx:141 | deleting the same id twice equals deleting it once |
| Catalogue.Update | src/pages/AdminDashboard.tsx:129 | the length is kept, every position whose id equals the edited id holds the replacement, every other position is untouched |
| Catalogue.UpdateKeepsIds | src/pages/AdminDashboard.tsx:120-129 | when the replacement keeps the edited id, the catalogue's id sequence is unchanged |
| Catalogue.UpdateAbsent | src/pages/AdminDashboard.tsx:129 | updating an id no product carries changes nothing |
| Catalogue.DeleteAfterUpdate | src/pages/AdminDashboard.tsx:129-141 | after an id-preserving update, deleting that id gives the same catalogue as deleting it without the update |
| Catalogue.Add | src/pages/AdminDashboard.tsx:132 | appending grows the catalogue by one, keeps the old catalogue as prefix and puts the new product last |
| Catalogue.DeleteUndoesAdd | src/pages/AdminDashboard.tsx:132-141 | adding a product whose id is new and then deleting that id restores the previous catalogue |
| Catalogue.OpenEditor | src/pages/AdminDashboard.tsx:93-114 | editing copies name, category, description and status verbatim and fills the feature field with the features joined by ", ", a field that parses back to the product's features when they are well formed; adding yields empty texts, category anthracite and status active |
| Catalogue.SubmittedId | src/pages/AdminDashboard.tsx:120 | the submitted record keeps the edited product's id when it is a non-empty string and takes the fresh id otherwise |
| Catalogue.Submitted | src/pages/AdminDashboard.tsx:119-126 | the submitted record takes name, category, description and status from the form, and its features are exactly the parse of the feature field, hence all well formed |
| Catalogue.Submit | src/pages/AdminDashboard.tsx:116-137 | adding grows the catalogue by one, with the old catalogue as prefix and the record built from the form under the fresh id last; editing keeps the length, replaces exactly the positions with the edited id and, for a non-empty id, keeps all ids |
| Catalogue.EditUnchanged | src/pages/AdminDashboard.tsx:93-137 | opening the editor on a product with a non-empty id and well-formed features and submitting it unchanged leaves the catalogue as it was when no other product shares the id |
| Catalogue.InitialProductsWellFormed | src/pages/AdminDashboard.tsx:19-44 | the seed catalogue has distinct non-empty ids and only well-formed features |
| Catalogue.InitialProductsEditUnchanged | src/pages/AdminDashboard.tsx:19-44 | every seed product can be opened in the editor and saved without changing the catalogue |
| Features.Parse | src/pages/AdminDashboard.tsx:124 | every parsed feature is non-empty, has no leading or trailing whitespace and contains no comma |
| Features.Format | src/pages/AdminDashboard.tsx:100 | the field shown for editing is empty for no features, otherwise starts with the first feature and is two characters (", ") longer per gap than the features together |
| Features.FormatCommaCount | src/pages/AdminDashboard.tsx:100 | the field of comma-free features holds exactly one comma per gap between consecutive features, which is what lets the submit handler's split find them again |
| Features.ParseIsPipeline | src/pages/AdminDashboard.tsx:124 | parsing the field equals the independent pipeline: split on ",", map trim over the pieces, filter out the empty strings |
| Features.ParseSingle | src/pages/AdminDashboard.tsx:124 | a field without a comma yields its trimmed text as the only feature, or nothing when that is empty |
| Features.ParseAtFirstComma | src/pages/AdminDashboard.tsx:124 | the text before the first comma, trimmed, is the first feature unless it is blank; the rest parses independently |
| Features.ParseFormat | src/pages/AdminDashboard.tsx:100-124 | joining non-empty, trimmed, comma-free features with ", " and parsing the result gives the original list |
| Features.ParseStable | src/pages/AdminDashboard.tsx:100-124 | a parsed list survives another trip through the text field unchanged |
| Text.Trim | src/pages/AdminDashboard.tsx:124 | the result is the contiguous slice of the input left after removing its leading and trailing whitespace: it has no whitespace at either end, only whitespace precedes and follows it in the input, and it is empty exactly when the input is all whitespace |
| Text.TrimLeadingWhitespace | src/pages/AdminDashboard.tsx:124 | trimming whitespace followed by a non-empty trimmed string yields that string |
| Text.Split | src/pages/AdminDashboard.tsx:124 | splitting yields one more piece than there are separators, and no piece contains the separator |
| Text.Join | src/pages/AdminDashboard.tsx:100 | joining no parts gives the empty string; otherwise the first part starts the result and its length is that of the parts plus one separator per gap |
| Text.JoinCount | src/pages/AdminDashboard.tsx:100 | each character occurs in a join as often as in the parts plus, for each of the gaps between parts, as often as in the separator |
| Text.JoinSplit | src/pages/AdminDashboard.tsx:124 | joining the pieces of a split with the separator restores the string |
| Text.SplitJoin | src/pages/AdminDashboard.tsx:124 | splitting a join of separator-free pieces recovers the pieces |
| Text.Contains | src/pages/AdminDashboard.tsx:88 | includes holds when the term is a prefix of the name, and only when the term is no longer than the name |
| Text.ContainsIffOccurs | src/pages/AdminDashboard.tsx:88 | includes holds exactly when the term occurs at some position of the name |
| Text.Lower | src/pages/AdminDashboard.tsx:88 | lower-casing keeps the length, leaves no upper-case ASCII letter, and changes a character only when it is an upper-case ASCII letter, into its lower-case partner |
| Text.LowerIdempotent | src/pages/AdminDashboard.tsx:88 | lower-casing keeps the length and lower-casing twice equals lower-casing once |
| Seqs.Filter | src/pages/AdminDashboard.tsx:141 | filter returns an order-preserving subsequence of exactly the elements that satisfy the predicate, each as often as in the input |
| Seqs.Map | src/pages/AdminDashboard.tsx:129 | map keeps the length and applies the function at every position |
| AdminSession.Submit | src/pages/AdminLogin.tsx:14-16 | submitting raises the loading flag, leaves the stored flag alone and disables the submit button |
| AdminSession.Resolve | src/pages/AdminLogin.tsx:19-28 | the attempt succeeds iff email and password equal admin@incaphyto.com and admin123 exactly; success stores "true", failure leaves the stored flag as it was; loading is false afterwards either way |
| AdminSession.Attempt | src/pages/AdminLogin.tsx:125-131 | a click while an attempt is pending does nothing; otherwise the user ends signed in iff the credentials are the demo pair or they already were, with loading off |
| AdminSession.Logout | src/pages/AdminDashboard.tsx:81-85 | logout removes the stored flag so the user is no longer signed in |
| AdminSession.DashboardGuard | src/pages/AdminDashboard.tsx:70-75 | the dashboard stays open iff the stored flag is present and non-empty |
| AdminSession.LoadingBrackets | src/pages/AdminLogin.tsx:16-27 | the loading flag is raised at submission and lowered when the attempt resolves |
| AdminSession.FailedAttemptKeepsFlag | src/pages/AdminLogin.tsx:20-26 | a failed attempt leaves the stored flag unchanged |
| AdminSession.GuardFollowsSession | src/pages/AdminDashboard.tsx:70-85 | after a successful sign-in the guard admits the user; after logout it redirects |
| AdminSession.GuardRequiresCredentials | src/pages/AdminLogin.tsx:20-21 | from a signed-out start, the guard admits the user iff the demo pair was entered |
| Preloader.Tick | src/components/Preloader.tsx:13-20 | the updater keeps the counter even and within 0..100, never lowers it, changes it unless it is 100, and returns 100 once the previous value is at least 100 |
| Preloader.Progress | src/components/Preloader.tsx:9-20 | after n ticks from 0 the counter is min(2n, 100) |
| Preloader.ProgressMonotone | src/components/Preloader.tsx:9-20 | the counter never decreases over ticks |
| Preloader.ProgressReachesFull | src/components/Preloader.tsx:13-20 | the counter is 100 exactly from the fiftieth tick on, and 100 is a fixed point of the updater |
| Preloader.RunInterval | src/components/Preloader.tsx:11-24 | the interval callback runs 51 times before it clears the interval, ending at 100 |

## Left out

- Reading and writing the catalogue and the `isAdmin` item in browser local storage, with `JSON.parse`/`JSON.stringify`: browser I/O. The stored values are plain state in the model.
- `Date.now()` id generation: the fresh id is a parameter of `Catalogue.Submit`, and no uniqueness is claimed.
- `window.confirm` before a delete: `Catalogue.Delete` models the confirmed branch. A declined confirmation changes nothing.
- Toasts, `navigate`, the modal's open/closed flag, and the 1000 ms sign-in delay: UI side effects and timers. The sign-in delay shows up only as the split between `AdminSession.Submit` and `AdminSession.Resolve`.
- The 30 ms interval timing and the 500 ms `onComplete` timeout in the preloader.
- HTML constraint validation: the required name and description fields of the product editor, the required email and password fields of the login form (`AdminLogin.tsx` lines 96 and 113), and the `type="email"` check. The model accepts any form contents; in the browser a blank login field never reaches the submit handler, so the loading flag that `AdminSession.Submit` raises is never raised for it.
- Strings are sequences of Unicode scalar values, whereas JavaScript strings are sequences of UTF-16 code units that may hold lone surrogates, which the model cannot represent. `trim`, `split(",")`, `includes` and `join` agree on well-formed strings, so nothing the dashboard computes from typed text changes.
- Text.Lower: lower-cases only the ASCII letters, because Unicode case mapping is not modelled. `Catalogue.Visible` inherits this for non-ASCII names.
- The navbar's scroll-hide rule and mobile menu: floating-point scroll positions and DOM event plumbing.
- Footer and navbar hash navigation, the language switcher and the translation lookup: presentational.
- The static page sections (hero, company profile, products grid, operations, services, compliance): presentational.
- Image preloading in `Index.tsx`: asynchronous browser I/O.
- `src/components/Products.tsx`: a fixed three-item list (lines 13-41) rendered as a static grid (lines 75-128); there is no index arithmetic to model.
