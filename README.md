# HerbaLog core in Dafny

HerbaLog is an inventory back office for Herbalife distributors. It is an Express
server on PostgreSQL with a React client. This project models its access-control,
account and audit core, and proves properties of that model:

- **Permissions.** There is a feature matrix (`manageProducts` belongs to ADMIN only).
  The `requireAdmin` middleware answers 403 or passes the request on.
- **Users and authentication.** The users table offers by-id and case-insensitive
  by-email lookup, and an insert that lower-cases the email and defaults the role.
  Passwords are stored as `<hex key>.<hex salt>` and checked against that form. The
  local login strategy is modelled, as are the register, login, logout and
  "current user" routes. The session keeps only the user id.
- **The admin activity log.** Records are only ever appended. A paged read returns
  them newest first, joined to each actor's public profile, with a total count.
- **The product-category routes.** The list route needs a signed-in user. Creation
  sits behind the admin guard, and each successful one appends exactly one
  `CREATED_CATEGORY` audit record holding the `JSON.stringify`'d id and name. A name
  check trims and lower-cases the query.
- **Client helpers.** These are the breadcrumb trail of the header, the pager and
  record texts of the activity page, the admin section of the sidebar, and the
  category search filter.

Modules follow the source files:

| module | source file |
|---|---|
| `Permissions` | `shared/permissions.ts` |
| `AdminGuard` | `server/middleware/requireAdmin.ts` |
| `UserStorage` (class `UserTable`) | `server/storage/user/userStorage.ts` |
| `Password`, `Auth` (class `Session`) | `server/auth.ts` |
| `ActivityStorage` (class `ActivityLog`) | `server/storage/admin/activityStorage.ts` |
| `JsonText` | `server/utils/adminActivityLogger.ts` (`JSON.stringify`) |
| `CategoryRoutes` (class `CategoryTable`) | `server/routes/products/categories.ts` |
| `Breadcrumbs` | `client/src/components/layout/header.tsx` |
| `ActivityPage` (class `Pager`) | `client/src/pages/admin-activity.tsx` |
| `Sidebar` | `client/src/components/layout/sidebar.tsx` |
| `CategorySearch` | `client/src/pages/product-categories.tsx` |

`Text` holds the JavaScript string operations the source uses: `toLowerCase`,
`trim`, `split`, `includes`, `replace` and number formatting. `Wrappers` holds
`Option` and `Result`.

Tables that the source updates in place are classes whose `seq` field the methods
reassign:

- `UserTable` holds the users.
- `ActivityLog` holds the activity records.
- `CategoryTable` holds the categories.
- `Session` holds the session's user id.
- `Pager` holds the page number.

`UserTable`, `ActivityLog` and `CategoryTable` each have a serial `nextId` and a
`clock` counter that stands for the database time. The scrypt key derivation is a parameter, `kdf`: any deterministic function
from (password, salt text) to 64 bytes. The random salt is an input. A request's
signed-in user, `req.user`, is an `Option<FullUser>` input.

Behaviour of the code worth noting:

- `POST /api/categories` runs `requireAdmin` before its own `isAuthenticated` check
  (`server/routes/products/categories.ts:31-32`). A request without a user therefore
  gets 403, never 401, and line 32 cannot be reached.
- Register and login answer with the full stored row, password hash included
  (`server/auth.ts:94`, `:130`).
- Both "unknown user" paths of login answer 401 with the same message
  (`server/auth.ts:112`, `:122`).
- Anyone may register with `role: "ADMIN"` in the body: `create` keeps a given role
  (`server/storage/user/userStorage.ts:27`). `Auth.Register` states this.

## Model

| member | source | states |
|---|---|---|
| Permissions.HasFeature | shared/permissions.ts:3-12 | a missing role has no feature; `manageProducts` holds exactly for ADMIN |
| AdminGuard.RequireAdmin | server/middleware/requireAdmin.ts:5-13 | `next()` exactly for a signed-in ADMIN, which is exactly `hasFeature(role, manageProducts)`; otherwise 403 with "Toegang geweigerd. Admin vereist." |
| UserStorage.FindById | server/storage/user/userStorage.ts:6-9 | a found row is in the table and has the id; none means no row has it |
| UserStorage.ByEmailQuery | server/storage/user/userStorage.ts:11-23 | a missing or empty email finds nothing; a found row's email equals the lowered argument; none means no row has that email |
| UserStorage.UserTable.ById | server/storage/user/userStorage.ts:6-9 | answers the by-id lookup on the current rows |
| UserStorage.UserTable.ByEmail | server/storage/user/userStorage.ts:11-23 | answers the by-email lookup on the current rows |
| UserStorage.ToPublic | shared/db/schema/users/users.ts:31-37 | the public projection keeps id, email, first and last name and role |
| UserStorage.InsertError | shared/db/schema/users/users.ts:13-21 | the insert succeeds exactly when email (at most 320) and both names (at most 50) are given and the lowered email is not stored yet; it fails on the unique email index exactly when the fields fit and the lowered email is stored |
| UserStorage.UserTable.Create | server/storage/user/userStorage.ts:25-38 | either the insert error and no change, or exactly one appended row with a fresh id, lowered email, given password and names, role defaulted to DISTRIBUTOR; ids and emails stay unique |
| UserStorage.ByEmailIgnoresCase | server/storage/user/userStorage.ts:16-19 | by-email gives the same answer for an email and its lower-cased form |
| UserStorage.CreatedRowIsFound | server/storage/user/userStorage.ts:11-38 | after an insert, by-email with any casing of the email, and by-id of the new id, find exactly the new row |
| UserStorage.FindByIdOfRow | server/storage/user/userStorage.ts:6-9 | in a well-formed table, by-id of a row's id gives back that row |
| UserStorage.DuplicateEmailRejected | shared/db/schema/users/users.ts:15 | an otherwise valid insert whose lowered email is stored already fails on the unique index |
| Text.ToLower | server/storage/user/userStorage.ts:17 | same length, lower-case, character by character |
| Text.ToLowerIdempotent | server/storage/user/userStorage.ts:17 | lower-casing twice equals lower-casing once |
| Text.Trim | server/routes/products/categories.ts:70 | the result is an infix of the input with only whitespace around it, and it neither starts nor ends with whitespace |
| Text.TrimEmptyIff | server/routes/products/categories.ts:35 | a string trims to "" exactly when it is all whitespace |
| Text.NatToString | server/utils/adminActivityLogger.ts:18 | `String(n)` of a number is a non-empty run of decimal digits |
| Text.DigitsValueOfNatToString | server/utils/adminActivityLogger.ts:18 | reading the digits of `String(n)` gives back n |
| Text.ContainsEmpty | client/src/pages/product-categories.tsx:27 | every string `includes` the empty string |
| Text.LowerKeepsTrimmed | server/routes/products/categories.ts:70 | lower-casing a string and its trimmed form keeps the trimmed form at the same place |
| Text.Split | server/auth.ts:26 | at least one part; no part contains the separator |
| Text.SplitPair | server/auth.ts:26 | two separator-free strings joined by the separator split back into exactly those two |
| Text.ReplaceAll | client/src/pages/admin-activity.tsx:125 | same length; each `from` becomes `to`, every other character is kept |
| Password.HexEncode | server/auth.ts:22 | two hex digits per byte, and never a dot |
| Password.HexDecode | server/auth.ts:27 | at most one byte per two hex digits; HexRoundTrip is its inverse property |
| Password.HexRoundTrip | server/auth.ts:27 | hex-decoding the hex encoding gives the bytes back |
| Password.HashPassword | server/auth.ts:19-23 | the stored form is the 128-digit key hex, a dot, then the 32-digit salt hex |
| Password.ComparePasswords | server/auth.ts:25-30 | fails on a missing salt exactly when there is no dot; fails on a length mismatch exactly when the decoded key is not 64 bytes; otherwise answers whether the decoded key equals the key derived from the supplied password and the stored salt |
| Password.StoredFormSplits | server/auth.ts:26-27 | splitting a stored form on "." gives exactly the key hex and the salt hex, and the key hex decodes to the derived key |
| Password.CompareAgainstHash | server/auth.ts:19-30 | checking a password against a stored form never fails, and it accepts exactly when the KDF gives the same key for both passwords under the stored salt |
| Password.HashThenCompare | server/auth.ts:19-30 | a password is accepted against its own stored form |
| Auth.SessionRoundTrip | server/auth.ts:70-78 | deserializing the serialized id of a stored user gives back that user |
| Auth.Deserialize | server/auth.ts:71-78 | a found user is a stored row with the session's id; none exactly when no row has that id |
| Auth.VerifyCredentials | server/auth.ts:55-66 | an unknown email gives "no user"; a user is returned exactly when the email finds a row whose stored form accepts the password, and it is that row; a rejected password gives "no user"; a failing comparison passes its error on |
| Auth.WrongPasswordRejected | server/auth.ts:55-66 | a password whose derived key differs from the stored key gives "no user"; by the contract of `Auth.Login` that answer is 401 |
| Auth.RegisteredUserCanLogIn | server/auth.ts:55-62 | a user created with a password passes the local strategy with that password and any casing of the email |
| Auth.Register | server/auth.ts:80-99 | 400 "Email already in use" for a known email; an error without a password or when the insert fails; a new email with a password and an insert that succeeds gives 201; on 201 exactly one new row with the next id, the lowered email, the hashed password, the given names and the given role, the session set to its id, and the row in the answer |
| Auth.Login | server/auth.ts:101-137 | 400 when email or password is missing or empty; otherwise 401, an error, or 200 with the user as the local strategy decides; the session is set only on 200 |
| Auth.Logout | server/auth.ts:139-144 | the session forgets the user; 200 |
| Auth.WhoAmI | server/auth.ts:146-149 | 401 exactly without a current user; otherwise 200 with that user's row |
| JsonText.EscapeChar | server/utils/adminActivityLogger.ts:18 | a character is written as itself or as a backslash escape |
| JsonText.ReadQuoted | server/utils/adminActivityLogger.ts:18 | reading the escaped form of a string up to its closing quote gives the string back |
| JsonText.CategoryDetailsText | server/routes/products/categories.ts:48-51 | the stored details text is a non-empty object text |
| JsonText.ParseCategoryDetails | client/src/pages/admin-activity.tsx:55-57 | reading the `details.categoryName` back succeeds only on a text that starts with the category-id key; CategoryDetailsRoundTrip states that it inverts the stored text |
| JsonText.CategoryDetailsRoundTrip | server/utils/adminActivityLogger.ts:18 | the details text gives back the category id and name it was made from |
| ActivityStorage.StoredDetails | server/storage/admin/activityStorage.ts:8-11 | stored details are always truthy: the given value if truthy, else `{}` |
| ActivityStorage.Joined | server/storage/admin/activityStorage.ts:20-24 | each joined record comes from the log, has an existing actor, and carries that actor's public profile |
| ActivityStorage.JoinedComplete | server/storage/admin/activityStorage.ts:24 | every record whose actor exists is in the join |
| ActivityStorage.NewestFirst | server/storage/admin/activityStorage.ts:25 | element i is the i-th from the end |
| ActivityStorage.Window | server/storage/admin/activityStorage.ts:26-27 | at most `limit` elements, the ones from `offset` on |
| ActivityStorage.Query | server/storage/admin/activityStorage.ts:16-37 | a negative offset is an error, checked first; with a valid offset a negative limit is the negative-limit error; otherwise exactly `min(pageSize, n - offset)` records (none past the end) of the n joined ones, and a total equal to the number of all rows |
| ActivityStorage.ActivityLog.Create | server/storage/admin/activityStorage.ts:6-14 | appends exactly one record, details defaulted, with a fresh id and a later time than every earlier record; nothing else changes |
| ActivityStorage.ActivityLog.Get | server/storage/admin/activityStorage.ts:16-37 | the paged query on the current log, with defaults page 1 and pageSize 20 |
| ActivityStorage.PageIsWindow | server/storage/admin/activityStorage.ts:25-27 | the i-th record of a page is the record `(page-1)*pageSize + i` places from the newest |
| ActivityStorage.QueryIsWindow | server/storage/admin/activityStorage.ts:16-37 | an answered page is the window of the newest-first join at offset `(page-1)*pageSize` |
| ActivityStorage.AllQueryPagesCoverJoined | server/storage/admin/activityStorage.ts:16-37 | `get(1..ceil(n/size), size)` laid end to end give the whole newest-first join |
| ActivityStorage.AllPagesHoldWholeLog | server/storage/admin/activityStorage.ts:16-37 | when every actor exists, those pages hold every record of the log, newest first, each once |
| ActivityStorage.JoinedChronological | server/storage/admin/activityStorage.ts:24-25 | the join keeps the log's chronological order |
| ActivityStorage.PageNewestFirst | server/storage/admin/activityStorage.ts:25 | the records of a page have strictly decreasing timestamps |
| ActivityStorage.OrphanOnNoPage | server/storage/admin/activityStorage.ts:24-29 | a record whose actor is missing is on no page but still counted |
| ActivityStorage.PageShowsPublicProfile | server/storage/admin/activityStorage.ts:32-35 | each record's user is the public projection of the actor's row |
| ActivityStorage.CeilDiv | client/src/pages/admin-activity.tsx:41 | the fewest pages of the given size that hold n records |
| ActivityStorage.AllPagesCoverList | server/storage/admin/activityStorage.ts:25-27 | pages 1 to ceil(n/size) laid end to end are the whole list |
| ActivityStorage.JoinedKeepsAll | server/storage/admin/activityStorage.ts:24 | when every actor exists the join drops nothing: it has the log's length and record k is log record k |
| CategoryRoutes.FindByName | db/schema/products/categories.ts:7 | a found row has exactly the name; none means no row has it |
| CategoryRoutes.CreateError | server/storage/product/categoryStorage.ts:16-23 | the insert succeeds exactly when the name fits 60 characters and no row has exactly that name |
| CategoryRoutes.SchemaKeepsNamesInColumn | db/schema/products/categories.ts:5-16 | a name the insert schema accepts is never refused for its length; the insert refuses it exactly when the name is stored already |
| CategoryRoutes.AuditRecord | server/routes/products/categories.ts:44-53 | the audit record is by the caller, has action CREATED_CATEGORY, and holds a non-empty JSON string |
| CategoryRoutes.AuditRecordNamesCategory | server/routes/products/categories.ts:44-53 | the stored audit text reads back as the created category's id and name |
| CategoryRoutes.CategoryTable.Create | server/storage/product/categoryStorage.ts:16-23 | the insert error and no change, or exactly one new row with a fresh id and the creator's id; names stay unique |
| CategoryRoutes.ListCategories | server/routes/products/categories.ts:19-28 | 401 exactly without a user; otherwise 200 with every row |
| CategoryRoutes.PostCategory | server/routes/products/categories.ts:31-63 | 403 for a non-admin or no user; 400 for a schema failure; 400 "Naam is verplicht." for a blank name; 500 when the insert fails; otherwise one new category owned by the caller, then one CREATED_CATEGORY record naming it, and 201; both tables are unchanged on every other path |
| CategoryRoutes.Normalize | server/routes/products/categories.ts:70 | lower-case, no longer than the query, with no whitespace at either end, and the lower-cased query with only whitespace cut from its ends |
| CategoryRoutes.NameTaken | server/routes/products/categories.ts:76-82 | true exactly when some stored name, lower-cased, equals the normalized query |
| CategoryRoutes.CheckName | server/routes/products/categories.ts:66-87 | 401 without a user; 400 when the query normalizes to nothing; otherwise 200 with `exists` iff some lower-cased stored name equals the normalized query |
| CategoryRoutes.PaddedNameNeverMatched | server/routes/products/categories.ts:70-79 | a stored name with leading whitespace never matches any normalized query |
| CategoryRoutes.PaddedDuplicateSlipsThrough | server/routes/products/categories.ts:70-79 | for a stored padded name: the name is not blank, the check of that very name reports no match, and inserting it again fails as a duplicate |
| CategoryRoutes.PaddedKruidenSlipsThrough | server/routes/products/categories.ts:70-79 | the same with the name " Kruiden " |
| CategoryRoutes.NameTakenTrimmed | server/routes/products/categories.ts:76-82 | the corrected check: true exactly when some stored name, trimmed and lower-cased, equals the normalized query |
| CategoryRoutes.CorrectedCheckSeesEveryDuplicate | server/routes/products/categories.ts:76-82 | with the corrected check, every name the insert rejects as a duplicate is reported as taken |
| CategoryRoutes.CorrectedCheckAgreesOnTrimmedNames | server/routes/products/categories.ts:76-82 | on names without surrounding whitespace the corrected check and the original agree |
| Breadcrumbs.Segments | client/src/components/layout/header.tsx:13 | the segments are non-empty and contain no "/" |
| Breadcrumbs.NonEmpty | client/src/components/layout/header.tsx:13 | `filter(Boolean)` keeps exactly the non-empty parts, no more than there were |
| Breadcrumbs.Capitalize | client/src/components/layout/header.tsx:29 | the first character upper-cased, the rest kept |
| Breadcrumbs.TrailOf | client/src/components/layout/header.tsx:12-37 | one crumb more than segments; the first is Home at "/"; crumb i+1 is the crumb of segment i |
| Breadcrumbs.TrailShape | client/src/components/layout/header.tsx:25-32 | only the last crumb after Home is active; titles are the capitalized segments |
| Breadcrumbs.GetBreadcrumbs | client/src/components/layout/header.tsx:12-37 | the loop builds exactly the trail of the location |
| Breadcrumbs.CrumbPathsExtend | client/src/components/layout/header.tsx:25 | each crumb's path is the previous one plus "/" and the next segment |
| Breadcrumbs.SegmentsOfJoinPath | client/src/components/layout/header.tsx:13-25 | splitting a built path gives its segments back |
| Breadcrumbs.FollowCrumb | client/src/components/layout/header.tsx:12-37 | following crumb i leads to a trail made of the first i crumbs, then crumb i now active |
| ActivityPage.TotalCount | client/src/pages/admin-activity.tsx:39 | 0 without data, else the server's total |
| ActivityPage.PageCount | client/src/pages/admin-activity.tsx:41 | the fewest pages of four that hold every record |
| ActivityPage.PreviousPage | client/src/pages/admin-activity.tsx:138 | one page back when past the first page, and unchanged on the first |
| ActivityPage.NextPage | client/src/pages/admin-activity.tsx:167 | one page on when before the last page, and unchanged on the last or beyond |
| ActivityPage.TransitionsStayInRange | client/src/pages/admin-activity.tsx:136-170 | previous, next and a link keep the page between 1 and max(1, pageCount) |
| ActivityPage.NextWalksAllPages | client/src/pages/admin-activity.tsx:163-170 | pressing next k times moves k pages on, stopping at the last |
| ActivityPage.Pager.constructor | client/src/pages/admin-activity.tsx:21 | the page starts at 1, which is in range for every total |
| ActivityPage.Pager.Previous | client/src/pages/admin-activity.tsx:136-141 | the previous transition, staying in range |
| ActivityPage.Pager.Next | client/src/pages/admin-activity.tsx:163-170 | the next transition, staying in range |
| ActivityPage.Pager.SelectLink | client/src/pages/admin-activity.tsx:144-153 | clicking link i selects page i, staying in range |
| ActivityPage.ServedDetails | db/schema/admin/activities.ts:13 | any value other than a string is served as it is stored |
| ActivityPage.Description | client/src/pages/admin-activity.tsx:52-61 | other actions give "Heeft actie uitgevoerd: " and the action; CREATED_CATEGORY throws exactly on null details, and with a string `categoryName` gives `Heeft categorie "<name>" aangemaakt` |
| ActivityPage.CreatedCategoryDescribed | client/src/pages/admin-activity.tsx:55-57 | a record written by a category POST is described with the created category's name |
| ActivityPage.StoredRecordsAreDescribed | client/src/pages/admin-activity.tsx:52-61 | no stored record makes the description throw |
| ActivityPage.ActionLabel | client/src/pages/admin-activity.tsx:125 | same length; underscores become spaces, nothing else changes |
| Sidebar.AdminItemsOf | client/src/components/layout/sidebar.tsx:24-33 | Producten, Categorieën and Activiteit with their paths, in this order, when the role may manage products; otherwise none; non-empty exactly for ADMIN |
| Sidebar.GetAdminItems | client/src/components/layout/sidebar.tsx:24-33 | the pushes build exactly those entries |
| Sidebar.AllItems | client/src/components/layout/sidebar.tsx:76 | Dashboard, then exactly the admin entries of the role; the ADMIN heading shows exactly for ADMIN |
| Sidebar.DashboardActiveOnlyAtRoot | client/src/components/layout/sidebar.tsx:18-22 | `isActive` highlights the dashboard entry exactly at "/" |
| Sidebar.AtMostOneActive | client/src/components/layout/sidebar.tsx:18 | entry paths are distinct, so at most one entry is active at any location |
| CategorySearch.Filter | client/src/pages/product-categories.tsx:26-27 | a category is kept exactly when its lower-cased name contains the lower-cased query, and each kept one as often as in the list |
| CategorySearch.FilteredCategories | client/src/pages/product-categories.tsx:25-28 | empty without loaded categories; otherwise the matching ones |
| CategorySearch.FilterIsSubsequence | client/src/pages/product-categories.tsx:26 | the result keeps the list's order and adds nothing |
| CategorySearch.EmptyQueryKeepsAll | client/src/pages/product-categories.tsx:27 | an empty query keeps every category |
| CategorySearch.FilterIdempotent | client/src/pages/product-categories.tsx:25-28 | filtering again with the same query changes nothing |
| CategorySearch.SameMatchesSameFilter | client/src/pages/product-categories.tsx:25-28 | two queries that match the same categories filter every list alike |
| CategorySearch.QueryCaseIgnored | client/src/pages/product-categories.tsx:27 | a query and its lower-cased form give the same result |

## Left out

- Text.ToLower: only ASCII letters are case-mapped. JavaScript's `toLowerCase`, `toUpperCase` and PostgreSQL's `lower` map all of Unicode, and strings are sequences of code points rather than UTF-16 units.
- Breadcrumbs.Capitalize: the same ASCII-only upper-casing. A character whose upper case is longer (such as "ß") is not modelled.
- The network, the database connection and environment checks: the 500 answers for a failed query in the list, check-name and activity routes are not modelled.
- Auth.Register: a `req.login` failure (server/auth.ts:93) is not modelled. Body fields that are not strings, and extra body fields, are not modelled either.
- Auth.Login: the 500 answer of the outer `catch` (server/auth.ts:133-136) is not modelled. It is reached only by a non-string email or a database failure.
- Auth.Logout: a failure of `req.logout` (server/auth.ts:141) is not modelled.
- Crypto: scrypt is the `kdf` parameter and `randomBytes(16)` is the `salt` input. The constant-time comparison of `timingSafeEqual` has no counterpart.
- Passport and express-session are reduced to a session holding an optional user id. Cookies and the session store are not modelled.
- Time: `defaultNow` and `new Date()` are a strictly increasing counter per table, so equal timestamps never occur. `toLocaleString` formatting is not modelled.
- Concurrency: the check-then-insert race of register, and of the category form's check followed by its POST, is outside this sequential model.
- CategoryRoutes.ListCategories: the rows are returned in table order. The query has no ORDER BY, so the database may return any order.
- CategoryRoutes.PostCategory: the 60-character bound is assumed to come from the insert schema generated from `varchar(60)`. The ZodError list in the 400 answer is not modelled.
- CategoryRoutes.CheckName: a `name` given as an array (`toString` joins with commas) is not modelled.
- The `parseInt` query parsing of server/routes/adminActivities.ts is not modelled, so `NaN` arguments are not covered. `Get` takes the page and page size as optional integers.
- The 50-character limit of the activity `action` column is not modelled. The only action written is `CREATED_CATEGORY`.
- JsonText: JSON arrays are not represented. ActivityPage.ServedDetails re-reads only the category details text the category route stores. Any other string is passed on unparsed.
- Roles other than ADMIN and DISTRIBUTOR are not modelled. Neither are features other than `manageProducts`, since the matrix has no others.
- ActivityPage.Pager: the page stays in range only while the total is fixed. The model does not say what happens to the page when a later fetch returns a smaller total.
- React rendering, hooks, icons, toasts, redirects and dialogs are not modelled.
- Not part of this model: the older monolithic server/storage.ts, seeding, routing wiring and configuration.

## Findings

| source | as written | input that shows it | evidently intended | confidence | as-written member | corrected member |
|---|---|---|---|---|---|---|
| server/routes/products/categories.ts:70-79 | `check-name` compares the trimmed, lower-cased query with `lower(name)` of the stored name. The POST stores the name untrimmed (lines 39-42). | A category " Kruiden " exists. `check-name?name= Kruiden ` answers `exists: false`. The form then POSTs " Kruiden ", which fails on the unique index with 500 "Interne fout." | `check-name` reports every name that the POST would reject as a duplicate. | high (not executed) | CategoryRoutes.PaddedDuplicateSlipsThrough | CategoryRoutes.NameTakenTrimmed |

In the model, `CheckName` keeps the check as written. The corrected check,
`NameTakenTrimmed`, trims stored names before comparing them. It reports every
duplicate the POST would reject (`CorrectedCheckSeesEveryDuplicate`). It also agrees
with the original wherever stored names carry no surrounding whitespace
(`CorrectedCheckAgreesOnTrimmedNames`).
