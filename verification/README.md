# MiniOps product API and products page, modelled in Dafny

MiniOps is a small product catalogue: an ASP.NET minimal API that logs in
one hard-coded administrator, issues a short-lived JWT bearer token, and
lists, creates and deletes products in a database. A React page drives it.
This project models the API's request handlers as pure transitions over an
abstract product store. It also models the products page's form checks and
list update as pure functions.

Modules, one file each:

- `Optional` (`optional.dfy`): `Option`, standing for C# `null` and JavaScript `null`/`undefined`.
- `Text` (`text.dfy`): white space as .NET's `char.IsWhiteSpace` and as ECMAScript's `trim` define it, and `Trim`. `Trim` is proved equal to an independent definition, `StrippedTo`. The two runtimes disagree on U+0085 (white space only to .NET) and U+FEFF (white space only to ECMAScript).
- `Tokens` (`tokens.dfy`): the credential check, the token issued at login, and token acceptance as the bearer handler is configured. Acceptance checks the signature, the issuer, the audience, and expiry with 30 seconds of clock skew.
- `Catalog` (`catalog.dfy`): `Product` and the store, a map from GUID to product. `ListProducts` is the newest-first listing.
- `Api` (`api.dfy`): the login, create and delete handlers, and `Serve`. `Serve` dispatches one request, checks authorisation first, and returns the response and the next store.
- `ProductsPage` (`products_page.dfy`): `onSubmit`'s checks and outcome, and `onDelete`'s list filter.

Things the environment supplies are parameters:

- the server clock `now`, in whole seconds;
- the id a new product gets, `newId`, because the product model that generates ids is not part of this model;
- the numbers `Number(...)` parses from the form, as `JsNumber`;
- the outcome of each client API call.

Details of the code the model keeps as they are:

- The API does not check price or stock: `Program.cs:115-120` copies them unchecked, and `Api.NegativeValuesStored` shows a negative price and stock being stored.
- The server's message is "Name is required." (with a full stop). The client's is "Name is required" (without one). The client's create-failure fallback is spelled "Create faied.", as in the code.

## Model

| member | source | states |
|---|---|---|
| Text.Trim | apps/MiniOps.API/MiniOps.API/Program.cs:117 | The result is the input with white space stripped from both ends, in the sense of `StrippedTo`. It is empty exactly when the input is all white space. |
| Text.StrippedToUnique | apps/MiniOps.API/MiniOps.API/Program.cs:117 | Any string meeting the stripping definition is `Trim`'s result, so `Trim` is exactly the specified operation. |
| Text.TrimIdempotent | apps/web/src/pages/ProductsPage.tsx:46 | Within either dialect, trimming an already trimmed name changes nothing. The page's ECMAScript trim followed by the server's .NET trim is not such a pair: `NelNamePassesClientFailsServer` shows the two sets differ on U+0085. |
| Text.BlankIffTrimsToEmpty | apps/MiniOps.API/MiniOps.API/Program.cs:112 | `IsNullOrWhiteSpace` holds of a present name exactly when trimming it leaves nothing. |
| Tokens.Issue | apps/MiniOps.API/MiniOps.API/Program.cs:71-94 | A token is issued if and only if the email is exactly "admin@miniops.local" and the password exactly "123456". The token has sub = name = the email and role "Admin". It carries the configured issuer and audience, expires 60 seconds after issue, and is signed with the configured key. |
| Tokens.IssuedTokenWindow | apps/MiniOps.API/MiniOps.API/Program.cs:24-33 | `Accepts` checks the MAC under the configured key, the issuer, the audience and `now <= expires + 30`. A freshly issued token is accepted at time t if and only if t is at most issue time + 60 + 30 seconds. |
| Tokens.AcceptanceOnlyExpires | apps/MiniOps.API/MiniOps.API/Program.cs:28-33 | `Accepts` has no not-before check: a token it accepts at some time was accepted at every earlier time; once expired past the skew, it stays rejected. |
| Tokens.TamperedTokenRejected | apps/MiniOps.API/MiniOps.API/Program.cs:29-32 | Changing an accepted token's payload without re-signing it makes validation reject it. |
| Tokens.OtherConfigRejects | apps/MiniOps.API/MiniOps.API/Program.cs:26-31 | A token issued under one key/issuer/audience is rejected under any configuration whose key, issuer or audience differs, with issuer and audience compared exactly. |
| Tokens.LoginIsCaseSensitive | apps/MiniOps.API/MiniOps.API/Program.cs:71-72 | "Admin@miniops.local" with the right password gets no token. |
| Catalog.Insert | apps/MiniOps.API/MiniOps.API/Program.cs:122 | Adding under a fresh id adds exactly that key. Every other product is kept as it was, and the store grows by one. |
| Catalog.Remove | apps/MiniOps.API/MiniOps.API/Program.cs:133 | Removing a stored id drops exactly that key. Every other product is kept as it was, and the store shrinks by one. |
| Catalog.ListProducts | apps/MiniOps.API/MiniOps.API/Program.cs:103-105 | The listing contains every stored product exactly once, as stored, and nothing else. It is ordered by createdAt, non-increasing. |
| Catalog.EnumerationSize | apps/MiniOps.API/MiniOps.API/Program.cs:103-105 | A listing of the store has exactly as many entries as the store has products. |
| Catalog.NewestListedFirst | apps/MiniOps.API/MiniOps.API/Program.cs:104 | A product created strictly after all others is the first entry of the listing. |
| Api.HandleLogin | apps/MiniOps.API/MiniOps.API/Program.cs:69-99 | 200 with the issued token if and only if the credentials are the admin pair. Otherwise 401 with no body. |
| Api.HandleCreate | apps/MiniOps.API/MiniOps.API/Program.cs:110-125 | A null, empty or white-space name gives 400 "Name is required." and leaves the store unchanged. Otherwise, with a fresh id, the response is 201 and exactly one product is added under that id. Its name is the trimmed, non-empty input name. Its price and stock are as given, unchecked, and it is created at `now`. Every existing product is unchanged and the body is the new product. A non-blank name with an id already in use answers 500 and leaves the store unchanged. |
| Api.HandleDelete | apps/MiniOps.API/MiniOps.API/Program.cs:128-137 | 204 if and only if the id is stored; then exactly that product is removed and every other product is unchanged. Otherwise 404 and the store is unchanged. |
| Api.Serve | apps/MiniOps.API/MiniOps.API/Program.cs:67-137 | Without an accepted bearer token (`Authorized`: a token is present and `Accepts` holds), a product endpoint answers 401 and the store is unchanged. The store changes only on an authorised create or delete. Health answers 200 `{ok: true}` and login answers as `HandleLogin`; neither needs a token. An authorised GET answers 200 with a newest-first listing of the whole store and changes nothing. |
| Api.SecondDeleteNotFound | apps/MiniOps.API/MiniOps.API/Program.cs:130-131 | Deleting the same id a second time answers 404. |
| Api.DeleteUndoesCreate | apps/MiniOps.API/MiniOps.API/Program.cs:115-136 | Deleting a product just created answers 204 and restores the store exactly. |
| Api.CreatedListedFirst | apps/MiniOps.API/MiniOps.API/Program.cs:101-125 | A product created after every stored one is the first entry of the next listing, and the listing has one more entry than before. |
| Api.NegativeValuesStored | apps/MiniOps.API/MiniOps.API/Program.cs:115-120 | A negative price and stock with a valid name are accepted (201) and stored as given. |
| ProductsPage.Failures | apps/web/src/pages/ProductsPage.tsx:46-55 | The list of failing checks is empty exactly when the name is not all white space and the price and stock pass their checks. |
| ProductsPage.Check | apps/web/src/pages/ProductsPage.tsx:46-55 | An accepted form yields the trimmed, non-empty name. Its price is neither NaN nor below zero, and its stock is a non-negative integer equal to the parsed number. |
| ProductsPage.FirstFailureWins | apps/web/src/pages/ProductsPage.tsx:46-55 | The form is accepted exactly when no check fails. Otherwise the reported failure is the first failing check's, in the order name, price, stock. |
| ProductsPage.OnSubmit | apps/web/src/pages/ProductsPage.tsx:42-69 | `createProduct` is called exactly when no check fails. It is then called with the trimmed name, the parsed price, and the parsed stock as a whole number. Otherwise the first failure's message is shown and nothing else changes. After a successful create the form resets to "", "0", "0" and no error is shown. After a failed one, the form stays and the error's message (or "Create faied.") is shown. |
| ProductsPage.Without | apps/web/src/pages/ProductsPage.tsx:77 | The filtered list holds exactly the entries whose id differs from the deleted id, and is the list itself when no entry has that id. |
| ProductsPage.WithoutConcat | apps/web/src/pages/ProductsPage.tsx:77 | Filtering preserves order: filtering a concatenation concatenates the filtered parts. |
| ProductsPage.WithoutIdempotent | apps/web/src/pages/ProductsPage.tsx:77 | Filtering twice by the same id is filtering once. |
| ProductsPage.OnDelete | apps/web/src/pages/ProductsPage.tsx:71-81 | Without confirmation nothing is called and nothing changes. After a confirmed, successful delete, the list loses exactly the entries with that id and keeps the rest in order. After a failed delete the list is unchanged and the error's message (or "Delete failed.") is alerted. |
| ProductsPage.NelNamePassesClientFailsServer | apps/web/src/pages/ProductsPage.tsx:46-47 | A name consisting of U+0085 alone passes the page's name check but the API refuses it with 400, because the two runtimes' white space differs. |

## Left out

- Token encoding and signing: the JWT compact format and HMAC-SHA256 are replaced by an idealised MAC. The MAC verifies exactly when it was made with the configured key over the same payload.
- Token claims beyond sub, name, role, issuer, audience and expiry: tokens with `nbf` or `iat`, or without `exp`, cannot be expressed. Tokens issued at login carry none of the first two and always carry `exp`.
- Time is whole seconds. The JWT `exp` claim's truncation to whole seconds is therefore the identity, and sub-second clock behaviour is not modelled.
- Configuration reads (`Jwt:Key`, `Jwt:Issuer`, `Jwt:Audience`, the connection string) are a `Config` value. The signing library's minimum key length is not modelled.
- Persistence: EF Core, Npgsql and `SaveChangesAsync` are replaced by the map. A store failure other than an id collision is not modelled.
- Product defaults: the id and creation time are parameters (`newId`, `now`), because the product model that sets them is not part of this model. A colliding `newId` is modelled as a 500 with the store unchanged.
- Routing and JSON binding: the `{id:guid}` route constraint, malformed bodies, out-of-range numbers and `decimal` precision. Stock is a 32-bit integer by type and price an exact real.
- The `Location` header's text: the model returns the id it is built from.
- CORS policy, OpenAPI mapping and process start-up.
- Concurrency between requests: each request is one atomic transition.
- Client: `Number()` parsing is a parameter. The page's loading/saving/error flags, the list reload after a create, logout, rendering, and the fetch layer (including its global 401 redirect) are left out; `onDelete` and `onSubmit` see only the outcome of their API call.
- Catalog.ListProducts: products with equal creation times may come in any order, as the database guarantees no order among them.
- Tokens.OtherConfigRejects: issuer and audience are compared exactly. The token library's audience check by default ignores one trailing "/" on either side, so a token issued for audience `x/` is accepted under audience `x`, which the lemma says is rejected. A blank `Jwt:Issuer` or `Jwt:Audience` makes the library reject every token, while the model's comparison accepts a token carrying the same blank value.
