# Bookstore backend: book catalog and user registry

A Dafny model of the logic of a small Express/Mongoose bookstore service. Two parts are modelled: the **book catalog** (listing with search and paging, fetch, create, update, delete) and the **user registry** (register, login, token issue). MongoDB is replaced by in-memory collections. Each handler's result is an `Outcome`, which takes one of three forms:

- `Ok(code, value)` is a JSON reply with its status.
- `Fail(code, message)` is an error thrown after `res.status(code)`.
- `Thrown(message)` is an error thrown by a library call before the handler set a status. The error middleware, which is not part of this model, then picks the status.

Modules, one per source file or concern:

- `Js` (`js.dfy`): absent properties, parsed JSON values and JavaScript truthiness.
- `Http` (`http.dfy`): `Outcome` and the status codes.
- `BookModel` (`book_model.dfy`): the Book schema of `backend/models/Book.js`. It has five required paths and a trimming setter on the title (`String.prototype.trim` with its full white-space set). It also models the required-path validation run on save, with Mongoose's "Book validation failed: path: message" error.
- `BookRequests` (`book_requests.dfy`): the request rules of `createBook` and `updateBook`. `createBook` runs the Joi check, which stops at the first error (known keys in schema order, then unknown keys), and then the schema. `updateBook` merges `value || old` and then saves through the schema.
- `BookListing` (`book_listing.dfy`): the pure parts of `getBooks`. These are the case-insensitive unanchored match, the conjunctive query filter, the skip/limit page and `Math.ceil(count / limit)`.
- `BookController` (`book_controller.dfy`): class `Catalog`. It holds a map from identifier to book, the identifiers in the collection's natural (insertion) order, and a counter for fresh identifiers. `Get` is a read-only function. `List` builds its query object by conditional assignment, as the handler does. `Create`, `Update` and `Delete` change the collection. Its invariant is that every stored book is listed once, has an identifier below the counter, and is well formed (trimmed non-empty title, non-empty strings).
- `AuthController` (`auth_controller.dfy`): class `Registry`, keyed by email. `Register` changes the registry. `Login` is a function, so it cannot change anything. The User model's password comparison is a parameter `matchPassword`. The JWT secret and the clock are parameters too. A token is symbolic: it records its subject, issue time, expiry and secret.

The code behaves as follows where a reader might expect otherwise; the model follows the code:

- An unparsable book id makes Mongoose throw a cast error, not return 404. Identifiers here are natural numbers, so that case does not arise.
- No rule bounds the price. Any number is accepted, including a negative one.
- A title made only of blanks passes Joi, because `Joi.string()` refuses only `""`. The setter then trims it to nothing, and the save fails with the schema's title message under no status set by the handler (`Thrown`), not with 400.
- An update cannot write `""` or `0`, because `value || old` treats them as absent. A blank title that is truthy is trimmed to nothing, and the save then fails.

## Model

| member | source | states |
|---|---|---|
| BookModel.TrimStart | backend/models/Book.js:8 | the result is the suffix of the input that begins at its first non-blank; everything dropped is blank |
| BookModel.TrimEnd | backend/models/Book.js:8 | the result is the prefix of the input that ends at its last non-blank; everything dropped is blank |
| BookModel.Trim | backend/models/Book.js:8 | the trimmed title is an infix of the input with only blanks outside it, and neither starts nor ends with a blank |
| BookModel.TrimFixesTrimmed | backend/models/Book.js:8 | a string with no blank at either end is left unchanged by trimming |
| BookModel.TrimIdempotent | backend/models/Book.js:8 | trimming twice equals trimming once |
| BookModel.TrimEmptyIffBlank | backend/models/Book.js:7-8 | a title trims to the empty string exactly when every character of it is blank |
| BookModel.NewDocument | backend/controllers/bookController.js:68-74 | `new Book({...})` sets every path to the value given, except that a given title passes through the `trim` setter of backend/models/Book.js:8: it is an infix of the given title with only blanks outside it, and has no blank at either end |
| BookModel.MissingAmong | backend/models/Book.js:4-25 | the failing paths listed are exactly those of the given paths whose required rule the document breaks |
| BookModel.Validate | backend/models/Book.js:4-25 | a document is saved exactly when all five paths meet `required` (non-empty strings, any number for price, no range rule), and then with exactly its values; otherwise the error lists every failing path |
| BookModel.MissingPathReported | backend/models/Book.js:7-24 | any one missing path makes the save fail, and that path is among those the error names |
| BookModel.BlankTitleMessage | backend/models/Book.js:5-9 | when only the title fails, the error is "Book validation failed: title: Please add a book title" |
| BookModel.SaveNewBook | backend/models/Book.js:4-25 | a document built from five values with non-empty author, genre and description fails with the title message exactly when the title trims to nothing, and is otherwise saved as a well-formed book with the trimmed title and the values given |
| BookModel.AcceptedNewDocumentWellFormed | backend/models/Book.js:4-25 | a document built through the schema and accepted is a well-formed book (trimmed, non-empty strings) |
| BookListing.ContainsIgnoreCaseIff | backend/controllers/bookController.js:23-25 | the position-by-position scan matches exactly when the pattern occurs somewhere in the text, ignoring case |
| BookListing.CaseOfPatternIrrelevant | backend/controllers/bookController.js:23-25 | two patterns equal up to case select the same texts |
| BookListing.ContainsItself | backend/controllers/bookController.js:23 | every text matches a search for itself |
| BookListing.TestBookMatchesTest | backend/controllers/bookController.js:23 | the title "Test Book" matches the search "test" |
| BookListing.Select | backend/controllers/bookController.js:27-32 | a record is listed exactly when it is in the collection and passes the filter, and no more records are listed than stored |
| BookListing.SelectSubsequence | backend/controllers/bookController.js:27 | the listing is the subsequence of the collection at the matching positions, in strictly increasing order: every matching record is listed, none twice, none out of natural order |
| BookListing.SelectNoFilter | backend/controllers/bookController.js:22-27 | an empty query object lists every record, in natural order |
| BookListing.SelectConjunctive | backend/controllers/bookController.js:22-25 | filtering by title, author and genre together equals filtering by each in turn |
| BookListing.MatchesSplit | backend/controllers/bookController.js:22-25 | a book passes the three-path filter exactly when it passes each single-path filter |
| BookListing.SelectFirst | backend/controllers/bookController.js:27-30 | the first record in natural order that passes the filter heads the result |
| BookListing.QueryFilter | backend/controllers/bookController.js:22-25 | a path is constrained exactly when its query parameter is truthy |
| BookListing.QueryFilterMatches | backend/controllers/bookController.js:22-25 | a book passes the built query exactly when each truthy parameter occurs case-insensitively in its path; unset or empty parameters impose nothing |
| BookListing.SearchByTitleFindsItFirst | backend/tests/book.test.js:71-75 | searching by a stored book's title returns that book first when no earlier book matches |
| BookListing.SearchOneBookByTitle | backend/tests/book.test.js:71-75 | in a collection of one book, searching its title lists it on one page of one |
| BookListing.Paginate | backend/controllers/bookController.js:27-30 | a page has at most `limit` records, namely those at positions `skip` onward in order; a skip beyond the data gives an empty page |
| BookListing.CeilDiv | backend/controllers/bookController.js:36 | the page count is the least number of pages of `limit` records that holds all matching records |
| BookListing.PageEmptyIffBeyondTotal | backend/controllers/bookController.js:27-36 | page `p` is empty exactly when `p` exceeds `totalPages`; a page past the data is an empty success, not an error |
| BookListing.FirstPagesArePrefix | backend/controllers/bookController.js:27-30 | pages 1 to n, read in turn, are the first `n * limit` matching records |
| BookListing.PagesCoverAll | backend/controllers/bookController.js:27-36 | pages 1 to `totalPages`, read in turn, list every matching record exactly once, in order |
| BookListing.TwentyFiveRecords | backend/controllers/bookController.js:19-36 | 25 matches with the default page and limit give 3 pages, 10 records on page 1, and an empty page 4 |
| BookRequests.StringRule | backend/controllers/bookController.js:8-11 | a string property passes exactly when it is present, a string, and not empty |
| BookRequests.NumberRule | backend/controllers/bookController.js:12 | the price passes exactly when it is present and a safe number |
| BookRequests.FirstError | backend/controllers/bookController.js:60-63 | the reported error is the first failing check in order; there is none exactly when every check passes and no unknown key was sent |
| BookRequests.JoiValidate | backend/controllers/bookController.js:7-13 | the create schema finds an error exactly when the body is not five well-typed properties and nothing else; a missing title is reported as required |
| BookRequests.FirstMissingNamed | backend/controllers/bookController.js:60-63 | the first missing property in schema order is the one named, with "is required" |
| BookRequests.Admit | backend/controllers/bookController.js:60-77 | an ill-typed body is refused with 400 and Joi's message; a blank title fails the save; otherwise a well-formed book with the given values (title trimmed) is admitted with 201 |
| BookRequests.CompleteBodyAdmitted | backend/tests/book.test.js:37-51 | a body with all five fields is created as given |
| BookRequests.TitleOnlyRefused | backend/tests/book.test.js:53-61 | a body with only a title is refused with 400, naming the author |
| BookRequests.TruthyMerge | backend/controllers/bookController.js:89-93 | each path takes the request's value when it is truthy and keeps the stored value otherwise, so a non-empty path (or a non-zero price) can never be emptied by an update |
| BookRequests.TruthyMergeVersusPresence | backend/controllers/bookController.js:89-93 | the `value \|\| old` merge agrees with writing every property sent exactly when no `""` or `0` sent differs from the stored value |
| BookRequests.Revise | backend/controllers/bookController.js:86-96 | the merged book fails the save exactly when a truthy title trims to nothing; otherwise it is well formed |
| BookRequests.ReviseFieldwise | backend/controllers/bookController.js:89-93 | a falsy request value keeps the stored value; a truthy one is written (the title trimmed) |
| BookRequests.PriceOnlyUpdate | backend/tests/book.test.js:93-102 | an update sending only a non-zero price changes the price and nothing else |
| BookRequests.FalsyValuesKeepBook | backend/controllers/bookController.js:89-93 | empty strings and price 0 cannot overwrite anything: the book is saved unchanged |
| BookRequests.ReviseIdempotent | backend/controllers/bookController.js:89-95 | applying the same update twice gives the same book as applying it once |
| BookController.Without | backend/controllers/bookController.js:111 | after the removal, the order holds every other identifier and not the removed one, with no duplicates |
| BookController.WithoutAbsent | backend/controllers/bookController.js:111 | removing an identifier that is not in the order leaves the order unchanged |
| BookController.WithoutAt | backend/controllers/bookController.js:111 | in a duplicate-free order, removing the identifier at position p leaves exactly the identifiers before and after it, in their order |
| BookController.Listing | backend/controllers/bookController.js:27 | the collection read in natural order: position i holds the identifier at position i with its stored book |
| BookController.ListedAreStored | backend/controllers/bookController.js:27-30 | every book on a page is stored under its identifier and passes the filter |
| BookController.Catalog.Get | backend/controllers/bookController.js:44-53 | a stored identifier gives 200 with its book; any other gives 404 "Book not found"; nothing changes |
| BookController.Catalog.List | backend/controllers/bookController.js:18-39 | the reply holds page `(page-1)*limit` of the filtered natural-order records, with `ceil(count/limit)` total pages over all matches (the page does not enter it) and the echoed page; defaults are page 1 and limit 10 |
| BookController.Catalog.Create | backend/controllers/bookController.js:58-78 | a refused body leaves the store unchanged; an admitted one adds exactly one record under a fresh identifier and replies 201 with it |
| BookController.Catalog.Insert | backend/controllers/bookController.js:76 | saving a new valid book keeps the collection's invariant, stores it under the fresh identifier, places it last, and changes nothing else |
| BookController.Catalog.Replace | backend/controllers/bookController.js:95 | saving a valid book over a stored one keeps the invariant and changes only that book |
| BookController.Catalog.Update | backend/controllers/bookController.js:83-101 | an unknown id gives 404 and no change; otherwise only that record becomes the merged book (or nothing changes if the save fails) |
| BookController.Catalog.Delete | backend/controllers/bookController.js:106-117 | an unknown id gives 404 and no change; otherwise "Book removed", only that id leaves the map, and the order loses exactly that id's position, the others keeping their order |
| BookController.BookLifecycle | backend/tests/book.test.js:37-131 | create gives 201 with id 0; a price-only update changes only the price; delete gives "Book removed"; a later fetch and a second delete give 404 |
| BookController.SearchSoleBook | backend/tests/book.test.js:64-75 | after one create, a title search lists that book on one page of one |
| AuthController.GenerateToken | backend/controllers/authController.js:9-11 | the payload is the user id alone, signed with the given secret, expiring 30 days after it is issued |
| AuthController.TokenRoundTrip | backend/controllers/authController.js:9-11 | a generated token verifies to its user id under its secret until 30 days have passed, and never under another secret |
| AuthController.ReplyFor | backend/controllers/authController.js:42-47 | the reply carries the user's id, name and email and a token whose subject is that id |
| AuthController.Registry.Register | backend/controllers/authController.js:18-53 | a falsy field gives 400 "Please include all fields" and a known email gives 400 "User already exists", both with no change; otherwise exactly one user is added under the next identifier, the counter advances by one, and the reply is 201 with a token for its id |
| AuthController.Registry.Login | backend/controllers/authController.js:58-75 | succeeds exactly when the email is known and the password matches; the reply is then that user with a token for its id; any failure is 401 "Invalid credentials" |
| AuthController.LoginFailuresIdentical | backend/controllers/authController.js:62-74 | an unknown email and a wrong password give the same 401 reply |
| AuthController.RegisterTwice | backend/controllers/authController.js:28-33 | registering the same email twice gives 201 and then 400 "User already exists" |
| AuthController.RegisterThenLogin | backend/controllers/authController.js:36-70 | right after registering, login succeeds exactly when the password comparison accepts it, for the new user's id |

## Left out

- BookController.Catalog.List: requires `page >= 1` and `limit >= 1`. The handler itself accepts any query string. A zero or negative value, or text, would reach MongoDB as a negative skip, a division by zero, or a JavaScript coercion (`limit * 1`, `Number(page)`). None of these is modelled.
- Routing, CORS, body parsing, Swagger, dotenv, the database connection and `listen` are framework plumbing and are not modelled.
- The rate limiter is not modelled. Its point is per-client, time-windowed counting across concurrent requests.
- The `protect` middleware is not part of this model. So the 401 a mutating book route returns without a valid token is not modelled. `VerifyToken` stands for the check such a guard applies.
- The error middleware is not part of this model. `Thrown` records that the handler set no status.
- JWT encoding and signing are symbolic. A token is the tuple of what was signed. bcrypt hashing and `matchPassword` belong to the User model, which is not part of this model. Login takes the comparison as a parameter.
- The User model's own validation and indexes (e.g. a unique index on email) are not modelled.
- The "Invalid user data" branch of registration is not modelled. `User.create` throws rather than returning nothing, so that branch is not reached.
- MongoDB ObjectIds are natural numbers from a counter. Cast errors for malformed ids are not modelled. The `timestamps` fields (they need a clock) are not modelled.
- The `$regex` filter is modelled as a case-insensitive substring test. Regex metacharacters are not interpreted. Case folding covers ASCII letters only.
- Prices are integers, not floating-point numbers. NaN is not modelled.
- BookRequests.NumberRule: a numeric string sent as the price counts as mistyped. Joi would convert it to a number by default. Parsing numbers from text is not modelled.
- Update bodies are typed (strings for the four text paths, an integer for price). Mongoose's casting of values of another type on assignment is not modelled.
- Register and login bodies carry strings. The login model assumes both fields are present. An absent email would make the lookup filter depend on Mongoose's handling of `undefined`.
- Concurrency is not modelled. That covers racing updates of one record (last writer wins) and two registrations of one email between the existence check and the insert. Each handler is modelled as one atomic step.
