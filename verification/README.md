# gestion-librairie: a verified model of the loan ledger, the admin-code cache and the catalogue logic

The library application lends books and lets administrators self-register
with an emailed one-time code. This project models, in Dafny, the four
places where the application has logic of its own:

- **Loan ledger** (`LoanLedger.dfy`, from `backend/controllers/loanController.js`).
  The book and loan collections are a class `Library` with two maps:
  book id to `copiesAvailable`, and loan id to a loan record. `CreateLoan`
  and `ReturnBook` update them in place, in the order the handlers do.
  Each is proved equal to a specification function on a value `Store`
  (`Borrow`, `Return`), and the properties are proved about those functions:
  - the error cases, and that the book lookup comes before the stock check;
  - exactly what changes and what does not;
  - that counts stay non-negative over any sequence of requests;
  - that a returned loan never changes again;
  - that borrowing and then returning restores the book's count.
  Counts are JavaScript numbers, modelled as exact reals, because the schema
  does not require whole numbers. The schema's `min: 0` validator
  (`BookSchema.MeetsMinimum`) applies to every save of a book. In
  `createLoan` the book is saved before the loan is created, so a count
  strictly between 0 and 1 passes the stock check but its decrement is
  refused: the request answers 500 and nothing changes. In `returnBook` the
  book is saved after the loan, so a count that is already below -1 (only
  reachable through an update that skips validators) makes the return answer
  500 with the loan still marked returned. The model keeps both branches
  (`BookSaveRejected`) and proves the second cannot happen in a store whose
  counts are non-negative.
- **Admin verification codes** (`AdminCodes.dfy`, from `backend/controllers/authController.js`).
  The process-wide `adminCodes` map is the field of the class `AdminCodeCache`.
  It has three handlers:
  - `RequestAdminCode`: checks the email and its domain, then stores and sends the code;
  - `RegisterCheck`: the validation and admin-code branch of `register`;
  - `VerifyAdminCode`.
  Each is proved equal to a specification function. Lemmas prove:
  - a code admits one admin registration, and is consumed even when the email then turns out to be taken;
  - verifying does not consume a code;
  - a code is accepted up to and including its expiry instant;
  - every stored code is six decimal digits.
- **Catalogue filtering** (`Catalogue.dfy`, from `frontend/src/components/BookList.jsx`):
  - the search and genre filter, proved to keep, in order, exactly the books that match;
  - the list of genre choices, built with `indexOf` as the page does, proved to list each
    non-empty genre once, in first-occurrence order, after "all";
  - the normalisation of image paths.
- **Book schema** (`BookSchema.dfy`, from `backend/models/Book.js`):
  - the `image` validator, with the filename regular expression stated as a ghost predicate
    over split points and proved equal to the executable check;
  - the default and lower bound of `copiesAvailable`, including a `null` count,
    which the default does not replace and the validator skips.

`Text.dfy` holds these string operations: ASCII lower-casing, `includes`
(proved equivalent to "occurs at some position"), prefixes and suffixes, and
the decimal rendering of the drawn code (proved to read back to the number).
`Wrappers.dfy` holds `Option` and `Result`.

The clock is a millisecond parameter `now`. The random draw is a value of
the subset type `Drawn` (100000 to 999998, because `crypto.randomInt`
excludes its upper bound, so 999999 is never drawn). Whether the
verification email was delivered is a boolean input. The existing users'
emails are a set parameter.

Points where the code differs from the documented design; the model follows the code:
- `verifyAdminCode` does not consume a matching code; only `register` does.
- The domain refusal answers 403.
- The code range excludes 999999.

## Model

| member | source | states |
|---|---|---|
| `LoanLedger.Borrow` | gestion-librairie/backend/controllers/loanController.js:41-64 | missing book gives BookNotFound, and no other error, with the store unchanged; a count <= 0 gives OutOfStock with the store unchanged; a count strictly between 0 and 1 gives BookSaveRejected (the decrement fails `min: 0`) with the store unchanged; success exactly when the book exists with a count of at least 1, and then: that book's count drops by one, other books are unchanged, one new loan (book, user, now, now + 14 days, not returned) is added under an id not used before, other loans are unchanged |
| `LoanLedger.Return` | gestion-librairie/backend/controllers/loanController.js:66-86 | unknown loan gives LoanNotFound, an already returned loan gives AlreadyReturned, both with nothing changed; otherwise the loan is marked returned with its other fields kept and other loans unchanged; the book's count rises by one if the book exists, nothing else changes if it was deleted, and a count the `min: 0` validator refuses leaves the books unchanged and answers BookSaveRejected |
| `LoanLedger.Library.CreateLoan` | gestion-librairie/backend/controllers/loanController.js:41-64 | the in-place update leaves the store and answer that `Borrow` gives, and keeps the store valid |
| `LoanLedger.Library.ReturnBook` | gestion-librairie/backend/controllers/loanController.js:66-86 | the in-place update leaves the store and answer that `Return` gives, and keeps the store valid |
| `LoanLedger.ApplyPreservesValid` | gestion-librairie/backend/controllers/loanController.js:43-80 | one borrow or return keeps every count non-negative and the next loan id unused |
| `LoanLedger.RunPreservesValid` | gestion-librairie/backend/controllers/loanController.js:43-80 | starting from non-negative counts, any sequence of borrows and returns keeps every count non-negative |
| `LoanLedger.ReturnNeverRejectedWhenValid` | gestion-librairie/backend/controllers/loanController.js:76-80 | with non-negative counts the save of the incremented book is never refused |
| `LoanLedger.RunKeepsReturnedLoans` | gestion-librairie/backend/controllers/loanController.js:68-73 | a returned loan stays in the store, unchanged and returned, after any sequence of requests |
| `LoanLedger.BorrowThenReturn` | gestion-librairie/backend/controllers/loanController.js:43-80 | a successful borrow followed by the return of that loan succeeds, restores every book count, and leaves the new loan recorded as returned |
| `AdminCodes.AdminDomain` | gestion-librairie/backend/controllers/authController.js:147 | the configured domain when it is set and non-empty, otherwise "@yourlibrary.com" |
| `AdminCodes.CodeOf` | gestion-librairie/backend/controllers/authController.js:155 | the stored code is six decimal digits, has no leading zero, and reads back as the drawn number |
| `AdminCodes.RequestCode` | gestion-librairie/backend/controllers/authController.js:138-177 | a missing or empty email gives EmailRequired and a wrong domain gives ForbiddenDomain, both with the map unchanged; otherwise that email's entry is overwritten with the drawn code and expiry now + 15 minutes, no other entry changes, and the entry stays even when delivery fails (DeliveryFailed) |
| `AdminCodes.Register` | gestion-librairie/backend/controllers/authController.js:58-93 | the decision order: missing fields, then an invalid role, then for admins a missing code, then an absent or mismatched code (map unchanged), then an expired code (entry deleted), then the duplicate email; a matching code is deleted before the duplicate-email check; an entry whose expiry equals now is still accepted; member registration never touches the map |
| `AdminCodes.Verify` | gestion-librairie/backend/controllers/authController.js:229-250 | missing email or code gives EmailAndCodeRequired, an absent or mismatched code gives InvalidCode, both with the map unchanged; an expired code is deleted; a valid code is reported Verified and left in place |
| `AdminCodes.AdminCodeSingleUse` | gestion-librairie/backend/controllers/authController.js:78-93 | once an admin registration has got past the code check (user created or email taken), the same request is refused with InvalidAdminCode |
| `AdminCodes.VerifyRepeatable` | gestion-librairie/backend/controllers/authController.js:237-250 | a successful verification leaves the map unchanged, so the same code verifies again at any time up to its expiry |
| `AdminCodes.RequestThenRegister` | gestion-librairie/backend/controllers/authController.js:82-86 | after a successful request, admin registration with the emailed code passes the code check at any time up to issue + 15 minutes, fails as expired after that, and either way removes the entry |
| `AdminCodes.SixteenMinutesLater` | gestion-librairie/backend/controllers/authController.js:242-245 | a code requested at t and verified at t + 16 minutes is reported expired |
| `AdminCodes.HandlersKeepWellFormed` | gestion-librairie/backend/controllers/authController.js:78-86 | registration and verification keep every stored code six digits long |
| `AdminCodes.AdminCodeCache.RequestAdminCode` | gestion-librairie/backend/controllers/authController.js:138-177 | the in-place update leaves the map and answer that `RequestCode` gives; the entry is stored before the send result is looked at |
| `AdminCodes.AdminCodeCache.RegisterCheck` | gestion-librairie/backend/controllers/authController.js:58-93 | the in-place update leaves the map and answer that `Register` gives |
| `AdminCodes.AdminCodeCache.VerifyAdminCode` | gestion-librairie/backend/controllers/authController.js:229-250 | the in-place update leaves the map and answer that `Verify` gives |
| `Text.Includes` | gestion-librairie/frontend/src/components/BookList.jsx:70-73 | `includes` holds exactly when the needle occurs at some position of the haystack |
| `Text.Decimal` | gestion-librairie/backend/controllers/authController.js:155 | the rendering is digits only, non-empty, with no leading zero unless the number is 0 |
| `Text.DecimalRoundTrip` | gestion-librairie/backend/controllers/authController.js:155 | reading the decimal rendering back gives the number |
| `Text.DecimalLength` | gestion-librairie/backend/controllers/authController.js:155 | a number of k digits renders as exactly k characters |
| `Catalogue.Filter` | gestion-librairie/frontend/src/components/BookList.jsx:69 | the result is no longer than the input and holds exactly the input's elements that satisfy the callback |
| `Catalogue.KeptPositionsPick` | gestion-librairie/frontend/src/components/BookList.jsx:69-79 | the positions the filter keeps are increasing, pick out the result, and are exactly the positions whose element satisfies the callback |
| `Catalogue.FilterKeepsExactly` | gestion-librairie/frontend/src/components/BookList.jsx:69-79 | the filtered list is the input with exactly the failing elements taken out, order preserved |
| `Catalogue.FilterAll` | gestion-librairie/frontend/src/components/BookList.jsx:65-78 | a callback that accepts everything returns the list unchanged |
| `Catalogue.FilterTwice` | gestion-librairie/frontend/src/components/BookList.jsx:69-80 | the search filter followed by the genre filter equals one filter by both conditions |
| `Catalogue.FilterBooks` | gestion-librairie/frontend/src/components/BookList.jsx:63-87 | an empty term with genre "all" returns the list itself; otherwise a book is in the result exactly when it is in the list and shown |
| `Catalogue.FilterBooksKeepsExactly` | gestion-librairie/frontend/src/components/BookList.jsx:65-80 | the result keeps, in their original order, exactly the books that pass the search (when the term is not empty) and the genre test (when the genre is not "all") |
| `Catalogue.FieldIncludes` | gestion-librairie/frontend/src/components/BookList.jsx:70-73 | an absent field never matches; a present one matches exactly when the lower-cased term occurs in the lower-cased field |
| `Catalogue.SearchMeaning` | gestion-librairie/frontend/src/components/BookList.jsx:69-74 | a book passes the search exactly when the lower-cased term occurs in its lower-cased title, or in the author's name when the author is a document, or in the author string |
| `Catalogue.IndexOf` | gestion-librairie/frontend/src/components/BookList.jsx:119 | -1 exactly when absent, otherwise the first position holding the value |
| `Catalogue.GenresOf` | gestion-librairie/frontend/src/components/BookList.jsx:118 | the i-th entry is the i-th book's genre |
| `Catalogue.FirstOccurrencesFromSound` | gestion-librairie/frontend/src/components/BookList.jsx:119 | every listed genre is non-empty and first occurs at or after the starting position |
| `Catalogue.FirstOccurrencesFromComplete` | gestion-librairie/frontend/src/components/BookList.jsx:119 | every non-empty genre first occurring at or after the starting position is listed |
| `Catalogue.FirstOccurrencesFromOrdered` | gestion-librairie/frontend/src/components/BookList.jsx:119 | listed genres are ordered by their first occurrence |
| `Catalogue.GenreChoicesSpec` | gestion-librairie/frontend/src/components/BookList.jsx:115-121 | the choices start with "all", then list every non-empty genre of the books, each once and each taken from some book, in first-occurrence order |
| `Catalogue.DisplayImage` | gestion-librairie/frontend/src/components/BookList.jsx:47-51 | an absent or empty image shows the placeholder; one starting with "http" is kept; any other is shown under "/uploads/" with the name recoverable after the prefix |
| `Catalogue.NormaliseImages` | gestion-librairie/frontend/src/components/BookList.jsx:45-52 | same length; each book gets the displayed image path and every other field is unchanged |
| `Catalogue.HttpNamedFileNotUnderUploads` | gestion-librairie/frontend/src/components/BookList.jsx:48 | every value the schema accepts as an image that is not a URL but starts with "http" is shown as it is, not under "/uploads/" |
| `Catalogue.HttpNamedFileAccepted` | gestion-librairie/backend/models/Book.js:12-15 | such values exist: "http-cover.jpg" is a valid image, starts with "http" and is not a URL |
| `Catalogue.ShiftPicks` | gestion-librairie/frontend/src/components/BookList.jsx:69 | helper of `Catalogue.KeptPositionsPick`: positions picked in the tail of a list are the next positions in the list |
| `BookSchema.IsImageFileName` | gestion-librairie/backend/models/Book.js:15 | the executable check holds exactly when the filename regular expression matches at some split point |
| `BookSchema.IsValidImage` | gestion-librairie/backend/models/Book.js:12-15 | valid exactly when the value starts with "http://" or "https://", or matches the filename pattern |
| `BookSchema.UrlAcceptedWhateverFollows` | gestion-librairie/backend/models/Book.js:14 | anything after "http://" or "https://" is accepted |
| `BookSchema.FileNameCharsOnly` | gestion-librairie/backend/models/Book.js:15 | every character of an accepted filename is a letter, digit, '-', '_' or '.' |
| `BookSchema.ExtensionIgnoresCase` | gestion-librairie/backend/models/Book.js:15 | lower-casing an extension does not change whether it matches |
| `BookSchema.FileNameCaseInsensitive` | gestion-librairie/backend/models/Book.js:15 | a name is accepted exactly when its lower-cased form is |
| `BookSchema.UpperCaseNameAccepted` | gestion-librairie/backend/models/Book.js:15 | "COVER.PNG" is accepted |
| `BookSchema.SlashOrSpaceRejected` | gestion-librairie/backend/models/Book.js:15 | a non-URL value containing '/' or ' ' is rejected |
| `BookSchema.TrailingExtensionRejected` | gestion-librairie/backend/models/Book.js:15 | "a.jpg.exe" is rejected |
| `BookSchema.BareExtensionRejected` | gestion-librairie/backend/models/Book.js:15 | ".jpg" is rejected: a character must come before the extension dot |
| `BookSchema.CopiesOnSave` | gestion-librairie/backend/models/Book.js:8 | an absent count defaults to 1; a `null` count is stored as `null` (no default, the validator skips it); a number is accepted exactly when it is not negative, and then kept |

## Left out

- `getLoans` and `getUserLoans` are not modelled. `getUserLoans` answers an empty list with status 200 rather than an error. It queries a `userId` field that the Loan schema does not have.
- The user stored on a new loan is an opaque parameter. The handler reads `req.user._id`, while the token carries `id`.
- Concurrency is not modelled. `createLoan` reads the book and then saves it, so two parallel borrows can both succeed; the model runs each request as one sequential step.
- Database failures are not modelled: a failed write, and invalid ids that make a lookup throw. Only the `min: 0` refusals of the book save are kept.
- `LoanLedger.Borrow` and `LoanLedger.Return` do not model a book whose stored count is `null`, which `BookSchema.CopiesOnSave` shows the schema accepts. `createLoan` would answer OutOfStock for it (`null <= 0` holds) and `returnBook` would store 1 (`null + 1`).
- Counts are exact reals: floating-point rounding, `NaN` and `Infinity` are not modelled.
- Strings are sequences of Unicode scalar values, not UTF-16 code units: lone surrogates, and characters outside the Basic Multilingual Plane counting as two positions, are not modelled.
- Loan ids come from a counter in the store instead of database-generated ids.
- `createLoan` reads the clock twice (`new Date()` and `Date.now()`); the model uses one `now` for both dates.
- Book creation, update and deletion (`bookController.js`) are not operations of the model. `Return` handles a deleted book, and `RunPreservesValid` covers sequences of borrows and returns only.
- Login, password hashing, token issuance and the creation of the user in `register` are left out: they are foreign cryptographic and database calls. `Register` ends at the decision to create the user.
- Email delivery is the boolean `delivered`. The express-validator middleware that runs before the handlers (`isEmail`, `normalizeEmail`, code length and digits) is not part of this model.
- Request fields are strings or absent. JSON values of other types, such as a numeric `adminCode` (which never equals a stored string) or a numeric title (which makes the filter throw and the page show no books), are not modelled. `role: null` is treated like an absent role.
- Lower-casing, and the case-insensitive flag of the image regular expression, cover ASCII letters only.
- The page's fetching, response-shape handling, React state and rendering are left out; `FilterBooks`, `GenreChoices` and `NormaliseImages` are the computations it runs.
- `models/AdminCode.js` is declared in the source but unused, since codes live in the in-memory map. It is not modelled.
