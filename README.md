# YelpCamp core logic in Dafny

YelpCamp is a campground-listing web application: users register, list
campgrounds with an uploaded image, search them by name, and reset a forgotten
password through a token sent by e-mail. Almost all of it is glue over a
document database, an authentication framework and three web services. This
project models the parts that are real sequential logic, and proves what they
promise:

- `campgrounds.dfy` (module `Campgrounds`): `escapeRegex`, which backslash-escapes
  a search term so that it can be used as a literal regular expression; the upload
  `imageFilter`; the name under which an upload is stored; the "no match" message
  of the index page.
- `user.dfy` (module `UserModel`): the user document with the schema's defaults
  (`bio` is "No bio yet...", `isAdmin` is false).
- `accounts.dfy` (module `Accounts`): sign-up with the administrator code and the
  password-reset flow (issue a token for an e-mail address, validate it, redeem it).
  Each handler is a pure step over a table of users (`Registered`, `Issued`,
  `Redeemed`, `FindOne`). The class `UserStore` holds the table and updates one
  document in place per request, and its methods are proved to perform those steps.
- `wrappers.dfy`: `Option` and `Result`.

The clock (`Date.now()`) and the 20 random bytes of a token are parameters. A
password is stored as a symbolic `SaltedHashOf(password)`, because the hashing of
passport-local-mongoose is not visible. A database lookup (`findOne`) returns the
first matching user in table order. The e-mails sent after a change do not touch
the table, so they are not modelled.

Two points where the code does less than a reset design usually promises; the
model follows the code:

- An expired token is never cleared. It stays on the user until a new token
  replaces it or a redemption clears it. It simply stops validating.
- Nothing checks that two issuances produce different tokens. The code
  draws fresh random bytes each time. The model proves that different bytes
  give different tokens (`HexInjective`). Lemmas about validation take as a
  premise that no other user already holds the new token.

## Model

| member | source | states |
|---|---|---|
| `Campgrounds.EscapeRegex` | routes/campgrounds.js:26-28 | the escaped term is as long as the input plus the number of special characters in it |
| `Campgrounds.EscapeIsPerCharacter` | routes/campgrounds.js:27 | escaping works character by character, in order: a special character (`-[]{}()*+?.,\^$\|#` or ECMAScript whitespace) becomes a backslash and itself; any other character is copied unchanged |
| `Campgrounds.UnescapeEscape` | routes/campgrounds.js:27 | reading the escaped term as a pattern, each escaped pair standing for its second character, gives back the original term |
| `Campgrounds.EscapeIsLiteral` | routes/campgrounds.js:27 | in the escaped term every special character is preceded by a backslash, so no regular-expression syntax is left |
| `Campgrounds.EscapeUnescape` | routes/campgrounds.js:27 | every such literal pattern is the escaping of the text it denotes |
| `Campgrounds.EscapeCharacterization` | routes/campgrounds.js:27 | `t` is the escaping of `s` exactly when `t` is a literal pattern that denotes `s` |
| `Campgrounds.EscapeIdentity` | routes/campgrounds.js:27 | escaping leaves a term unchanged exactly when the term holds no special character |
| `Campgrounds.EscapeKeepsInput` | routes/campgrounds.js:27 | escaping never drops a character: the input is a subsequence of the escaped term |
| `Campgrounds.NameFilter` | routes/campgrounds.js:63-64 | the route filters by name exactly when the search term is present and non-empty, and the filter is a literal pattern denoting the term |
| `Campgrounds.ImageFilter` | routes/campgrounds.js:37-43 | a file is accepted exactly when its name ends, ignoring case, in `.jpg`, `.jpeg`, `.png` or `.gif`; otherwise it is rejected with "Only image files are allowed!" |
| `Campgrounds.FilterMatchesRegex` | routes/campgrounds.js:39 | the regular expression `/\.(jpg\|jpeg\|png\|gif)$/i` matches at some position of a name exactly when the name ends in one of those extensions, ignoring case |
| `Campgrounds.ImageFilterIsAnchored` | routes/campgrounds.js:39 | `a.png.exe` and a bare `jpg` are rejected: the extension must end the name and follow a dot |
| `Campgrounds.ImageFilterIgnoresCase` | routes/campgrounds.js:39 | `A.JPEG` and `photo.Gif` are accepted |
| `Campgrounds.DecimalRoundTrip` | routes/campgrounds.js:33 | the decimal string of the timestamp denotes the timestamp |
| `Campgrounds.StoredFilename` | routes/campgrounds.js:32-34 | the stored name is a non-empty run of decimal digits followed by the original name, so the original name is a suffix of it |
| `Campgrounds.StoredFilenameTimestamp` | routes/campgrounds.js:33 | the digits in front of the original name denote the upload time |
| `Campgrounds.StoredFilenamesDistinct` | routes/campgrounds.js:33 | the same file uploaded at two different milliseconds gets two different stored names |
| `Campgrounds.IndexPage` | routes/campgrounds.js:60-90 | the page is rendered exactly when the query succeeded, with the campgrounds found; the "no match" message is set exactly when a search term was given and nothing was found, and is null otherwise |
| `UserModel.NewUser` | models/user.js:4-13 | a new document has the given username, e-mail address and avatar; `bio` is "No bio yet..." and `isAdmin` is false when not given; no reset token, reset expiry or password is set |
| `Accounts.SignupUser` | routes/index.js:26-36 | the sign-up document has `isAdmin` true exactly when the administrator code equals "secretcode1234"; it carries the submitted fields with the schema defaults and no reset fields |
| `Accounts.FindOne` | routes/index.js:140 | a lookup returns the first user the filter matches, and returns nothing exactly when no user matches |
| `Accounts.Registered` | routes/index.js:38-41 | sign-up fails with `UserExists` exactly when the username is taken, and with `DuplicateEmail` exactly when only the e-mail address is taken; otherwise the user is appended with the hash of the password, and usernames and e-mail addresses stay unique |
| `Accounts.ResetToken` | routes/index.js:134-135 | the reset token is 40 characters from `0-9a-f` |
| `Accounts.UnhexHex` | routes/index.js:135 | decoding the hexadecimal token gives back the random bytes |
| `Accounts.HexInjective` | routes/index.js:135 | different random bytes give different tokens |
| `Accounts.Issued` | routes/index.js:139-156 | issuing fails with `NoAccount` exactly when no user has the e-mail address; otherwise that user's token is set and its expiry is `now + 3600000`, and no other field and no other user changes |
| `Accounts.Redeemed` | routes/index.js:205-237 | redeeming fails with `InvalidToken` exactly when no user holds the token with an expiry after `now`; it fails with `PasswordMismatch` exactly when one does but the two passwords differ; otherwise that user's password is set and both reset fields are cleared, and nothing else changes |
| `Accounts.IssueOpensWindow` | routes/index.js:150-151 | after issuing at time `t`, the token validates, for the user with that e-mail address, exactly while `now < t + 3600000` |
| `Accounts.UniqueEmailIsFound` | routes/index.js:140 | on a table with unique e-mail addresses, the lookup by address returns the one user holding that address |
| `Accounts.IssueOpensWindowForTheAccount` | routes/index.js:139-151 | on a table with unique e-mail addresses, the token issued for an address validates for the account with that address exactly while `now < t + 3600000` |
| `Accounts.ReissueRevokesEarlier` | routes/index.js:150 | issuing again for the same address replaces the token, so the earlier token validates at no time |
| `Accounts.RedeemIsSingleUse` | routes/index.js:221-222 | after a successful redemption the token validates at no time, and redeeming it again fails with `InvalidToken` |
| `Accounts.IssueThenRedeem` | routes/index.js:203-237 | a token redeemed within the hour with matching passwords sets the password of the user it was issued to, and is then dead |
| `Accounts.UserStore.Register` | routes/index.js:25-50 | the stored table becomes the result of `Registered`, or is unchanged on failure; the new user's index is returned |
| `Accounts.UserStore.Issue` | routes/index.js:131-185 | the stored table becomes the result of `Issued` and the token is returned, or the table is unchanged and `NoAccount` is returned |
| `Accounts.UserStore.Validate` | routes/index.js:188-200 | the result is a user holding the token with an expiry after `now`, and is none exactly when no user does |
| `Accounts.UserStore.Redeem` | routes/index.js:203-267 | the stored table becomes the result of `Redeemed`, or is unchanged on either failure |

## Left out

- Geocoding, the Cloudinary upload and delete, multer's disk storage, and the e-mails sent with nodemailer. These are calls to external services. A mail failure never undoes the saved token or password change, so mail is treated as a step after the state change that does not touch the table.
- Passport login, logout and sessions, `req.logIn` after a reset, and flash messages: framework plumbing. The salted hashing of passport-local-mongoose is not visible, so a credential is the symbolic `SaltedHashOf(password)`, and checking a password at login is not modelled.
- Checks that passport-local-mongoose makes inside `register` and `setPassword`, such as a missing username or password. That code is not visible.
- The `require: true` schema option (models/user.js:5-6). It is a misspelling of `required`, so it enforces nothing and is not a precondition.
- `crypto.randomBytes` and `Date.now()`. The 20 bytes and the time are parameters, so a failure of the random source is not modelled.
- Database errors, including the error branches that redirect without returning (routes/index.js:141-144, 190-193, 207-210, 224-228). A database error is taken to change nothing.
- Accounts.Redeemed, Accounts.UserStore.Redeem: `setPassword` never fails in the model. In the code its failure (routes/index.js:217-220) does not return. Execution goes on to clear and save the reset fields (lines 221-224) with the old password, and logs the user in (line 229). So a failed `setPassword`, such as the plugin refusing an empty password, spends the token and leaves the password unchanged. The model instead sets `SaltedHashOf(password)` for any password, the empty one included.
- Accounts.RedeemIsSingleUse, Accounts.UserStore.Register, Accounts.UserStore.Redeem: each request is one atomic step on the table, and overlapping requests are not modelled. In the code, two concurrent redemptions of one live token can both pass the lookup (routes/index.js:206) before either saves (line 224), and both set a password. Likewise two sign-ups with the same username can both pass the check inside `User.register` (line 38) before either is saved.
- Accounts.SignupUser, Campgrounds.NameFilter, Campgrounds.IndexPage: request fields (`username`, `email`, `admincode`, `search` and the rest) are taken to be strings. A query string or form can also submit an array (`admincode[]=…`, `?search=a&search=b`). The loose `==` at routes/index.js:34 then also grants administrator rights to the one-element array `["secretcode1234"]`. An array search term makes `text.replace` (routes/campgrounds.js:27) throw, so no index page is rendered.
- The order of `findOne` results. MongoDB does not promise one; the model takes the first match in table order. With unique e-mail addresses this decides nothing for `Issue`.
- The profile routes (`findByIdAndUpdate` with the submitted fields), the campground create, edit, update and delete routes, and view rendering. They copy fields and call services.
- The ownership middleware (`checkCampgroundOwnership`, `isLoggedIn`). The middleware file is not part of this model.
- The search's MongoDB query. Only the escaped pattern is modelled, not the case-insensitive matching.
- Strings are sequences of Unicode code points. JavaScript works on UTF-16 code units, but every character the escaping and the filter look at is a single unit, so nothing changes.
- `Date.now()` written in exponent form. A timestamp is far below 10^21, where JavaScript would switch to that form.
