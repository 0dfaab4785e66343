# Movie catalog admin form and user routes, modelled in Dafny

This project models the two pieces of logic in the movie catalog application
that can be stated apart from React, Express, Mongoose, bcrypt and
jsonwebtoken:

- **The admin movie form** (`src/pages/AdminMovies.jsx`). The genre field is
  typed as comma-separated text and sent to the movie API as a list: on
  submit the text is split on `,`, each piece trimmed and empty pieces
  dropped, while a value that already is an array passes through; on edit a
  stored list is joined back with `", "`. Around the form sit the page's
  state (`formData`, `editingMovie`, `showModal`, `error`) and the handlers
  that change it: an input change, the Add button, the edit button, the
  modal's close button and submit.
- **The user routes** (`Backend/routes/users.js`). Signup refuses a taken
  username or email and otherwise stores one user and issues a token; login
  looks a user up by email and checks the password, answering the same
  "Invalid credentials" for an unknown email and a wrong password; get-by-id
  returns 404 or the user without the password. Every handler maps a thrown
  error to 500 with its message.

Files:

- `js_values.dfy` (module `JsValues`): the JavaScript values the form and the
  movie records hold, truthiness, `||` and property access.
- `genre.dfy` (module `Genre`): trim, split, join, the genre normaliser and
  formatter, and the lemmas about them (split/join inverse, well-formed
  output, blank input, round trip, idempotence).
- `admin_form.dfy` (module `AdminForm`): the form records, the request that
  submit builds, and the class `AdminMovies` holding the page state, one
  method per handler.
- `users.dfy` (module `UserRoutes`): users, tokens as claim records,
  responses, login and get-by-id as functions over the store, and the class
  `UserStore` whose `Signup` method appends to the store.

Abstractions:

- `String.prototype.trim` removes the characters of `Genre.IsWhitespace`,
  a fixed set of ASCII and common Unicode blanks. The proofs use only that
  `' '` is whitespace and `','` is not.
- Password hashing by the user model and `bcrypt.compare` are the function
  parameters `hash` and `matches`; a signed token is its claims record
  `{id, username, role}` with its lifetime of 3600 seconds.
- An exception from the store or a library is the input `Fault`, naming the
  step that throws (lookup, save, password comparison, signing).
- Stored ids come from a counter in `UserStore`, standing for the store's
  id generator.
- The server's answer to the form submit is the input `SubmitResponse`:
  saved, a non-ok status with the message from its body, or a failed fetch.

## Model

| member | source | states |
|---|---|---|
| Genre.Trim | src/pages/AdminMovies.jsx:225 | the trimmed string is a contiguous slice of the input with only whitespace before and after it, has no whitespace at either end, is empty exactly when the input is all whitespace, and equals the input exactly when the input was already trimmed |
| Genre.TrimStart | src/pages/AdminMovies.jsx:225 | the result is a suffix of the input not starting with whitespace, and the removed prefix is all whitespace |
| Genre.TrimEnd | src/pages/AdminMovies.jsx:225 | the result is a prefix of the input not ending with whitespace, and the removed suffix is all whitespace |
| Genre.Split | src/pages/AdminMovies.jsx:225 | splitting yields at least one piece and no piece contains the separator |
| Genre.JoinSplit | src/pages/AdminMovies.jsx:225 | joining the pieces of a split with the separator gives the text back; this and the next two lemmas are the contract of `Join`, the `Array.prototype.join` used at line 294 |
| Genre.SplitJoin | src/pages/AdminMovies.jsx:225 | splitting the join of separator-free parts gives the parts back |
| Genre.JoinCommaSpace | src/pages/AdminMovies.jsx:294 | joining with ", " equals joining with "," the parts each prefixed with a space, except the first |
| Genre.TrimAll | src/pages/AdminMovies.jsx:225 | the mapped list has the same length and holds the trim of each piece at its position |
| Genre.DropEmpty | src/pages/AdminMovies.jsx:225 | the filtered list holds only non-empty pieces of the input, is empty exactly when every piece is empty, and is the input itself when no piece is empty |
| Genre.DropEmptyKeepsNonEmpty | src/pages/AdminMovies.jsx:225 | every non-empty piece occurs in the filtered list exactly as often as in the input |
| Genre.DropEmptyConcat | src/pages/AdminMovies.jsx:225 | filtering a concatenation is the concatenation of the filtered parts, so the kept pieces keep their order |
| Genre.ParseGenreText | src/pages/AdminMovies.jsx:225 | every genre parsed from text is non-empty, equal to its own trim, and comma-free |
| Genre.ParseGenre | src/pages/AdminMovies.jsx:222-228 | a string gives a well-formed genre list, an array passes through unchanged, any other value gives [] |
| Genre.ParseGenreOfString | src/pages/AdminMovies.jsx:224 | for strings the truthiness guard makes no difference: '' parses to [] anyway |
| Genre.ParseGenreEmptyIff | src/pages/AdminMovies.jsx:222-225 | a genre string normalises to [] if and only if it holds only commas and whitespace |
| Genre.FormatGenre | src/pages/AdminMovies.jsx:292-297 | an array formats as its elements joined with ", " (so an empty array as '' and a one-element array as its element), a string as itself, and any other value as '' |
| Genre.GenreRoundTrip | src/pages/AdminMovies.jsx:222-297 | for a list of non-empty, trimmed, comma-free genres, normalising its ", "-joined text gives the list back |
| Genre.ParseGenreIdempotent | src/pages/AdminMovies.jsx:222-297 | formatting a normalised genre list and normalising again gives the same list |
| AdminForm.EmptyForm | src/pages/AdminMovies.jsx:157-166 | the initial form has exactly the eight form fields, each '' |
| AdminForm.EditForm | src/pages/AdminMovies.jsx:291-309 | the edit form has exactly the eight fields; each non-genre field is the movie's value when truthy and '' otherwise; genre is the movie's genre formatted |
| AdminForm.SubmitRequest | src/pages/AdminMovies.jsx:214-239 | PUT exactly when a movie is being edited, to that movie's `_id`, else POST to the collection; the body is the form with only `genre` replaced by the normalised list, which is well formed when the form holds text |
| AdminForm.EditThenSubmit | src/pages/AdminMovies.jsx:222-309 | editing a movie with a well-formed genre list and submitting unchanged sends PUT to its id with the same genre list and every truthy field of the movie |
| AdminForm.AdminMovies.constructor | src/pages/AdminMovies.jsx:155-166 | the page starts with the empty form, no movie selected, the modal closed and no error |
| AdminForm.AdminMovies.HandleInputChange | src/pages/AdminMovies.jsx:202-208 | the named field takes the new value, every other field and the rest of the state are unchanged |
| AdminForm.AdminMovies.OpenForAdd | src/pages/AdminMovies.jsx:374-387 | the Add button clears the selection, resets every field to '' and opens the modal |
| AdminForm.AdminMovies.HandleEdit | src/pages/AdminMovies.jsx:288-323 | editing selects the movie, fills the form from it and opens the modal |
| AdminForm.AdminMovies.CloseModal | src/pages/AdminMovies.jsx:429 | closing hides the modal, keeps the form, selection and error, and keeps the form well formed |
| AdminForm.SubmitSendsParsedText | src/pages/AdminMovies.jsx:222-235 | when the form's genre holds text, the genre sent is the normalised text, so the array pass-through is not used by the page |
| AdminForm.SubmitErrorText | src/pages/AdminMovies.jsx:264-284 | a failed save always records a non-empty error: the failure's own message when it has one, otherwise "Failed to save movie" for a non-ok status and "An unexpected error occurred" for a failed fetch |
| AdminForm.AdminMovies.HandleSubmit | src/pages/AdminMovies.jsx:210-286 | the request sent is the one built from the form and selection; the form's genre stays text; success resets the form, clears the selection and closes the modal; failure records the error and changes nothing else |
| UserRoutes.FindByEmail | Backend/routes/users.js:47 | returns a stored user with the email, or none exactly when no stored user has it; with unique emails it is that user |
| UserRoutes.FindById | Backend/routes/users.js:79 | returns a stored user with the id, or none exactly when no stored user has it; with unique ids it is that user |
| UserRoutes.Login | Backend/routes/users.js:42-74 | status is 200, 400 or 500; every 400 is the same "Invalid credentials"; an unknown email gives it; 200 only for a stored user with that email whose password matches, with a token of claims {id, username, role 'user'} and a 3600 s lifetime; 500 carries the thrown message |
| UserRoutes.LoginFailuresIndistinguishable | Backend/routes/users.js:47-56 | login with an unknown email and login with a wrong password give the identical response |
| UserRoutes.LoginSucceedsForMatchingUser | Backend/routes/users.js:47-70 | with unique emails, a stored user whose password matches logs in with a session for that user |
| UserRoutes.GetById | Backend/routes/users.js:77-87 | 404 "User not found" exactly when no stored user has the id; 200 only with a stored user of that id, without its password, and with unique ids always 200 with that user when it is stored; a thrown lookup gives 500 with its message |
| UserRoutes.IssueToken | Backend/routes/users.js:24-28 | the token's claims are the user's id and username with role 'user', and it lives one hour (3600 s); login signs the same claims at lines 59-63 |
| UserRoutes.RepeatIsTaken | Backend/routes/users.js:14 | the `$or` lookup finds a stored user again by its username or by its email alone, so a repeat signup is refused |
| UserRoutes.SignupKeepsIdentitiesUnique | Backend/routes/users.js:14-21 | appending a user whose username and email are not taken keeps usernames and emails unique |
| UserRoutes.UserStore.Signup | Backend/routes/users.js:9-39 | a taken username or email gives 400 and leaves the store unchanged; otherwise exactly one user is appended and 201 carries a token for it; thrown errors give 500 with their message; uniqueness of usernames, emails and ids is kept |
| UserRoutes.SignupLoginScenario | Backend/routes/users.js:9-74 | signing up, logging in with the same password, logging in with a wrong one and signing up again with the same username give 201, 200 for the same user id, "Invalid credentials", and 400 with one stored user |

## Left out

- Rendering: the `MovieModal` component, styling, and the loading and error views are UI only.
- `fetchMovies`, `handleDelete`, `localStorage`, `window.confirm` and console logging are I/O; the server's answer to submit is the `SubmitResponse` input, and the refetch after a successful submit is not modelled.
- Reading the response text and parsing it as JSON is not modelled: `ServerError` carries the message the body held, including the 'Invalid server response' the handler substitutes for an unparsable body.
- The host prefix and string interpolation of the request URL are not modelled: `Target` records whether the request goes to the collection or to one movie, and which `_id`.
- `HandleInputChange` takes the input's value as a string, which is what form inputs produce; a property name outside the eight form fields is accepted and added, as `{...prev, [name]: value}` does.
- JavaScript numbers are integers here; NaN and fractions are not modelled. Arrays hold strings only.
- `Genre.IsWhitespace` is a fixed character set rather than the full Unicode whitespace set of `String.prototype.trim`.
- bcrypt hashing and comparison are the parameters `hash` and `matches`; the user model that hashes on save is not part of this model.
- Token signing, the hard-coded secret and expiry checking are not modelled: a token is its claims record and lifetime.
- The `authenticateUser` middleware in front of get-by-id is not part of this model.
- Mongoose query semantics beyond lookup by username, email and id are not modelled; an id that the store cannot cast is a lookup `Fault`.
- Requests are handled one at a time: the race between the uniqueness check and the insert of two concurrent signups is not covered.
