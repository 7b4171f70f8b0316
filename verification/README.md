# PickaBook backend: OTP login and credit-gated generation

This project is a Dafny model of the state machine inside the two controllers of the
PickaBook backend.

- `controllers/authController.js` issues six-digit one-time codes by e-mail. A per-address
  cooldown of two minutes, held in process memory, limits how often that can happen.
  The controller verifies and consumes a code, finds or creates the user, and serves the
  administrator's user listing and credit overwrite.
- `controllers/generateController.js` forwards an uploaded image to an inference service.
  It charges the caller one credit for each successful generation.

The model is one service object, `Controllers.Service`, whose state has three parts:

- `cooldowns`: a map from lower-cased address to the millisecond time of the last issued code;
- `otps`: the collection of `(email, code)` records;
- `users`: the user table, where a user's id is its position (users are only ever appended).

Each request handler is a method on that object. External effects are inputs to the methods:

- the clock (`Date.now()`);
- the random draw behind the code;
- whether the mail provider accepts the message;
- what the inference call returns, or whether it throws.

The store queries have their plain CRUD meaning and are written as functions in `Store`:
`deleteMany`, `create`, `findOne`, `deleteOne` and `find().sort({createdAt: -1})`.

Files:

- `common.dfy`: `Option`.
- `text.dfy`: ASCII lower-casing, the part of an address before `@`, and the decimal code string.
- `cooldown.dfy`: the cooldown arithmetic.
- `store.dfy`: the records and the queries over them.
- `generation.dfy`: the credit charge of one request and of a run of requests.
- `controllers.dfy`: the service object and its handlers.

An empty string stands for a missing or falsy string field: the source's `!email`,
`!otp` and `username || …` treat `undefined` and `""` alike. `credits` in the credit
update is an `Option<int>`, with `None` for `undefined`.

The model follows these details of the code:

- The response of a credit update carries id, username, email and credits, without the role.
- `if (lastRequest)` is a truthiness test. A recorded time of 0 therefore counts as no cooldown.
- The check reads `Date.now()` at one moment and the stamp reads it at a later one.
  `SendOtp` takes the two readings as separate inputs.
- The uploaded file is removed only once the request gets past both gates. On the
  403 and 400 paths of `generateImage`, the upload is left in place.

## Model

| member | source | states |
|---|---|---|
| `Text.Lower` | controllers/authController.js:20 | `toLowerCase` keeps the length and leaves no upper-case letter. It maps each upper-case letter to its lower-case form and keeps every other character. |
| `Text.LowerIdempotent` | controllers/authController.js:32-34 | A key stored by `setEmailCooldown` is already in lower-case form, so lower-casing the same address again finds it. |
| `Text.LocalPart` | controllers/authController.js:129 | `email.split('@')[0]` is a prefix of the address that contains no `@`. It is either the whole address or is followed in the address by an `@`. |
| `Text.GenerateOtp` | controllers/authController.js:14-16 | For a floored draw in 100000..999999, the code is six decimal digits, does not start with `0`, and reads back as the draw. |
| `Text.ValueOfDigits` | controllers/authController.js:15 | Reading the decimal string of a number gives back that number. |
| `Text.DigitsLength` | controllers/authController.js:15 | A number in [10^k, 10^(k+1)) has exactly k+1 digits, and its first digit is not `0`. |
| `Cooldown.SecondsRemaining` | controllers/authController.js:19-29 | The result is 0 exactly when the lower-cased address has no entry, its entry is 0, or at least 120000 ms have passed. Otherwise it is the ceiling of the remaining milliseconds over 1000, and at most 120 when the elapsed time is not negative. |
| `Cooldown.Stamp` | controllers/authController.js:32-34 | The lower-cased address is bound to `now`. Every other entry is unchanged. |
| `Cooldown.CaseInsensitive` | controllers/authController.js:20 | Two spellings of an address with the same lower-case form have the same remaining cooldown. |
| `Cooldown.StampThenFullWindow` | controllers/authController.js:32-34 | Right after a stamp at a non-zero time t, a check at t reports 120 seconds for every spelling of that address. |
| `Cooldown.StampLeavesOthers` | controllers/authController.js:32-34 | A stamp for one address does not change the remaining cooldown of any other address. |
| `Cooldown.StampExpires` | controllers/authController.js:24 | Once 120000 ms have passed since the stamp, the check reports 0. |
| `Cooldown.StampBlocksRepeat` | controllers/authController.js:21-26 | Within the window after a positive stamp, a repeat request gets a wait of 1 to 120 seconds. |
| `Store.RemoveEmail` | controllers/authController.js:58 | `deleteMany({email})` leaves no record for the address and the records of every other address as they were. |
| `Store.ReplaceCode` | controllers/authController.js:57-61 | After delete-then-create, the address holds exactly the new record and other addresses are untouched. It keeps the invariant of at most one record per address. |
| `Store.FindOtp` | controllers/authController.js:110-113 | The lookup finds a record with that lower-cased address and exactly that code, and finds nothing when there is no such record. |
| `Store.RemoveAt` | controllers/authController.js:120 | `deleteOne` removes exactly one copy of the matched record. The records of other addresses stay as they were. |
| `Store.IssuedCodeIsFound` | controllers/authController.js:110-117 | A code just issued for an address passes the lookup in `verifyOtp`. |
| `Store.ReissueInvalidates` | controllers/authController.js:57-61 | Issuing a new code makes every earlier, different code for the address fail the lookup. |
| `Store.ConsumedCodeIsGone` | controllers/authController.js:119-120 | Consuming the matched record leaves no record for the address, so the same code fails a second time. The invariant of at most one record per address is kept. |
| `Store.FindUser` | controllers/authController.js:123 | `findOne({email})` returns an id whose user has that address, or nothing when no user has it. |
| `Store.NewUser` | controllers/authController.js:127-132 | A user created at login has the given address and username, role 1 (ordinary), 10 credits and the creation time. |
| `Store.SortNewestFirst` | controllers/authController.js:186 | The listing is ordered by `createdAt` descending and is a permutation of its input. |
| `Generation.ImageUrl` | controllers/generateController.js:64 | An array output gives its first element, or nothing when the array is empty. A single URL is returned as it is. |
| `Generation.Charge` | controllers/generateController.js:14-61 | A request costs exactly one credit when credits are positive, a file is present and inference succeeds, and nothing otherwise. A non-negative balance stays non-negative. |
| `Generation.SuccessfulRuns` | controllers/generateController.js:56-61 | N successful generations from a balance C ≥ N leave exactly C − N. |
| `Generation.BalanceBounds` | controllers/generateController.js:13-69 | Any run of N requests lowers the balance by between 0 and N. It never takes a non-negative balance below zero. |
| `Generation.SpentStaysSpent` | controllers/generateController.js:14-20 | At a balance of zero or less, every further request is refused and costs nothing. |
| `Controllers.Service.constructor` | controllers/authController.js:11 | A started process has an empty cooldown map, since that map lives only in process memory. The store keeps the users and live codes it already held, provided they have unique addresses, non-negative credits, lower-cased code addresses and at most one code per address. The service invariant holds. |
| `Controllers.Service.SetEmailCooldown` | controllers/authController.js:32-34 | The cooldown map becomes the old one stamped for the lower-cased address. Codes and users are unchanged. |
| `Controllers.Service.SendOtp` | controllers/authController.js:37-98 | A missing address gives 400 and an active cooldown gives 429 with the seconds left; on both, codes, cooldowns and mail are untouched. Otherwise exactly one new code is held for the lower-cased address and others keep theirs. The cooldown is stamped before dispatch and the mail goes to the address as typed. The reply is 200 with the lower-cased address and 120 if the mail is accepted, else 500 with code and stamp kept. |
| `Controllers.Service.VerifyOtp` | controllers/authController.js:101-158 | A missing address or code gives 400. A code that does not match gives 400 with no change. A match consumes exactly that record, so a replay fails. An existing user is returned unchanged and the username is ignored. Otherwise one user is appended: the lower-cased address, the given username or else the local part of the address as typed, role 1, 10 credits. |
| `Controllers.Service.GetCurrentUser` | controllers/authController.js:161-176 | The reply is 200 with the caller's id, username, address, role and credits. |
| `Controllers.Service.GetAllUsers` | controllers/authController.js:179-202 | A caller who is not an administrator gets 403. Otherwise every user appears, each once, newest first. |
| `Controllers.Service.UpdateUserCredits` | controllers/authController.js:205-242 | The role check (403) comes before the credits check (missing or negative gives 400) and the lookup (unknown id gives 404). Otherwise only that user's credits change, set to exactly the given value, and the reply carries the new value. |
| `Controllers.Service.GenerateImage` | controllers/generateController.js:11-75 | Zero or fewer credits give 403 with `credits: 0`, before the file check and without inference. No file gives 400. Failed inference gives 500 with no charge. Success costs exactly one credit and returns `output[0]` (or the output itself when it is not an array) with the new balance. No other user changes. |

## Left out

- Store failures are not modelled. A `deleteMany`, `create`, `findOne`, `deleteOne`, `find` or `findByIdAndUpdate` that throws would give a 500 and could leave partial writes. Each query here succeeds with its plain meaning.
- The storage engine, the TTL expiry of code records and the models' schema files are not part of this model. The application code never checks expiry.
- `$inc` atomicity and concurrent requests are not modelled. Requests run one after another, so the balance that `req.user` carries is the stored one. The invariant that credits are never negative holds only under this sequential reading.
- Mail sending and its HTML template are reduced to the `Mail` value handed over and a flag saying whether the provider accepted it.
- JWT signing, the 7-day expiry and the authentication middleware are left out. A token is an opaque value carrying the user id. Admin and generation handlers take the id of a caller the middleware already resolved in the user table.
- Reading, encoding and deleting the uploaded file, and the inference call's fixed prompt and parameters, are file and network I/O. A request only says whether a file is present and what the call returns or that it threw.
- `Controllers.Service.SendOtp`: the body field `email` is taken as a string. A truthy non-string value passes `!email` and then throws at `email.toLowerCase()`, which gives the 500 of the catch block. That path is not modelled.
- `Controllers.Service.VerifyOtp`: the body fields `email`, `otp` and `username` are taken as strings, so `Store.FindOtp` matches the code exactly. A non-string `email` throws at `toLowerCase()` and gives a 500. A number in `otp` would be cast by the store. An object in `otp`, such as `{"$ne": ""}`, passes `!otp` and becomes a query operator that could match any live code for the address. None of these paths is modelled.
- `Text.GenerateOtp`: `Math.random` is floating point, so the model takes the floored draw as an input in 100000..999999 rather than computing it.
- `Text.Lower`: only ASCII letters are lower-cased, not the full Unicode `toLowerCase`.
- `Controllers.Service.UpdateUserCredits`: `credits` is taken as an integer. JavaScript's loose comparison of strings, `parseInt` truncation, NaN and `null` are not modelled. A `userId` that is not a well-formed store id makes the store throw a cast error, which gives a 500. Ids here are natural numbers, so that path is not modelled.
- The per-IP `express-rate-limit` limiter on the send route (3 requests per 2 minutes) is a configured third-party library and is not modelled.
- Server setup, CORS, multer and route wiring are plumbing and are not modelled.
- Logging to the console is not modelled.
