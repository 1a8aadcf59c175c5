# Validation rules and route guards of a review-site front end

This project models, in Dafny, the two pieces of decision logic in a small
Vue front end for a location/review application:

- **Form validation rules** (`src/components/validations.ts`). A rule maps a
  value and a label to a `Status { valid, message? }`. `required` accepts
  non-empty strings. `length({min, max}, label)` builds a rule with exclusive
  bounds. `email` tests the anchored pattern `^\w+@[a-zA-Z_0-9]+?\.[a-zA-Z]{2,6}$`.
  `validate` runs a list of rules in order and returns the first failure.
  `validation` is an object that delegates to `email` and `required`.
- **Route guards and the route table** (`src/router/index.ts`). `userGuard`
  lets navigation proceed when the authentication service reports a user,
  and then records the user's id in the session store. `adminGuard` lets
  navigation proceed when the store's user has role `ADMIN`. Either guard
  otherwise redirects to `"/login?continue=" + to.fullPath`. The static route
  table attaches `adminGuard` to `/admin`, whose empty-path child is
  `AdminHome`.

Files and modules:

- `wrappers.dfy`, module `Wrappers`: `Option`. `None` stands for JavaScript
  `undefined` or `null` (an omitted argument, an absent property, the `null`
  user the authentication service reports when no one is signed in).
- `validations.dfy`, module `Validations`: `Status`, the `Rule` type, the three
  rules, `validate` (a method with a loop, proved against the recursive
  function `Outcome`), the `validation` delegates, and the decimal rendering
  of the numbers in the `length` message.
- `users.dfy`, module `Users`: the `Role` enumeration of the User interface,
  and the session store. The store is reduced to the `id` and `role` of its
  `user` object, which is what the guards read and write.
- `router.dfy`, module `Router`: the guard decisions as functions, the guards
  as methods on the store, and the route table with an exact-path resolver.

How the JavaScript is rendered:

- A `Rule` is `(string, Option<string>) -> Status`. A label of `None` is a
  call that leaves the label out. `required` and `email` then fall back to
  their default parameter `label = value`. `validate` always passes
  `Some(label)`.
- `Boolean(value)` on a string is `|value| > 0`.
- The email pattern is decided by a left-to-right scan (`MatchesEmail`). It
  is proved equal to the pattern's language, stated as the decomposition
  `local + "@" + domain + "." + tld` (`EmailShape`). `\w` without the `u`
  flag is `[A-Za-z0-9_]`. The lazy `+?` accepts the same strings as `+`.
  Laziness changes which match is found, never whether one exists, and
  `regex.test` asks only the second question.
- `next` is the `Decision` a guard returns, so each modelled guard call
  makes exactly one `next` call. `Proceed` is `next()`; `Redirect(t)` is
  `next(t)`. The guards take `from` and never read it. The source's
  `adminGuard` behaves this way. The source's `userGuard` does not on its
  authenticated branch, because that branch throws (see below).
- The authentication query `supabase.auth.getUser()` becomes the parameter
  `auth: Option<AuthUser>`.

What the code does around the guards:

- `src/router/index.ts` fires no notification, so neither guard in the
  model has one.
- `src/stores/user.ts:5-8` holds only an empty object `{}` and defines no
  operation. So the model's store starts with both fields absent, and
  `adminGuard` redirects on a fresh store. `src/router/index.ts:10` calls
  `setUserId`, which that file does not define. As written, `useUser()`
  returns only `{ user }`, so that call throws a `TypeError`. The async
  guard's promise then rejects, and `next()` is never called for an
  authenticated user. The model gives `SetUserId` the meaning its name and
  its caller imply: it replaces the id and keeps the rest. `userGuard`
  then proceeds and records the id. `userGuard` is attached to no route,
  so the running application never reaches this call.

## Model

| member | source | states |
|---|---|---|
| `Validations.Required` | src/components/validations.ts:8-15 | valid iff the value is non-empty; a message exactly when invalid; the message is the label, or by default the value, followed by " is required" |
| `Validations.Length` | src/components/validations.ts:17-26 | for every value and every label passed at call time: valid iff min < length of the value < max; the result does not depend on the call-time label; on failure the message is the factory's label + " must be between {min} and {max}" |
| `Validations.LengthBoundsExclusive` | src/components/validations.ts:19 | a value whose length equals `min` or `max` is rejected, with the length message |
| `Validations.LengthMessage` | src/components/validations.ts:23 | the message is the label, then " must be between ", the decimal of `min`, " and ", and the decimal of `max`, each at its exact position |
| `Validations.IntToString` | src/components/validations.ts:23 | the bound rendered in the message starts with `-` iff it is negative; the rest is a non-empty run of digits with no leading zero that reads back as its absolute value |
| `Validations.NatToString` | src/components/validations.ts:23 | the decimal rendering is non-empty, all digits, has no leading zero, and reads back as the number |
| `Validations.WordRun` | src/components/validations.ts:29 | the longest prefix of `\w` characters: all of it is word characters and the next character (if any) is not |
| `Validations.MatchesEmail` | src/components/validations.ts:29-30 | `regex.test(value)` as a scan: every string it accepts has the shape `L + "@" + D + "." + T` of the pattern |
| `Validations.MatchesEmailIff` | src/components/validations.ts:29-30 | the scan accepts exactly the strings `L + "@" + D + "." + T` with `L`, `D` non-empty over `[A-Za-z0-9_]` and `T` 2 to 6 ASCII letters |
| `Validations.Email` | src/components/validations.ts:28-36 | valid iff the value has the pattern's shape; a message exactly when invalid; the message is the label, or by default the value, followed by " is not valid" |
| `Validations.EmailSeparatorsUnique` | src/components/validations.ts:29-30 | a valid address contains exactly one `@` and exactly one `.` |
| `Validations.EmailAcceptsExample` | src/components/validations.ts:29-30 | `"a@b.co"` is valid |
| `Validations.EmailRejectsExample` | src/components/validations.ts:28-34 | `"not-an-email"` is invalid, with the message `"not-an-email is not valid"` when no label is passed |
| `Validations.EmailTopLevelBounds` | src/components/validations.ts:29 | top-level parts of 1 and of 7 letters are rejected |
| `Validations.EmailRejectsDoubleAt` | src/components/validations.ts:29 | `"a@@b.co"` is rejected |
| `Validations.Validate` | src/components/validations.ts:38-51 | the loop returns `Outcome`; valid iff every rule passes, and then exactly `{valid: true}` without a message; otherwise exactly the status of some rule `k` such that all rules before `k` pass |
| `Validations.OutcomeAllPass` | src/components/validations.ts:48-50 | the outcome is valid iff every rule in the list passes (the empty list included), and a valid outcome carries no message |
| `Validations.OutcomeIsFirstFailure` | src/components/validations.ts:40-45 | when rule `k` fails and every earlier rule passes, the outcome is rule `k`'s own status |
| `Validations.OutcomeOfConcatenation` | src/components/validations.ts:40-46 | running `first + rest` gives the outcome of `first` if it fails, else that of `rest`: rules after a failure are never consulted |
| `Validations.OutcomeWellFormed` | src/components/validations.ts:38-51 | if every rule gives a message exactly on failure, so does `validate` |
| `Validations.RequiredBeforeEmail` | src/components/validations.ts:40-45 | `validate("", [required, email], label)` returns `required`'s failure, `label + " is required"` |
| `Validations.ValidationEmail` | src/components/validations.ts:54 | `validation.email(v, l)` is `email(v, l)`, valid iff `v` has the pattern's shape |
| `Validations.ValidationRequired` | src/components/validations.ts:55 | `validation.required(v, l)` is `required(v, l)`, valid iff `v` is non-empty |
| `Users.UserStore.constructor` | src/stores/user.ts:5-6 | a fresh store's user is the empty object: no id, no role |
| `Users.UserStore.SetUserId` | src/router/index.ts:10 | the user's id becomes the given one and the role is unchanged |
| `Router.LoginRedirect` | src/router/index.ts:13 | the redirect is the fixed prefix `/login?continue=` followed by the full path, unencoded; the text after the prefix is the path again |
| `Router.LoginRedirectInjective` | src/router/index.ts:22 | two targets with the same redirect are the same path |
| `Router.UserDecision` | src/router/index.ts:9-14 | proceeds iff the authentication service reports a user; a redirect carries the full path after the login prefix |
| `Router.AdminDecision` | src/router/index.ts:19-23 | proceeds iff the store's role is `ADMIN`; a redirect carries the full path after the login prefix |
| `Router.UserGuard` | src/router/index.ts:6-15 | the decision is `UserDecision` of `to.fullPath` and the auth answer; on proceed the store's id becomes the user's id and nothing else changes; on redirect the store is unchanged |
| `Router.AdminGuard` | src/router/index.ts:17-24 | proceeds iff the store's role is `ADMIN`, else redirects to exactly `"/login?continue=" + to.fullPath`; it modifies nothing |
| `Router.RouteTable` | src/router/index.ts:28-59 | five top-level routes; the first four are named and have no children; the fifth is the unnamed `/admin` with exactly one child, whose path is empty |
| `Router.RouteTablePaths` | src/router/index.ts:28-59 | the top-level paths are `/`, `/areas`, `/sign-up`, `/login`, `/admin`, all distinct |
| `Router.RouteTableNames` | src/router/index.ts:28-59 | the route names, the child's included, are `home`, `AreaView`, `SignUp`, `logIn`, `AdminHome`, all distinct |
| `Router.RouteTableGuards` | src/router/index.ts:28-59 | a top-level route has `beforeEnter` iff its path is `/admin`, and that guard is `adminGuard`; the only guard anywhere in the table is `adminGuard`, so `userGuard` is attached to no route |
| `Router.AdminHomeResolves` | src/router/index.ts:49-57 | `/admin` resolves to the empty-path child named `AdminHome`, entered through `adminGuard` |
| `Router.OtherPathsUnguarded` | src/router/index.ts:29-48 | `/`, `/areas`, `/sign-up` and `/login` resolve to their own names and run no guard |
| `Router.AdminRouteRedirectsNonAdmin` | src/router/index.ts:17-24 | for a user whose role is not `ADMIN`, entering `/admin` runs `adminGuard`, which redirects to `/login?continue=/admin` |

## Left out

- The notification overlay (`src/components/AppNotification.ts`): DOM nodes, Vue rendering and a promise that is never resolved. None of it has pure behaviour to state.
- `formatDate` (`src/utils/functions.ts`): it relies on JavaScript `Date` parsing and locale formatting.
- Application start-up (`src/main.ts`) and the styling tokens (`tailwind.config.js`): no decision logic.
- The authentication call `supabase.auth.getUser()`: it is an external service, so its answer is the parameter `auth`. Its asynchrony, and a call that never answers, are not modelled.
- Route matching and history belong to vue-router. `Router.Resolve` is an exact-path stand-in: children are tried before their parent, in table order. It does not model path parameters, ranking, trailing slashes or case-insensitive matching. The lazily imported components are plain names.
- The store's Pinia reactivity is left out. The store as written is not persisted: `src/main.ts:12` installs only `createPinia()`. The User interface's fields other than `id` and `role` (`src/interfaces/user.ts:4-7`) are not modelled.
- `Router.UserGuard`: models the intended behaviour, which proceeds and records the user's id. As written, the authenticated branch throws at `src/router/index.ts:10`, because the store defines no `setUserId`. There the guard's promise rejects and `next` is never called.
- `Router.LoginRedirect`: the redirect does not survive query parsing when the full path has its own query or hash. No encoding is applied, so a reader that splits at `&`, stops at `#` and decodes `%xx` gets a shorter or different `continue`. For example, from `/admin?a=1&b=2` it gets `/admin?a=1`. `Router.ContinueOf` only strips the fixed prefix. It does not model such a reader.
- `Validations.Length`: `min` and `max` are integers. JavaScript numbers that are fractions, infinite or NaN are not modelled, and neither is the exponent notation JavaScript uses for integers of 10^21 and above.
- `Validations.Length`: `|value|` counts characters, while JavaScript's `length` counts UTF-16 code units. The two differ for characters outside the Basic Multilingual Plane.
- `Validations.Required`: only string values are modelled. JavaScript truthiness for `undefined` or `null` passed at run time is outside the TypeScript signature.
