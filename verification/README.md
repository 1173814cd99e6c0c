# Login rules and model loader of a small user-management app

This project models, in Dafny, the two pieces of pure logic of a small
user-management web application:

- **The login form** (`frontend/src/components/Login.js`). The email field
  is required and must match `/^[A-Z0-9._%+-]+@[A-Z0-9.-]+\.[A-Z]{2,}$/i`;
  the password field is required. Submitting the form runs both rules and,
  only when both pass, runs `onSubmit`: the exact pair
  `admin@example.com` / `admin` calls `onLogin({firstName: 'Admin'})`, and
  anything else sets the error `Credenciales inválidas` on the password
  field.
- **The model loader** (`backend/models/index.js`). It chooses the
  environment name (`NODE_ENV`, or `development`), keeps the files of its
  directory that are not hidden, not itself, end in `.js` and are not
  tests, stores each file's model under the model's `name`, calls
  `associate(db)` on each registered model that has that hook, and adds the
  connection and the library as `db.sequelize` and `db.Sequelize`.

Modules:

- `Wrappers` (`wrappers.dfy`): `Option`, for a value that may be `undefined`.
- `JsString` (`js_string.dfy`): `indexOf` and `slice` with their
  ECMAScript edge cases (-1 when absent, negative start of `slice`).
- `EmailPattern` (`email_pattern.dfy`): the regular expression. The ghost
  predicate `PatternMatches` says what the expression denotes under
  section 22.2.2 of ECMA-262 (anchors without the `m` flag, class matching
  through `Canonicalize` with the `i` flag); `Accepts` is a hand-written
  recogniser that splits at the first `@` and the last `.`; the two are
  proved equal on every string.
- `Login` (`login.dfy`): the field rules, `onSubmit` and submission. The
  component's calls out (`onLogin`, `setError`) are returned as an
  `Outcome` value.
- `ModelIndex` (`model_index.dfy`): the environment name, the filename
  filter, the registry loop, the `associate` loop and the exported object.
  The directory listing, the loader's file name, the per-file model
  factories, the configuration blocks by environment name and the making
  of a connection from a block are inputs; an environment without a block
  makes the loader fail, as the source's lookup does.

Two representation notes. Dafny's `char` is a Unicode scalar value while
a JavaScript string is a sequence of UTF-16 code units; every character of
the pattern is ASCII and no non-ASCII unit can match one, so acceptance
is the same. `Canonicalize` upper-cases ASCII letters only; the real
operation also changes non-ASCII letters, but the Canonicalize abstract
operation of ECMA-262 section 22.2.2 forbids it to map a non-ASCII character to an ASCII one, so the
matches of this all-ASCII pattern are the same.

## Model

| member | source | states |
|---|---|---|
| JsString.IndexOf | backend/models/index.js:27-30 | `indexOf` gives -1 exactly when the text does not occur, and otherwise the first index where it occurs |
| JsString.SliceFromEndIsEndsWith | backend/models/index.js:29 | `file.slice(-3) === '.js'` holds exactly when the name ends in `.js`, names shorter than three characters included |
| JsString.IndexOfCharNotZero | backend/models/index.js:27 | `file.indexOf('.') !== 0` holds exactly when the name is empty or does not start with `.` |
| EmailPattern.Canonicalize | frontend/src/components/Login.js:44 | the `i` flag's canonical form keeps ASCII and non-ASCII apart and maps each ASCII letter, and only those, to an upper-case letter |
| EmailPattern.ClassAcceptsIffClassMatches | frontend/src/components/Login.js:44 | the executable class test agrees with ECMAScript's case-insensitive class matching (some class member with the same canonical form) |
| EmailPattern.LocalClassMembers | frontend/src/components/Login.js:44 | `[A-Z0-9._%+-]` with `i` admits exactly the ASCII letters, digits and `._%+-` |
| EmailPattern.DomainClassMembers | frontend/src/components/Login.js:44 | `[A-Z0-9.-]` with `i` admits exactly the ASCII letters, digits, `.` and `-` |
| EmailPattern.TldClassMembers | frontend/src/components/Login.js:44 | `[A-Z]` with `i` admits exactly the 52 ASCII letters |
| EmailPattern.LiteralMatches | frontend/src/components/Login.js:44 | with the `i` flag the pattern's `@` and escaped `.` still match only themselves |
| EmailPattern.AcceptsIffPatternMatches | frontend/src/components/Login.js:44 | the recogniser accepts a string exactly when the anchored pattern matches it under ECMAScript semantics |
| EmailPattern.AcceptedIffShape | frontend/src/components/Login.js:44 | a string is accepted exactly when it is a non-empty local part, `@`, a non-empty domain of `[A-Za-z0-9.-]`, `.`, and at least two ASCII letters to the end |
| EmailPattern.AcceptedHasOneAt | frontend/src/components/Login.js:44 | an accepted string has exactly one `@`, after a non-empty local part of letters, digits and `._%+-` |
| EmailPattern.AcceptedEndsInLetter | frontend/src/components/Login.js:44 | an accepted string ends in an ASCII letter |
| EmailPattern.TrailingNonLetterRejected | frontend/src/components/Login.js:44 | `$` does not match before a trailing newline: a string ending in a newline or any other non-letter is rejected |
| EmailPattern.AcceptedIsAscii | frontend/src/components/Login.js:44 | an accepted string is all ASCII: the `i` flag folds nothing outside ASCII into the classes |
| EmailPattern.AcceptsIgnoresCase | frontend/src/components/Login.js:44 | a string is accepted exactly when its ASCII-upper-cased form is |
| Login.EmailRule | frontend/src/components/Login.js:41-46 | the email passes exactly when it is non-empty and accepted; empty gives the required error, otherwise a rejected one gives the pattern error |
| Login.PasswordRule | frontend/src/components/Login.js:66-68 | the password passes exactly when it is non-empty, and fails with the required message |
| Login.Validate | frontend/src/components/Login.js:37-68 | after the rules run, a field has an error exactly when its rule failed, and that rule's error |
| Login.OnSubmit | frontend/src/components/Login.js:8-20 | `onLogin` is called exactly for the hard-coded pair, always with first name `Admin`; otherwise the password field alone gets `Credenciales inválidas` and the email field's error state is unchanged |
| Login.Submit | frontend/src/components/Login.js:36 | an empty email or password fails its required rule and `onSubmit` is not reached; `onSubmit` runs on a clean error state only when no rule fails |
| Login.AdminCredentialsPassRules | frontend/src/components/Login.js:10 | the hard-coded email matches the pattern and both hard-coded values pass their rules |
| Login.SubmitLogsInIffAdmin | frontend/src/components/Login.js:10-12 | a submission calls `onLogin` exactly when the typed pair is the hard-coded one, then with `{firstName: 'Admin'}` and no errors |
| Login.WrongCredentialsBlamePassword | frontend/src/components/Login.js:13-18 | well-formed wrong credentials leave one error, on the password field, and no `onLogin` call |
| ModelIndex.EnvName | backend/models/index.js:13 | the environment name is `NODE_ENV` when set and non-empty, `development` when unset or empty, and never empty |
| ModelIndex.KeepFileMeaning | backend/models/index.js:25-31 | a name is kept exactly when it does not start with `.`, is not the loader's own name, ends in `.js` and nowhere contains `.test.js` |
| ModelIndex.FilterFiles | backend/models/index.js:24-32 | every kept name is in the listing and passes the filter, and every listed name that passes is kept |
| ModelIndex.FilterIsSubsequence | backend/models/index.js:24-32 | the kept names are the listing with some names left out and the rest in order |
| ModelIndex.FilterIsIdempotent | backend/models/index.js:24-32 | filtering the kept names again changes nothing |
| ModelIndex.Register | backend/models/index.js:34-38 | every loaded model's name is registered, each entry is stored under its own name and comes from some file, the last file of a name wins, and the key order lists each name once |
| ModelIndex.Associate | backend/models/index.js:40-44 | `associate` is called once for each registered model that defines it, for no other, and always with the complete registry |
| ModelIndex.Exports | backend/models/index.js:46-47 | the exported object holds every model except under the two reserved names, and `sequelize` and `Sequelize` are the connection and the library whatever models were registered |
| ModelIndex.Setup | backend/models/index.js:13-47 | the whole loader: it fails exactly when the chosen environment has no configuration block; otherwise the filtered files, every kept file's model registered under its own name, nothing else registered, the last file of a name winning; `associate` once per registered model that has it, on the complete registry after every file is loaded; the exported object is that registry with `sequelize` the connection made from the environment's block and `Sequelize` the library |

## Left out

- The JSX of the login form and all of `frontend/src/components/Profile.js`, except for one effect of the markup that the model does not cover: the email input is `type="email"` inside a `<form>` without `noValidate`, so in a browser the built-in email validation can stop the submission before the form's own rules run, and the browser strips line breaks and leading and trailing whitespace from the value. The model takes the field value as typed and starts at the form's own rules, so `a@b..co` reaches the credential check here although a browser would block it, and ` admin@example.com` is rejected here although a browser would trim it and log in. Browser behaviour is outside the component's code.
- react-hook-form itself (`useForm`, `Controller`, error storage, re-render timing): submission is modelled as "run both fields' rules, replace the error state with their verdict, and run `onSubmit` on a clean error state when none failed".
- The contents of the configuration blocks and the construction of the connection, including the `use_env_variable` branch (`backend/models/index.js:17-22`): foreign library calls, taken as the inputs `configs` (the blocks by environment name) and `connect` (a block to a connection). The lookup `configModule[env]` itself is modelled: an environment with no block makes the loader throw at line 18, before any file is read, and `Setup` returns `None`. `new Sequelize` can also throw (for instance on a bad dialect); the model assumes `connect` succeeds.
- `fs.readdirSync` and the dynamic `import` of each file: I/O, taken as the inputs `listing` and `factory`. A file that fails to import or whose default export is not a factory makes the loader throw; the model does not cover that.
- What an `associate` hook does: it is code of the model files, not of the loader; the model records each call and its argument.
- ModelIndex.Register: the contract does not state that `keys` is in first-storage order, only that it lists every registered name once. `Object.keys` also puts integer-like names first, which the model does not do; the proved properties of the `associate` loop hold for any such order.
- ModelIndex.Associate: the contract does not state the order of the calls, only which calls happen and their argument.
- A model named `__proto__` changes the prototype of `db` instead of adding an entry; the model treats it as an ordinary name.
- The users service and controller described by `backend/__tests__/`: their source is not part of this model.
- `backend/jest.config.js`: test-runner configuration with no behaviour.
