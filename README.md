# Validation error formatter of the books app

The books application (an Express app with Passport login) configures
express-validator with a custom `errorFormatter` in `app.js`. When a form
field fails validation, the formatter receives the field's path (`param`), the
message and the offending value. It rewrites the path from dotted notation
into the bracket notation that HTML form field names use:
`"user.address.street"` becomes `"user[address][street]"`. It then returns the
record `{param, msg, value}`, in which `msg` and `value` are unchanged.

The formatter splits `param` at every `'.'`, takes the first field as the root,
and then pops the remaining fields one at a time in a `while` loop. Each popped
field is appended as `"[" + field + "]"`.

The model has two modules:

- `Fields` (`fields.dfy`) models JavaScript's `String.prototype.split` with a
  one-character separator, and its inverse `Join`.
  - The result always has at least one field, and one more field than the
    string has separators.
  - Empty fields are kept.
  - Splitting and joining are proved to be inverses in both directions.
- `ErrorFormatter` (`error_formatter.dfy`) holds the following:
  - the returned record, `FormattedError`;
  - the specification function `FormatParam`;
  - the formatter, as the method `FormatError`. Its `namespace` is a local
    sequence that the loop pops at the head, like `shift()`.
  - It also has a second, independent character-by-character definition,
    `CharwiseFormat`. In it, the first `'.'` becomes `"["`, every later `'.'`
    becomes `"]["`, and a closing `"]"` is added when there was a dot.
    `FormatParamIsCharwise` proves that the two definitions agree.

`msg` and `value` are arbitrary JavaScript values. They are modelled as type
parameters, because the formatter only passes them through.

## Model

| member | source | states |
|---|---|---|
| `ErrorFormatter.FormatError` | app.js:84-97 | The returned `param` is the root field followed by every remaining field in bracket form, in order. The loop invariant ties the accumulated `formParam` to the fields popped so far. `msg` and `value` come back unchanged. The loop ends because every iteration removes one field. |
| `Fields.Split` | app.js:85 | `param.split('.')` yields exactly one more field than there are dots in the input (so at least one field), and no field contains a dot. |
| `Fields.JoinSplit` | app.js:85 | Joining the fields of a split with the separator restores the original string, so no characters are lost or reordered. |
| `Fields.SplitJoin` | app.js:85 | Splitting a join of dot-free fields gives back exactly those fields, so the split is the inverse of the join. |
| `Fields.SplitHead` | app.js:85-86 | The root that `shift()` takes first is the longest dot-free prefix of `param`: it is a prefix, has no dot, and is followed by a dot unless it is the whole of `param`. |
| `Fields.Count` | app.js:85 | The dot count is zero exactly when the string has no dot, and it never exceeds the length. |
| `ErrorFormatter.StartsWithRoot` | app.js:85-87 | The formatted param starts with the root field, which is the part of `param` before its first dot. |
| `ErrorFormatter.NoDotUnchanged` | app.js:85-91 | The formatted param equals the input if and only if the input contains no dot. With no dot, the loop body never runs. |
| `ErrorFormatter.BracketPairPerDot` | app.js:85-91 | The number of bracket pairs appended equals the number of dots, which is the number of fields minus one. The result has no dot left, and has exactly that many more `[` and `]` characters than the input. |
| `ErrorFormatter.FieldsInOrder` | app.js:89-91 | For any dot-free root and fields, formatting their dotted join gives the root followed by each field wrapped as `[field]`, in the original order. Empty fields stay as `[]`. |
| `ErrorFormatter.FormatParamIsCharwise` | app.js:85-91 | The field-by-field result equals an independent character-wise rewriting: the first dot becomes `[`, every later dot `][`, every other character is kept, and a closing `]` is added when there was a dot. |
| `ErrorFormatter.ExampleNested` | app.js:89-91 | `"a.b.c"` becomes `"a[b][c]"`. |
| `ErrorFormatter.ExampleDoubledDot` | app.js:85-91 | `"a..b"` becomes `"a[][b]"`: the empty field between two dots is kept as an empty bracket pair. |
| `ErrorFormatter.ExampleLeadingDot` | app.js:85-91 | `".a"` becomes `"[a]"`: a leading dot gives an empty root. |
| `ErrorFormatter.ExampleTrailingDot` | app.js:85-91 | `"a."` becomes `"a[]"`: a trailing dot gives a final empty bracket pair. |
| `ErrorFormatter.ExamplePlain` | app.js:85-89 | `"email"` and `""` are returned unchanged. |

## Left out

- The rest of `app.js` is not modelled. It covers the Mongoose connection, the session, flash and Passport middleware, the view engine, static files and `listen`. All of it is library configuration and I/O.
- `routes/books.js` is not modelled. Every route wraps Mongoose lookups, updates and removals and `res.render`, and the behaviour of those calls is not defined in the repository. Three things in it are worth noting:
  - The ownership test is a single `!=` on values fetched from the store.
  - The edit-form route still reaches `render` after redirecting.
  - The POST edit route checks no ownership and takes `author` from the request body.
- `models/book.js` is not modelled. It is a declarative Mongoose schema, and its `required` checks are enforced by the library.
- `backup.js` is not modelled. Its handlers are try/catch wrappers around Mongoose calls with fixed 200/400 responses. Country search uses MongoDB `$regex`, and input cleaning uses the external `mongo-sanitize` package. A large part of the file is OpenAPI YAML.
- `param` is modelled as a string. express-validator always passes the field path as a string, so the case where `param` is not a string (and `split` would throw) is not modelled.
- The JavaScript array that `shift()` mutates is modelled as a local sequence that the loop reassigns. No other code can see that array, so aliasing plays no part.
