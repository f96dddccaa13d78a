# Tally-to-Supabase webhook, modelled in Dafny

This project models `api/tally-webhook.js`, an HTTP endpoint that takes a form submission
that Tally posts as a webhook and stores the six answers as one row of the Supabase table
`formulario`. The decision logic of that endpoint is written as pure functions, and the
model proves what they do:

- `getFieldValueByLabel`. It scans the submission's `data.fields` array with
  `Array.prototype.find`, comparing each element's `label` with the wanted label by strict
  equality (`===`). It gives the value of the first match, or `null` when nothing matches
  (module `FieldLookup`, file `field_lookup.dfy`).
- The six lookups and the row literal. Six question labels map to six column names. Two
  of them are renamed: `Número celular` goes to `Numero celular`, and `Color Favorito` goes to
  `Color favorito` (module `TallyWebhook`, file `webhook.dfy`).
- The branches of `handler`, in order:
  - 405 for any method other than `POST`;
  - 400 for a body without a `data.fields` array;
  - otherwise one insert of the row;
  - then 500 with `details` on an insert error, 200 with the returned rows on success, and
    500 with `message` when the awaited insert throws.

The data store is not modelled. The handler takes the insert's outcome as an input
(`Inserted(data)`, `InsertError(message)` or `Raised(message)`). It returns a `Run`: the
response it writes together with the row it sent, if any. Answer values have an abstract
type `V`. `None` is the `null` of the no-match branch (`field ? field.value : null`, line 19);
a matching element's own `value` is a `V` even when it is JSON `null`, so `Some(v)` can stand
for a `null` too. `optional.dfy` holds that `Option` type.

Two edge cases of the code are modelled as written:

- The elements of `data.fields` are `Item`s. A `Nullish` element (`null` or `undefined`)
  makes `fieldItem.label` raise a TypeError. That happens only if the scan reaches the
  element before it finds a match.
- The six lookups run before the `try` block. So such a TypeError is not turned into a
  500: the handler throws, sends no insert and writes no response (`Run.Threw`).

The comment on the `catch` (lines 86-87) says it handles any other error that may occur
during the process. The six lookups (lines 46-51) sit outside the `try` of line 53, so an
error they raise is not caught there; the model follows the code.

## Model

| member | source | states |
|---|---|---|
| `FieldLookup.GetFieldValueByLabel` | api/tally-webhook.js:15-20 | a returned value belongs to some element whose label is exactly the target; a TypeError needs a nullish element in the array |
| `FieldLookup.FirstMatchIsReturned` | api/tally-webhook.js:17-19 | the lookup returns the value of the lowest-index element labelled with the target, provided the scan reaches it |
| `FieldLookup.NullishBeforeMatchThrows` | api/tally-webhook.js:17 | a `null`/`undefined` element met before any match makes the lookup throw a TypeError |
| `FieldLookup.NullExactlyWhenNoMatch` | api/tally-webhook.js:17-19 | the lookup takes the no-match `null` branch (`None`) if and only if every element is readable and none carries the target label |
| `FieldLookup.ResultComesFromFirstStop` | api/tally-webhook.js:17-19 | conversely, every returned value is that of the first matching element, and every TypeError comes from a nullish element before any match |
| `FieldLookup.ReadableItemsNeverThrow` | api/tally-webhook.js:17 | with no `null`/`undefined` element the lookup always returns (a value or `null`) |
| `FieldLookup.UnrelatedFieldIsSkipped` | api/tally-webhook.js:17 | inserting an element with a different (or no) label anywhere in the array does not change the lookup |
| `FieldLookup.LookupByMembership` | api/tally-webhook.js:17-19 | with readable elements and unique labels, the lookup returns `v` exactly when `{label: target, value: v}` is in the array |
| `FieldLookup.PermutedFieldsGiveSameValue` | api/tally-webhook.js:17-19 | with readable elements and unique labels, any permutation of the array gives the same lookup for every label |
| `FieldLookup.LabelsAreCaseAndAccentSensitive` | api/tally-webhook.js:17 | `nombre` does not match `Nombre`, `Número celular` does not match `Numero celular`, and `Color Favorito` skips `Color favorito` |
| `TallyWebhook.ExtractRow` | api/tally-webhook.js:46-69 | a row exists exactly when none of the six lookups throws, and its keys are exactly the six column names |
| `TallyWebhook.RowFollowsColumnTable` | api/tally-webhook.js:62-69 | column `Columns[k]` holds the lookup of label `FormLabels[k]` (two of the six renamed) |
| `TallyWebhook.InsertResponse` | api/tally-webhook.js:75-90 | status 200 exactly on success, carrying the returned rows; an insert error gives 500 with `details` equal to its message; an exception gives 500 `Internal Server Error` with its message |
| `TallyWebhook.Handler` | api/tally-webhook.js:24-91 | non-POST gives 405 and no insert; POST without a `fields` array gives 400 and no insert; otherwise exactly the extracted row is sent and the reply is that of the outcome, or the handler throws when a lookup throws |
| `TallyWebhook.StatusIsOneOfFour` | api/tally-webhook.js:27-90 | every reply has status 200, 400, 405 or 500 |
| `TallyWebhook.NoInsertNoDependence` | api/tally-webhook.js:27-40 | when no insert is sent, the store's outcome has no influence on the result |
| `TallyWebhook.OutcomeDecidesStatus` | api/tally-webhook.js:75-83 | for a valid POST the status is 200 exactly when the insert succeeded; the rows are echoed on success, the error message on failure |
| `TallyWebhook.ReadableFieldsAlwaysInsert` | api/tally-webhook.js:46-69 | a `fields` array of readable elements always yields a row; a column is `None` (the no-match `null`) exactly when no element carries its question's label |
| `TallyWebhook.PermutedFieldsSameRun` | api/tally-webhook.js:46-51 | with readable elements and unique labels, the order of the fields changes neither the row nor the reply |
| `TallyWebhook.PartialSubmissionExample` | api/tally-webhook.js:62-69 | a submission answering only `Nombre` and `Fecha` is stored with `null` in the other four columns |
| `TallyWebhook.NullElementThrows` | api/tally-webhook.js:46-53 | a `fields` array holding only `null` makes the handler throw before the `try`: no insert, no response |

## Left out

- The Supabase client, its construction from the environment variables
  `NEXT_PUBLIC_SUPABASE_URL`/`NEXT_PUBLIC_SUPABASE_ANON_KEY` (lines 6-10), and the
  `.from('formulario').insert(...).select()` chain. These are library code, so the model keeps
  only the row passed in and the outcome received.
- `async`/`await`: the awaited insert is the outcome input, and there is no concurrency.
- `console.error`/`console.log` (lines 38, 76, 82, 88): logging only.
- The `res.status().json()` plumbing and JSON serialisation. The response is a returned
  `(status, body)` value, so the model does not capture, for example, a `value` of
  `undefined` being dropped from the serialised row.
- JavaScript truthiness in general. `Payload` keeps only the four shapes the payload check
  distinguishes, and `InsertOutcome` keeps only the three ways the insert can end.
- `TallyWebhook.ExtractRow`: a matching element whose `value` is `null` also stores `null`
  in its column. The model keeps that case as `Some(v)`, with `v` the abstract value standing
  for JSON `null`, and does not merge it with the no-match `None`; the `None` statements in
  this table are about the no-match branch only.
- `TallyWebhook.InsertResponse`: an error or exception message is a `string`. An error
  object without a `message` property, which would give an absent `details`/`message`,
  is not modelled.
- `TallyWebhook.Handler`: what the hosting platform does with the uncaught rejection of
  `Run.Threw` is outside the code and not modelled.
