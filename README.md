# Sample requests of the apidoc template, in Dafny

This models the logic behind the "Send a sample request" panel of the apidoc
HTML template, from `template/src/send_sample_request.js`. An API page has a
block with inputs for header, query and body parameters, an optional JSON
body text area and a URL input. Four pieces of logic are modelled:

- **URL placeholders** (`convertPathParams`). Each `{name}` in the URL
  becomes `:name`, as the regular expression `/{(.+?)}/g` does it. Matching
  is left to right and non-greedy. A placeholder needs at least one
  character between the braces, and that text may not contain a line
  terminator. The text may itself contain `{`, and its first character may
  be `}`. The model is a recursive scanner (`PathParams`). It is proved
  equal to a declarative description: the unique split of the URL into
  plain text and leftmost-shortest placeholders.
- **Collecting the inputs** (`collectValues`). For each family (`header`,
  `query`, `body`), one loop goes over the visible elements in document
  order and fills a JavaScript object:
  - an unchecked checkbox is skipped;
  - a checked checkbox stores `"on"`;
  - an empty input that is not optional is skipped and gets `border-danger`;
  - any other input stores its value, and a later input with the same name
    overwrites the earlier one.

  Then the `Content-Type` header is set to `application/json` with the JSON
  text as body when a body-json element is visible. Otherwise it is set to
  `multipart/form-data` and the body family's object is the body.
- **Shaping the request** (`sendSampleRequest`). In JSON mode the body
  string is passed on as the request data. In multipart mode:
  - each `Object.entries` pair of the body is appended to the form data, in
    order;
  - `Content-Type` is deleted from the headers;
  - `processData` and `contentType` are set to false.
- **Clearing** (`clearSampleRequest`). Every input goes back to its
  placeholder when that differs from its data-name, and to `""` otherwise.
  The URL input goes back to its default value.

The dictionaries are plain JavaScript objects, and the model follows their
rules (`JsObject`):

- properties are kept in creation order, and assigning to an existing key
  does not move it;
- assigning a string to the key `__proto__` reaches the inherited
  `Object.prototype.__proto__` setter and changes nothing;
- `delete` keeps the order of the remaining keys;
- `Object.entries` lists array-index keys first, in ascending numeric order,
  and then the other keys in creation order (section 10.1.11.1 of ECMA-262,
  OrdinaryOwnPropertyKeys).

The block's elements are records (`SampleRequest.Field`). The class
`SampleRequest.Article` owns them in document order, with the URL input's
value and default value. Its methods are the three handlers. Each is proved
against a function of the old state: `Gather`, `Collected`, `Flagged`,
`ShapedFrom` and `Cleared`. The lemmas about those functions carry the
properties. `UrlProcessor.hydrate` is a function parameter, taken to be a
total function of the URL and the query object (see "## Left out").

Modules: `Wrappers` (`Option`), `PathParams`, `JsObject`, `SampleRequest`.

## Model

| member | source | states |
|---|---|---|
| PathParams.ConvertPathParams | template/src/send_sample_request.js:48-50 | replacing placeholders never makes the URL longer |
| PathParams.Close | template/src/send_sample_request.js:49 | at a `{`, finds the end of the shortest match of `{(.+?)}` (a `}` at least two characters on, body free of line terminators), or establishes that no match starts there |
| PathParams.CloseFrom | template/src/send_sample_request.js:49 | the scan behind `Close`, continued from a position whose prefix holds no line terminator and no `}` after the first body character; its result is the shortest match end, or none exists |
| PathParams.PlaceholderEndUnique | template/src/send_sample_request.js:49 | a match starting at a `{` has exactly one end (the lazy quantifier stops at the first possible `}`) |
| PathParams.SegmentsExist | template/src/send_sample_request.js:49 | every URL splits into plain text and placeholders, left to right, taking the leftmost and shortest match each time |
| PathParams.SegmentsUnique | template/src/send_sample_request.js:49 | that split is unique |
| PathParams.ConvertBySegments | template/src/send_sample_request.js:49 | the result is the split with each `{name}` written `:name` and all text outside placeholders copied unchanged and in order |
| PathParams.NoBraceUnchanged | template/src/send_sample_request.js:49 | a URL without `{` is returned unchanged |
| PathParams.ConvertUnchangedIff | template/src/send_sample_request.js:49 | the URL is unchanged if and only if it contains no placeholder |
| PathParams.ConvertLength | template/src/send_sample_request.js:49 | the output is shorter than the input by the number of replacements |
| PathParams.ConvertOccurrences | template/src/send_sample_request.js:49 | each replacement removes one `{` and one `}` and adds one `:`; the count of every other character is unchanged |
| PathParams.NonGreedy | template/src/send_sample_request.js:49 | `{a}/{b}` becomes `:a/:b`, not `:a}/{b` |
| PathParams.EmptyBracesKept | template/src/send_sample_request.js:49 | `{}` followed by text that holds no `}` is not a placeholder: it stays, and conversion goes on after it |
| PathParams.OpenBraceInBody | template/src/send_sample_request.js:49 | `{{a}` becomes `:{a` (the match starts at the first `{`) |
| PathParams.CloseBraceFirstInBody | template/src/send_sample_request.js:49 | `{}}` becomes `:}` (the name may be `}`) |
| PathParams.LineBreakStopsMatch | template/src/send_sample_request.js:49 | `{a\nb}` is unchanged (`.` does not match a line terminator) |
| JsObject.Assign | template/src/send_sample_request.js:109 | `o[k] = v`: `k` now reads `v` and no other key changes; a new key is appended to the creation order and an existing key keeps its place; `__proto__` is left as it was |
| JsObject.Delete | template/src/send_sample_request.js:168 | `delete o[k]`: `k` is gone, every other key reads as before; deleting an absent key changes nothing |
| JsObject.DeleteKeepsOrder | template/src/send_sample_request.js:168 | deleting a key removes exactly that key from the creation order and keeps the others in order |
| JsObject.SortIndices | template/src/send_sample_request.js:161 | the array-index keys, sorted in ascending numeric order and with the same multiset of keys |
| JsObject.PropertyOrder | template/src/send_sample_request.js:161 | OrdinaryOwnPropertyKeys: the array-index keys sorted by numeric value, then the other keys in creation order (a definition; its properties are the rows of `EntriesOrder` and `EntriesIndicesStrict`) |
| JsObject.ArrayIndexCanonical | template/src/send_sample_request.js:161 | an array index is a canonical numeral (no leading zero), so two array-index keys with the same numeric value are the same key |
| JsObject.EntriesIndicesStrict | template/src/send_sample_request.js:161 | the array-index keys of `Object.entries` are in strictly ascending numeric order, which together with `EntriesOrder` fixes the whole order |
| JsObject.Entries | template/src/send_sample_request.js:161 | `Object.entries` has one pair per own property |
| JsObject.EntriesComplete | template/src/send_sample_request.js:161 | every pair of `Object.entries` is a key with its current value, and every key is listed |
| JsObject.EntriesOrder | template/src/send_sample_request.js:161 | `Object.entries` is a permutation of the keys; an array-index key is preceded only by array-index keys of no greater value; the other keys come in creation order |
| JsObject.NoIndexKeysCreationOrder | template/src/send_sample_request.js:161 | without array-index keys, the property order is the creation order |
| SampleRequest.Selected | template/src/send_sample_request.js:85 | the selector `[data-family="family"]:visible`: the element's data-family is the family and it is visible (a definition) |
| SampleRequest.KeyOf | template/src/send_sample_request.js:90 | the property key `inputValues[name]` uses: the data-name, or `"undefined"` when the attribute is absent (a definition) |
| SampleRequest.IsOptional | template/src/send_sample_request.js:105 | `el.dataset.optional` is truthy: the attribute is present and not empty (a definition) |
| SampleRequest.Accepted | template/src/send_sample_request.js:96-109 | the per-element rule: only selected elements store; a checkbox stores `"on"` when checked and nothing otherwise; any other element stores its value, except an empty one that is not optional |
| SampleRequest.Rejected | template/src/send_sample_request.js:105-108 | an element is rejected exactly when it is selected, not a checkbox, and stores nothing |
| SampleRequest.MarkField | template/src/send_sample_request.js:105-106 | one callback changes only the element's `border-danger` class, and adds it exactly when it rejects the element; a class already there stays |
| SampleRequest.MarkRejected | template/src/send_sample_request.js:88-110 | one family's loop adds `border-danger` to exactly the elements it rejects and changes nothing else |
| SampleRequest.Gather | template/src/send_sample_request.js:82-110 | the object one family's loop builds is a consistent object without a `__proto__` own property |
| SampleRequest.Store | template/src/send_sample_request.js:88-110 | one callback of the loop keeps the object consistent |
| SampleRequest.GatherHasKey | template/src/send_sample_request.js:88-110 | the family's object has a key if and only if some element stores a value under it |
| SampleRequest.GatherLastWins | template/src/send_sample_request.js:109 | the value under a key is the one stored by the last element that stores under it: a later input overwrites an earlier one |
| SampleRequest.GatherKeyOrder | template/src/send_sample_request.js:109 | keys are ordered by the element that first stores under them; overwriting does not move a key |
| SampleRequest.SkippedElementIrrelevant | template/src/send_sample_request.js:96-108 | an element the callback returns early on can be removed without changing the object, key order included |
| SampleRequest.UncheckedCheckboxNoEntry | template/src/send_sample_request.js:96-103 | a name whose only selected elements are unchecked checkboxes gets no entry |
| SampleRequest.CheckedCheckboxOn | template/src/send_sample_request.js:96-98 | a checked checkbox that stores last under its name leaves `"on"` there, whatever its value |
| SampleRequest.OptionalEmptyStored | template/src/send_sample_request.js:105-109 | an empty optional input that stores last under its name leaves `""` there |
| SampleRequest.RejectedLeftOutAndFlagged | template/src/send_sample_request.js:105-108 | an empty input that is not optional is left out of its family's object and gets `border-danger` |
| SampleRequest.Flagged | template/src/send_sample_request.js:105-106 | after `collectValues` an element carries `border-danger` exactly when it carried it before or one of the three loops rejected it; nothing else about any element changes |
| SampleRequest.MarkThree | template/src/send_sample_request.js:80-117 | the three family loops one after another flag exactly the elements that `Flagged` flags |
| SampleRequest.GatherIgnoresMarks | template/src/send_sample_request.js:80-117 | a loop's result does not depend on the flags set by the loops before it |
| SampleRequest.JsonValue | template/src/send_sample_request.js:120-126 | `.val()` of the body-json set exists if and only if there is a body-json element, and it is the value of the first one |
| SampleRequest.JsonVisible | template/src/send_sample_request.js:124 | `bodyJson.is(':visible')`: some body-json element is visible (a definition) |
| SampleRequest.JsonVisibleHasValue | template/src/send_sample_request.js:124 | when a body-json element is visible, the `length > 0` test also holds |
| SampleRequest.Collected | template/src/send_sample_request.js:77-137 | a header object always exists; its Content-Type is `application/json` if a body-json element is visible and `multipart/form-data` otherwise; its other headers and the query are the gathered objects; the body is the JSON text or the gathered body object |
| SampleRequest.HydratedUrl | template/src/send_sample_request.js:56-64 | the URL is hydrated after placeholder conversion, which is the identity on a URL without `{` |
| SampleRequest.ShapedFrom | template/src/send_sample_request.js:146-174 | the request object built from the parameters: the URL and type, and for each Content-Type its headers, data, `processData` and `contentType` (a definition; `ShapeRequest` is proved to produce it) |
| SampleRequest.AppendEntries | template/src/send_sample_request.js:161-163 | the `formData.append` loop yields exactly the entries, in order |
| SampleRequest.ShapeRequest | template/src/send_sample_request.js:146-174 | JSON mode: the headers as collected, the body text as data, `processData` and `contentType` unset. Multipart mode: the body's `Object.entries` as form data, the headers without Content-Type, `processData` and `contentType` false. The data is always set |
| SampleRequest.ResetValue | template/src/send_sample_request.js:246 | the value an input is reset to is its placeholder or `""`, and never its own data-name (unless that is `""`) |
| SampleRequest.Cleared | template/src/send_sample_request.js:242-247 | each input's value becomes its `ResetValue`; the values of other elements and every other property of every element stay as they were |
| SampleRequest.ClearedIdempotent | template/src/send_sample_request.js:242-247 | clearing twice is clearing once |
| SampleRequest.ClearThenCollect | template/src/send_sample_request.js:246 | after a clear, an input without a default is empty (so it is rejected unless optional), and an input with a non-empty default stores that default |
| SampleRequest.Article.CollectFamily | template/src/send_sample_request.js:80-117 | the loop over one family returns the gathered object and flags exactly the elements it rejects |
| SampleRequest.Article.CollectValues | template/src/send_sample_request.js:77-137 | returns `Collected` of the block's elements and leaves them `Flagged` |
| SampleRequest.Article.SendSampleRequest | template/src/send_sample_request.js:139-179 | the request handed to `$.ajax` is shaped from the collected parameters. Its URL is the hydrated URL input and its type is the HTTP method |
| SampleRequest.Article.ClearSampleRequest | template/src/send_sample_request.js:232-252 | every input is reset to its placeholder, or to `""` when the placeholder is its data-name; the URL input gets its default value |

## Left out

- DOM and jQuery: the event wiring, selector evaluation and `:visible`. Visibility, family, name, type and value are fields of `Field`. The CSS change is the `danger` flag.
- The animations and the response container, shown, hidden and filled with "Loading...": they are display only.
- `$.ajax` and the browser's `FormData` object. The model stops at the request object. Form data is a list of name/value pairs.
- The `success` and `error` callbacks: response rendering, `JSON.parse`/`JSON.stringify` pretty-printing and Prism highlighting are foreign library calls.
- `console.log` and `console.error` calls.
- The `try`/`catch` in `collectValues`: it guards DOM calls only, which cannot fail in the model. This is also why the header object always exists.
- `UrlProcessor.hydrate`: `sampreq_url_processor` is not part of this model. It is the function parameter `hydrate`, and nothing is assumed about the URL it returns.
- SampleRequest.Article.SendSampleRequest: `hydrate` is modelled as total, deterministic and free of side effects. A throw from `UrlProc.hydrate` (line 63, reached from line 148) is not modelled. It would end the handler before `$.ajax`, with the `border-danger` flags already set.
- Element values are always strings. An element without a `value` property is not modelled. When it is not optional, the loop flags and skips it, as it does an empty value. When it is optional, the loop stores `undefined`.
- The regular expression works on UTF-16 code units and the model on Dafny characters. Neither `{`, `}` nor a line terminator is a surrogate, so the two give the same result.
