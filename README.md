# Code Snippet Maker: snippet list and server actions

This project models the core of a small Next.js application for storing
code snippets. Each snippet has a title, a code body and a tag list. The
tag list is stored as the JSON text of an array of strings.

The model covers two parts of the application:

- **The snippet list page** (`SnippetListClient`). It decodes each snippet's
  tags and collects every tag once, in first-seen order, for the tag
  drop-down. It lists the snippets that match both the search box (a
  case-insensitive substring of the title or the code) and the chosen tag.
  While a delete is in flight, it keeps that snippet's id in a set of
  "deleting" ids, which disables the snippet's delete button.
- **The server actions.** `createSnippet` validates a submitted form and
  adds a row. `saveSnippet` rewrites one row's code. `deleteSnippet`
  removes one row. Each action that succeeds ends in a redirect.

The modules:

- `JsText` models JavaScript strings as sequences of UTF-16 code units. It
  defines `trim` with the whitespace set of sections 12.2 and 12.3 of
  ECMA-262, ASCII `toLowerCase`, and `includes`.
- `TagCodec` models the tag text:
  - reading it back, as `JSON.parse` of an array of string literals
    (RFC 8259, sections 2, 5 and 7);
  - writing it, as `JSON.stringify` of a list of strings (section 25.5.2.3
    of ECMA-262);
  - the round trip between the two.
- `Actions` holds the server actions. They run against a `SnippetStore`
  class that stands for the snippet table.
- `SnippetList` holds the list computations. The page state is a
  `SnippetListView` class, whose `handleDelete` calls the store's delete
  action.

Behaviour of the code worth noting, which the model keeps:

- `createSnippet` stores the title and the code exactly as submitted. It
  does not trim them, does not cap their length and does not write tags.
- `saveSnippet` validates nothing.
- Saving or deleting an id with no row throws, because the ORM call
  rejects. It does not answer with a "not found" message.
- The thrown error is not caught in the action. The list page catches it
  and shows a fixed notice.

## Model

| member | source | states |
|---|---|---|
| JsText.TrimStart | src/actions/index.ts:32 | the result is a suffix of the input; everything dropped is whitespace; the result does not start with whitespace |
| JsText.TrimEnd | src/actions/index.ts:32 | the result is a prefix of the input; everything dropped is whitespace; the result does not end with whitespace |
| JsText.Trim | src/actions/index.ts:32 | `s.trim()` is empty exactly when `s` holds no non-whitespace code unit |
| JsText.TrimBlank | src/actions/index.ts:38 | trimming both ends leaves nothing exactly when every code unit is whitespace |
| JsText.ToLower | src/components/snippet/SnippetListClient.tsx:43 | lower-casing keeps the length and maps each code unit on its own |
| JsText.Includes | src/components/snippet/SnippetListClient.tsx:43 | `t.includes(p)` holds exactly when `p` occurs in `t` at some position |
| JsText.OccursInTail | src/components/snippet/SnippetListClient.tsx:43 | when `p` does not start `t`, it occurs in `t` exactly when it occurs in `t`'s tail |
| TagCodec.SkipSpace | src/components/snippet/SnippetListClient.tsx:25 | skipping JSON whitespace never lengthens the text and stops at a non-whitespace unit |
| TagCodec.SkipSpaceSuffix | src/components/snippet/SnippetListClient.tsx:25 | what is left after skipping whitespace is a suffix of the text, and everything dropped is JSON whitespace |
| TagCodec.ParseChars | src/components/snippet/SnippetListClient.tsx:25 | reading a string literal's body consumes at least one code unit |
| TagCodec.ParseCharsRest | src/components/snippet/SnippetListClient.tsx:25 | a string literal's body ends at a quote, and the text left over is exactly what follows that quote in the input |
| TagCodec.ParseArray | src/components/snippet/SnippetListClient.tsx:25 | a text accepted as an array starts, after whitespace, with `[`; a non-empty array's first item starts with a quote |
| TagCodec.DecodeTags | src/components/snippet/SnippetListClient.tsx:24-28 | an empty tags field reads as `[]`; text that is not a JSON array of strings reads as `[]`; otherwise the result is the parsed array |
| TagCodec.Hex4 | prisma/seed.ts:30 | a `\u` escape carries exactly four hex digits |
| TagCodec.EscapeUnit | prisma/seed.ts:30 | the text written for one code unit is never empty and never holds a control character or a surrogate |
| TagCodec.EscapeChars | prisma/seed.ts:30 | the escaped body of a string never holds a raw control character |
| TagCodec.QuoteString | prisma/seed.ts:30 | a string literal starts and ends with a quote |
| TagCodec.JoinQuoted | prisma/seed.ts:30 | the joined items are empty exactly for an empty list, and otherwise start and end with a quote |
| TagCodec.EncodeTags | prisma/seed.ts:30 | the stored text is bracketed by `[` and `]` |
| TagCodec.Hex4RoundTrip | prisma/seed.ts:30 | the four lowercase hex digits written for a code unit read back as that code unit |
| TagCodec.EscapeUnitRoundTrip | prisma/seed.ts:30 | the escape written for any single code unit that is not a paired surrogate reads back as that unit |
| TagCodec.EscapeCharsRoundTrip | prisma/seed.ts:30 | the escaped body of any string reads back as that string, followed by whatever text comes after it |
| TagCodec.QuoteStringRoundTrip | prisma/seed.ts:30 | reading a quoted, escaped string yields the string and leaves the text after the closing quote |
| TagCodec.JoinQuotedRoundTrip | prisma/seed.ts:30 | the comma-separated items of a non-empty list, closed by `]`, read back as that list |
| TagCodec.EncodeTagsParses | src/components/snippet/SnippetListClient.tsx:25 | parsing the JSON text of any list of strings gives back that list |
| TagCodec.DecodeEncodeTags | src/components/snippet/SnippetListClient.tsx:36 | tags written with `JSON.stringify` decode to the same list, in the same order |
| Actions.IsFilled | src/actions/index.ts:32 | a form field is filled exactly when it is text holding a non-whitespace code unit |
| Actions.CreateError | src/actions/index.ts:32-42 | the form is accepted exactly when both fields are filled; a rejection carries "Title is required" or "Code is required", "Title is required" exactly when the title is not filled, and the code message only when the title is filled |
| Actions.CreateErrorMeaning | src/actions/index.ts:32-42 | the form is accepted exactly when title and code are both text with a non-whitespace character; otherwise the answer is "Title is required" when the title fails, and "Code is required" when only the code fails |
| Actions.SnippetStore.CreateSnippet | src/actions/index.ts:26-54 | a rejected form gets its message and the table is unchanged; an accepted form adds exactly one row, holding the untrimmed title and code and the default tags under a fresh id, and the action redirects to `/`; every row stays under its own id |
| Actions.SnippetStore.SaveSnippet | src/actions/index.ts:6-13 | with no row `id` the call throws and nothing changes; otherwise only that row's `code` is replaced and the action redirects to `/snippet/{id}`; no other row and no other field changes |
| Actions.SnippetStore.DeleteSnippet | src/actions/index.ts:17-23 | with no row `id` the call throws and nothing changes; otherwise exactly that row is removed and the action redirects to `/` |
| SnippetList.TagsOf | src/components/snippet/SnippetListClient.tsx:34-40 | an empty tags field, or one that does not parse, gives no tags |
| SnippetList.FlatTags | src/components/snippet/SnippetListClient.tsx:23-29 | a tag is in the flattened list exactly when some snippet's decoded tags contain it |
| SnippetList.FirstIndex | src/components/snippet/SnippetListClient.tsx:22 | the position returned holds the value, and no earlier position does |
| SnippetList.Dedup | src/components/snippet/SnippetListClient.tsx:21-31 | `Array.from(new Set(xs))` holds each value of `xs` not already seen, with no duplicates, in order of first occurrence |
| SnippetList.AllTagsOf | src/components/snippet/SnippetListClient.tsx:21-31 | `allTags` holds every tag of every snippet, each once, in order of first mention |
| SnippetList.MatchesSearch | src/components/snippet/SnippetListClient.tsx:43 | a snippet matches the search exactly when the search is empty or its lower-cased text occurs in the lower-cased title or code |
| SnippetList.MatchesTag | src/components/snippet/SnippetListClient.tsx:44 | with no tag chosen every snippet matches; a snippet without tags matches no chosen tag |
| SnippetList.IsShown | src/components/snippet/SnippetListClient.tsx:42-45 | with both filters empty every snippet is shown; with one filter empty, a snippet is shown exactly when it passes the other |
| SnippetList.Filtered | src/components/snippet/SnippetListClient.tsx:33-46 | a snippet is listed exactly when it passes both filters, as many times as it occurs in the input, and the list is an order-preserving subsequence of the snippets |
| SnippetList.NoFilterShowsAll | src/components/snippet/SnippetListClient.tsx:42-45 | with an empty search and "All Tags", every snippet is listed, in order |
| SnippetList.FilteredIdempotent | src/components/snippet/SnippetListClient.tsx:33-46 | filtering the filtered list again changes nothing |
| SnippetList.FiltersCompose | src/components/snippet/SnippetListClient.tsx:42-45 | applying the search alone and then the tag alone gives the same list as applying both at once |
| SnippetList.ToLowerIdempotent | src/components/snippet/SnippetListClient.tsx:43 | lower-casing twice is lower-casing once |
| SnippetList.SearchIgnoresCase | src/components/snippet/SnippetListClient.tsx:43 | a search text and its lower-cased form match the same snippets |
| SnippetList.TagOptionSelectsSome | src/components/snippet/SnippetListClient.tsx:119-121 | with an empty search, every tag offered in the drop-down lists at least one snippet |
| SnippetList.StoredTagSelects | src/components/snippet/SnippetListClient.tsx:44 | a tag written with `JSON.stringify` is offered in the drop-down, and, with an empty search, choosing it lists its snippet |
| SnippetList.AlertFor | src/components/snippet/SnippetListClient.tsx:56-68 | an alert is raised exactly on a rejection or a non-empty returned message; it is never empty, and for a message it is that message |
| SnippetList.SnippetListView.constructor | src/components/snippet/SnippetListClient.tsx:16-18 | the page starts with an empty search, no tag chosen and no delete in flight |
| SnippetList.SnippetListView.Shown | src/components/snippet/SnippetListClient.tsx:33-46 | the cards are the snippets passing both filters; with both filters empty they are all the snippets, in order |
| SnippetList.SnippetListView.DeleteDisabled | src/components/snippet/SnippetListClient.tsx:185 | the rule `deletingIds.has(id)` of line 185, as a definition; `HandleDelete` proves it holds after a successful delete and not after a failed one; `PressDelete` proves a click while it holds changes nothing |
| SnippetList.SnippetListView.SetSearch | src/components/snippet/SnippetListClient.tsx:108 | typing sets the search text, and the list becomes the snippets filtered by it |
| SnippetList.SnippetListView.SetTagFilter | src/components/snippet/SnippetListClient.tsx:116 | choosing a tag sets the filter, and the list becomes the snippets filtered by it |
| SnippetList.SnippetListView.RequestDelete | src/components/snippet/SnippetListClient.tsx:48-53 | declining the confirmation changes nothing and calls no server action; confirming adds the id before the server is called |
| SnippetList.SnippetListView.SettleDelete | src/components/snippet/SnippetListClient.tsx:55-74 | a non-empty returned message, or a rejection, raises an alert and removes exactly that id; a redirect or an empty message raises nothing and keeps the id |
| SnippetList.SnippetListView.HandleDelete | src/components/snippet/SnippetListClient.tsx:48-75 | against the real delete action: declined means no change anywhere; confirmed on an existing row removes the row and leaves the button disabled; confirmed on a missing row alerts the fixed notice and re-enables the button |
| SnippetList.SnippetListView.PressDelete | src/components/snippet/SnippetListClient.tsx:184-185 | a click on a disabled button, or a declined confirmation, changes nothing; a successful delete removes the row and keeps the id marked; a failed one alerts and leaves the page as it was before the click |

## Left out

- Rendering, styling, icons, links and the count of tags shown on the page are not modelled. Only the data that the page derives is modelled.
- TagCodec.DecodeTags: only JSON arrays of string literals are decoded, and every other JSON value reads as `[]`. The source treats these values differently. `flatMap` flattens an array holding non-strings, so each element, such as the `"go"` in `[1,"go"]`, becomes a tag of its own. A parsed value that is not an array is added to `allTags` as a single entry. When that value is a number, `null`, boolean or object, `snippetTags.includes(tagFilter)` throws a TypeError once a tag is chosen and the snippet passes the search. A parsed bare string makes `includes` a substring test. Tags are only ever written as arrays of strings.
- JsText.ToLower: only the ASCII letters `A`–`Z` are lower-cased. `toLowerCase` also maps the other Unicode letters; the Unicode case tables are not part of this model.
- `confirm` and `alert` are browser dialogs. The user's answer is a parameter, and the alert text is a result.
- `console.log` in `createSnippet` and `console.error` in `handleDelete` are logging only, and are not modelled.
- Overlapping deletes are not modelled. `handleDelete` is asynchronous, so two deletes could interleave. Each call is modelled as running to completion, and the state updates are applied in program order.
- `createSnippet` takes a `previous` state argument that it never reads, so the model omits it.
- `FormData` is given as one value per field: missing, text, or an uploaded file.
- Ids are modelled as a counter that starts at 1. The database schema, with its id generation and its default for `tags`, is not part of this model. The default tags are a constant of the store.
- Database faults other than a missing row, such as an unreachable database, are not modelled in the store. The list page's handling of any rejection is modelled in `SettleDelete`.
- What a redirect does in the browser, and reloading the list after a delete, are outside this model. A redirect is an outcome of its own.
- Pages that use `saveSnippet` and `createSnippet` (the editor page and the new-snippet form) are not part of this model. The "Run" feature is not part of this model either.
