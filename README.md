# Tardy Critic feed loader, modelled in Dafny

The index route of the Tardy Critic site (`app/routes/_index.tsx`) has a data
loader. It fetches the reviewer's Letterboxd RSS feed and parses it with
xml2js. Then it loops over the feed's `<item>` elements and pushes one `Film`
record per item onto an array. For each item it:

- splits the HTML description on `</p>`, shifts off the first piece (the
  poster paragraph) and joins the rest back with `</p>`; the result is the
  review body;
- takes element 1 of the description split on `"` as the poster URL;
- reads `link` and `pubDate` as `x[0]`, and the `letterboxd:` rating, title
  and year fields as `x?.[0]`;
- sets `rewatched` when the first `letterboxd:rewatch` value is exactly `"Yes"`.

The loader returns `{ ok: true, films }` whatever happened.

This project models that loop and the JavaScript operations it uses:

- `wrappers.dfy`: `Option` (JavaScript's `undefined`) and `Result` (an
  evaluation that throws).
- `js_string.dfy`: `indexOf`, `String.prototype.split` with a string
  separator (including the empty one), and `Array.prototype.join`. It proves
  that `join(split(s, d), d) == s` for every separator. It proves that no
  piece of a split on a non-empty separator holds that separator. It also proves the converse round
  trip for one-character separators.
- `js_array.dfy`: reading `a[k]`, and `Array.prototype.shift`.
- `index_route.dfy`: the `Film` record (the TypeScript interface at
  `app/routes/_index.tsx:9-18`), the item record xml2js produces (a
  map from field name to that field's array of strings), and the
  normalisation of one item, and the path to `response.rss.channel[0].item`.
  It also holds the loop itself, as the method `Loader`, which appends to a
  sequence. It is specified by `Pushed`, which states what the loop pushes
  for any loop body that may throw; its lemmas are proved once, for every
  body.

Decisions the code forces:

- The `Film` interface declares every field except `rewatched` a `string`, but the code can
  leave several of them `undefined`. The model makes those fields `Option`:
  `image_url` when the description has no `"`, and `rating`, `title` and
  `year` when their field is missing or empty. `link` and `published_at`
  are `undefined` when their array is empty.
- Some reads throw a `TypeError`:
  - `description`, `link` or `pubDate` is absent;
  - `description` is an empty array (`undefined.split`);
  - the parsed response has no `rss.channel[0].item`, which happens for a
    parse error, an empty body, or a feed with no items.
  Such a throw leaves the xml2js callback and rejects the promise chain, and
  `.catch` logs it (line 49). The loader then returns `ok: true` with the
  films pushed before the throw. So the model's loop stops at the first item
  that throws and keeps what it already has.
- The loader does not sort the films: they stay in feed order.
- The code does not guarantee a non-empty `link`. It copies the first
  `link` value as it is: an empty `<link/>` gives `Some("")`, and an empty
  array gives `None`.

## Model

| member | source | states |
|---|---|---|
| `JsString.IndexOf` | app/routes/_index.tsx:33 | the position found is an occurrence of the separator, and there is none before it (none at all when the result is undefined) |
| `JsString.Split` | app/routes/_index.tsx:33 | a split yields no pieces only for the empty string on the empty separator; on the empty separator piece `k` is character `k` of the string |
| `JsString.Join` | app/routes/_index.tsx:41 | joining a single piece gives that piece unchanged; its meaning is pinned by `JsString.JoinSplit` and `JsString.SplitJoinChar` |
| `JsString.SplitAtFirst` | app/routes/_index.tsx:33 | when the separator first occurs at `i`, the first piece is the text before `i` and the other pieces are those of the text after the separator |
| `JsString.JoinSplit` | app/routes/_index.tsx:33-41 | joining the pieces of `s.split(d)` with `d` gives back `s`, for every string and separator |
| `JsString.SplitPartsFree` | app/routes/_index.tsx:33 | no piece of a split on a non-empty separator contains the separator |
| `JsString.SplitWithout` | app/routes/_index.tsx:33 | a string without the separator splits into itself alone |
| `JsString.IndexOfChar` | app/routes/_index.tsx:36 | for a one-character separator, the search fails exactly when the character is absent, and otherwise finds its first position |
| `JsString.SplitJoinChar` | app/routes/_index.tsx:36 | for a one-character separator, splitting the join of pieces that do not contain it gives back the pieces |
| `JsArray.Index` | app/routes/_index.tsx:36 | `a[k]` is defined exactly when `k` is within the array, and is then element `k` |
| `JsArray.Shift` | app/routes/_index.tsx:34 | `shift` returns undefined exactly on an empty array; the removed element followed by what remains is the original array |
| `IndexRoute.OptionalFirst` | app/routes/_index.tsx:40-44 | `item[key]?.[0]` is defined exactly when the field is present with at least one value, and is then its first value |
| `IndexRoute.RequiredFirst` | app/routes/_index.tsx:37-39 | `item[key][0]` throws exactly when the field is absent, and otherwise has the value `?.[0]` would have |
| `IndexRoute.FilmList` | app/routes/_index.tsx:31 | the item list is reached exactly when there is a parsed channel array with a first channel that has items, and it is that channel's items |
| `IndexRoute.ReviewOf` | app/routes/_index.tsx:33-41 | no contract of its own: split on `</p>`, shift, join with `</p>`; its meaning is given by `IndexRoute.ReviewIsTextAfterFirstParagraph` and `IndexRoute.ReviewRoundTrip` |
| `IndexRoute.ImageUrlOf` | app/routes/_index.tsx:36 | no contract of its own: element 1 of the split on `"`; its meaning is given by `IndexRoute.ImageUrlIsFirstQuoted` |
| `IndexRoute.Pushed` | app/routes/_index.tsx:32-46 | no contract of its own: what the loop pushes for any body that may throw; its meaning is given by `IndexRoute.PushedOnePerItem`, `IndexRoute.PushedComplete` and `IndexRoute.PushedPrefix` |
| `IndexRoute.Normalized` | app/routes/_index.tsx:32-46 | no contract of its own: `Pushed` with the item normalisation as the body; its meaning is given by `IndexRoute.NormalizedOnePerItem` |
| `IndexRoute.NormalizeItem` | app/routes/_index.tsx:33-45 | an item gives a film exactly when its `description` field has at least one value (which may be the empty string) and it has `link` and `pubDate` fields; otherwise it throws |
| `IndexRoute.ReviewIsTextAfterFirstParagraph` | app/routes/_index.tsx:33-41 | the review is the description after its first `</p>`, and is the empty string when there is none |
| `IndexRoute.ReviewRoundTrip` | app/routes/_index.tsx:33-41 | when the description has a `</p>`, the first split piece, `</p>` and the review together rebuild the description; that first piece holds no `</p>` |
| `IndexRoute.FirstQuotePiece` | app/routes/_index.tsx:36 | the first piece of a split on `"` is the text up to the first `"`, or the whole string, and holds no `"` |
| `IndexRoute.ImageUrlAfterQuote` | app/routes/_index.tsx:36 | when the first `"` is at `i`, the poster URL is the text after it up to the next `"` or the end |
| `IndexRoute.ImageUrlIsFirstQuoted` | app/routes/_index.tsx:36 | the poster URL is undefined exactly when the description has no `"`; otherwise it is the text strictly between the first `"` and the next one (or the end), with no `"` in it |
| `IndexRoute.NormalizeItemFields` | app/routes/_index.tsx:35-45 | a pushed film's review and poster URL are as above; `link` and `published_at` are the first values of `link` and `pubDate`; rating, title and year are the first values of their fields when present, with no default; `rewatched` holds iff the rewatch field's first value is exactly `"Yes"` |
| `IndexRoute.PushedOnePerItem` | app/routes/_index.tsx:32-46 | for any loop body: at most one result per item; result `k` is the body's value on item `k`, so order is kept; a shorter list ends at an item whose body throws |
| `IndexRoute.PushedComplete` | app/routes/_index.tsx:32-46 | for any loop body: there is one result per item iff the body throws on no item |
| `IndexRoute.PushedPrefix` | app/routes/_index.tsx:25-46 | for any loop body: what is pushed for the first `n` items stays unchanged at the front of the final list |
| `IndexRoute.NormalizedOnePerItem` | app/routes/_index.tsx:32-46 | the loader's films: film `k` is the normalisation of item `k`, in feed order; one film per item iff no item throws; otherwise the list ends at the first item that throws |
| `IndexRoute.Loader` | app/routes/_index.tsx:24-51 | the loader answers `ok: true`; its films are the loop's output over the reached item list, and empty when that list cannot be reached |

## Left out

- Fetching the RSS URL (lines 26-28) and the promise chain with its `.catch` (lines 48-49): network I/O and asynchronous control. A failed fetch is modelled as an unreachable item list.
- `xml2js.parseString` (lines 29-30): a foreign XML library. The model takes its output shape as input. A parse error is modelled the same as a missing `rss.channel`. Element values that xml2js would give as attribute objects, not strings, are not modelled.
- `console.error` logging (lines 30, 49): output only.
- `json(...)`, `meta` and the `Index` component (lines 20-22, 51, 54-85): framework glue and presentation. `about.tsx` is static markup.
- Matching anniversaries and sorting by watched date: neither appears in `app/routes/_index.tsx`.
- JsString.Split: JavaScript strings are UTF-16 code units, while Dafny's `char` is a Unicode scalar value. The two agree for the ASCII separators the loader uses. They differ only for the empty separator on text outside the Basic Multilingual Plane.
- IndexRoute.Loader: it relies on xml2js rethrowing an exception from the callback, so that the promise chain rejects. Which `TypeError` is thrown, and the callback possibly running twice, are not modelled.
