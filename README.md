# Photo diary — a verified model

The photo diary is a single-page web application. Each diary entry has some
photos, a text and a creation time. Entries are kept in an IndexedDB object
store named `diaries`, which has an auto-increment key. They are shown on the
page as cards in the `#diaries` container, newest first. Each card holds:

- a carousel with one slide per photo;
- the escaped text;
- the time of creation;
- a delete button.

This project models the application's script in Dafny and proves how the page
and the store stay in step.

- `Carousel.dfy` models the slide list built for a card. It maps photos to
  slides; the first slide is `carousel-item active` and the rest are
  `carousel-item`. Every slide advances every 3000 ms, and the `alt` text of
  its image is the photo's name.
- `Sanitize.dfy` models the text escaping as it is written: five successive
  global replacements. It describes exactly what each character becomes.
  Beside it are the escaping that was evidently intended and the HTML
  decoding a browser applies, with a proof that the intended escaping
  round-trips (see "## Findings").
- `Diaries.dfy` models the rest:
  - the object store (`Store`), a class with the records in ascending key
    order and its key generator;
  - the card container (`Container`), a class whose cards are inserted at
    the front and removed by `data-key`;
  - the three operations of the page: `Initialize` (the cursor walk of a
    read-only transaction at load), `AddDiary` and `DeleteDiary`. The last
    two each take the way their read-write transaction ends (`complete`, or
    `abort` with a reason) as a parameter.

The central invariant is `Diaries.Mirrors`: the cards on the page are exactly
the cards of the stored records, in reverse key order. Loading into an empty
page establishes it. Adding and deleting preserve it, whether the
transaction completes or aborts.

## Model

| member | source | states |
|---|---|---|
| Carousel.Slides | index.js:116-120 | one slide per photo, in photo order; slide `i` has the photo's name as `alt` and a 3000 ms interval; a slide is `carousel-item active` exactly when it is the first, and every other slide is `carousel-item` |
| Carousel.ExactlyOneActive | index.js:116-117 | a card with photos has exactly one active slide; a card without photos has none |
| Carousel.SlidesSnoc | index.js:116-120 | one more photo adds one inactive slide at the end and leaves the earlier slides unchanged |
| Sanitize.ReplaceAll | index.js:147-151 | one `.replace(/c/g, r)` with a single-character pattern: every occurrence of `c`, left to right, is replaced by `r` (its properties are the `ReplaceAll…` lemmas below) |
| Sanitize.ReplaceAllRemoves | index.js:147 | a global replacement removes every occurrence of its character when the replacement string does not contain it |
| Sanitize.ReplaceAllAbsent | index.js:147 | a global replacement leaves text without its character unchanged |
| Sanitize.ReplaceAllAppend | index.js:147 | a global replacement distributes over concatenation |
| Sanitize.Sanitize | index.js:145-152 | `sanitize` as written: the passes for `<` (to `&lt;`), `>` (to `$gt;`), `&`, `'` and `"`, in that order (its properties are the `Sanitize…` lemmas below) |
| Sanitize.SanitizeRemovesMarkup | index.js:145-152 | no `<`, `>`, `'` or `"` survives the escaping |
| Sanitize.SanitizePlain | index.js:145-152 | text with none of the five special characters is returned unchanged |
| Sanitize.SanitizeNotShorter | index.js:145-152 | escaped text is never shorter than the input |
| Sanitize.SanitizeAppend | index.js:145-152 | escaping distributes over concatenation |
| Sanitize.SanitizeLessThan | index.js:147-151 | `<` becomes `&amp;lt;`, because the `&` pass rewrites the `&lt;` of the `<` pass |
| Sanitize.SanitizeGreaterThan | index.js:148-151 | `>` becomes `$gt;`, and no later pass touches it |
| Sanitize.SanitizeAmpersand | index.js:149-151 | `&` becomes `&amp;` |
| Sanitize.SanitizeApostrophe | index.js:150 | `'` becomes `&apos;` |
| Sanitize.SanitizeQuotationMark | index.js:151 | `"` becomes `&quot;` |
| Sanitize.SanitizeChar | index.js:147-151 | every single character becomes its entry in the table `Escape` |
| Sanitize.SanitizeIsEscapeEach | index.js:145-152 | escaping replaces each character, in order, by its entry in `Escape`, for every input |
| Sanitize.SanitizeDoesNotRoundTrip | index.js:147-149 | decoded by the browser, escaped `<` shows as the text `&lt;` and escaped `>` shows as the text `$gt;` |
| Sanitize.SanitizeIntendedChar | index.js:145-152 | with `&` replaced first and `>` mapped to `&gt;`, every special character is escaped once, to its named entity |
| Sanitize.SanitizeIntendedIsEscapeEach | index.js:145-152 | the corrected escaping replaces each character, in order, by its entity |
| Sanitize.UnescapeSanitizeIntended | index.js:145-152 | decoding the corrected escaping gives back the typed text, for every input |
| Diaries.Reversed | index.js:142 | the reversal has the same length, and its element `i` is element `|s|-1-i` of the input |
| Diaries.ReversedSnoc | index.js:142 | a card inserted `afterbegin` for the newest record comes first in the newest-first order |
| Diaries.FirstIndex | index.js:95 | `querySelector` finds the first card whose `data-key` is `k`; no earlier card has that key; the index equals the length when no card has it |
| Diaries.RemoveFirst | index.js:101-103 | when no card has key `k`, the cards are unchanged; otherwise exactly one card (the first keyed `k`) is gone and all others remain |
| Diaries.RemoveFirstDistinct | index.js:95-102 | among cards with distinct keys, removing the first card keyed `k` removes every card keyed `k` and keeps the rest in order |
| Diaries.Without | index.js:99-102 | a card is in the result exactly when it is in the input and its key is not `k` |
| Diaries.WithoutReversed | index.js:99-102 | removing a key commutes with reversing the order |
| Diaries.DropKey | index.js:99 | after `store.delete(k)`, a record is kept exactly when it was stored and its key is not `k` |
| Diaries.DropKeyAscending | index.js:97-99 | deleting a record keeps the remaining keys in ascending order |
| Diaries.AscendingSnoc | index.js:68-74 | a record whose key is above every stored key keeps the store in ascending key order when appended |
| Diaries.CardFor | index.js:110-140 | the card `displayDiary` builds: the record's key as `data-key`, its slides, its text passed through `sanitize` as written (`Sanitize.Sanitize`), and its time (its properties are stated by `Diaries.CardShowsDiary`) |
| Diaries.CardShowsDiary | index.js:110-132 | a card's text is the diary's text with each character replaced by its entry in `Sanitize.Escape`, so no `<`, `>`, `'` or `"` appears in it; its carousel has one slide per photo, exactly one of them active when there are photos |
| Diaries.CardsOfDropKey | index.js:99-102 | the cards of the records left after deleting key `k` are the former cards minus those keyed `k` |
| Diaries.CardsDescending | index.js:30-37 | the cards of records stored in ascending key order, newest first, have distinct keys in strictly descending order |
| Diaries.Store.constructor | index.js:20-23 | a new object store is empty and its key generator starts at 1 |
| Diaries.Store.Add | index.js:68-75 | for a record without a key, on commit, the record is appended under the next generated key, that key is returned, and the generator advances by one; on abort nothing changes and no key is returned; keys stay ascending and below the generator |
| Diaries.Store.Delete | index.js:97-99 | on commit, the record keyed `k` (if any) is gone; on abort nothing changes; the key generator never goes back |
| Diaries.Container.constructor | index.js:3 | the `#diaries` element starts without cards; its starting contents come from the HTML page, not the script, and `Diaries.Initialize` states its result for any starting contents |
| Diaries.Container.Display | index.js:110-142 | the card of the diary is inserted before every existing card |
| Diaries.Container.RemoveCard | index.js:95-103 | the first card whose `data-key` is `k` is removed; when there is none, the container is unchanged |
| Diaries.Initialize | index.js:25-39 | walking the cursor in ascending key order and displaying each record leaves the cards of all records, newest first, in front of whatever the page held; on an empty page this establishes `Mirrors` |
| Diaries.AddDiary | index.js:55-88 | on commit, the record built from the photos, the text and the clock is stored under the old generator value, which no stored record had, its card is put first and the generator advances by one; on abort neither store, generator nor page changes; the alert is raised exactly when the abort is for lack of quota; `Mirrors` is preserved |
| Diaries.DeleteDiary | index.js:94-104 | on commit, the record keyed `k` is deleted and the first card keyed `k` is removed; on abort nothing changes; the key generator is unchanged either way; `Mirrors` is preserved, and after a commit on a mirrored page no card keyed `k` remains |

## Left out

- Opening the database, the version number and the `upgradeneeded`/`success` events are left out. `Store.constructor` stands for the store that `upgradeneeded` creates. Calling `addDiary` or `deleteDiary` before the database is open (the global is still `null`) is not modelled.
- Event scheduling is left out. The read-write transaction of `addDiary` or `deleteDiary` is one atomic step whose outcome (`complete`, or `abort` with a reason) is a parameter, and in `addDiary` the `success` of the add request comes before `complete`. In `deleteDiary` the model looks the card up when the transaction completes, not at the call. With distinct keys and no interleaving, both find the same card.
- `Date.now()` becomes the `now` parameter of `AddDiary`. The `toLocaleString` formatting of the time on the card is not modelled; the card keeps the raw number.
- Photos are their file names. Object URLs, `createObjectURL`/`revokeObjectURL` and the image content are not modelled.
- `FormData` parsing, `preventDefault` and `form.reset()` are not modelled. The text and the photos are parameters. Under HTML form submission, a file input with nothing selected contributes one empty file named `""`, so the form never yields an empty photo list: a diary saved without photos has one active slide with an empty `alt`. The zero-slide case of `Carousel.ExactlyOneActive` holds for the parameter but is not reachable from the form.
- The card's HTML markup is not modelled: the wrapper elements, the carousel id, the previous/next buttons, the delete button and its `onclick`. A card keeps its key, its slides, its text and its time.
- The text of the alert is not modelled. The alert is the boolean result of `AddDiary`.
- `parseInt(primaryKey)` is not modelled: keys are integers throughout, and the card's `data-key` string is taken to parse back to the same key.
- The photo name is inserted into the `alt` attribute without escaping. The model keeps the name as it is and does not model attribute quoting.
- Diaries.Initialize: the read-only cursor walk is assumed to run to the last record; a failed cursor request or an aborted transaction, which would leave only the records visited so far on the page, is not modelled.
- Diaries.Store.Add: keys are unbounded integers. IndexedDB's key generator stops past 2^53, after which `add` fails with a `ConstraintError` and the transaction aborts; the model's `Add` always succeeds when the outcome is `complete`.
- Diaries.Container.RemoveCard: when no card has key `k`, `querySelector` returns `null` and `column.remove()` throws a `TypeError` in the `complete` handler; the model leaves the container unchanged and does not model the exception.
- Sanitize.Unescape: decodes only the five named character references the escaping produces; numeric references and other named entities are not modelled.

## Findings

| source | as written | input that shows it | evidently intended | confidence | as-written member | corrected member |
|---|---|---|---|---|---|---|
| index.js:148 | `>` is replaced by `$gt;`, which is not a character reference | the text `>` is shown as `$gt;` | `>` replaced by `&gt;` | not executed | Sanitize.SanitizeDoesNotRoundTrip | Sanitize.UnescapeSanitizeIntended |
| index.js:147-149 | the `&` pass runs after the `<` pass and rewrites the `&` of `&lt;` | the text `<` becomes `&amp;lt;` and is shown as `&lt;` | `&` replaced first, so every character is escaped once | not executed | Sanitize.SanitizeDoesNotRoundTrip | Sanitize.UnescapeSanitizeIntended |

The card text in `Diaries.CardFor` is built with the escaping as written,
`Sanitize.Sanitize`, which `Sanitize.SanitizeIsEscapeEach` and
`Sanitize.SanitizeChar` characterise in full. The corrected escaping
`Sanitize.SanitizeIntended` is kept beside it only to state the intended
property, that decoding gives back the typed text.
