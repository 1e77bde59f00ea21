# Portfolio page logic, modelled in Dafny

`app.js` drives three pages of a static portfolio site. Four pieces of it are logic rather than DOM work, and this project models and proves them:

- **The to-do store** (`initTodo`). The page keeps a newest-first array of task records. Its event handlers add a task at the front, delete by id, edit a task's text inline (a blank edit reverts), toggle completion, clear the completed tasks, and clear everything after a confirmation. Rendering filters the list by category and by a case-insensitive tag. The category dropdown lists the distinct non-empty categories.
- **The product filter** (`applyFilters` in `initProducts`). It keeps the products whose lowercased title or category contains the trimmed, lowercased query, whose category is the selected one (or `all`), and whose price lies in an inclusive range. It then optionally sorts by price ascending, price descending or rating descending.
- **Contact-form validation**. The name must be at least 2 characters after trimming. The email must match `^[^\s@]+@[^\s@]+\.[^\s@]+$`. The message must be at least 10 characters after trimming.
- **The string helpers** these rely on: `trim`, `toLowerCase`, `includes`, `split(',')` for tags, and `escapeHtml`.

Modules:

- `Collections` (`collections.dfy`) holds the array built-ins: `filter`, `find`, and `Array.from(new Set(...))`.
- `Text` (`text.dfy`) holds the string built-ins and `escapeHtml`.
- `Contact` (`contact.dfy`) holds the form validation.
- `Todo` (`todo.dfy`) holds the task record, the pure view functions, and the `TodoStore` class. The class has a `todos: seq<Task>` field and one method per handler.
- `Products` (`products.dfy`) holds the product filter and an in-place insertion sort on an array.

Modelling choices:

- Whitespace is the set ECMAScript's `trim` and `\s` use (`Text.IsSpace`).
- Lowercasing maps only the ASCII letters.
- Prices are integer cents and ratings are integer tenths.
- A missing upper price bound stands for `Infinity`.
- Task ids and timestamps are parameters. The answer to the confirmation prompt is a `bool` parameter.
- The code is followed where a plain-words reading of the page differs from it:
  - Deleting removes every task with the id, not only the first one.
  - The product category comparison ignores case.
  - On the sample catalogue, the query `shoe` with the range 20.00–100.00 does not list "Running Shoes", because it is priced 120.00 (`Products.SampleShoeQuery`).

## Model

| member | source | states |
|---|---|---|
| Collections.Filter | app.js:158 | `filter` keeps exactly the elements that satisfy the predicate, in their original order (a subsequence), and never grows the list |
| Collections.FilterCount | app.js:195 | `filter` keeps every occurrence of a satisfying element and drops every occurrence of the others |
| Collections.FindFirst | app.js:208 | `find` picks the first element that satisfies the predicate, or none exactly when no element does |
| Collections.Distinct | app.js:251 | `Array.from(new Set(s))` has no duplicates and holds exactly the elements of `s` |
| Collections.DistinctFirstOccurrenceOrder | app.js:251 | the distinct elements come in the order of their first occurrence in `s` |
| Text.TrimStart | app.js:134 | leading whitespace is removed: the result is a suffix, all of the cut prefix is whitespace, and the result does not start with whitespace |
| Text.TrimEnd | app.js:134 | trailing whitespace is removed: the result is a prefix, all of the cut suffix is whitespace, and the result does not end with whitespace |
| Text.TrimIsSlice | app.js:134 | `trim` returns a slice of the input with whitespace only outside it and no whitespace at its ends |
| Text.TrimBlank | app.js:135 | a string trims to empty exactly when every character is whitespace, which is when the add handler returns early |
| Text.TrimTrimmed | app.js:137 | trimming a string with non-whitespace ends returns it unchanged, so `trim` is idempotent |
| Text.ToLowerIdempotent | app.js:216 | lowercasing leaves no upper-case letter and lowercasing twice equals lowercasing once |
| Text.ToLowerTrimCommute | app.js:323 | lowercase-then-trim (product query) equals trim-then-lowercase (tag filter) |
| Text.Includes | app.js:330 | `includes` holds exactly when the query occurs at some position of the string |
| Text.IncludesEmpty | app.js:330 | the empty query is contained in every string, so an empty search matches everything |
| Text.Split | app.js:137 | `split(',')` gives at least one piece, no piece holds a comma, and joining the pieces with commas gives the input back |
| Text.SplitJoin | app.js:137 | splitting comma-joined, comma-free pieces returns exactly those pieces |
| Text.TrimAll | app.js:137 | `.map(s => s.trim())` trims each piece in place, keeping the number and order of pieces |
| Text.ParseTags | app.js:137 | every parsed tag is non-empty, comma-free and has no surrounding whitespace |
| Text.ParseTagsJoin | app.js:137 | a list of well-formed tags written comma-separated parses back to the same list, in order |
| Text.ParseTagsBlank | app.js:137 | an empty or blank tag field gives no tags |
| Text.ReplaceAll | app.js:263 | a global replace maps the empty string to itself, a single `c` to the replacement and any other single character to itself, and with `ReplaceAllAppend` that fixes it for every string. It removes `c` when the replacement lacks it and introduces no character absent from input and replacement |
| Text.ReplaceAllAppend | app.js:263 | replacing in a concatenation is replacing in each part and concatenating |
| Text.EscapeHtml | app.js:263 | the escaped text contains no `<` and no `>` |
| Text.EscapeHtmlRoundTripWithoutAmpersand | app.js:263 | for text without `&`, the browser reads the escaped text back as the original |
| Text.EscapeHtmlAmpersandClash | app.js:263 | `<` and `&lt;` escape to the same markup, which displays as `<` |
| Text.EscapeHtmlFull | app.js:263 | escaping `&` first also leaves no `<` and no `>` |
| Text.EscapeHtmlFullRoundTrip | app.js:263 | with `&` escaped first, every text is read back exactly as written |
| Contact.MessageInjective | app.js:27-29 | the three failure texts differ, so the status line tells the failures apart |
| Contact.IsEmailAddress | app.js:28 | the direct check accepts exactly the strings the email regular expression matches |
| Contact.EmailCheckCorrect | app.js:28 | a string has no whitespace, one `@` with text before it, and a `.` with text on both sides after it, exactly when the regular expression matches it |
| Contact.ValidateContact | app.js:26-31 | each error is reported exactly when its rule fails, in the order name, email, message, and there are no errors exactly when all three rules hold |
| Todo.CategoryOrDefault | app.js:136 | a new task's category is the trimmed input when that is non-empty and `General` when it is blank. It is never empty or padded |
| Todo.FindIndex | app.js:208 | the position found holds the first task with the id; there is none exactly when no task has the id |
| Todo.UpdateFirst | app.js:207-211 | only the first task with the id is changed (by the field update), and the length and all other tasks stay the same |
| Todo.UpdateFirstAt | app.js:180-182 | updating the first match equals overwriting the position `find` returns; an unknown id changes nothing |
| Todo.ToggleTwice | app.js:207-211 | toggling the same id twice restores the list |
| Todo.RetextIdempotent | app.js:180-182 | repeating an edit with the same text changes nothing more |
| Todo.UpdateFirstKeepsUniqueIds | app.js:207-211 | toggling or editing keeps task ids unique |
| Todo.PrependKeepsUniqueIds | app.js:138-146 | adding a task with a new id keeps task ids unique |
| Todo.FilterKeepsUniqueIds | app.js:158 | delete and clear-completed keep task ids unique |
| Todo.WithoutId | app.js:158 | delete keeps, in order, exactly the tasks whose id differs |
| Todo.WithoutIdCount | app.js:158 | delete keeps each task with another id as often as it occurred, and none with the id |
| Todo.Incomplete | app.js:195 | clear-completed keeps, in order, exactly the tasks that are not completed |
| Todo.IncompleteCount | app.js:195 | clear-completed keeps each open task as often as it occurred, and no completed task |
| Todo.VisibleTasks | app.js:215-221 | the rendered tasks are a subsequence of the list. Each matches the category unless the filter is empty or `all`, and has a tag equal to the trimmed, lowercased filter when that is non-blank. Every task meeting both conditions is shown |
| Todo.VisibleTasksCount | app.js:215-221 | each task that passes both filters is listed exactly as often as it occurs in the list, and no other task is listed |
| Todo.VisibleUnfiltered | app.js:215-221 | with category `all` (or empty) and a blank tag filter, the whole list is shown |
| Todo.CategoryOptions | app.js:251 | the options are the non-empty categories of the tasks, each exactly once |
| Todo.CategoryOptionsOrder | app.js:251 | the options come in the order in which their categories first occur in the list |
| Todo.TodoStore.constructor | app.js:262 | the store starts with the stored list, or with the empty list when storage is missing or unreadable |
| Todo.TodoStore.Add | app.js:132-148 | a blank text leaves the list unchanged. Otherwise the new open task goes at the front, with the trimmed text, the defaulted category and the parsed tags, followed by the old list |
| Todo.TodoStore.Delete | app.js:158 | the list becomes the tasks whose id differs, in order; unique ids stay unique |
| Todo.TodoStore.Edit | app.js:168-185 | a blank edit leaves the list unchanged, and the element reverts to the task's text. Otherwise only the first matching task's text becomes the trimmed text, and that task's re-rendered row shows the decoded `escapeHtml` of it. That is the trimmed text itself when it has no `&` |
| Todo.TodoStore.Toggle | app.js:207-211 | only the first task with the id has `completed` flipped; an unknown id leaves the list unchanged |
| Todo.TodoStore.ClearCompleted | app.js:194-197 | the list becomes the tasks that are not completed, in order |
| Todo.TodoStore.ClearAll | app.js:198-202 | when confirmed the list becomes empty, otherwise it is unchanged |
| Products.ParseSortOrder | app.js:336-339 | each of `price-asc`, `price-desc` and `rating-desc`, and only that value, selects its sort; any other value leaves the order alone |
| Products.Query | app.js:323 | the search text lowercased then trimmed equals it trimmed then lowercased, and has no surrounding whitespace or upper-case letters |
| Products.CategoryChoice | app.js:324 | an empty select value means `all`; any other value is lowercased |
| Products.MatchesListed | app.js:328-333 | the filter callback's test holds exactly when the query occurs in the lowercased title or category, the category matches, and the price is in range |
| Products.FilterProducts | app.js:327-334 | every product kept contains the query in its lowercased title or category, has the chosen category unless `all`, and has `min <= price <= max`. Every product meeting these is kept, in catalogue order |
| Products.FilterProductsCount | app.js:327-334 | each product meeting the three conditions is kept exactly as often as the catalogue holds it, and no other product is kept |
| Products.SwapKeepsOrderPerKey | app.js:337-339 | exchanging two neighbours with different keys keeps the relative order of every group of equal keys |
| Products.SortInPlace | app.js:337-339 | the array is sorted by the comparator's key, is a permutation of what it held, and keeps products of equal key in their original order (a stable sort, as ECMAScript 2019 requires) |
| Products.SortResult | app.js:327-339 | the list is copied to an array and sorted there by the chosen key; the result is a permutation of the list, keeps equal keys in list order, and is unchanged when no sort is chosen |
| Products.ApplyFilters | app.js:322-340 | the result holds each product meeting the three conditions as often as the catalogue does and nothing else, so its length is the result count shown. With no sort value it is the filtered list in catalogue order. `price-asc` makes prices ascend, `price-desc` makes them descend, and `rating-desc` makes ratings descend; products of equal key stay in catalogue order |
| Products.SampleProducts | app.js:370-379 | the fallback catalogue has six products with distinct ids, positive prices and ratings between 0 and 5 stars |
| Products.SampleShoeQuery | app.js:370-379 | on the sample catalogue, `shoe` finds Running Shoes when the range reaches 120.00 but not when it stops at 100.00 |
| Products.MinBound | app.js:325 | a typed minimum, 0 included, is the lower bound; an unparsable or empty field gives 0 |
| Products.MaxBoundAsWritten | app.js:326 | as written, there is no upper bound exactly when the field is unparsable or is 0; any other typed maximum is kept |
| Products.MaxZeroIsIgnored | app.js:326 | as written, a maximum price of 0 gives no upper bound, so a product priced 5.00 is still listed |
| Products.MaxBound | app.js:326 | the corrected reading agrees with the page on every field except 0, which it keeps as a bound where the page drops it |
| Products.EmptyFiltersListAll | app.js:322-334 | with every field empty, the whole catalogue is listed in order, provided no price is negative |
| Products.TypedMaxIsRespected | app.js:326 | with a typed maximum, every listed product costs at most that maximum |

## Left out

- DOM construction and event wiring are not modelled. This covers `render`'s markup, the project cards and modal of `initPortfolio`, `placeCaretAtEnd`, `renderProducts`, the edit button and Enter key handlers (they only start and end inline editing), and the three later page-load blocks at app.js:383-552.
- `save()` and the local-storage writes are foreign I/O and are not modelled. `load()` is the `TodoStore` constructor, which takes the stored list or `None` for a missing or unparsable entry.
- Both `fetch` calls (product JSON, contact POST) and their response handling are network I/O. The fallback catalogue itself is `Products.SampleProducts`.
- `Date.now()` ids, `toISOString` timestamps and `confirm()` become parameters.
- `parseFloat`, `Number`, `Infinity` and `toFixed` are floating-point parsing and formatting. Prices and ratings are integers, and a price that is not a number (NaN) is not modelled.
- Contact.ValidateContact: the two length rules count Unicode code points (Dafny's `char`), while `.length` counts UTF-16 code units. So a character outside the Basic Multilingual Plane counts once here but twice on the page. For example, a name of one emoji is too short here and accepted on the page. Text made only of BMP characters is counted the same way by both.
- `toLowerCase` is modelled for ASCII letters only; Unicode case mapping is out of scope.
- `Text.HtmlDecode` stands for the browser's reading of `innerHTML` and knows only the three entities that escaping produces.
- Joining the error messages into one status line (app.js:31-34) is display only. The model returns the list of failures.
- Task records are modelled as values in a sequence, not as shared objects. The page reaches a record only through the array, so updating the array element has the same effect as writing a field through `find`'s reference.
- Todo.TodoStore.Edit: `shown` is the re-rendered row of the first task with the id, which is the row the page updates. When two tasks share an id and the user edits a later one's row, that row is rebuilt with its old text; the model does not say which row the user edited.

## Findings

| source | as written | input that shows it | evidently intended | confidence | as-written member | corrected member |
|---|---|---|---|---|---|---|
| app.js:263 | `escapeHtml` replaces `<` and `>` but leaves `&` alone, so two different texts give the same markup | a task whose text is `&lt;` is displayed as `<` | escape `&` to `&amp;` first, so every text displays as typed | not executed; high | Text.EscapeHtmlAmpersandClash | Text.EscapeHtmlFullRoundTrip |
| app.js:326 | `parseFloat(max) \|\| Infinity` treats a typed maximum of 0 like an empty field | maximum price `0`: a product priced 5.00 is still listed | only an empty or unparsable field means "no upper bound" | not executed; medium | Products.MaxZeroIsIgnored | Products.TypedMaxIsRespected |
