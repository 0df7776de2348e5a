# Interview-prep browser: a Dafny model of its page logic

The page loads a list of question/answer records and shows them master-detail:
a sidebar grouped into four chapters by inclusive id ranges, and a detail pane
for the selected question. On narrow viewports only one of the two panels is
visible, and a back button returns from the detail to the list. This project
models the pure logic inside that page script and proves its properties:

- `escape.dfy` (`HtmlEscape`): the HTML escaper applied to code samples. It
  replaces `& < > " '` by `&amp; &lt; &gt; &quot; &#039;` and copies everything
  else. Proved: the output holds no raw `< > " '`, and decoding it gives the
  input back. Escaping distributes over concatenation. It changes a text exactly
  when the text has a special character, so it is idempotent exactly on such
  plain texts.
- `decimal.dfy` (`Decimal`): `String(id)`, `padStart(2, '0')` and the
  `parseInt` that reads a button's `data-id` back. Proved: `parseInt(String(n))
  === n`, and the padded label reads back as the id. The label has at least two
  characters and starts with `0` exactly for ids 0 to 9.
- `records.dfy` (`Records`): the record type and `find` by id.
- `chapters.dfy` (`Chapters`): the fixed chapter table, the per-chapter filter
  that builds the sidebar, and the `find` + `indexOf` chapter lookup behind the
  breadcrumb. Proved: a record is listed under a chapter exactly when the
  chapter's range holds its id, and each chapter keeps dataset order. A record
  is listed once per chapter containing its id. The fixed table splits 1..101
  into disjoint, contiguous ranges.
- `view.dfy` (`View`): the view state and its transitions: the
  `selectQuestion` highlight, panel toggling and detail rendering; the back
  button; the start-up auto-selection; a click on a sidebar button. Proved:
  selection is idempotent. Every button is active exactly when its id is the
  selected one. An unknown id leaves the detail pane unchanged. The mobile
  panel toggling holds. One invariant holds from start-up through every click
  and back action: the active id belongs to a loaded record, and the detail
  pane shows a record exactly when one is active, and then that record. With
  unique ids, exactly one button is highlighted when the active id lies in
  1..101, and none when it lies outside every chapter.
- `wrappers.dfy` (`Wrappers`): the `Option` type standing for `undefined`/`NaN`.

The viewport width is a parameter (`IsMobile(width)` is `width < 768`). The
panels are reduced to the presence of the `hidden` class on each of them. The
rendered detail is a `Detail` value, not markup.

## Model

| member | source | states |
|---|---|---|
| HtmlEscape.Entity | js/script.js:168-174 | each of the five special characters maps to an entity that starts with `&` and ends with `;` and holds no raw markup; any other character maps to itself |
| HtmlEscape.Escape | js/script.js:167-176 | the escaped text is never shorter than the input |
| HtmlEscape.EscapeMarkupFree | js/script.js:167-176 | the escaped text holds no raw `<`, `>`, `"` or `'` |
| HtmlEscape.EscapeHtml | js/script.js:175 | the left-to-right replacement scan produces exactly the character-by-character escaping, and its output decodes back to the input |
| HtmlEscape.UnescapeEscape | js/script.js:167-176 | escaping loses no information: decoding the five entities in the escaped text gives the original text |
| HtmlEscape.EscapeInjective | js/script.js:175 | two different texts never escape to the same output |
| HtmlEscape.EscapeAppend | js/script.js:175 | escaping a concatenation is the concatenation of the escaped parts, so every character is replaced independently and in order |
| HtmlEscape.EscapeUnchangedIff | js/script.js:175 | a text comes out unchanged exactly when it contains none of the five characters; otherwise it comes out strictly longer |
| HtmlEscape.SpecialLeavesAmpersand | js/script.js:169-175 | a text with any special character escapes to a text containing `&` |
| HtmlEscape.EscapeTwiceIff | js/script.js:169-175 | escaping twice equals escaping once exactly for texts with no special character |
| HtmlEscape.AmpersandTwice | js/script.js:169 | `&` escapes to `&amp;` and then to `&amp;amp;` |
| HtmlEscape.TagExample | js/script.js:169-175 | a tag with a plain name followed by `&"'`, such as `<script>&"'`, escapes to `&lt;`, the unchanged name, `&gt;&amp;&quot;&#039;` |
| HtmlEscape.QuotesExample | js/script.js:169-173 | `&"'` escapes to `&amp;&quot;&#039;` |
| Decimal.NatToString | js/script.js:71 | decimal digits of a natural number, with a leading `0` only for zero and a single digit only below ten |
| Decimal.IntToString | js/script.js:68 | for a safe integer `n`, `String(n)` starts with `-` exactly for negative `n`, is otherwise all digits, and has no leading zero except for 0 itself |
| Decimal.ParseInt | js/script.js:94 | `parseInt` yields a number exactly for an optional minus sign followed by digits |
| Decimal.PadStart | js/script.js:71 | `padStart` yields the longer of the width and the input's length, keeps the input as a suffix and fills only with the pad character |
| Decimal.IdLabel | js/script.js:146 | the id label is `String(id)` with one `0` put in front exactly for ids 0 to 9, so it has at least two characters |
| Decimal.ParseNatToString | js/script.js:94 | reading back the written digits gives the number |
| Decimal.IntToStringRoundTrip | js/script.js:68-95 | `parseInt(String(n)) === n` for every safe integer id, so a button's `data-id` compares equal to its record's id |
| Decimal.IdLabelRoundTrip | js/script.js:146 | the zero-padded label still reads as the id |
| Decimal.IntToStringInjective | js/script.js:68 | distinct ids get distinct `data-id` strings |
| Records.Find | js/script.js:114-115 | `find` returns nothing exactly when no loaded record has the id, and otherwise returns the earliest loaded record with that id |
| Records.FindFirst | js/script.js:114 | `find` returns the earliest record with the id |
| Records.UniqueOcc | js/script.js:114 | with unique ids, an id present in the data occurs exactly once |
| Chapters.Bucket | js/script.js:63 | a record is in a chapter's list exactly when it is loaded and its id lies in the inclusive range |
| Chapters.BucketAppend | js/script.js:63 | the filter keeps dataset order: filtering a concatenation concatenates the filtered parts |
| Chapters.BucketOcc | js/script.js:63 | a chapter lists every record of an id inside its range and none of an id outside it |
| Chapters.Sidebar | js/script.js:52-63 | one group per chapter numbered from 1 in table order; a record is under a group exactly when that chapter's range holds its id, and each group lists the chapter's `filter` of the data, keeping data order and repeats |
| Chapters.Hits | js/script.js:63 | the number of chapters holding an id is zero exactly when no range holds it |
| Chapters.SidebarOcc | js/script.js:52-78 | each chapter filters independently: a record appears once per chapter holding its id, and not at all when none does |
| Chapters.SidebarEntriesLoaded | js/script.js:63-76 | every sidebar entry is a loaded record whose id some chapter holds |
| Chapters.FirstContaining | js/script.js:140 | the position of the first chapter holding the id, or -1 exactly when none does |
| Chapters.FindChapter | js/script.js:140 | `chapters.find` yields a chapter of the table holding the id, or nothing exactly when none does |
| Chapters.IndexOf | js/script.js:144 | `indexOf` yields the first position holding the value, or -1 exactly for `undefined` or an absent value |
| Chapters.IndexOfFind | js/script.js:140-144 | `indexOf(find(...))` is the first containing chapter's position, and -1 when there is none |
| Chapters.ChapterNumber | js/script.js:144 | the breadcrumb number is 0 exactly when no chapter holds the id; otherwise that chapter holds the id and no earlier one does |
| Chapters.TableHits | js/script.js:15-20 | under the fixed table each id in 1..101 lies in exactly one chapter and every other id in none |
| Chapters.TableChapterNumber | js/script.js:15-20 | the breadcrumb number is 1 for 1..26, 2 for 27..51, 3 for 52..76, 4 for 77..101 and 0 otherwise |
| Chapters.TableBoundaries | js/script.js:16-17 | 26 lies only in the first chapter and 27 only in the second |
| Chapters.TableListsOnce | js/script.js:52-77 | with unique ids, a loaded record with an id in 1..101 is listed exactly once in the sidebar; other ids are not listed |
| View.CodeBlock | js/script.js:125-137 | a code block exists exactly for a present, non-empty code string; it is the escaped code, holds no raw markup and decodes back to the code |
| View.RenderDetail | js/script.js:140-159 | the breadcrumb number is one more than the position of the first chapter holding the selected id (0 when none does); the label is the padded id and reads back as it; the code is the record's code block; title, subtitle, answer and footer are inserted unescaped |
| View.ButtonsFor | js/script.js:65-76 | one unhighlighted button per listed record, in order, whose `data-id` reads back as the id its handler selects |
| View.SidebarButtons | js/script.js:49-79 | the rendered sidebar holds one unhighlighted button per record listed under the chapters, in listing order, each wired to its record's id |
| View.Highlight | js/script.js:93-111 | the highlight pass changes only highlight flags; a button is active exactly when its id is the selected id |
| View.Select | js/script.js:81-115 | after selection the active id is the given id and only its buttons are highlighted; narrow viewports hide the sidebar and show the main container, wide ones leave both alone; an unknown id leaves the detail pane as it was; a known id shows that record |
| View.Back | js/script.js:43-46 | the back action shows the sidebar and hides the main container and changes nothing else |
| View.Click | js/script.js:75 | a click selects the id captured by the button's handler and highlights that button |
| View.Startup | js/script.js:29-35 | after loading, the sidebar buttons are rendered; with data and a wide viewport the first record is selected and shown; otherwise nothing is selected or shown and the panels are as in the initial markup |
| View.SidebarTargetsLoaded | js/script.js:68-75 | every sidebar button selects the id of a loaded record |
| View.StartupConsistent | js/script.js:29-35 | the start-up state satisfies the view invariant |
| View.SelectConsistent | js/script.js:81-115 | selecting the id of a loaded record preserves the view invariant |
| View.ClickConsistent | js/script.js:75 | a click preserves the view invariant |
| View.BackConsistent | js/script.js:43-46 | the back action preserves the view invariant |
| View.SelectIdempotent | js/script.js:81-115 | selecting the same id twice gives the same state as selecting it once |
| View.MobileSelectThenBack | js/script.js:85-90 | on a narrow viewport selection shows the detail panel, and back returns to the list keeping the selection and the detail |
| View.ExactlyOneActive | js/script.js:93-111 | with unique ids, every consistent state highlights exactly one button when the selected id lies in 1..101, none when the selected record lies outside every chapter, and none before a selection |
| View.RenderExample | js/script.js:140-159 | record 5 with a non-empty code string that needs no escaping (such as `int x=1;`) renders under chapter 1 with label `05`, its code unchanged and no footer |
| View.SelectExample | js/script.js:114-159 | in a two-record dataset of ids 1 and 5, selecting id 5 shows the detail of the record with id 5 |

## Left out

- Loading the data (`fetch`, the status check, JSON parsing) and the error message that replaces the content on failure. This is network I/O. `Startup` starts from the loaded list.
- Exceptions from malformed records (for example a non-string `code`, whose `replace` throws). At start-up the `try` around `renderSidebar` and the first `selectQuestion` catches them (js/script.js:22-39). A click calls `selectQuestion` outside any `try` (js/script.js:75), so such a throw would leave `activeId`, the highlight and the panels updated and the detail pane stale. Records are typed here, so no record throws.
- DOM lookups, CSS class strings, `scrollIntoView`, resetting `scrollTop`, and the fade-in reflow. These are presentation side effects. Panels are reduced to `hidden` flags, and highlighting to a boolean per button.
- The HTML template text of the sidebar headers and the detail pane. The detail is the `Detail` value, and `RenderDetail` records which fields are escaped.
- `hljs.highlightElement`. It is an opaque external library call.
- `window.innerWidth`. It is an environment query, so the width is a parameter.
- Decimal.ParseInt: accepts only an optional minus sign followed by digits. It leaves out `parseInt`'s leading whitespace, `+` sign and trailing garbage, because every `data-id` is written by `String(id)`.
- Records.Record: ids are integers of magnitude at most 2^53 - 1 (`SafeInteger`). A fractional id such as 5.5 would be listed with the label `5.5` but never highlighted, because `parseInt` reads its `data-id` as 5. Larger ids are not exact JavaScript numbers, and from 10^21 `String` writes them in exponent form (`1e+21`, which `parseInt` reads as 1). Missing fields, which JavaScript renders as `undefined`, are not modelled either.
- Decimal.IntToString: stated only for ids within ±(2^53 - 1), the `SafeInteger` range, because `String` is exact digits only there.
- Decimal.IntToStringRoundTrip: stated only for ids within ±(2^53 - 1), the `SafeInteger` range, because `String` is exact digits only there.
- Decimal.IdLabelRoundTrip: stated only for ids within ±(2^53 - 1), the `SafeInteger` range, because `String` is exact digits only there.
- View.ButtonsFor: stated only for ids within ±(2^53 - 1), the `SafeInteger` range, because `String` is exact digits only there.
- HtmlEscape.Unescape is not part of the page. It is the decoding partner used to state that escaping loses nothing.
- The back handler is registered only when the back button exists. `Back` models the handler itself.
- `selectQuestion` sets `activeId` even for an id with no record (js/script.js:82, 114-115), so `Consistent` is stated only for states reached by `Startup`, `Click` and `Back`. Chapter ranges are not checked to be disjoint. Overlapping or missing ranges list a record zero or several times (`SidebarOcc`).
