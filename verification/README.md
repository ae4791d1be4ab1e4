# getSelector — a Dafny model

`Drupal.utilities.getSelector(element, ignoreId, ignoreClasses)` comes from the
Visitor Actions UI module. It builds a CSS selector that picks out one DOM
element. Starting at the element, each step does four things:

1. It temporarily **masks** an id equal to `ignoreId`. It also masks the class
   name that the `ignoreClasses` filter hits (`removeIgnoreAttributes`).
2. It builds one **fragment** from what is left:
   - `#id`, or
   - `.a.b` from the classes, or
   - a positional chain `tag:first-child + tag + tag` over the preceding
     non-text siblings (`nthChild`).
3. It **restores** the masked attributes (`restoreIgnoredAttributes`).
4. It either stops, when an id survived masking, or puts the parent's selector
   and ` > ` in front of the fragment.

The model has five modules:

- `Strings` gives the JavaScript string operations that the code relies on:
  - `join`;
  - `split` on one character;
  - ASCII `toLowerCase`;
  - the `/\.$/` replacement;
  - jQuery's word splitting of a class string.
- `Filters` models, on plain values, the id test, the class regular
  expression, jQuery's `removeClass`/`addClass`, and what masking and
  restoring do to an id and a class list.
- `Dom` has the `Node` class. Its structure is fixed (`nodeName`, node kind,
  `parentNode`), and its `nodeName` fits its kind (`#text` exactly for a
  text node, and so on). Its `id` and class list are mutable, and so are its
  `childNodes`.
- `Selectors` has the source's functions as methods over `Node`:
  - `NthChild`, with a loop;
  - `RemoveIgnoreAttributes` and `RestoreIgnoredAttributes`, which update the
    element in place;
  - `GetSelector`, recursive up the tree.

  Each method is proved against a specification function (`NthChildOf`,
  `MaskedId`/`MaskedClasses`, `Selector`). The properties of those functions
  are lemmas.
- `Fixture` replays the "selector basics" QUnit case on a page built to match
  its expected outputs.

The code departs from its own documentation in three places. The model
follows the code:

- **`-processed` classes are kept.** The documentation says `*-processed`
  classes are ignored automatically. But line 123 parses as
  `(' ' + autoIgnoreMatches) instanceof Array ? … : ''`, which always adds `''`.
  So `-processed` classes are kept, shown and restored like any other class.
- **At most one class is removed.** The documentation speaks of a match for
  each class name, but the class expression has no `g` flag. So each element
  loses at most one class name: the leftmost hit.
- **The class filter is a substring search, not an exact match.** The
  documentation calls a class string "a string for exact match", but the
  alternation built on lines 103-109 has no anchors and line 118 searches it
  anywhere in `className`. A token can hit inside a longer class name and use
  up the one match. With the filter `a b` on the classes `xb a`, the hit is
  the `b` of `xb`: nothing is hidden, not even the class `a` that the filter
  names exactly, and restoring adds a class `b` that was never there
  (`Filters.SubstringHitMissesExactClass`). A filter token that matches only
  part of a class name likewise restores a class that was never there
  (`Filters.PartialMatchAddsClass`).

Two more quirks of the code do not contradict the documentation. The model
follows the code here too:

- **Case-sensitive id filter.** The flags argument on line 98 is the hoisted
  loop variable `i`, which is still undefined at that point. So the id test is
  an exact, case-sensitive match, as documented. A case-insensitive `'i'` flag
  was probably intended.
- **An ignored id does not end the walk.** `hasId` is computed after masking
  (line 152), so the walk goes on to the parent. The QUnit case on
  tests.js line 15 expects exactly that.

Restoring appends the removed class at the end of the list. As a result:

- The class order can change.
- With a filter of more than one token, a second mask after a restore can
  hit a different class.

The model proves each of these effects as a lemma. The last one reaches the
selector itself: two `getSelector` calls in a row on the same element with
the same arguments need not return the same string. On `div#page > p.a.b`
with the class filter `a b`, the first call returns `#page > .b` and leaves
the classes as `b a`, and the second call returns `#page > .a`
(`Fixture.TwoClassFilterTwice`). With no class filter or a filter of one
token, the second call returns the same selector as the first
(`Selectors.SelectorTwice`).

## Model

| member | source | states |
|---|---|---|
| Filters.NotEmpty | modules/visitor_actions_ui/js/visitor_actions_ui.selector.js:31-33 | true exactly when the value is present and has at least one character |
| Filters.IdMaskRoundTrip | modules/visitor_actions_ui/js/visitor_actions_ui.selector.js:97-115 | masking changes the id exactly when the filter is non-empty and equal to it (case-sensitive, anchored); restoring the remembered id gives back the original id |
| Filters.AlternationRoundTrip | modules/visitor_actions_ui/js/visitor_actions_ui.selector.js:100-109 | the source `(t1)\|(t2)\|…` built from the split filter has exactly the filter's tokens as its alternatives, in order, when no token contains `\|` |
| Filters.FirstAlternative | modules/visitor_actions_ui/js/visitor_actions_ui.selector.js:118 | at one position, the result is the first alternative (in order) that occurs there; None only when none occurs |
| Filters.LeftmostFrom | modules/visitor_actions_ui/js/visitor_actions_ui.selector.js:117-118 | a non-global match finds the leftmost position where any alternative occurs, with the first alternative that occurs there; None only when no alternative occurs anywhere (an empty alternative occurs everywhere) |
| Filters.MatchTextWords | modules/visitor_actions_ui/js/visitor_actions_ui.selector.js:118-122 | the words of `tempClasses` (match array joined with spaces, `undefined` groups as "") are the matched class name alone, or none when nothing non-empty matched |
| Filters.MaskRemovesOneName | modules/visitor_actions_ui/js/visitor_actions_ui.selector.js:117-124 | masking leaves the classes unchanged, or removes every copy of the single hit name and keeps the rest in order |
| Filters.MaskedClassMembers | modules/visitor_actions_ui/js/visitor_actions_ui.selector.js:120-124 | a class is hidden by masking if and only if it is the name the filter hit; `-processed` classes are not hidden otherwise |
| Filters.RestoreAppendsRemoved | modules/visitor_actions_ui/js/visitor_actions_ui.selector.js:144 | after masking and restoring, the other classes keep their order and the hit name comes last, once |
| Filters.RestoreKeepsClassSet | modules/visitor_actions_ui/js/visitor_actions_ui.selector.js:144 | the set of classes survives masking and restoring if and only if nothing was hit or the hit text was a whole class |
| Filters.NoClassFilterKeepsClasses | modules/visitor_actions_ui/js/visitor_actions_ui.selector.js:120-124 | with no class filter, masking and restoring leave the class list as it was, `-processed` classes included |
| Filters.SingleTokenMaskStable | modules/visitor_actions_ui/js/visitor_actions_ui.selector.js:100-124 | with no class filter or a one-token filter, masking again after a restore hides the same classes as the first mask |
| Filters.MaskKeepsTokens | modules/visitor_actions_ui/js/visitor_actions_ui.selector.js:117-124 | masking and restoring a list of class tokens (non-empty, no spaces) gives a list of class tokens: the hit name is a whole word of the filter |
| Filters.TwoTokenFilterNotStable | modules/visitor_actions_ui/js/visitor_actions_ui.selector.js:100-124 | filter `a b` on classes `a b`: the first mask leaves `b`, restoring gives `b a`, and masking again leaves `a` |
| Filters.SubstringHitMissesExactClass | modules/visitor_actions_ui/js/visitor_actions_ui.selector.js:100-144 | filter `a b` on classes `xb a` hits the `b` inside `xb`, so nothing is hidden, `a` included, and restoring adds a class `b` |
| Filters.PartialMatchAddsClass | modules/visitor_actions_ui/js/visitor_actions_ui.selector.js:118-144 | filter `my` on class `myclass` hides nothing but restoring adds a class `my` |
| Strings.Split | modules/visitor_actions_ui/js/visitor_actions_ui.selector.js:101 | `split` returns at least one piece and no piece contains the separator |
| Strings.SplitJoin | modules/visitor_actions_ui/js/visitor_actions_ui.selector.js:163 | splitting a class name string on spaces gives back the classes, when none is empty or holds a space |
| Strings.JoinSplit | modules/visitor_actions_ui/js/visitor_actions_ui.selector.js:163 | joining the pieces of a split with the separator gives the string back |
| Selectors.Collect | modules/visitor_actions_ui/js/visitor_actions_ui.selector.js:52-63 | the names are found if and only if the target is among the children and is not named `#text`; no collected name is `#text` and the last one is the target's lower-cased name |
| Selectors.CollectIsPrefixNames | modules/visitor_actions_ui/js/visitor_actions_ui.selector.js:52-63 | the collected names are the lower-cased non-text names of the children up to the target's first position |
| Selectors.NthChild | modules/visitor_actions_ui/js/visitor_actions_ui.selector.js:44-67 | the loop returns the positional chain of the collected names, or the lower-cased name when there is no parent or the target is not found, or "" for the document, body or head |
| Selectors.NthChildShape | modules/visitor_actions_ui/js/visitor_actions_ui.selector.js:45-66 | "" for the document, body and head; for any other element the fragment ends with its own lower-cased name, and is just that name when there is no parent or it is not among the parent's children |
| Selectors.ChainEndsWithLast | modules/visitor_actions_ui/js/visitor_actions_ui.selector.js:59-62 | marking the first name `:first-child` never changes the last name, which ends the joined chain |
| Selectors.BuildAlternation | modules/visitor_actions_ui/js/visitor_actions_ui.selector.js:101-108 | the loop builds `(t1)\|(t2)\|…`, the grouped tokens joined with `\|` |
| Selectors.RemoveIgnoreAttributes | modules/visitor_actions_ui/js/visitor_actions_ui.selector.js:85-126 | returns the removed id and `tempClasses`; the element's id becomes the masked id and its classes the masked classes |
| Selectors.RestoreIgnoredAttributes | modules/visitor_actions_ui/js/visitor_actions_ui.selector.js:140-146 | writes a non-empty removed id back and appends each absent word of the removed classes |
| Selectors.MaskedFragment | modules/visitor_actions_ui/js/visitor_actions_ui.selector.js:148-169 | the fragment is built from the masked state; whether an id survived is reported; afterwards the id is back and the classes are the restored ones |
| Selectors.GetSelector | modules/visitor_actions_ui/js/visitor_actions_ui.selector.js:148-175 | returns the selector of the tree as it was on entry; every visited element ends with its id back and its classes restored; nothing else is written |
| Selectors.RestoredWalk | modules/visitor_actions_ui/js/visitor_actions_ui.selector.js:140-146 | once the visited elements have their ids back, the walk visits the same elements and still ends |
| Selectors.RestoredSelector | modules/visitor_actions_ui/js/visitor_actions_ui.selector.js:140-175 | with no class filter or a one-token filter, the tree as `getSelector` leaves it gives the same selector as the tree it started from |
| Selectors.SelectorTwice | modules/visitor_actions_ui/js/visitor_actions_ui.selector.js:148-175 | two calls in a row: the first returns the selector of the tree on entry, and the second returns the same string when the class filter has at most one token |
| Selectors.SelectorJoinsFragments | modules/visitor_actions_ui/js/visitor_actions_ui.selector.js:170-175 | the selector is the visited elements' fragments, outermost first, joined with ` > ` |
| Selectors.KeptIdIsWholeSelector | modules/visitor_actions_ui/js/visitor_actions_ui.selector.js:159-171 | an element other than the document element whose id survives masking has the selector `#id` and the walk visits no ancestor |
| Selectors.IgnoredIdWalksOn | modules/visitor_actions_ui/js/visitor_actions_ui.selector.js:152-173 | an element whose id is ignored gets the parent's selector, ` > ` and its class or positional fragment, and the walk goes on to the parent |
| Selectors.ClassFragment | modules/visitor_actions_ui/js/visitor_actions_ui.selector.js:162-163 | with no id and remaining classes (non-empty, no spaces), the fragment is `.` and the classes joined with `.`, one trailing dot dropped |
| Selectors.NoClassFilterShowsEveryClass | modules/visitor_actions_ui/js/visitor_actions_ui.selector.js:120-163 | with no class filter and no surviving id, every class, `-processed` ones included, appears in the fragment |
| Fixture.ById | modules/visitor_actions_ui/qunit/tests.js:7-9 | `#page` gives `#page` and the page is unchanged |
| Fixture.ByClass | modules/visitor_actions_ui/qunit/tests.js:10-12 | `.myclass` gives `#page > .ignoreme.myclass` and the page is unchanged |
| Fixture.IgnoringId | modules/visitor_actions_ui/qunit/tests.js:13-17 | `#ignoremyid` with that id ignored gives `#page > p:first-child + p + p`, and the id is back afterwards |
| Fixture.IgnoringClass | modules/visitor_actions_ui/qunit/tests.js:18-22 | `.ignoreme` with `ignoremyid` and `ignoreme` ignored gives `#page > .myclass`, and the class is back afterwards (now last) |
| Fixture.SelectorBasics | modules/visitor_actions_ui/qunit/tests.js:5-22 | the six assertions of the QUnit case hold in order on one page |
| Fixture.TwoClassSelector | modules/visitor_actions_ui/js/visitor_actions_ui.selector.js:117-175 | on `div#page > p`, the filter `a b` gives `#page > .b` for classes `a b` and `#page > .a` for classes `b a` |
| Fixture.TwoClassFilterTwice | modules/visitor_actions_ui/js/visitor_actions_ui.selector.js:148-175 | two calls with the filter `a b` on `div#page > p.a.b` return `#page > .b` and then `#page > .a` |
| Fixture.IgnoredIdSelector | modules/visitor_actions_ui/qunit/tests.js:15 | the selector function gives `#page > p:first-child + p + p` for the third paragraph with its id ignored |
| Fixture.IgnoredClassSelector | modules/visitor_actions_ui/qunit/tests.js:20 | the selector function gives `#page > .myclass` and restoring leaves `myclass ignoreme` |

## Left out

- Regular expressions: caller-supplied `RegExp` objects, their flags and `lastIndex` are not modelled. Filters are literal strings ("" meaning no filter). Metacharacters in a filter string are read as literal characters, so only filters without metacharacters are modelled faithfully.
- The compile step `new RegExp(source)` (line 109) is modelled by keeping the split tokens. `Filters.AlternationRoundTrip` shows that the built source has exactly those tokens as its alternatives.
- The `-processed` expression on line 93 and its match on line 120 are not modelled, because their result is never used (line 123).
- Whitespace: only the space character separates class names. Tabs and newlines in a class attribute are not modelled.
- Class lists are meant to be lists of class tokens (`Filters.ClassTokens`: non-empty, no spaces), which is what jQuery's `removeClass` leaves for a class attribute without repeated spaces: it trims the result (and, from jQuery 3.0, also collapses inner runs of spaces). The functions also accept lists with empty entries, and there they keep an empty entry that jQuery's trimming would drop: `MaskedClasses(["a", "", "b"], "a")` is `["", "b"]` and gives the fragment `..b` where the code gives `.b`. `Filters.MaskKeepsTokens` shows that masking and restoring never create such an entry.
- `removeClass` is modelled as in jQuery 1.8 and later, where every copy of a removed class goes. Earlier versions (1.7 and before) remove one copy per listed word. `tempClasses` lists the hit name twice, once for the whole match and once for its group, so there two copies go and only a class listed three or more times would still show.
- `toLowerCase` is modelled on ASCII letters only. Unicode case mapping is not modelled.
- SVG `className` objects are not modelled. Neither are `nodeType` values other than element, text, comment and document.
- Selectors.GetSelector: requires that the walk starts at an element and ends before it reaches the document. Otherwise line 118 (with a class filter) or line 120 calls `match` on the undefined `className` of the document, a text node or a comment node, and throws. When it throws, nothing is left masked: such a node masks no id (`notEmpty(undefined)` is false on line 112), and every element visited before it was restored on line 169, before the recursive call on line 173 (id back, classes reordered by `addClass`). This partial run and the host exception are not modelled.
- A `null` element passed to `getSelector` is not modelled: the source throws on it. `nthChild`'s own `null` case is modelled (`Selectors.NthChild` takes `Node?`).
- `ownerDocument` is taken to be the one document the tree hangs from. Elements moved between documents are not modelled.
- The fixture HTML of the QUnit case is not in the repository. `Fixture.BuildPage` builds the smallest page that fits its expected outputs.
- `modules/visitor_actions_ui/js/visitor_actions_ui.dialog.js` is not part of this model. It holds Backbone views, Ajax command patches, timers and pixel positioning.
