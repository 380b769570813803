# Lumina Gallery front-end rules, modelled in Dafny

Lumina Gallery is a static art-gallery website. Its JavaScript attaches
handlers to the page and decides:

- which gallery items a category filter shows;
- what count each filter button carries;
- where keyboard arrows, swipes and the lightbox's previous and next buttons
  move;
- which FAQ answer is open, and how that state travels in the URL fragment;
- whether a contact-form field and the whole form are valid, and with which
  message;
- what a small in-memory cache with expiry returns;
- which navigation link is marked active;
- how the width of the window maps to a device class.

This project lifts those rules out of the DOM and states them over plain data:

- a gallery is a sequence of `data-category` values;
- an FAQ is a sequence of question texts with their open flags;
- a lightbox is its position, its item count, its counter and its buttons;
- a form field is its name, type, tag, `required` flag, value and length
  attributes.

The files follow the program's structure:

| file | module | models |
|---|---|---|
| `wrappers.dfy` | `Wrappers` | `Option`, for attributes that may be `null` |
| `text.dfy` | `Text` | `String.prototype.trim`, `split`/`join` on one character, ASCII case mapping, decimal text |
| `email.dfy` | `Email` | the two e-mail regular expressions, each as a declarative description plus a scanner proved equal to it |
| `validators.dfy` | `Validators` | `validateFieldEnhanced` and the per-type validators of the enhanced contact form |
| `contact_form.dfy` | `ContactForm` | `validateField` and `validateForm` of the basic contact form |
| `gallery_filter.dfy` | `GalleryFilter` | the filter partition, the per-button counts and the filter click |
| `navigation.dfy` | `Navigation` | wrap-around and grid arrow moves, and the swipe decision |
| `lightbox.dfy` | `Lightbox` | the enhanced lightbox (position, counter, buttons) and the basic lightbox |
| `faq.dfy` | `Faq` | the accordion, the question slug, the URL fragment and the FAQ keyboard focus |
| `cache.dfy` | `MemoryCache` | `LuminaCache`, with the current time passed in |
| `site_nav.dfy` | `SiteNav` | the mobile-menu toggle and the active navigation link |
| `viewport.dfy` | `Viewport` | `Device` breakpoints, `isInViewport` and `scrollToElement` |

Code that changes state step by step is modelled imperatively:

- `Cache`, `Accordion`, `EnhancedLightbox`, `SimpleLightbox`, `FilterView`
  and `MobileMenu` are classes whose methods update their fields.
- `PartitionItems`, `ValidateForm` and `Accordion.Toggle` are loops.
- `UpdateFilterCounts` and `HighlightActiveNavItem` update arrays in place.

Where a specification function exists (`Lookup` for the cache, `Verdicts`
for the form, `ShownUpTo`/`HiddenUpTo` for the partition, `WithCount` for
the labels, `Step` and `SwipeTarget` for the enhanced lightbox, `OpenOnly`
and `HashSelects` for the accordion, `CurrentPage` for the navigation
links), the method is proved against it, and the properties of that
function are proved as lemmas. `MobileMenu` and `SimpleLightbox` have no
such function: their methods state the new value of every field, and
`MobileMenu` keeps the menu and its toggle in step.

The file `js/main-backup.js` declares some functions twice.
`validateForm`/`validateField` (2304-2350) and `initializeGalleryFilters`
(1899-1924) are identical to their `js/main.js` counterparts and are
modelled once. The second declaration of `closeLightbox` (1997-2003)
replaces the first; see "## Findings".

## Model

| member | source | states |
|---|---|---|
| Text.TrimPadding | js/main.js:299 | `trim` removes only leading and trailing whitespace: the value is whitespace, then the trimmed text, then whitespace |
| Text.TrimEmptyIff | js/main-backup.js:1431-1448 | the trimmed value is empty exactly when every character of the raw value is whitespace |
| Text.TrimIsInfix | js/main.js:299 | the trimmed value is a contiguous piece of the raw value |
| Text.Capitalise | js/main-backup.js:1812 | `charAt(0).toUpperCase() + slice(1)` keeps the length, upper-cases the first letter and keeps the rest |
| Text.JoinSplit | js/main.js:130 | splitting on `/` loses nothing: joining the parts with `/` gives back the path |
| Text.SplitJoin | js/main.js:130 | splitting parts that contain no separator after joining them gives back the same parts |
| Text.ParseNatToString | js/main-backup.js:366 | the decimal text written for a count reads back as that count |
| Email.LabelAddressAgrees | js/main-backup.js:1515 | the scanner accepts exactly the strings the e-mail expression describes: a local part of allowed characters, `@`, then dot-separated labels of 1 to 63 letters, digits or hyphens that start and end with a letter or digit |
| Email.SingleLabelDomainAccepted | js/main-backup.js:1515 | a domain of one label, with no dot at all, is accepted |
| Email.LabelPiecesScanned | js/main-backup.js:1515 | every well-formed local part joined by `@` to one or more well-formed labels joined by dots is accepted |
| Email.BasicAddressAgrees | js/main.js:315 | the scanner accepts exactly the strings of the form run `@` run `.` run, where each run is non-empty with no whitespace and no `@` |
| Email.BasicPiecesAccepted | js/main.js:315 | any three such runs put together that way are accepted |
| Email.BasicAddressHasOneAt | js/main.js:315 | an accepted address has no whitespace and exactly one `@` |
| Validators.Then | js/main-backup.js:1449-1493 | when a later check fails, its message replaces the earlier one; the combined verdict is valid exactly when both are |
| Validators.ValidateEmail | js/main-backup.js:1514-1525 | valid exactly when the e-mail expression matches; otherwise the fixed e-mail message |
| Validators.ValidatePhone | js/main-backup.js:1527-1539 | a failing phone number carries the "10-15 digits" message |
| Validators.DigitsCount | js/main-backup.js:1529 | the digits kept are as many as the positions in the value that hold a digit |
| Validators.PhoneValidIff | js/main-backup.js:1527-1539 | a phone number is valid exactly when it holds between 10 and 15 decimal digits |
| Validators.PhoneIgnoresSeparators | js/main-backup.js:1529 | inserting or removing any non-digit character never changes the verdict |
| Validators.DigitsOfTrim | js/main-backup.js:1529 | the digits of the trimmed value that the validator receives are the digits of the raw value |
| Validators.ValidateName | js/main-backup.js:1541-1566 | shorter than 2 fails with the "at least 2" message, longer than 50 with the "less than 50" message, otherwise valid exactly when every character is an ASCII letter, whitespace, `-`, `'` or `.` |
| Validators.ValidateTextarea | js/main-backup.js:1568-1587 | valid exactly when the length is within the `minlength`/`maxlength` bounds (10 and 1000 when absent; a NaN bound never fails); too short gives the "at least" message with the lower bound, otherwise too long gives the "less than" message with the upper bound |
| Validators.ValidateSelect | js/main-backup.js:1589-1598 | valid exactly when the value is non-empty; otherwise "Please select an option" |
| Validators.RequiredFieldMessage | js/main-backup.js:1804-1813 | `name`, `email`, `subject` and `message` get their fixed texts; any other field name gets its capitalised name followed by " is required" |
| Validators.ValidateFieldEnhanced | js/main-backup.js:1430-1509 | a required field with a blank trimmed value fails with its required-field message, an optional one is valid; a non-blank one is valid exactly when its type check, its textarea bounds and its select check all pass, and a failure carries the message of one of those checks |
| Validators.BlankFieldVerdict | js/main-backup.js:1443-1446 | a blank required field fails with its required-field message; a blank optional field is valid |
| Validators.NonBlankFieldVerdict | js/main-backup.js:1447-1494 | a non-blank field is valid exactly when its type check and its tag's check pass |
| Validators.PhoneFieldVerdict | js/main-backup.js:1458-1464 | a `tel` input is valid exactly when it is blank and optional, or non-blank with 10 to 15 digits |
| Validators.SelectFailsOnlyWhenRequiredAndBlank | js/main-backup.js:1486-1493 | a select element fails only when it is required and blank, because the select check is reached only for non-empty values |
| ContactForm.ValidateFieldVerdict | js/main.js:298-328 | a field is valid exactly when it is not (required and blank) and a non-blank `email` value has the basic address shape; a blank required field reports "<Name> is required", any other failure the e-mail message |
| ContactForm.BlankOptionalFieldValid | js/main.js:307-320 | a blank field without `required` is valid |
| ContactForm.OtherFieldsFailOnlyWhenBlank | js/main.js:307-320 | a field not named `email` fails exactly when it is required and blank |
| ContactForm.RequiredFieldsMembers | js/main.js:283 | the fields validated are exactly the form's fields that carry `required` |
| ContactForm.VerdictsAt | js/main.js:286-290 | the k-th verdict is the verdict of the k-th field |
| ContactForm.FormValidIff | js/main.js:282-293 | all verdicts of the required fields are valid exactly when every required field validates |
| ContactForm.ValidateForm | js/main.js:282-293 | every required field is validated, with no short cut, and the form is valid exactly when every required field validates |
| GalleryFilter.ShownMembers | js/main-backup.js:398-407 | an item is in the show list exactly when the filter is `all` or equals its category; the list keeps page order |
| GalleryFilter.HiddenMembers | js/main-backup.js:398-407 | an item is in the hide list exactly when it is not shown; the list keeps page order |
| GalleryFilter.PartitionSizes | js/main-backup.js:395-407 | the two lists together are as long as the gallery |
| GalleryFilter.PartitionItems | js/main-backup.js:395-407 | the loop builds exactly the show and hide lists, so each item lands in exactly one of them |
| GalleryFilter.AllShowsEverything | js/main-backup.js:355-356 | the `all` filter shows every item |
| GalleryFilter.MatchingIsShown | js/main-backup.js:357-361 | for any other filter, the number of items with that category is the number shown |
| GalleryFilter.CountAgreesWithShown | js/main-backup.js:350-362 | every button's count equals the number of items its filter shows |
| GalleryFilter.WithCountIdempotent | js/main-backup.js:364-367 | adding the count to a label that already has one changes nothing |
| GalleryFilter.WithCountReadsBack | js/main-backup.js:364-367 | a label without `(` keeps its text and gains " (", the count in decimal and ")" |
| GalleryFilter.UpdateFilterCounts | js/main-backup.js:350-369 | every button label becomes its old text with its filter's count added |
| GalleryFilter.OneHotCount | js/main.js:154-155 | after clearing every button and marking one, exactly one button is active |
| GalleryFilter.AllClearCount | js/main.js:154 | clearing every button leaves none active |
| GalleryFilter.FilterView.constructor | js/main.js:145-147 | the view holds the page's buttons and items as given |
| GalleryFilter.FilterView.Click | js/main.js:149-168 | exactly the clicked button is active, and each item is displayed exactly when the filter is `all` or its category |
| Navigation.WrapNext | js/main-backup.js:520 | `(i + 1) % n` stays in range and wraps from the last item to the first |
| Navigation.WrapPrev | js/main-backup.js:524 | `(i - 1 + n) % n` stays in range and wraps from the first item to the last |
| Navigation.WrapInverse | js/main-backup.js:518-525 | stepping forward then back, or back then forward, returns to the same item |
| Navigation.GridTarget | js/main-backup.js:513-541 | only the four arrow keys move; ArrowRight goes to the wrapped next item, ArrowLeft to the wrapped previous one; down moves by 3 or to the last item, up by 3 or to the first; every move stays in range |
| Navigation.GridRightLeft | js/main-backup.js:518-525 | ArrowLeft undoes ArrowRight |
| Navigation.GridDownUp | js/main-backup.js:526-535 | away from the last row, ArrowDown keeps the column and ArrowUp undoes it |
| Navigation.SwipeDirection | js/main-backup.js:689-700 | no move within 50 pixels either way; a longer swipe right goes back, a longer swipe left goes forward |
| Navigation.SwipeMirror | js/main-backup.js:689-700 | the reverse swipe gives the opposite direction |
| Lightbox.Step | js/main-backup.js:801-807 | `next` moves forward only before the last item, `prev` back only after the first; otherwise no move |
| Lightbox.StepStaysInRange | js/main-backup.js:793-807 | a step never leaves the gallery |
| Lightbox.StepInverse | js/main-backup.js:801-804 | `prev` undoes a `next` that moved, and the other way round |
| Lightbox.NextSaturates | js/main-backup.js:801-807 | k presses of `next` reach min(i + k, n - 1) |
| Lightbox.SwipeTarget | js/main-backup.js:689-700 | a swipe moves exactly as the matching button would |
| Lightbox.EnhancedLightbox.constructor | js/main-backup.js:571-632 | a new overlay is hidden, has no navigation data and shows the counter "1 / 1" |
| Lightbox.EnhancedLightbox.ShowNavigation | js/main-backup.js:772-788 | the counter reads (index + 1, count), the previous button shows exactly when index > 0 and the next button exactly when index < count - 1 |
| Lightbox.EnhancedLightbox.Open | js/main-backup.js:548-566 | opening shows the overlay at the chosen artwork with its counter and buttons |
| Lightbox.EnhancedLightbox.Navigate | js/main-backup.js:793-824 | without navigation data, or where no step is possible, nothing changes; otherwise the position makes one step and the counter and buttons follow |
| Lightbox.EnhancedLightbox.Close | js/main-backup.js:757-767 | closing hides the overlay and drops the navigation data (`hasItems` false stands for `currentIndex` and `galleryItems` both null); the counter and the buttons stay as they were |
| Lightbox.EnhancedLightbox.CloseAsWritten | js/main-backup.js:1997-2003 | the effective `closeLightbox` leaves this overlay as it was |
| Lightbox.EnhancedLightbox.KeyDown | js/main-backup.js:660-674 | the handler with the intended close: keys are ignored while hidden; Escape closes and keeps the index, item count, button and counter state; ArrowLeft and ArrowRight step back and forward, and change nothing without navigation data; any other key changes nothing |
| Lightbox.EnhancedLightbox.Swipe | js/main-backup.js:684-700 | a swipe navigates to the swipe target; visibility, navigation data and item count stay as they were, and without navigation data nothing changes |
| Lightbox.CloseAsWrittenKeepsOverlay | js/main-backup.js:1997-2003 | as written, after opening the second of three artworks and pressing close, the overlay still shows and ArrowRight still moves to the third |
| Lightbox.CloseEndsNavigation | js/main-backup.js:757-767 | as intended, after closing, the overlay is hidden and a swipe no longer moves |
| Lightbox.SimpleLightbox.constructor | js/main.js:177-182 | before the first open there is no lightbox element, so nothing is active |
| Lightbox.SimpleLightbox.Open | js/main.js:175-196 | opening shows the image, title and meta, marks the lightbox active and sets body overflow to `hidden` |
| Lightbox.SimpleLightbox.Close | js/main.js:243-249 | closing clears `active` and body overflow and keeps the image, title and meta; before the element exists it changes nothing |
| Lightbox.SimpleLightbox.KeyDown | js/main.js:231-235 | Escape closes an active lightbox and keeps its image, title and caption; every other key, or a hidden lightbox, changes nothing |
| Faq.SlugShape | js/main-backup.js:1115 | the slug has the question's length; letters and digits are lower-cased and every other character becomes `-` |
| Faq.SlugIdempotent | js/main-backup.js:1138 | the slug of a slug is the same slug |
| Faq.FragmentRoundTrip | js/main-backup.js:1113-1148 | the fragment written for a question selects it again, and selects another question exactly when their slugs agree |
| Faq.HashSelectsAtMostOne | js/main-backup.js:1130-1148 | when the questions have distinct slugs, a fragment selects at most one of them |
| Faq.FocusTarget | js/main-backup.js:931-955 | ArrowDown focuses the wrapped next question, ArrowUp the wrapped previous one, Home the first and End the last; other keys do not move the focus |
| Faq.FocusDownUp | js/main-backup.js:1072-1080 | ArrowUp undoes ArrowDown, wrapping at both ends |
| Faq.Accordion.constructor | js/main-backup.js:898-923 | every item starts closed and the fragment is the page's |
| Faq.Accordion.Toggle | js/main-backup.js:974-995 | opening a closed item closes every other item, so at most one stays open, and writes its fragment; closing an open item touches only that item and clears the fragment |
| Faq.Accordion.OpenFromHash | js/main-backup.js:1130-1148 | every item the fragment selects is opened and no item is closed |
| Faq.ReloadReopens | js/main-backup.js:1113-1148 | after opening an item, reloading the page with the fragment it wrote opens that item again |
| Faq.ReloadAfterCloseOpensNothing | js/main-backup.js:1113-1148 | after closing the open item, reloading opens nothing |
| MemoryCache.Lookup | js/main-backup.js:3868-3878 | `get` returns the value exactly when the key is stored and not expired; an expired key is removed and every other entry is kept |
| MemoryCache.StoredThenRead | js/main-backup.js:3863-3878 | after `set` with a time-to-live, `get` up to the expiry returns the stored value |
| MemoryCache.StoreIsolated | js/main-backup.js:3863-3878 | `set` on one key does not change what `get` returns for another |
| MemoryCache.ExpiryIsFinal | js/main-backup.js:3868-3875 | once `get` misses, later reads miss too |
| MemoryCache.Cache.constructor | js/main-backup.js:3861 | the cache starts empty |
| MemoryCache.Cache.Set | js/main-backup.js:3863-3866 | the entry for the key becomes the value with expiry now + ttl |
| MemoryCache.Cache.Get | js/main-backup.js:3868-3878 | a missing key gives nothing; an expired key gives nothing and is removed; a live key gives its value; other entries never change |
| MemoryCache.Cache.Clear | js/main-backup.js:3880-3882 | the cache becomes empty |
| MemoryCache.DefaultTtlServes | js/main-backup.js:3863 | with the default time-to-live of 300000 ms, a value is served for five minutes after it is stored |
| SiteNav.MobileMenu.constructor | js/main.js:23-24 | the menu and its toggle start inactive, and in step |
| SiteNav.MobileMenu.ClickToggle | js/main.js:27-30 | a toggle click flips both, so they stay in step |
| SiteNav.MobileMenu.ClickLink | js/main.js:36-39 | a link click clears both |
| SiteNav.LastSegmentShape | js/main.js:130 | the last path segment contains no `/`, ends the path, follows its last `/`, and is the whole path when there is no `/` |
| SiteNav.CurrentPage | js/main.js:130 | the current page is never empty and contains no `/` |
| SiteNav.CurrentPageOfPath | js/main.js:130 | a path ending in `/` gives `index.html`; otherwise the page is the end of the path |
| SiteNav.MatchesCurrentPage | js/main.js:135-136 | a link matches exactly when its href equals the current page |
| SiteNav.HighlightActiveNavItem | js/main.js:129-140 | a link becomes active when its href is the current page; no link loses `active` |
| Viewport.Classify | js/utils.js:213-224 | mobile up to 767 pixels, tablet from 768 to 1023, desktop above |
| Viewport.ExactlyOneDeviceClass | js/utils.js:213-224 | every width is in exactly one device class |
| Viewport.BreakpointsMonotone | js/utils.js:214-224 | mobile holds at every narrower width, desktop at every wider one |
| Viewport.Extent | js/utils.js:47-48 | the window's dimension is used unless it is 0, and then the document element's |
| Viewport.InViewportCorners | js/utils.js:42-50 | a rectangle is in the viewport exactly when both its top-left and bottom-right corners are on screen |
| Viewport.InViewportShrinks | js/utils.js:42-50 | a rectangle inside one that is in the viewport is in the viewport too |
| Viewport.InViewportIgnoresClient | js/utils.js:47-48 | when the window's dimensions are non-zero, the document element's do not matter |
| Viewport.ScrollTarget | js/utils.js:55-63 | after scrolling to the target, the element's top sits `offset` pixels below the top of the window |
| Viewport.OffsetDefaultsToZero | js/utils.js:55 | leaving the offset out scrolls as an offset of 0 does |
| Viewport.ScrollTargetStable | js/utils.js:55-63 | the target depends only on the element's place in the document, not on the current scroll position |

## Left out

- Rendering is not modelled. This covers `innerHTML` templates, ripples, notifications, loaders, icons, ARIA attributes other than `aria-expanded`, styles, animations, `document.title` and the body class `lightbox-open`.
- Timers and animation frames are not modelled. The staged fades of `filterGalleryItems` are left out but its partition is kept. The 500 ms delay in `initializeFAQFromURL` is left out: `Faq.Accordion.OpenFromHash` opens the selected items at once. The 100 ms focus delay of `showLightbox`, `debounce` and `throttle` are also left out.
- Browser APIs are not modelled: IntersectionObserver, performance timing, `navigator.share`, clipboard, `Device.hasTouch` and the CSS-variable helpers. `Date.now()`, `window.innerWidth` and the rectangle of an element become parameters.
- URL and history handling is not modelled apart from the FAQ fragment. `updateFilterURL`, `initializeFromURL`, `URLHelpers`, `Storage` and `formatDate` are left out. `history.replaceState` is modelled only as the new value of `location.hash`.
- `simulateFormSubmission` is left out: it is driven by `Math.random` and a timer. `highlightSearchTerms` is left out: it builds a regular expression from user input and rewrites HTML.
- Showing and clearing field errors, `updateFormProgress`, and `showFieldError` with its second declaration are not modelled; only the verdict and its message are.
- `aria-selected` in `updateActiveFilter` is not modelled; only the `active` class is.
- The second click handler that `initializeFAQ` (js/main-backup.js:2457) puts on the FAQ questions is not modelled; `toggleFAQItem` alone is the accordion rule.
- The heights, paddings and scrolling done by `openFAQItem`/`closeFAQItem` are presentation; only their open or closed state is modelled.
- The variant of `highlightActiveNavItem` in js/main-backup.js:1855-1875 is not modelled; the js/main.js one is.
- The mobile-menu link handlers are attached even when the toggle is missing, and a link click would then throw. `SiteNav.MobileMenu` assumes both the menu and the toggle exist.
- Text.Capitalise: upper-casing is ASCII only, whereas `toUpperCase` also maps non-ASCII letters. `Faq.Slug` lower-cases only ASCII letters too, but there this is exact, because every other character has already become `-`.
- Strings are sequences of code points, whereas JavaScript lengths count UTF-16 code units. Names and textarea values with characters outside the Basic Multilingual Plane are therefore measured differently.
- Faq.Slug: the expression `/[^a-zA-Z0-9]/g` has no `u` flag, so the source replaces each UTF-16 code unit; a character outside the Basic Multilingual Plane becomes `--` there but `-` in the model.
- Faq.Accordion: the constructor starts every item closed. `initializeFAQAccordion` does not set `aria-expanded` itself, so this assumes the page markup carries no `aria-expanded="true"`.
- Lightbox.EnhancedLightbox.Close: the source sets `currentIndex` to null; the model records that as `hasItems` false and leaves the old number in `currentIndex`, which no handler reads while `hasItems` is false.
- SiteNav.MobileMenu: the constructor starts the menu and its toggle inactive. `initializeNavigation` sets no class itself, so this assumes the page markup carries no `active` class on either element.
- KeyDown: `Lightbox.EnhancedLightbox.KeyDown` models the Escape branch with the intended `Close`; as the file is written, Escape reaches the later `closeLightbox` (see "## Findings" and `CloseAsWritten`).
- Validators.RequiredFieldMessage: names inherited from `Object.prototype` (such as `constructor`) would look up an inherited property in the source; the model gives them the generic message.
- Validators.ValidateTextarea: a `minlength`/`maxlength` attribute is either absent, a non-negative integer or not a number. Negative or fractional text is not modelled, and the message prints the bound in canonical decimal rather than as the attribute's own text.
- Validators.ValidateName: the "less than 50 characters" message is kept as written, although a name of exactly 50 characters is accepted.
- Viewport: pixel values are integers; fractional rectangles and scroll offsets are not modelled. The same holds for `Navigation.SwipeDirection` and `Lightbox.EnhancedLightbox.Swipe`, whose touch coordinates (`screenX`, a double in current browsers) are integers here.

## Findings

| source | as written | input that shows it | evidently intended | confidence | as-written member | corrected member |
|---|---|---|---|---|---|---|
| js/main-backup.js:643, 647, 665, 757-767, 1997-2003 | `closeLightbox` is declared twice. The later declaration at 1997 takes no argument and acts only on the element with id `lightbox`. So the close button, the overlay click and Escape leave the enhanced lightbox showing, with its navigation data | open the second of three artworks, press close, then ArrowRight: the overlay is still active and shows the third artwork | closing hides the enhanced overlay and clears its navigation data, as the declaration at 757 does | not executed | Lightbox.CloseAsWrittenKeepsOverlay | Lightbox.CloseEndsNavigation |
