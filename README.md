# Shoutout kiosk feed — a Dafny model

A model of the client-side core of the Shoutout kiosk: a feed of short
messages ("shoutouts") that lives in the browser's local storage and expires
after one hour. The model covers:

- the feed store (`useShoutouts`). It loads and filters on start-up, purges
  expired entries, adds new entries and reloads after a storage change. It is
  a class over a storage class.
- the form's rules. This means the validation schema, the default values, the
  upload and scan gates, the cleaning of scanned text and how that text is
  appended to the message, the stylize guard, and what a valid submission
  forwards. The form's state setters are a class.
- the card's relative age (`timeAgo`), its style class and its image rule.
- the two list views. The live feed sorts newest first and has a slide
  counter. The vault page has a Latest/Oldest order.
- the static frame registry and the lookup of a frame by id.

Modules follow the program's files: `Types` (src/lib/types.ts), `Frames`
(src/lib/frames.ts), `Expiry` and `Storage` and `FeedStore`
(src/hooks/use-shoutouts.ts), `OcrText`, `OcrWords` and `ShoutoutForm`
(src/components/shoutout-form.tsx; `OcrWords` is a reference for the
cleaning of scanned text: a text's words joined by single spaces), `Card` (src/components/shoutout-card.tsx),
`Sorting` (the comparators shared by both list views), `Display`
(src/components/shoutout-display.tsx) and `Vault`
(src/app/vault-access/page.tsx).

The clock (`Date.now`, `new Date().getTime()`) is a `now` parameter.
`crypto.randomUUID()` is an `id` parameter. JSON text is abstract: a stored
value is either the serialization of a list or text that does not parse. A
write that local storage refuses (full quota, disabled storage) is the
`writable` flag of `Storage.LocalStorage`. The scanner, the stylize service
and `FileReader` are outside the model, and their results arrive as
parameters.

## Model

| member | source | states |
|---|---|---|
| Types.Stamp | src/hooks/use-shoutouts.ts:76-80 | The new entry carries the submitted fields unchanged, the fresh id and `createdAt = now`. |
| Frames.Find | src/components/shoutout-display.tsx:70 | Lookup by id gives nothing exactly when no frame has the id; otherwise it gives the first frame with that id. |
| Frames.FindUnique | src/lib/frames.ts:3-19 | When ids are distinct, looking up a frame's id gives back that frame exactly when the frame is in the list. |
| Frames.RegistryShape | src/lib/frames.ts:3-19 | The registry has three frames (heart, code, circuit, in that order) with pairwise distinct ids. |
| Frames.RegistryResolvesToItself | src/lib/frames.ts:4-8 | Every registry frame, including the default "heart", resolves to itself. |
| Frames.RegistrySharesClassName | src/lib/frames.ts:3-19 | All three frames have the class `circuit-heart-frame`. |
| Frames.FrameForKnownIds | src/lib/frames.ts:3-19 | An id resolves exactly when it is heart, code or circuit. The frame found has that id. Any other id resolves to nothing. |
| Expiry.FilterLive | src/hooks/use-shoutouts.ts:37 | The filter keeps exactly the input's live entries and is never longer than the input. |
| Expiry.FilterLiveCounts | src/hooks/use-shoutouts.ts:37 | Each live entry occurs in the result exactly as often as in the input, and an expired one not at all. |
| Expiry.FilterLiveAppend | src/hooks/use-shoutouts.ts:37 | Filtering a concatenation is the concatenation of the filtered parts: each entry is judged on its own. |
| Expiry.LiveBoundary | src/hooks/use-shoutouts.ts:7 | An entry is live exactly when its age is below 3,600,000 ms. An entry exactly one hour old is dropped. |
| Expiry.FilterLiveIsSubsequence | src/hooks/use-shoutouts.ts:52 | The filter keeps its input's order: the result is a subsequence of the input. |
| Expiry.FilterLiveIdempotent | src/hooks/use-shoutouts.ts:37 | Filtering twice at the same instant gives the same result as filtering once. |
| Expiry.FilterLiveKeepsAll | src/hooks/use-shoutouts.ts:55 | Nothing is dropped exactly when every entry is live, and then the list is returned unchanged. |
| Expiry.FilterLiveLater | src/hooks/use-shoutouts.ts:34-47 | A later purge of an earlier result gives the same as a later purge of the original list. |
| Expiry.FilterLiveKeepsDistinctIds | src/hooks/use-shoutouts.ts:52 | Filtering never makes two entries share an id. |
| Storage.ParseStringify | src/hooks/use-shoutouts.ts:17 | Parsing a serialized list gives that list back. |
| Storage.Parse | src/hooks/use-shoutouts.ts:17 | Parsing fails exactly on text that is not a serialized list. Text that parses is the serialization of the list it gives. |
| Storage.LocalStorage.constructor | src/hooks/use-shoutouts.ts:14-32 | The storage starts with the given contents and write acceptance, and no change event has been dispatched yet. |
| Storage.LocalStorage.Load | src/hooks/use-shoutouts.ts:14-22 | Loading gives the stored list. It gives the empty list when the key is absent or its text does not parse, and it never fails. |
| Storage.LocalStorage.Save | src/hooks/use-shoutouts.ts:24-32 | An accepted write stores the list under the key and leaves every other key alone. It also signals one change, and a load afterwards gives the saved list. A refused write changes nothing. |
| Storage.LocalStorage.SetItem | src/hooks/use-shoutouts.ts:63-67 | Another tab writes text under one key. Nothing else changes. |
| FeedStore.ShoutoutStore.constructor | src/hooks/use-shoutouts.ts:10-11 | The store starts with an empty list and is not initialized. |
| FeedStore.ShoutoutStore.Initialize | src/hooks/use-shoutouts.ts:49-58 | The list becomes the live part of what was loaded. Storage is rewritten only if something was dropped. The store is always initialized afterwards. |
| FeedStore.ShoutoutStore.Purge | src/hooks/use-shoutouts.ts:34-47 | The live set is recomputed from storage, not from memory. If something expired, the shorter list is saved and adopted and one notice is shown. Otherwise nothing changes. |
| FeedStore.ShoutoutStore.Add | src/hooks/use-shoutouts.ts:75-87 | The new entry goes first and the old list follows it unchanged. The whole list is saved. |
| FeedStore.ShoutoutStore.HandleStorageChange | src/hooks/use-shoutouts.ts:64-66 | The list is replaced by exactly what is stored, with no filtering and no merge. |
| FeedStore.AddKeepsIdsDistinct | src/hooks/use-shoutouts.ts:78 | With a fresh id, adding keeps the ids pairwise distinct. |
| FeedStore.InitializeDropsStale | src/hooks/use-shoutouts.ts:49-58 | Start-up with one entry older than an hour and one a minute old keeps only the younger one, in memory and in storage. |
| FeedStore.InitializeOnCorruptText | src/hooks/use-shoutouts.ts:14-22 | Start-up on unparsable storage ends initialized with an empty list, without writing. |
| FeedStore.AddToEmpty | src/hooks/use-shoutouts.ts:75-87 | Adding to an empty feed gives one entry with the submitted fields. Storage holds that entry too. |
| FeedStore.PurgeTwice | src/hooks/use-shoutouts.ts:34-61 | After the feed has mounted, on storage that accepts writes, a second purge at the same instant writes nothing, and at most one notice is shown in total. |
| FeedStore.PurgeOnRefusingStorage | src/hooks/use-shoutouts.ts:26-61 | After the feed has mounted on storage that refuses writes and holds an expired entry, two purges write nothing, both adopt the live entries, and the "Feed Cleaned" notice is shown twice. |
| FeedStore.LastWriteWins | src/hooks/use-shoutouts.ts:82-86 | Two tabs share one storage and both add. The second save overwrites the first tab's entry, and after its reload the first tab holds only the second entry. |
| OcrText.CollapseWhitespace | src/components/shoutout-form.tsx:293 | The result is collapsed: its only whitespace is single spaces. It is empty exactly when the input is, and starts with a space exactly when the input starts with whitespace. |
| OcrText.CollapseWhitespaceLast | src/components/shoutout-form.tsx:293 | The result ends with a space exactly when the input ends with whitespace. With the leading case and `OcrWords.CollapseWhitespaceWords` (same words), each whitespace run, at either end or inside, becomes exactly one space. |
| OcrText.CollapseWhitespaceVisible | src/components/shoutout-form.tsx:293 | Collapsing keeps every non-whitespace character, in order. |
| OcrText.CollapseBlanksOfCollapsed | src/components/shoutout-form.tsx:294 | The second replacement changes nothing once whitespace has been collapsed. |
| OcrText.CollapseBlanks | src/components/shoutout-form.tsx:294 | Replacing each run of blanks never lengthens the text, and gives the empty text exactly for the empty text. |
| OcrText.CollapseBlanksRunEnds | src/components/shoutout-form.tsx:294 | The run-by-run replacement equals a character-by-character reading: a blank that ends its run becomes one space, a blank followed by another is dropped, and every other character, line breaks included, is kept in place. |
| OcrText.CollapseBlanksBetween | src/components/shoutout-form.tsx:294 | Between two characters that are not blanks, a blank becomes one space and a line break stays: neither is deleted. |
| OcrText.CollapseBlanksVisible | src/components/shoutout-form.tsx:294 | The second replacement keeps every non-whitespace character, in order. |
| OcrText.Trim | src/components/shoutout-form.tsx:295 | The result has no whitespace at either end and has the same visible characters as the input. |
| OcrText.TrimOnlyEnds | src/components/shoutout-form.tsx:295 | The trimmed text is one contiguous piece of the input, and everything cut from either end is whitespace. |
| OcrText.CleanScannedText | src/components/shoutout-form.tsx:292-295 | Cleaned text has the scan's visible characters in order, single spaces only, nothing at either end, and no line break. |
| OcrText.CleanBlankScan | src/components/shoutout-form.tsx:292-295 | A scan with no visible character cleans to the empty string. |
| OcrWords.CollapseWhitespaceWords | src/components/shoutout-form.tsx:293 | Collapsing whitespace keeps the words of the text: the same words, in the same order, none split or merged. |
| OcrWords.TrimWords | src/components/shoutout-form.tsx:295 | Trimming keeps the words of the text. |
| OcrWords.JoinWords | src/components/shoutout-form.tsx:292-295 | A collapsed text with nothing at either end is exactly its words joined by single spaces. |
| OcrWords.WordsAreVisibleRuns | src/components/shoutout-form.tsx:292-295 | Every word is non-empty and holds no whitespace. |
| OcrWords.CleanScannedTextWords | src/components/shoutout-form.tsx:292-295 | The cleaned scan is exactly the scan's words joined by single spaces. |
| OcrWords.CleanKeepsSeparator | src/components/shoutout-form.tsx:292-295 | Two visible characters with one whitespace character between them clean to those characters with one space between them: a separator is never lost. |
| ShoutoutForm.Validate | src/components/shoutout-form.tsx:21-26 | A form is valid exactly when sender, recipient and frame are non-empty and the message has 1 to 500 characters. Each issue is reported exactly when its rule fails. |
| ShoutoutForm.DefaultsRejected | src/components/shoutout-form.tsx:127-132 | The defaults (Anonymous, empty recipient, empty message, heart) fail on the recipient and the message. |
| ShoutoutForm.OcrGate | src/components/shoutout-form.tsx:207-234 | A scan file passes only with one of the six types and a size of at most 5 MiB. The type is checked first. |
| ShoutoutForm.AppendScanned | src/components/shoutout-form.tsx:306-309 | With an empty message, the result is the scan alone. Otherwise the message is a prefix and the scan a suffix. One line break separates them unless the message already ends with one. |
| ShoutoutForm.AppendScannedVisible | src/components/shoutout-form.tsx:303-311 | Appending adds exactly the scan's visible characters after the message's. |
| ShoutoutForm.ScannedMessage | src/components/shoutout-form.tsx:303-311 | The message changes exactly when the cleaned scan has at least three characters. |
| ShoutoutForm.ScannedMessageSpec | src/components/shoutout-form.tsx:292-311 | A scan that changes the message adds exactly the scan's visible characters after the message's. |
| ShoutoutForm.Form.constructor | src/components/shoutout-form.tsx:125-133 | The form starts with the defaults and no attachment. |
| ShoutoutForm.Form.EnterValues | src/components/shoutout-form.tsx:438-621 | Typing into the inputs and picking a frame sets the four values and leaves the attachment alone. |
| ShoutoutForm.Form.HandleImageChange | src/components/shoutout-form.tsx:135-154 | An image over 1 MiB is refused and the previous attachment stays. An image of exactly 1 MiB or less becomes the preview and the payload. |
| ShoutoutForm.Form.ClearImage | src/components/shoutout-form.tsx:156-161 | The preview and the payload are cleared. The fields are untouched. |
| ShoutoutForm.Form.HandleStylize | src/components/shoutout-form.tsx:163-196 | An empty message is refused before the service is asked. A failed or empty reply leaves the form as it was. A non-empty reply replaces only the message. |
| ShoutoutForm.Form.HandleOcrImageChange | src/components/shoutout-form.tsx:202-351 | A missing file, a file that fails the gate and a failed scan each leave the form as it was. Otherwise the cleaned scan goes through `ApplyScan`. |
| ShoutoutForm.Form.ApplyScan | src/components/shoutout-form.tsx:303-322 | A cleaned scan of three or more characters is appended to the message and its length reported. A shorter one reports "no text found" and leaves the form as it was. |
| ShoutoutForm.Form.Submit | src/components/shoutout-form.tsx:387-415 | An invalid form reports its issues and forwards nothing. A valid one forwards the four fields verbatim with the attachment (or none), then resets. |
| ShoutoutForm.PostFromForm | src/components/shoutout-form.tsx:390-396 | A valid form sent to the store puts a new head on the feed. The head has the typed fields and the attachment, and the old feed follows it. |
| Card.ElapsedSeconds | src/components/shoutout-card.tsx:14 | The age in whole seconds is the elapsed milliseconds divided by 1000, rounded down. |
| Card.FitIndex | src/components/shoutout-card.tsx:15-24 | The units are tried in order. The index found is the first unit the age strictly exceeds, and the age does not exceed any unit before it. |
| Card.FirstFit | src/components/shoutout-card.tsx:15-25 | The unit found wins, with count `floor(seconds / unit)`. If no unit fits, the age is "just now". |
| Card.Bucket | src/components/shoutout-card.tsx:15-25 | An age reported in a unit strictly exceeds that unit, and its count is the age divided by the unit, rounded down. |
| Card.BucketSpec | src/components/shoutout-card.tsx:15-25 | An age of at most 60 s, negative ages included, is "just now". A reported count is at least 1. Each unit covers its exact range, and below years the count stays within the next larger unit. |
| Card.DecimalDenotes | src/components/shoutout-card.tsx:16-24 | The numeral written for a count denotes that count. |
| Card.Decimal | src/components/shoutout-card.tsx:16-24 | The numeral written for a count has only digits, no leading zero for a positive count, and one digit exactly for counts below 10. With `Card.DecimalDenotes` this is the count's unique decimal numeral, as `String(n)` writes it. |
| Card.AgeText | src/components/shoutout-card.tsx:16-25 | The text is "just now" exactly for the just-now age. Every other age reads its count's numeral, a space, the unit's label and " ago". |
| Card.TimeAgo | src/components/shoutout-card.tsx:13-26 | The card reads "just now" exactly when less than 61,000 ms have passed, future timestamps included. Otherwise its text ends in " ago". |
| Card.TimeAgoText | src/components/shoutout-card.tsx:14-24 | When the elapsed whole seconds exceed a unit but not the next larger one (years have none), the card reads the seconds divided by that unit, rounded down, as a numeral, then the unit's label and " ago". |
| Card.BucketBoundaries | src/components/shoutout-card.tsx:21-25 | 60 s is "just now", 61 s is 1 minute, 3600 s is 60 minutes and 3601 s is 1 hour. |
| Card.TimeAgoAfter | src/components/shoutout-card.tsx:14 | The text depends only on the elapsed whole seconds. |
| Card.TimeAgoJustNowBoundary | src/components/shoutout-card.tsx:23-25 | 60,999 ms after posting, the card reads "just now". |
| Card.TimeAgoFirstMinute | src/components/shoutout-card.tsx:23-24 | 61 s after posting, the card reads "1 minutes ago". |
| Card.TimeAgoHourBoundary | src/components/shoutout-card.tsx:21-24 | A full hour reads "60 minutes ago", and one second more reads "1 hours ago". |
| Card.TimeAgoFuture | src/components/shoutout-card.tsx:23-25 | A timestamp in the future reads "just now". |
| Card.RenderCard | src/components/shoutout-card.tsx:28-47 | The classes are the base classes alone unless a frame with a non-empty class is given; then that class follows them after one space. The image block appears exactly for a non-empty image. The card shows the message and its age. |
| Card.PropsFor | src/components/shoutout-display.tsx:70 | A card gets the registry frame whose id equals the shoutout's frame, or no frame when no id matches. |
| Card.CardsFor | src/components/shoutout-display.tsx:69-78 | There is one card per entry, in order, each with the frame its id names. |
| Card.RegisteredFrameClass | src/components/shoutout-card.tsx:29 | A card whose frame id is in the registry has the base classes plus `circuit-heart-frame`. |
| Sorting.Sort | src/components/shoutout-display.tsx:23 | The result is ordered, is a permutation of the input, and keeps equal timestamps in input order (stable). |
| Sorting.SortUnique | src/components/shoutout-display.tsx:23 | Being ordered, of the same length, and keeping every timestamp group determines the sorted result uniquely. |
| Display.LiveFeed | src/components/shoutout-display.tsx:47-97 | Before initialization, only the skeleton shows, whatever the list holds. An empty list shows "No Shoutouts Yet". Otherwise the carousel shows cards newest first, as a stable permutation. Looping and the controls are on exactly when there is more than one card. |
| Display.FirstCardIsNewest | src/components/shoutout-display.tsx:23 | The first card is at least as new as every shoutout of the list. |
| Display.SlideCounter.constructor | src/components/shoutout-display.tsx:25-26 | The counter starts at 0 of 0. |
| Display.SlideCounter.Sync | src/components/shoutout-display.tsx:33-34 | When the carousel is ready, and on every reInit, the count is the number of snaps and current is the selected index plus one. |
| Display.SlideCounter.Select | src/components/shoutout-display.tsx:37 | A selection updates current to the index plus one and leaves the count alone. |
| Display.SlideCounter.Text | src/components/shoutout-display.tsx:88 | "Shoutout i of n" shows exactly when the count is positive. |
| Display.CounterLifecycle | src/components/shoutout-display.tsx:28-45 | A fresh counter shows nothing. A ready carousel with n slides reads 1 of n, and after slide k is selected it reads k+1 of n. |
| Vault.VaultPage.constructor | src/app/vault-access/page.tsx:12 | The page opens sorted by "latest". |
| Vault.VaultPage.PressLatest | src/app/vault-access/page.tsx:35-41 | The Latest button sets the order to latest. |
| Vault.VaultPage.PressOldest | src/app/vault-access/page.tsx:42-48 | The Oldest button sets the order to oldest. |
| Vault.VaultPage.ButtonVariant | src/app/vault-access/page.tsx:35-48 | Exactly the active order's button is filled. |
| Vault.PressTwice | src/app/vault-access/page.tsx:35-48 | Pressing a button twice leaves the same order as pressing it once. |
| Vault.Arrange | src/app/vault-access/page.tsx:14-20 | "latest" orders by non-increasing `createdAt` and "oldest" by non-decreasing `createdAt`. The result is a stable permutation of the list, and the list itself is a value that is not changed. |
| Vault.Page | src/app/vault-access/page.tsx:51-76 | Before initialization the page shows exactly four skeletons. An empty list shows "No shoutouts yet." Otherwise there is one card per entry in the chosen order, and each card carries the registry frame its id names. |
| Vault.OppositeOrders | src/app/vault-access/page.tsx:14-20 | When no two shoutouts share a timestamp, "oldest" is exactly "latest" reversed. |

## Left out

- The scanner: the tesseract worker, canvas preprocessing, the
  floating-point contrast loop and the sample-image fetch. The recognized
  text (or a failure) is a parameter.
- The wording of the scan-error notice (worker-pool and memory messages).
  All scan failures become one `ScanError` notice.
- The stylize service call and its style argument. Its reply (or a failure)
  is a parameter. Only the guard and the unchanged-on-failure rule are
  modelled.
- `FileReader` and base64 encoding. A chosen file carries its data URL.
  Reading is asynchronous in the program but is modelled as immediate.
- Toasts, JSX layout, headers, icons and the other pages (home, create,
  redirect, stream and next cards). They have no logic beyond what is
  modelled, and toasts are modelled only as returned notices.
- The loading flags (`isSubmitting`, `aiLoading`, `ocrLoading`, `ocrStatus`)
  and the debug logging.
- The 60-second `setInterval` and the listener teardown. `Purge` and
  `HandleStorageChange` are operations the environment calls.
- Cross-tab concurrency beyond interleaving whole operations. The feed
  store's handlers are synchronous and run to completion; the form's
  asynchronous handlers are modelled as atomic (next two lines).
- ShoutoutForm.Form.HandleStylize: modelled as one atomic step. The program
  reads the message before awaiting the service
  (src/components/shoutout-form.tsx:164,176) and writes the reply after it
  (src/components/shoutout-form.tsx:178), so anything typed while the
  service works is overwritten. The submit button is not disabled meanwhile
  (src/components/shoutout-form.tsx:626), so a reply can also arrive after a
  submission has reset the form. Neither interleaving is modelled.
- ShoutoutForm.Form.HandleOcrImageChange: modelled as one atomic step. The
  program reads the message only after the scan finishes
  (src/components/shoutout-form.tsx:305) and disables submit while scanning
  (src/components/shoutout-form.tsx:626), but other fields edited during the
  scan are not modelled as interleaved.
- FeedStore.PurgeTwice: stated for storage that accepts writes. When a write
  is refused (src/hooks/use-shoutouts.ts:29-31) the stale entries stay
  stored, so every later purge drops them again, adopts the shorter list and
  shows "Feed Cleaned" again (src/hooks/use-shoutouts.ts:39-45).
  `FeedStore.PurgeOnRefusingStorage` states that case.
- The same-window `dispatchEvent` after a save. It re-reads the list just
  saved, so the in-memory end state is the same. A save records only that
  one change event was dispatched.
- Storage.LocalStorage.Load: JSON text is abstract. Text that parses to
  something other than a list (such as `null`, a number or an object) is not
  modelled. At mount and on a purge the program then fails on `.filter`
  (src/hooks/use-shoutouts.ts:37,52). The storage listener adopts the value
  unfiltered (src/hooks/use-shoutouts.ts:65), so on that path the failure
  comes later: when a list view copies the list
  (src/components/shoutout-display.tsx:23, src/app/vault-access/page.tsx:14)
  or when `addShoutout` spreads it (src/hooks/use-shoutouts.ts:83).
- ShoutoutForm.Validate: lengths count characters. The program's limits
  count UTF-16 code units, which differ for characters outside the Basic
  Multilingual Plane.
- ShoutoutForm.ScannedMessage: the three-character minimum and the reported
  count also count characters, not UTF-16 code units.
- Card.ElapsedSeconds: the arithmetic is exact integer arithmetic. The
  program's floating-point division loses precision only for ages far beyond
  any real timestamp.
- Card.RenderCard: the class merge (`cn`) is modelled as joining with one
  space. Tailwind's conflict resolution does not apply to these classes.
- Deletion: the vault page asks the hook for `deleteShoutout`
  (src/app/vault-access/page.tsx:11) and passes it to the cards, but the hook
  returns only the list, `addShoutout` and `initialized`
  (src/hooks/use-shoutouts.ts:89). The card takes no delete prop, so no
  deletion exists to model.
- The carousel's own behaviour (scrolling, snapping, looping) beyond the
  counter. The snap count and the selected index are parameters.
