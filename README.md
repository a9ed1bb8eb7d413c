# haoxuan2026: a verified model of the greeting site's logic

The site is a New Year greeting written as React components. Most of it is layout and
prose. This project models the parts that make decisions, in Dafny:

- **Bold markup** (`BoldMarkup`, `bold_markup.dfy`). The `parseBold` helper splits a string on
  the regular expression `(\*\*.*?\*\*)` with JavaScript's `split`. A part that starts and
  ends with `**` becomes a bold segment with two characters trimmed from each end. Any other
  part becomes a plain segment.
  - An explicit scanner (`FindClose`, `MatchAt`) stands in for the regular expression.
  - `SplitFrom` follows the split loop of the ECMAScript language specification
    (section 22.2.6.14, `RegExp.prototype[@@split]`).
  - Both are proved equal to a declarative description of a leftmost-shortest split
    (`IsMatch`, `SplitsFrom`). That description has exactly one solution.
  - `JsSlice` follows `String.prototype.slice`, including negative positions and clamping.
- **Timeline** (`Timeline`, `timeline.dfy`): the icon for each medium, the current-year rule,
  the `pdfLink || '#'` fallback and the three authored events. Two excerpts of the authored
  paragraphs go through `parseBold`: a closing fragment of one, and a shortened form of
  another that keeps only its three signposts. The shortened form leaves out the text before
  the first `：`, the prose between the signposts and the paragraph's two later bold runs.
- **Pact** (`Pact`, `pact.dfy`): the Gantt schedule, and the bar offset and width as exact
  reals. A class holds the one-way lock flag.
- **Excavation** (`Excavation`, `excavation.dfy`): the idea-card status rule, its badge, the
  click dispatcher, and the two modal closers.
- **Music player** (`MusicPlayer`, `music_player.dfy`): the play and expand flags, plus a log
  of the commands sent to the audio element.
- **Sisyphus** (`Sisyphus`, `sisyphus.dfy`): the floating-text list (append on click, later
  removal by id), the reveal, transform and modal flags.
- **Quotes** (`Quotes`, `quotes.dfy`): the flip card's state machine.

`Wrappers` (`wrappers.dfy`) holds the `Option` type. It stands for `null` and for optional
fields.

Both `components/SectionMemories.tsx` and `components/SectionTimeline.tsx` define
`parseBold`, with identical code. It is modelled once, as `BoldMarkup.ParseBold`. The
Timeline module uses that same function, so the two copies agree on every input by
construction.

JavaScript strings are sequences of UTF-16 code units. Dafny strings are sequences of
Unicode scalar values. The scanner only tests for `*` and the four line terminators, which
are all single code units. So a character outside the Basic Multilingual Plane (such as the
emoji in the 2024 entry) only changes how a gap is counted, never where the splits fall.

The stateful components the model covers (Pact, Excavation, MusicPlayer, Sisyphus and the
quotes' `FlipCard`) are classes. Each of their React state variables is a field. Each event
handler is a method whose postcondition gives the full new state. Foreign effects are
recorded in fields or passed in as parameters:
- `audio.play()` and `audio.pause()` are appended to a command log;
- `window.open(url)` is appended to a log of opened links;
- `Date.now()`, the click position and `Math.random()` are method parameters.

## Model

| member | source | states |
|---|---|---|
| `BoldMarkup.ParseBold` | components/SectionMemories.tsx:20-31 | No segments (null) exactly for the empty, falsy input; any other input gives a segment list. |
| `BoldMarkup.FindClose` | components/SectionMemories.tsx:23 | The lazy tail `.*?\*\*` tried from i: a close it reports ends within the text, at least two past i, right after a `**`. |
| `BoldMarkup.MatchAt` | components/SectionMemories.tsx:23 | The sticky try of the pattern at q: a match it reports is at least four characters long (`**` and `**`) and ends within the text. |
| `BoldMarkup.MatchAtExact` | components/SectionMemories.tsx:23 | The scanner finds a match from q to e exactly when `s[q..e]` is `**X**`, X has no line terminator, and no `**` starts inside X or straddles its end (lazy `.*?`, `.` excluding line breaks). |
| `BoldMarkup.MatchAtNone` | components/SectionMemories.tsx:23 | The scanner reports no match at q exactly when no declarative match starts there. |
| `BoldMarkup.FindCloseExact` | components/SectionMemories.tsx:23 | The lazy tail stops at the first `**` reached without crossing a line terminator, and only there. |
| `BoldMarkup.IsMatchUnique` | components/SectionMemories.tsx:23 | From a given start there is at most one match: the shortest one. |
| `BoldMarkup.SplitFrom` | components/SectionMemories.tsx:23 | The split loop always returns an odd number of parts: k matches give 2k+1 parts. |
| `BoldMarkup.Split` | components/SectionMemories.tsx:23 | `text.split` with the capturing pattern returns an odd number of parts, gap first and gap last. |
| `BoldMarkup.SplitFromCorrect` | components/SectionMemories.tsx:23 | The split loop started at (p, q), with no match in `[p, q)`, returns a leftmost-shortest split of `s[p..]`. |
| `BoldMarkup.SplitCorrect` | components/SectionMemories.tsx:23 | The parts join back to the input. They alternate gap and match, each odd part is a match on its own, and no match starts inside a gap. |
| `BoldMarkup.SplitConcat` | components/SectionMemories.tsx:23 | Joining the parts reproduces the input exactly, because the capturing group keeps every delimited run. |
| `BoldMarkup.SplitsFromUnique` | components/SectionMemories.tsx:23 | Two leftmost-shortest splits of the same text are equal. |
| `BoldMarkup.SplitIsTheLeftmostShortestSplit` | components/SectionMemories.tsx:23 | A part list is the leftmost-shortest split of the text if and only if `split` returns it. |
| `BoldMarkup.StartsWith` | components/SectionMemories.tsx:25 | `startsWith` holds exactly when the prefix fits and agrees with the string character by character from the front. |
| `BoldMarkup.EndsWith` | components/SectionMemories.tsx:25 | `endsWith` holds exactly when the suffix fits and agrees with the string character by character at the back. |
| `BoldMarkup.LooksBold` | components/SectionMemories.tsx:25 | The bold test holds exactly for parts of length two or more whose first two and last two characters are `*`, so the two delimiters may overlap (`**`, `***`). |
| `BoldMarkup.JsSlice` | components/SectionMemories.tsx:27 | `slice` never lengthens. Positions within range give that substring, an end at or before the start gives the empty string, and a negative end counts back from the end of the string. |
| `BoldMarkup.TrimmedText` | components/SectionMemories.tsx:27 | `slice(2, -2)` is the part without its first two and last two characters, and is empty for a part shorter than four. |
| `BoldMarkup.Classify` | components/SectionMemories.tsx:24-30 | A part becomes bold if and only if it starts and ends with `**`. A plain segment keeps the part verbatim. A bold part of length four or more is `**` + text + `**`, and a shorter one has empty text. |
| `BoldMarkup.ClassifyAll` | components/SectionMemories.tsx:24-30 | `parts.map` gives one segment per part, in order. Each is bold if and only if its part passes the bold test, and a plain one keeps its part verbatim. |
| `BoldMarkup.ParseBoldSegments` | components/SectionMemories.tsx:23-30 | There is one segment per part, odd in number. Every odd segment is bold, its part is `**` + text + `**`, and the text holds no line terminator and no `**`. Every even segment is classified by the starts-with/ends-with test. |
| `BoldMarkup.RenderClassifyAll` | components/SectionMemories.tsx:24-30 | Wrapping bold texts in `**` again never shortens the joined parts. It reproduces them exactly when no part is a bare `**` or `***`, and is strictly longer otherwise. |
| `BoldMarkup.RenderRoundTrip` | components/SectionMemories.tsx:20-31 | Putting `**` back around the bold texts gives the input back if and only if no part is a bare `**` or `***`. |
| `BoldMarkup.UnmatchedGap` | components/SectionMemories.tsx:23 | An unmatched gap of length four or more that starts and ends with `**` has a line terminator between its delimiters. |
| `BoldMarkup.SplitFromGaps` | components/SectionMemories.tsx:23 | In every split the loop produces, an even gap that looks bold and has length four or more contains a line terminator. |
| `BoldMarkup.BoldGapHasLineBreak` | components/SectionMemories.tsx:25-27 | A gap that still passes the bold test is a bare `**` or `***`, or a `**X**` whose X holds a line break. |
| `BoldMarkup.SplitsFromShift` | components/SectionMemories.tsx:23 | A leftmost-shortest split of the text after position n is also one of the whole text from n, because the pattern only looks forward. |
| `BoldMarkup.SplitFromShift` | components/SectionMemories.tsx:23 | What comes before a position does not change how the text after it is split: the loop restarted at n returns exactly `split` of the rest. |
| `BoldMarkup.SplitPlain` | components/SectionMemories.tsx:23 | Text without `*` is a single part. |
| `BoldMarkup.SplitUnpaired` | components/SectionMemories.tsx:23 | A single `**` between two texts that contain no other `*` leaves the whole text as one verbatim part. |
| `BoldMarkup.SplitBoldRun` | components/SectionMemories.tsx:23 | Plain text without `*`, then a run `**x**` whose x holds no `*` and no line break, then anything: the first two parts are the text and the run, and the rest is split by itself. |
| `BoldMarkup.ParseComposed` | components/SectionMemories.tsx:23-30 | A text built from star-free plain pieces and bold runs whose texts hold no `*` and no line break splits into those pieces and runs, left to right, and each run is classified bold. |
| `BoldMarkup.ParseBoldRuns` | components/SectionMemories.tsx:20-31 | A non-empty text built from star-free plain pieces and bold runs whose texts hold no `*` and no line break parses, left to right, into plain, bold, ..., plain. |
| `BoldMarkup.LearningTogetherVector` | components/SectionMemories.tsx:61 | The authored sentence gives plain "嗯，总体上，还是这句", bold "“共同学习，一起进步”", plain "最不错！". |
| `BoldMarkup.InlineVector` | components/SectionMemories.tsx:23-30 | `a **b** c` gives plain "a ", bold "b", plain " c". |
| `BoldMarkup.UnpairedVector` | components/SectionMemories.tsx:29 | `a ** b` gives the single plain segment "a ** b". |
| `BoldMarkup.LeadingRunVector` | components/SectionMemories.tsx:269 | `**a** b`, which opens with a bold run as the text at :269 does, keeps an empty leading plain segment. |
| `BoldMarkup.TripleStarVector` | components/SectionMemories.tsx:25-27 | `***` has no match, yet it is emitted as an empty bold segment. |
| `BoldMarkup.LineBreakVector` | components/SectionMemories.tsx:25-27 | `**` newline `**` has no match, because `.` stops at the line break, yet it is emitted bold with the newline as its text. |
| `Timeline.GetIcon` | components/SectionTimeline.tsx:160-167 | The mapping is total: "ppt" gives Presentation, "code" gives Terminal, and every other value, "text" included, gives FileText (each both ways). |
| `Timeline.CurrentYearIsLast` | components/SectionTimeline.tsx:209 | Of the authored events, exactly the 2026 one is the current year. The three icons are FileText, Presentation and Terminal. |
| `Timeline.IsCurrentYear` | components/SectionTimeline.tsx:209 | The event highlighted as the current year never also draws a PDF button. |
| `Timeline.ShowsPdfButton` | components/SectionTimeline.tsx:263-278 | The 2024 and the 2025 button blocks are mutually exclusive: an event draws a button exactly when one of the two year tests holds, and never both. |
| `Timeline.PdfHref` | components/SectionTimeline.tsx:266 | The href is never empty. It is `pdfLink` when that is present and non-empty, and '#' otherwise. |
| `Timeline.PdfButtonsLinkThePdfs` | components/SectionTimeline.tsx:263-283 | Every drawn PDF button (years 2024 and 2025) links to that year's PDF and never falls back to '#'. The event without a button is the current year. |
| `Timeline.RelationshipCloseVector` | components/SectionTimeline.tsx:199 | A bold run with spaces inside its delimiters keeps those spaces in the bold text. |
| `Timeline.SignpostsVector` | components/SectionTimeline.tsx:200 | The runs 首先, 其次, 最后 come out as three separate bold segments, in order, with the plain text between them kept. |
| `Pact.BarLeft` | components/SectionPact.tsx:143 | The left offset is the number of months before the start times 25/3 percent, one twelfth of the axis per month. |
| `Pact.BarWidth` | components/SectionPact.tsx:140 | The width is the duration in months times 25/3 percent. |
| `Pact.BarOf` | components/SectionPact.tsx:137-144 | The bar carries its task's label. Its left offset is `BarLeft` and its width is `BarWidth` (25/3 percent per month before the start, and per month of duration), so its right edge is where the task ends. |
| `Pact.FirstMonthAtZero` | components/SectionPact.tsx:143 | The left offset is 0 if and only if the task starts in month 1. |
| `Pact.WidthIgnoresStart` | components/SectionPact.tsx:140 | Two tasks with the same duration have the same width, whatever their starts. |
| `Pact.LeftStrictlyIncreasing` | components/SectionPact.tsx:143 | A later start gives a strictly larger left offset. |
| `Pact.MonthSteps` | components/SectionPact.tsx:140-143 | The right edge falls at the month the task ends in times 25/3 percent. |
| `Pact.OnAxisIffWithinBounds` | components/SectionPact.tsx:140-143 | A bar lies within [0, 100] percent if and only if its task starts at month 1 or later and ends by month 12. Nothing is clamped. |
| `Pact.NoClamping` | components/SectionPact.tsx:140-143 | A task from month 12 lasting three months ends at 350/3 percent, past the axis: the raw value is drawn. |
| `Pact.ScheduleExamples` | components/SectionPact.tsx:12-14 | "Lit Review" is drawn from 0 with width 50/3. "Paper 1 Submission" is drawn from 50 with width 25/3. |
| `Pact.ScheduleFits` | components/SectionPact.tsx:11-17 | Every authored task starts at month 1 or later, ends by month 12 and lies within the axis. "Paper 2 Draft" ends at exactly 100 percent. |
| `Pact.PactSection.constructor` | components/SectionPact.tsx:20 | The section mounts locked. |
| `Pact.PactSection.HandleUnlock` | components/SectionPact.tsx:22-23 | Unlocking sets the flag, whatever it was. No method clears it. |
| `Pact.PactSection.RenderedBars` | components/SectionPact.tsx:92-148 | While locked no bar is drawn. Once unlocked there is one bar per schedule item, in order. |
| `Excavation.StatusOf` | components/SectionExcavation.tsx:234-239 | The status is link if and only if the link is truthy. It is ready if and only if there is no link and the content is truthy. It is wip if and only if both are absent. |
| `Excavation.BadgeFor` | components/SectionExcavation.tsx:214-232 | wip shows "Digging", ready shows "Read More", and link shows the external-link icon (each both ways). |
| `Excavation.BadgeDeterminesStatus` | components/SectionExcavation.tsx:214-232 | Two statuses have the same badge if and only if they are equal. |
| `Excavation.AuthoredCardsAreWip` | components/SectionExcavation.tsx:36-210 | Every authored card has neither link nor content, so it is wip and shows "Digging". |
| `Excavation.ExcavationSection.constructor` | components/SectionExcavation.tsx:326-327 | No card is active, no toast is shown and no link has been opened. |
| `Excavation.ExcavationSection.HandleCardClick` | components/SectionExcavation.tsx:329-337 | The action matches the card's status: link opens the link and changes nothing else, ready opens the card, and wip shows the toast. Exactly one branch runs and the other state is untouched. |
| `Excavation.ExcavationSection.CloseToast` | components/SectionExcavation.tsx:448 | The toast is hidden and nothing else changes. |
| `Excavation.ExcavationSection.CloseDetail` | components/SectionExcavation.tsx:449 | The detail modal is cleared and nothing else changes. |
| `MusicPlayer.Player.constructor` | components/MusicPlayer.tsx:6-7 | The player starts not playing and collapsed, with nothing sent to the audio element. |
| `MusicPlayer.Player.TogglePlay` | components/MusicPlayer.tsx:10-22 | With no audio element nothing changes. Otherwise playing is negated. A start sends play and expands the card. A pause sends pause and leaves the card as it was. The invariant (commands alternate play/pause, and playing means the last was play) is kept. |
| `MusicPlayer.Player.ClickTitle` | components/MusicPlayer.tsx:109 | The expand flag is negated; playback and the command log are unchanged. |
| `MusicPlayer.Player.Close` | components/MusicPlayer.tsx:51 | The card collapses; playback and the command log are unchanged. |
| `Sisyphus.MessageIndex` | components/SectionSisyphus.tsx:173-174 | `Math.floor(random * 6)` for random in [0, 1) is an index into the six messages, and it is the floor of random * 6. |
| `Sisyphus.WithoutId` | components/SectionSisyphus.tsx:182 | The filter keeps exactly the items whose id differs from the given one, and never grows the list. |
| `Sisyphus.WithoutIdAppend` | components/SectionSisyphus.tsx:182 | The filter works piecewise over a concatenation, so the kept items stay in their original order. |
| `Sisyphus.WithoutAbsentId` | components/SectionSisyphus.tsx:182 | Removing an id that no item carries changes nothing. |
| `Sisyphus.ClickThenCleanup` | components/SectionSisyphus.tsx:176-182 | A click's cleanup removes the item it appended. When no earlier item has the same timestamp, the list is restored exactly. |
| `Sisyphus.CollidingIdsVector` | components/SectionSisyphus.tsx:176-182 | Two items with the same `Date.now()` id are both removed by one cleanup. |
| `Sisyphus.SisyphusSection.constructor` | components/SectionSisyphus.tsx:154-164 | No floating texts, nothing revealed or transformed, no modal open. |
| `Sisyphus.SisyphusSection.HandleImageClick` | components/SectionSisyphus.tsx:167-179 | Exactly one item is appended at the end, with id `now`, the click position and one of the six messages. The existing items and every flag are unchanged. |
| `Sisyphus.SisyphusSection.Cleanup` | components/SectionSisyphus.tsx:181-183 | The list becomes the old list without the given id; the flags are unchanged. |
| `Sisyphus.SisyphusSection.HandleReveal` | components/SectionSisyphus.tsx:241-243 | The content is revealed and nothing else changes. No method hides it again. |
| `Sisyphus.SisyphusSection.ToggleTransform` | components/SectionSisyphus.tsx:259 | The transform flag is negated and nothing else changes. |
| `Sisyphus.SisyphusSection.OpenModal` | components/SectionSisyphus.tsx:426 | The given content becomes the active modal and nothing else changes. |
| `Sisyphus.SisyphusSection.CloseModal` | components/SectionSisyphus.tsx:565 | The active modal is cleared and nothing else changes. |
| `Sisyphus.SisyphusSection.ShowBlessing` | components/SectionSisyphus.tsx:230-234 | The delayed step of the grand finale shows the blessing modal and changes nothing else. |
| `Sisyphus.SisyphusSection.CloseBlessing` | components/SectionSisyphus.tsx:569 | The blessing modal is hidden and nothing else changes. |
| `Sisyphus.ClickAndWait` | components/SectionSisyphus.tsx:167-184 | A click followed by its cleanup leaves the list as it was, when no item on screen shares the click's timestamp. |
| `Sisyphus.ToggleTwice` | components/SectionSisyphus.tsx:295 | Toggling the transform twice restores it. |
| `Quotes.FlipCard.constructor` | components/SectionQuotes.tsx:14 | A card starts unflipped. |
| `Quotes.FlipCard.MouseEnter` | components/SectionQuotes.tsx:19 | Mouse-enter flips the card, whatever its state. |
| `Quotes.FlipCard.MouseLeave` | components/SectionQuotes.tsx:20 | Mouse-leave unflips the card, whatever its state. |
| `Quotes.FlipCard.Click` | components/SectionQuotes.tsx:21 | A click negates the flipped state. |
| `Quotes.FlipCard.RotateY` | components/SectionQuotes.tsx:26 | The rotation is 180 if and only if the card is flipped, and 0 if and only if it is not. |
| `Quotes.FlipCard.ShownFace` | components/SectionQuotes.tsx:26-53 | The back face is the one shown if and only if the card is flipped. |
| `Quotes.ClickTwice` | components/SectionQuotes.tsx:21 | Two clicks bring the card back to the face it showed. |

## Left out

- The memory gallery's `selectedMemory` state (`components/SectionMemories.tsx:234`, set at :291, :327 and :338): it only chooses which memory the detail modal shows. It is presentation state, and only `parseBold` is modelled from that component.
- Lone UTF-16 surrogates: a JavaScript string may hold an unpaired surrogate code unit, which has no counterpart in a Dafny `string` of Unicode scalar values. No authored text contains one.
- JSX rendering, Tailwind classes, framer-motion animation and `AnimatePresence`: these are presentation only.
- The confetti loops (`requestAnimationFrame`, `Date.now()`, random bursts) in the Pact and Sisyphus sections: they are timer-driven effects with no state of the model's.
- The `setTimeout` timers: the cleanup after 2 seconds and the blessing modal after 1.5 seconds are the separately callable methods `Cleanup` and `ShowBlessing`, so their timing and interleaving are not modelled.
- The click-position arithmetic from `getBoundingClientRect`: it is floating-point pixel geometry, so the position is a parameter of the click.
- `Math.random()` is a parameter in [0, 1). The model does not capture the distribution of messages.
- Floating-point rounding and the percentage strings of the Gantt bars: offsets and widths are exact reals; `Pact.GanttItem` months are integers, as in every authored item, not arbitrary JavaScript numbers.
- `HTMLAudioElement.play()` and `pause()`, and the promise that `play()` returns: they are foreign calls, recorded as commands. A rejected play is not modelled.
- MusicPlayer.Player.TogglePlay: whether the audio element is mounted is a parameter (`audioRef.current`), not tracked across renders.
- `window.open`: it is recorded in `openedLinks`. The new browser tab is not modelled.
- Excavation.StatusOf: the optional content is a rendered node in the component. It is modelled as an optional string whose truthiness is "present and non-empty". An element node is always truthy, which corresponds to a non-empty string here.
- The contents of the Sisyphus detail modals (`components/SectionSisyphus.tsx:426-494`) and the other authored prose, titles and images are not modelled. `Sisyphus.SisyphusSection.OpenModal` takes the content as a parameter.
- The timeline event descriptions and details are rendered prose. Of `details`, only its presence is kept (`hasDetails`).
- Preview and content rendering, book lists and static stickers in the Excavation and Quotes sections: they are static.
- The rest of `components/SectionQuotes.tsx` beyond `FlipCard`: it is static stickers, and its text ends at line 233.
- React's scheduling: each handler is modelled as running to completion on the current state. The functional updates (`prev => ...`) and the closure reads (`!isPlaying`) agree on that reading, because every handler sets each field at most once.
- Timeline.RelationshipCloseVector and Timeline.SignpostsVector: they check a closing fragment of the paragraph at line 199, and an abridged form of the paragraph at line 200, not the whole authored strings. The abridged form keeps the three signposts `首先`, `其次` and `最后`. It drops the text before the first `：`, the prose between the signposts and the paragraph's two later bold runs.
- `supabaseClient.ts`, `App.tsx` and `types.ts` are not part of this model. They hold an unused client with placeholder credentials, pure composition, and type declarations. `GanttItem` and `TimelineEvent` are mirrored as datatypes.
