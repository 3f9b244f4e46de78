# Portfolio page controller, gallery viewer and loading screen

A Dafny model of the three pieces of logic in a single-page portfolio website:

- **Navigation** (`navigation.dfy`, from `src/App.tsx`): the root component stacks five
  full-screen pages (Hero, Work, SampleWork, WorkProcess, AboutMe) and shows one at a time.
  `handleNavigation` moves to a target page unless it is already current or a transition is
  running, takes a lock that a one-shot 700 ms timer releases, and flags the one sideways
  move (Work and SampleWork, either way). `getSectionTransform` gives every page a
  translation along X or Y from that state. The three React state cells are the fields of
  the class `PageController`; its methods are proved against the pure step functions
  `Navigate` and `Unlocked`, and the properties are lemmas about those functions.
- **Gallery** (`gallery.dfy`, from `src/components/SampleWork.tsx`): the bottom viewer
  builds its slide list from a project's images and its scroll images that are not already
  images. It moves a slide index with modular next/prev, by click and by the arrow keys. It
  classifies the current slide as video (by extension, ignoring case) or pannable (a scroll
  image). It sets the document body's `overflow` to "hidden" while open and restores the
  saved value on close. The class `BottomViewer` holds the index and the saved value, and it
  shares a `DocumentBody` object whose `overflow` it changes. Its methods are proved against
  the pure functions `AfterOpen`, `AfterClose`, `AfterNext`, `AfterPrev`, `AfterClick` and
  `AfterKey`.
- **LoadingScreen** (`loading_screen.dfy`, from `src/components/LoadingPage.tsx`): the
  method `GenerateBlocks` builds the 100 tiles with two nested loops and then sorts them by
  row. It is proved equal to the row-major grid `Grid`, and the grid's properties are lemmas.
  The timer-driven flags `hideHello`, `showHello`, `hideBlocks` and `isGlitching` are
  replayed from the setter calls their timers make (`SetterCall`, `FlagAt`): the flag at a
  moment is the value of the last call that has fired by then, or its initial value.

`Math.random()` is a parameter: a sequence of reals in [0, 1), four per tile, consumed in the
order the source draws them. Timers are explicit steps (`PageController.Unlock`) or functions
of elapsed milliseconds. Two behaviours of the code are kept as written, though a reader of
the page might expect otherwise:

- The slide index is not reset when the viewer is closed and reopened. It is a `useState`
  cell of a viewer that stays mounted. A stale index may point past a shorter project's
  slides; the source is then "" and the next `next()` brings the index back into range
  (`Gallery.ReopenKeepsIndex`, `Gallery.StaleIndexRecovers`).
- The drift is drawn from [-5, 5), not [-5, 5].

## Model

| member | source | states |
|---|---|---|
| `Navigation.IndexOf` | src/App.tsx:17-29 | the index of a view is its position in the fixed five-page order |
| `Navigation.Navigate` | src/App.tsx:28-38 | a request for the current page or during a transition leaves all three cells unchanged; otherwise the target is current, the lock is taken, and the sideways flag holds iff {current, target} = {1, 2}; the invariant (flag implies lock and current in {1, 2}) is kept |
| `Navigation.Unlocked` | src/App.tsx:41-44 | the timer clears the lock and the sideways flag whatever they were, keeps the current page, and keeps the invariant |
| `Navigation.LockedDropsAll` | src/App.tsx:29-30 | while the lock is held, any sequence of requests leaves the state unchanged |
| `Navigation.UnlockedAccepts` | src/App.tsx:28-44 | after the 700 ms timer fires, a request for any other page is accepted and takes the lock again, so repeating it at once is dropped |
| `Navigation.SampleWorkToWorkProcessIsVertical` | src/App.tsx:32-44 | Hero to Work to SampleWork to WorkProcess: only the Work to SampleWork move is sideways |
| `Navigation.SectionTransform` | src/App.tsx:47-90 | in every state a page gets a zero translation iff it is the current page; SampleWork is always translated along X, and Hero, WorkProcess and AboutMe always along Y |
| `Navigation.ExactlyOneOnScreen` | src/App.tsx:47-90 | of the five pages exactly the current one is on screen |
| `Navigation.HorizontalPairSlidesSideways` | src/App.tsx:50-58 | during a sideways transition Work and SampleWork are at -100% X before the current page and +100% X after it |
| `Navigation.SampleWorkParkedRight` | src/App.tsx:74-79 | outside a sideways transition an off-screen SampleWork is always at +100% X, never moved vertically |
| `Navigation.VerticalPagesByOrder` | src/App.tsx:60-89 | Hero, WorkProcess, AboutMe, and Work outside a sideways transition, move vertically: -100vh before the current page, +100vh after it |
| `Navigation.VerticalStackOrdered` | src/App.tsx:60-89 | pages translated vertically keep the page order: an earlier page is never below a later one |
| `Navigation.ShowLoading` | src/App.tsx:12-26 | replaying the one setter call of the 7000 ms timer: the overlay shows exactly before 7000 ms and never comes back |
| `Navigation.TilesLandBeforeOverlayRemoved` | src/App.tsx:19-26 | at any moment the overlay is gone, every loading tile has already landed |
| `Navigation.PageController.constructor` | src/App.tsx:13-15 | page 0, not animating, not sideways |
| `Navigation.PageController.HandleNavigation` | src/App.tsx:28-39 | the new cells are `Navigate` of the old ones, and the invariant holds |
| `Navigation.PageController.Unlock` | src/App.tsx:41-44 | the new cells are `Unlocked` of the old ones, and the invariant holds |
| `Gallery.AnyEndsWith` | src/components/SampleWork.tsx:54 | true iff the string ends with one of the given extensions |
| `Gallery.ToLower` | src/components/SampleWork.tsx:54 | `toLowerCase` on ASCII: same length, each character lowered, nothing else changed |
| `Gallery.IsVideo` | src/components/SampleWork.tsx:52-55 | true iff the lowercased source ends with ".mp4", ".webm", ".ogg" or ".mov" |
| `Gallery.IsVideoIgnoresCase` | src/components/SampleWork.tsx:54 | lowercasing a source first does not change its classification |
| `Gallery.UpperCaseVideo` | src/components/SampleWork.tsx:52-55 | an upper-case ".MOV" counts as a video |
| `Gallery.GifIsNotVideo` | src/components/SampleWork.tsx:52-55 | a ".gif" is not a video |
| `Gallery.ScrollExtras` | src/components/SampleWork.tsx:116-120 | no entry the filter keeps is an image, and it never lengthens the list |
| `Gallery.ScrollExtrasCount` | src/components/SampleWork.tsx:116-120 | the filter removes every copy of an image and keeps every copy of any other scroll entry |
| `Gallery.ScrollExtrasAppend` | src/components/SampleWork.tsx:116-120 | the filter distributes over concatenation, so it keeps the scroll order |
| `Gallery.Slides` | src/components/SampleWork.tsx:113-122 | no project gives no slides; otherwise the images come first and the filtered scroll images follow in scroll order, an image occurs as often as among the images, and any other entry as often as among the scroll images |
| `Gallery.SlidesMembers` | src/components/SampleWork.tsx:113-122 | a string is a slide iff it is an image or a scroll image |
| `Gallery.SlidesExample` | src/components/SampleWork.tsx:113-122 | images [A, B] and scroll images [B, C] give the slides [A, B, C] |
| `Gallery.NextIndex` | src/components/SampleWork.tsx:155-158 | with slides, the next index is in range, one more, or 0 after the last |
| `Gallery.PrevIndex` | src/components/SampleWork.tsx:151-154 | with slides, the previous index is in range, one less, or the last from 0 |
| `Gallery.PrevUndoesNext` | src/components/SampleWork.tsx:151-158 | prev undoes next and next undoes prev for in-range indexes |
| `Gallery.Src` | src/components/SampleWork.tsx:124-125 | the shown source is the slide at the index when in range and "" otherwise |
| `Gallery.IsScrollableShowcase` | src/components/SampleWork.tsx:126 | a showcase is a shown file of the open project that is one of its scroll images; a slide in range that is not one is one of its plain images |
| `Gallery.IsCurrentVideo` | src/components/SampleWork.tsx:127 | only a slide in range of an open project can be a video: the "" of a stale index is not one |
| `Gallery.AfterOpen` | src/components/SampleWork.tsx:129-137 | opening from closed saves the body overflow and sets "hidden"; reopening over an open viewer keeps both; the index is kept |
| `Gallery.AfterClose` | src/components/SampleWork.tsx:129-137 | closing gives the body back the saved overflow; closing a closed viewer changes nothing; the index is kept |
| `Gallery.AfterNext` | src/components/SampleWork.tsx:155-158 | while open the index becomes the next index, which is in range; while closed nothing changes |
| `Gallery.AfterPrev` | src/components/SampleWork.tsx:151-154 | while open the index becomes the previous index, which is in range; while closed nothing changes |
| `Gallery.AfterClick` | src/components/SampleWork.tsx:215-220 | a click changes the index only on a slide that is neither pannable nor video with more than one slide, and then it is the next index |
| `Gallery.AfterKey` | src/components/SampleWork.tsx:139-149 | while open ArrowLeft is prev, ArrowRight is next, Escape is a close, which restores the overflow and keeps the index, other keys do nothing; while closed no key does anything |
| `Gallery.AfterKeys` | src/components/SampleWork.tsx:139-149 | the scroll lock stays consistent over any key sequence |
| `Gallery.KeysKeepSavedOverflow` | src/components/SampleWork.tsx:129-149 | over any keys pressed while open, the saved overflow is kept, and a close restores it |
| `Gallery.ClosedIgnoresKeys` | src/components/SampleWork.tsx:140-141 | a closed viewer ignores every key sequence |
| `Gallery.SessionRestoresOverflow` | src/components/SampleWork.tsx:129-137 | open, any keys, close: the body overflow is what it was before opening |
| `Gallery.StaleIndexRecovers` | src/components/SampleWork.tsx:125 | an index past the end shows "", and one next or prev brings it into range |
| `Gallery.ReopenSlides` | src/components/SampleWork.tsx:113-122 | images [a, b] with scroll [c] give slides [a, b, c]; images [d, e] with no scroll give [d, e] |
| `Gallery.ReopenKeepsIndex` | src/components/SampleWork.tsx:109 | the index survives close and reopen and can be out of range for the new project |
| `Gallery.DocumentBody.constructor` | src/components/SampleWork.tsx:132 | the body starts with the given overflow |
| `Gallery.BottomViewer.constructor` | src/components/SampleWork.tsx:109-110 | closed, index 0, nothing saved |
| `Gallery.BottomViewer.Open` | src/components/SampleWork.tsx:129-137 | the new state is `AfterOpen` of the old one, and the lock is consistent |
| `Gallery.BottomViewer.Close` | src/components/SampleWork.tsx:129-137 | the new state is `AfterClose` of the old one |
| `Gallery.BottomViewer.Next` | src/components/SampleWork.tsx:155-158 | the new state is `AfterNext` of the old one |
| `Gallery.BottomViewer.Prev` | src/components/SampleWork.tsx:151-154 | the new state is `AfterPrev` of the old one |
| `Gallery.BottomViewer.ClickSlide` | src/components/SampleWork.tsx:215-220 | the new state is `AfterClick` of the old one |
| `Gallery.BottomViewer.OnKey` | src/components/SampleWork.tsx:142-146 | the new state is `AfterKey` of the old one |
| `LoadingScreen.PaletteIndex` | src/components/LoadingPage.tsx:92 | the colour index is in [0, 10) |
| `LoadingScreen.Rotation` | src/components/LoadingPage.tsx:95 | the rotation is in [-360, 360) degrees |
| `LoadingScreen.HorizontalDrift` | src/components/LoadingPage.tsx:98 | the drift is in [-5, 5) vw |
| `LoadingScreen.FallDuration` | src/components/LoadingPage.tsx:101 | the fall takes between 2000 and 3000 ms |
| `LoadingScreen.DecimalString` | src/components/LoadingPage.tsx:108 | a number renders as at least one decimal digit, one digit exactly below 10 |
| `LoadingScreen.DecimalStringInjective` | src/components/LoadingPage.tsx:108 | different numbers render differently |
| `LoadingScreen.BlockId` | src/components/LoadingPage.tsx:108 | the key has digits on both sides of a single dash, which sits right after the row's digits |
| `LoadingScreen.BlockIdInjective` | src/components/LoadingPage.tsx:108 | the key "row-col" determines row and column |
| `LoadingScreen.MakeBlock` | src/components/LoadingPage.tsx:84-121 | a tile has x = col*10, y = row*10, w = h = 10, a palette colour, stagger row*50, targetY 120, targetX = x + drift, and rotation, drift and duration in range |
| `LoadingScreen.Grid` | src/components/LoadingPage.tsx:78-123 | the grid has 100 tiles |
| `LoadingScreen.InsertByRow` | src/components/LoadingPage.tsx:126 | inserting into a row-sorted list keeps it sorted and adds exactly the one tile |
| `LoadingScreen.SortByRow` | src/components/LoadingPage.tsx:126 | the sort returns a row-sorted permutation of its input |
| `LoadingScreen.SortByRowKeepsSorted` | src/components/LoadingPage.tsx:126 | a list already sorted by row is unchanged by the sort |
| `LoadingScreen.GridSortedByRow` | src/components/LoadingPage.tsx:82-83 | the loops emit the tiles in non-decreasing row order |
| `LoadingScreen.GenerateBlocks` | src/components/LoadingPage.tsx:78-127 | the generator returns the row-major grid: 100 tiles, sorted by row |
| `LoadingScreen.GridCell` | src/components/LoadingPage.tsx:82-86 | the k-th tile emitted by the loops sits in row k / 10 at x = (k % 10) * 10 |
| `LoadingScreen.GridCoversEachCellOnce` | src/components/LoadingPage.tsx:80-86 | every (row, col) in [0,10)² has its tile, and no two tiles share a cell |
| `LoadingScreen.GridIdsDistinct` | src/components/LoadingPage.tsx:107-108 | the tile keys are pairwise distinct |
| `LoadingScreen.GridTilesViewport` | src/components/LoadingPage.tsx:85-86 | each integer point of [0,100)² lies in exactly one tile |
| `LoadingScreen.GridTilesViewportReal` | src/components/LoadingPage.tsx:85-86 | the tiles, as percentage boxes, cover the continuous viewport [0,100)² without overlap: every real point lies in exactly one tile, the one of the cell its floor falls in |
| `LoadingScreen.GridStaggerBounded` | src/components/LoadingPage.tsx:89 | the stagger is row*50 and lies in [0, 450] |
| `LoadingScreen.OneShot` | src/components/LoadingPage.tsx:11-25 | a flag with one setter call keeps its initial value until the call fires, and the call's value from then on |
| `LoadingScreen.HideHello` | src/components/LoadingPage.tsx:6-15 | replaying the 3000 ms setter call: hideHello is true exactly from 3000 ms |
| `LoadingScreen.ShowHello` | src/components/LoadingPage.tsx:7-20 | replaying the 3500 ms setter call: showHello is true exactly before 3500 ms |
| `LoadingScreen.HideBlocks` | src/components/LoadingPage.tsx:5-25 | replaying the 3500 ms setter call: hideBlocks is true exactly from 3500 ms |
| `LoadingScreen.PulseCalls` | src/components/LoadingPage.tsx:39-53 | each glitch time contributes a set call and a clear call, two calls per time |
| `LoadingScreen.InPulseCons` | src/components/LoadingPage.tsx:39-53 | a moment is in some pulse window iff it is in the first or in one of the rest |
| `LoadingScreen.PulseFlag` | src/components/LoadingPage.tsx:39-53 | replaying spaced set/clear timer pairs: before the first nothing has fired, and from then on the flag is up exactly inside a window, so no clear cuts a later pulse short |
| `LoadingScreen.PulseCallsInFiringOrder` | src/components/LoadingPage.tsx:39-53 | for spaced pulses the calls are listed in strictly increasing time, so replaying them in list order is replaying them in firing order |
| `LoadingScreen.GlitchTimesSpaced` | src/components/LoadingPage.tsx:37 | the glitch times 500, 1000, 1500, 2000 are 100 ms pulses with gaps between them |
| `LoadingScreen.GlitchCallsInFiringOrder` | src/components/LoadingPage.tsx:36-53 | the eight glitch setter calls are in firing order |
| `LoadingScreen.IsGlitching` | src/components/LoadingPage.tsx:8-53 | replaying the glitch timers' setter calls from false: isGlitching is up exactly inside some [time, time + 100) |
| `LoadingScreen.FlagsChangeOnce` | src/components/LoadingPage.tsx:11-25 | hideHello turns on at 3000 ms, showHello off and hideBlocks on at 3500 ms, and none turns back |
| `LoadingScreen.GreetingBeforeFall` | src/components/LoadingPage.tsx:13-25 | the greeting fades before it is removed, and the fall starts exactly when it is removed |
| `LoadingScreen.GlitchWindows` | src/components/LoadingPage.tsx:36-53 | from the replayed timers: glitching is on exactly in [500,600), [1000,1100), [1500,1600) and [2000,2100) |
| `LoadingScreen.GlitchEndsBeforeFade` | src/components/LoadingPage.tsx:36-53 | every glitch is over before the 3000 ms fade starts |
| `LoadingScreen.GridLandsBy` | src/components/LoadingPage.tsx:89-101 | every tile lands before 3500 + 450 + 3000 = 6950 ms |

## Left out

- Rendering: JSX, Tailwind classes, inline styles, easing curves and the CSS transition
  durations are presentation only.
- `src/components/HeroSection.tsx`, `Work.tsx`, `WorkProcess.tsx`, `AboutMe.tsx` and
  `TransitionEffect.tsx` are not part of this model. They hold static content and browser
  event plumbing, and the last one is not used by the root component.
- Real timer scheduling, React batching and re-render timing, and stale closures: timers are
  explicit steps or replayed setter calls, and each state update is atomic.
- LoadingScreen.PulseFlag: requires pulses separated by a strict gap. The order in which two
  timers due at the same moment fire is not modelled; the glitch times have 400 ms gaps.
- Floating-point rounding: the random parameters are exact real arithmetic on the injected
  draws. The random glitch offset and skew of the greeting are not modelled.
- Gallery.NextIndex: requires a non-empty slide list. For a project with no slides,
  JavaScript stores NaN in the index; that case is excluded, and every project in the static
  content has images.
- Gallery.PrevIndex: requires a non-empty slide list, for the same reason.
- Gallery.AfterNext: requires slides while open (`HasSlides`), for the same reason.
- Gallery.AfterPrev: requires slides while open (`HasSlides`), for the same reason.
- Gallery.AfterKey: requires slides while open (`HasSlides`), because it calls next and prev.
- Gallery.ToLower: lowercases ASCII letters only; `toLowerCase` is full Unicode case mapping.
- The card list, the image `onError` placeholder swap, video playback and the effect cleanups
  on unmount (the viewer and loading screen stay mounted in the modelled lifetimes).
- `Array.prototype.sort` is stable, so the stable insertion sort `SortByRow` stands for it;
  the engine's own sorting algorithm is not modelled.
