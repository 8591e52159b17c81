# Poket-Load presentation logic, in Dafny

Poket-Load is a React Native video-rewards app. Its screens are built from
presentation components, and four of them hold plain logic with a precise
meaning. This project models that logic and proves what it guarantees:

- **Interstitial / rewarded ad** (`Interstitial.dfy`, from `src/InterstitialAd.tsx`).
  This is the countdown state machine behind the full-screen ad. Showing the ad
  resets a 5-second countdown and disables closing. Each one-second tick lowers
  the countdown. The tick that finds it at 1 or below does four things: it sets
  the countdown to 0, stops the interval and enables closing. Then, for a
  rewarded ad with an `onWatchComplete` callback, it calls `addPoints(5)` and
  that callback.
  - The model first gives the session as a value. `Session` is the state, and
    `Shown`, `Ticked`, `Hidden` and `CloseRequested` are the events. Each event
    returns the next session and the calls made on the collaborators.
  - The class `InterstitialAd` keeps the same state in mutable fields. Its
    `Show`, `Tick`, `Hide` and `RequestClose` methods are proved against those
    functions, and a ghost log records each `addPoints`, `onWatchComplete` and
    `onClose` call.
  - `RunTimer` models the interval firing until it clears itself.
- **Daily streak calendar** (`StreakCalendar.dfy`, from `src/DailyStreakCalendar.tsx`).
  This covers the seven-day `streakDays` flags, derived from the weekday
  `today` and the user's `watchStreak`. It also covers the "today" marker, the
  motivation tier and the bilingual labels.
- **Video card** (`VideoCard.dfy` and `Decimal.dfy`, from `src/VideoCard.tsx`).
  - `formatDuration` renders the `M:SS` badge.
  - `formatViews` abbreviates view counts with `K` and `M`.
  - The title is picked by language.
  - `Decimal` models `toString` of whole numbers (below 1e21 in magnitude), its inverse and `padStart`.
- **Bottom navigation** (`BottomNav.dfy`, from `src/BottomNav.tsx`). This
  covers the route-highlighting rule `isActive`, the fixed four-entry
  `navItems` table and the label and icon chosen for each button.

The outside world is passed in as parameters:
- the weekday from `new Date().getDay()` is the parameter `today`;
- `user?.watchStreak` is an `Option<int>`;
- the app language is `Language = En | Bn`;
- the router's `pathname` is a string;
- the calls to `addPoints`, `onWatchComplete` and `onClose` are `Effect` values.

Behaviour worth knowing, as the code has it:
- The week view does not wrap into the previous week. On a Tuesday
  (`today = 2`) a 7-day streak ticks 3 days, not 7.
- `formatViews` picks its branch on the raw count. So 999,999 falls in the
  thousands branch and renders as `1000.0K`.
- Closing the ad only calls `onClose`. It is the parent that hides the ad, which
  the model gives as the separate `Hidden` event.
- Showing an ad that is already visible changes nothing, because the effect depends only on `visible`.
- A re-shown ad starts a fresh countdown, and nothing stops a second reward.
  `ReshowGrantsAgain` proves that two completed showings grant 5 points twice.

## Model

| member | source | states |
|---|---|---|
| Interstitial.Initial | src/InterstitialAd.tsx:20-21 | On mount the ad is hidden, the countdown is 5, closing is disabled, no interval runs, the two props are the given ones, and the session invariant holds |
| Interstitial.Shown | src/InterstitialAd.tsx:24-27 | Becoming visible resets the countdown to 5, sets `canSkip` false and starts the interval, with no calls; an ad already visible is unchanged; the invariant is preserved |
| Interstitial.Ticked | src/InterstitialAd.tsx:38-51 | A tick above 1 lowers the countdown by exactly 1 and changes nothing else; a tick at 1 or below sets it to 0, enables closing and stops the interval; it calls `addPoints(5)` and `onWatchComplete` iff the ad is rewarded and has a callback; without an interval nothing happens; the invariant is preserved |
| Interstitial.Hidden | src/InterstitialAd.tsx:53 | Hiding clears the interval and keeps countdown and `canSkip` |
| Interstitial.CloseRequested | src/InterstitialAd.tsx:67-80 | `onClose` is called iff the ad is visible and `canSkip` holds; otherwise the request calls nothing; the state never changes |
| Interstitial.HeaderOf | src/InterstitialAd.tsx:76-85 | The header shows the close button iff `canSkip` holds, otherwise the badge `{countdown}s` |
| Interstitial.CanSkipStable | src/InterstitialAd.tsx:38-53 | Once closing is enabled, no event that leaves the ad visible disables it again |
| Interstitial.CanSkipStaysWhileVisible | src/InterstitialAd.tsx:24-55 | Over any run of events without a hide, an ad whose closing is enabled stays visible and closable |
| Interstitial.RunInvariant | src/InterstitialAd.tsx:20-53 | Along any sequence of events, the countdown stays in [0,5], `canSkip` holds iff it is 0, and an interval only runs while the ad is visible and the countdown is at least 1; `isRewarded` and the callback stay fixed |
| Interstitial.TicksFrom | src/InterstitialAd.tsx:38-51 | From a running countdown at c, fewer than c ticks leave c - n with closing disabled and no calls; c or more leave 0, closing enabled, the interval stopped and the reward calls made once |
| Interstitial.StoppedTicks | src/InterstitialAd.tsx:41 | Once the interval is cleared, ticks change nothing and call nothing |
| Interstitial.FiveSecondCountdown | src/InterstitialAd.tsx:24-51 | After showing, `canSkip` is false and the countdown reads 5 - n after 0 to 4 ticks; `canSkip` is true from the 5th tick on, and the reward calls come only then |
| Interstitial.NoCloseDuringCountdown | src/InterstitialAd.tsx:67-85 | A close request during the countdown calls nothing and leaves the session unchanged |
| Interstitial.HideCancelsTimer | src/InterstitialAd.tsx:53 | After hiding, no tick changes the session or grants anything |
| Interstitial.RewardOncePerShowing | src/InterstitialAd.tsx:43-46 | Over any run, the points granted are 5 per `onWatchComplete`; there are none unless the ad is rewarded with a callback; there is at most one completion per showing |
| Interstitial.OneShowing | src/InterstitialAd.tsx:24-53 | Show, five ticks, close and hide make exactly the reward calls (if any) and then `onClose`, and end hidden and valid |
| Interstitial.ReshowGrantsAgain | src/InterstitialAd.tsx:24-46 | Two completed showings of a rewarded ad with a callback grant 5 points twice; there is no de-duplication |
| Interstitial.InterstitialAd.constructor | src/InterstitialAd.tsx:20-21 | The component's fields start in `Initial` with an empty call log |
| Interstitial.InterstitialAd.Show | src/InterstitialAd.tsx:24-27 | The fields become `Shown` of the old state; when the ad was hidden, the countdown becomes 5, closing is disabled and the interval runs |
| Interstitial.InterstitialAd.Hide | src/InterstitialAd.tsx:53 | The fields become `Hidden` of the old state; the interval is stopped |
| Interstitial.InterstitialAd.Tick | src/InterstitialAd.tsx:38-51 | The fields become `Ticked` of the old state, and the log grows by exactly the calls that tick makes |
| Interstitial.InterstitialAd.RequestClose | src/InterstitialAd.tsx:67-80 | Returns whether `onClose` ran (iff visible and skippable), and logs that call only |
| Interstitial.InterstitialAd.Header | src/InterstitialAd.tsx:76-85 | Returns `HeaderOf` of the component's state: the close button iff `canSkip`, else the text `{countdown}s` |
| Interstitial.InterstitialAd.RunTimer | src/InterstitialAd.tsx:38-51 | Letting a running interval fire until it clears itself ends with countdown 0 and closing enabled, and logs the reward calls exactly once |
| StreakCalendar.StreakOf | src/DailyStreakCalendar.tsx:13 | A missing user or streak reads as 0; a present streak is used as is |
| StreakCalendar.StreakDays | src/DailyStreakCalendar.tsx:16-19 | Exactly 7 flags; flag i is set iff 0 <= today - i < streak |
| StreakCalendar.StreakDayActive | src/DailyStreakCalendar.tsx:16-19 | Day i is active iff today - streak < i <= today; a day after today is never active, so there is no wrap into the previous week |
| StreakCalendar.ActiveDayCount | src/DailyStreakCalendar.tsx:16-19 | For today in [0,6] and streak >= 0, exactly min(streak, today + 1) days are active |
| StreakCalendar.StreakContiguous | src/DailyStreakCalendar.tsx:17-18 | The active days are contiguous and end at today: an active day i makes every j with i <= j <= today active |
| StreakCalendar.StreakMonotone | src/DailyStreakCalendar.tsx:17-18 | Raising the streak never deactivates a day |
| StreakCalendar.NoStreakNoDays | src/DailyStreakCalendar.tsx:17-18 | A streak <= 0 gives seven false flags |
| StreakCalendar.TierOf | src/DailyStreakCalendar.tsx:63-67 | The tier is "amazing" iff streak >= 7, "great" iff 3 <= streak < 7, and "watch daily" iff streak < 3 |
| StreakCalendar.Motivation | src/DailyStreakCalendar.tsx:62-67 | Each tier has its own line, so the line shown names the tier; it is one of the English lines exactly when the language is English |
| StreakCalendar.TierMonotone | src/DailyStreakCalendar.tsx:63-67 | A longer streak never gets a lower tier |
| StreakCalendar.Calendar | src/DailyStreakCalendar.tsx:7-67 | The rendered calendar has 7 cells; each cell's tick is the streak flag and its label is the Bengali or English weekday by language; the badge shows the defaulted streak, and the motivation line matches its tier |
| StreakCalendar.ExactlyOneToday | src/DailyStreakCalendar.tsx:38 | Cell i is marked today iff i == today, so exactly one cell is marked |
| VideoCard.Title | src/VideoCard.tsx:74 | The Bengali title in Bengali, the English title otherwise |
| Decimal.NatToString | src/VideoCard.tsx:19 | A number's text is non-empty decimal digits without a leading zero; it is 1 character below 10 and 2 characters for 10..99 |
| Decimal.ParseNatToString | src/VideoCard.tsx:19 | Reading a number's text back gives the number |
| Decimal.IntToString | src/VideoCard.tsx:29 | A whole number's text is its digits with no leading zero, with a leading '-' when it is negative |
| Decimal.ParseIntToString | src/VideoCard.tsx:29 | Reading a whole number's text back gives the number |
| Decimal.PadStart | src/VideoCard.tsx:19 | `padStart` keeps the string as its suffix and fills the front with the pad character up to the width |
| VideoCard.FormatDuration | src/VideoCard.tsx:16-20 | The badge is the minutes' own decimal text (no leading zero), then ':', then exactly two digits reading seconds mod 60, which is in [0,59] |
| VideoCard.FormatDurationRoundTrip | src/VideoCard.tsx:16-20 | Reading the badge as M:SS gives M * 60 + SS == seconds |
| VideoCard.FormatDurationExamples | src/VideoCard.tsx:16-20 | 125 renders as "2:05" and 59 as "0:59" |
| VideoCard.RoundTenths | src/VideoCard.tsx:24 | The tenths shown are within half a tenth of the unit of the true value (ties left open) |
| VideoCard.Abbreviate | src/VideoCard.tsx:22-29 | The branch is chosen on the count itself: exact below 1000, K for 1000 <= v < 1000000, M from 1000000 |
| VideoCard.FormatViews | src/VideoCard.tsx:22-30 | Below 1000 the text is exactly the count's decimal text; from 1000 it has one digit after the point and ends in 'K' (below a million) or 'M' |
| VideoCard.FixedOne | src/VideoCard.tsx:24-27 | `toFixed(1)` on a value in tenths: the whole part's own decimal text (no leading zero), a point and exactly one digit, reading back as the same number of tenths |
| VideoCard.Render | src/VideoCard.tsx:24-29 | An exact count renders as its own text; an abbreviated one as the whole part's own decimal text, a point, one digit and its suffix, reading back as its tenths |
| VideoCard.RenderRoundTrip | src/VideoCard.tsx:24-29 | Each view-count text reads back to the value it was rendered from |
| VideoCard.FormatViewsRoundTrip | src/VideoCard.tsx:22-30 | Reading the text back gives the exact count below 1000; above that it gives a value within half a tenth of the unit of the count |
| VideoCard.RoundTenthsWhole | src/VideoCard.tsx:24-27 | A count of k whole units shows exactly 10k tenths |
| VideoCard.FormatViewsWholeUnits | src/VideoCard.tsx:23-27 | A count that is a whole number of its unit renders as that number followed by ".0" and the suffix, e.g. "1.0K" |
| VideoCard.FormatViewsExamples | src/VideoCard.tsx:22-30 | 999 renders as "999", 1000 as "1.0K", 1500000 as "1.5M" and 999999 as "1000.0K" |
| VideoCard.FixedOneExamples | src/VideoCard.tsx:24-27 | `toFixed(1)` of 1, 1.5 and 1000 gives "1.0", "1.5" and "1000.0" |
| BottomNav.IsActive | src/BottomNav.tsx:19-22 | Every route is active at its own path; an active non-home route is a prefix of the path; home is active only for paths of at most 6 characters starting with '/' |
| BottomNav.HomeOnlyExact | src/BottomNav.tsx:20 | Home is active iff the path is "/" or "/index"; no longer path under "/" activates it |
| BottomNav.NestedPathActivates | src/BottomNav.tsx:21 | Every path below a non-home route, e.g. "/history/7", activates it |
| BottomNav.SiblingPathInactive | src/BottomNav.tsx:21 | A path that extends a route by a character other than '/', e.g. "/rewardsX", does not activate it |
| BottomNav.ActiveSameLength | src/BottomNav.tsx:21 | Two non-home routes of equal length that are both active are the same route |
| BottomNav.AtMostOneActive | src/BottomNav.tsx:12-22 | For any path, at most one of the four entries is active |
| BottomNav.Button | src/BottomNav.tsx:12-44 | A button is active iff `isActive` holds for its route and pushes that route; its icon is the active icon when active and the plain icon otherwise; its label is the English one in English and the Bengali one in Bengali |
| BottomNav.Bar | src/BottomNav.tsx:26-44 | One button per `navItems` entry, in table order, and at most one of them is active |
| BottomNav.BarLabelsAndIcons | src/BottomNav.tsx:12-42 | Each label is the Bengali one iff the language is Bengali; each icon is the active icon iff its entry is active and the plain icon otherwise; and an active entry is the only active one |

## Left out

- Timing is not modelled. The 1000 ms spacing of `setInterval`, the 5000 ms progress-bar animation, `Modal` fade-in and all styles are out. A tick is an event, and the order of events is the only time there is.
- React scheduling is not modelled. Updater functions called twice in strict mode, batching, and stale closures over `isRewarded` / `onWatchComplete` are out. Both props are fixed for a session.
- The app context (`useApp`) is not part of this model. The model does not track the points total itself: `addPoints` calls are recorded, and their effect on the total is the context's. The `t()` translations are external. Texts that come from `t()` (the close label, the ad badge) are not modelled.
- `onClose`, `router.push` and the parent's reaction to them are outside the components. The model records `onClose` as an effect and gives each button its target route.
- VideoCard.FormatDuration: durations are whole non-negative seconds. For negative or fractional input, `Math.floor` and JavaScript's truncating `%` would produce other text, and that is not modelled.
- VideoCard.RoundTenths: it renders the nearest tenth and rounds exact halves up. The contracts state only that the value is within half a tenth, because `toFixed(1)` on binary floating point need not round a tie up. Fractional and NaN counts are not modelled. Nor is the exponential notation `toFixed` uses from 1e21.
- StreakCalendar.StreakOf: a `watchStreak` that is NaN or not a number is not modelled; only missing or integer streaks are.
- The lemmas about the streak count and the today marker take `today` in [0,6], the range `getDay()` returns.
- JavaScript numbers are doubles. `toString` switches to exponential notation from 1e21 in magnitude, and whole numbers above 2^53 are not exact. The model's counts and durations are unbounded integers rendered digit by digit, so view counts and durations beyond 2^53 are not modelled.
- `src/RewardPopup.tsx` and `src/PointsAnimation.tsx` are not part of this model. They only sequence animations, using `Math.random` and floating-point trigonometry.
- `src/ProgressRing.tsx` is not part of this model, because it is floating-point geometry.
- `src/RegionCheck.tsx` is not part of this model. It is a two-flag render gate over geolocation results supplied from outside.
- `src/CategoryFilter.tsx` and `src/BannerAd.tsx` are not part of this model. They are constant lookup tables with an equality test or a switch.
- `src/LanguageToggle.tsx` is not part of this model. It only forwards to the context's `setLanguage`.
