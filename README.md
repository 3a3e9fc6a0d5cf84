# Tonality diamond core, modelled in Dafny

The applet draws a tonality diamond: a square grid built from a list of
positive integers. The cell in row `a` and column `b` sounds the ratio `b/a`.
The user plays it by dragging over the tiles, or by clicking the axis tiles
for a chord or an arpeggio. This project models the applet's core:

- **Number helpers** (`js/modules/math.js`, copied inline at the top of `js/index.js`):
  - Euclid's `gcd`;
  - the sieve `primesUpTo`;
  - the prime-limit test `factorAllowed`;
  - trial-division `largestPrimeFactor`;
  - the octave folds `normalizeFloat` and `normalizeFrac`;
  - the grid-set builders `oddset`, `limitset` and `parseCustom`;
  - `clamp`.

  Modules `NumberTheory`, `Octave`, `Primes`, `GridSets` and `Seqs`. Each loop of the source is a `method` proved against a recursive specification function. The properties the applet relies on are proved as lemmas about those functions.
- **Ratio, key, label and colour model** of `js/index.js` (module `Diamond`):
  - cell reduction;
  - `ratioFor`, `noteKeyFor`, `makeLabel`, `colorByPrimeBase`;
  - the per-grid prime-to-hue map that `computePrimeHueMap` fills;
  - `build`, as the class `GridState` holding `currentNums` and `primeHueMap`.
- **The voice registry of `js/modules/audio.js`** (module `Audio`):
  - the `ensureAudio` lifecycle, as a function from the engine state and the browser's behaviour;
  - the class `AudioEngine`, whose map of sounding voices is changed by `noteOn`, `noteOff` and `stopAll`, and read by `isNoteActive` and `getActiveNoteCount`.
- **The registry `js/index.js` carries inline** (module `InlineAudio`): the same lifecycle with different voices.
- **The gesture bookkeeping of `js/index.js`** (module `Gesture`):
  - Shift-sustain;
  - drag-to-play, with one note per tile per gesture;
  - the panic hook;
  - axis chords, and arpeggios armed by a first click.

How the model represents the source:

- The `note-n/d` keys and the `n/d` labels are kept as a pair of integers. Decimal formatting of positive integers is one-to-one, so nothing is lost.
- Browser behaviour is a parameter: whether a constructor exists, which step throws, whether `resume()` is granted.
- The context clock and `performance.now()` are parameters too.
- Each event listener of the gesture layer is a method: `Press` is a whole pointerdown on the stage (the capture-phase `gestureResume`, the stage's handler, then the viewport's listener); `KeyDown` is a keydown; the Enable button calls `InlineEngine.EnsureAudio`; `visibilitychange` to hidden calls the page's `stopAll`, which is `Panic`. The number of touch and pen pointers the pinch tracker holds is a parameter.
- A timer the source would start is returned as its delay: a note's release, the 2000 ms arming window, the arpeggio's interval. The firing of a timer is a method of its own. When a `noteOn` throws, the `await` that called it rejects and no timer is returned.

The inline copies in `js/index.js` share members with `js/modules/math.js`, because their code is the same. Those copies are:

- the helpers at lines 11-16;
- `largestPrimeFactor` at 29-45;
- `normalizeFrac` at 85-92;
- `oddset`, `limitset` and `parseCustom` at 165-173.

Behaviour of the code that the model follows:

- `noteOn` starts a voice whenever a context exists, even one that stays suspended.
- The inline `noteOn` jumps to full gain when `setTargetAtTime` is missing.
- The inline `noteOff` silences a voice at once, while `noteOff` in `audio.js` ramps it down over the fade time.
- A dragged tile's release timer is started when the tile is triggered.
- Whether a dragged note is sustained depends on Shift as it is when the tile is triggered.
- The rows label is `b/a`, column over row. The opt-in self-test at `js/index.js:412` expects `a/b`, but it checks the first cell, which lies on the diagonal, so both read the same.
- The release in `audio.js` is `max(0.01, ms)/1000` seconds: a floor of 0.01 ms, since the 0.01 is in milliseconds.

## Model

| member | source | states |
|---|---|---|
| NumberTheory.Gcd | js/modules/math.js:12-19 | the loop returns the gcd of the absolute values: 0 for (0, 0), otherwise a positive common divisor that every common divisor divides |
| NumberTheory.GcdDivides | js/modules/math.js:12-19 | Euclid's recursion yields a positive common divisor when one argument is non-zero |
| NumberTheory.GcdGreatest | js/modules/math.js:12-19 | every common divisor divides Euclid's result |
| NumberTheory.Bezout | js/modules/math.js:12-19 | Euclid's result is an integer combination of the arguments |
| NumberTheory.GcdCommutes | js/modules/math.js:12-19 | the order of the arguments does not change the gcd |
| NumberTheory.SignlessDivides | js/modules/math.js:13-14 | taking absolute values first does not change which numbers divide |
| NumberTheory.ReducedCoprime | js/modules/math.js:78-79 | dividing both terms by their gcd gives positive coprime terms |
| NumberTheory.LowestTermsUnique | js/modules/math.js:78-79 | a positive fraction has exactly one representation in lowest terms |
| NumberTheory.HasPrimeDivisor | js/modules/math.js:87-103 | every integer from 2 up has a prime divisor |
| NumberTheory.PrimeBySquareRoot | js/modules/math.js:95-101 | a number with no divisor up to its square root is prime |
| NumberTheory.Euclid | js/modules/math.js:87-103 | a prime dividing a product divides one of the factors |
| NumberTheory.CoprimeDividesProduct | js/modules/math.js:78-79 | a divides b*c and is coprime to b, so it divides c |
| Octave.FoldDown | js/modules/math.js:62 | halving ends in (0, 2) and leaves values below 2 alone |
| Octave.FoldUp | js/modules/math.js:63 | doubling ends in [1, 2) and leaves values from 1 up alone |
| Octave.FoldReal | js/modules/math.js:60-65 | the fold lies in [1, 2) and fixes every value already there |
| Octave.FoldRealScale | js/modules/math.js:60-65 | the fold differs from its input by whole octaves |
| Octave.FoldRealUnique | js/modules/math.js:60-65 | the fold is the only value in [1, 2) a whole number of octaves from the input |
| Octave.FoldRealShift | js/modules/math.js:60-65 | inputs a whole number of octaves apart have the same fold |
| Octave.FoldRealOctave | js/modules/math.js:60-65 | doubling the input does not change the fold |
| Octave.NormalizeFloat | js/modules/math.js:60-65 | the two loops compute the fold, a value in [1, 2) |
| Octave.RaiseDen | js/modules/math.js:76 | the first loop stops at the first doubled denominator with n/d < 2 |
| Octave.RaiseNum | js/modules/math.js:77 | the second loop stops at the first doubled numerator with n/d >= 1, staying below 2 |
| Octave.RaiseDenMatches | js/modules/math.js:76 | on fractions the first loop does what halving does on reals |
| Octave.RaiseNumMatches | js/modules/math.js:77 | on fractions the second loop does what doubling does on reals |
| Octave.FoldFrac | js/modules/math.js:73-80 | the fold of a fraction is in lowest terms, in [1, 2), and 1/1 when the terms are equal |
| Octave.FoldFracMatchesFoldReal | js/modules/math.js:60-80 | the value of the fraction fold is the real fold of the value |
| Octave.LowestTermsValue | js/modules/math.js:78-79 | two positive fractions in lowest terms with equal values are equal |
| Octave.FoldFracScale | js/modules/math.js:73-80 | the fraction fold differs from the fraction by whole octaves |
| Octave.FoldFracIdempotent | js/modules/math.js:73-80 | folding a folded fraction changes nothing |
| Octave.FoldFracFixes | js/modules/math.js:73-80 | a fraction in lowest terms in [1, 2) is its own fold |
| Octave.FoldFracOctaveClass | js/modules/math.js:73-80 | two fractions fold to the same key exactly when they are whole octaves apart |
| Octave.NormalizeFrac | js/modules/math.js:73-80 | the loops and the gcd division compute the fraction fold |
| Primes.LargestPrimeDivisorUpTo | js/modules/math.js:87-103 | the largest prime up to k dividing n, or 1 when there is none |
| Primes.LargestPrimeFactorOf | js/modules/math.js:87-103 | 1 when the absolute value is at most 1, otherwise the largest prime factor of the absolute value |
| Primes.LargestPrimeDivisorFound | js/modules/math.js:87-103 | searching up to n finds the largest prime factor of n |
| Primes.LargestPrimeFactorUnique | js/modules/math.js:87-103 | the largest prime factor is unique |
| Primes.LargestPrimeFactorOfMultiple | js/index.js:48-50 | multiplying by a prime no larger than the base prime keeps the base prime |
| Primes.LargestPrimeFactor | js/modules/math.js:87-103 | the trial-division loops return the largest prime factor of the absolute value, or 1 |
| Primes.DivideOutAll | js/modules/math.js:91-99 | dividing p out as often as it goes keeps every prime factor either still dividing n or recorded, and removes all divisors up to p |
| Primes.DivideOut | js/modules/math.js:96-98 | one division by a prime p keeps n a divisor of the input and records p |
| Primes.OddSkipsEven | js/modules/math.js:95 | stepping p by 2 skips no divisor of the odd remainder |
| Primes.LastFactorIsPrime | js/modules/math.js:101 | the remainder above 2 once p*p > n is prime |
| Primes.TrialDivisionDone | js/modules/math.js:95-102 | when the loop ends, the remainder above 2 or else the recorded prime is the largest prime factor |
| Primes.FactorAllowed | js/modules/math.js:46-53 | true exactly when every prime factor of n is in the allowed list, and true for 1 |
| Primes.DividePrime | js/modules/math.js:50 | dividing m by p loses no other prime factor and adds none |
| Primes.PrimesUpTo | js/modules/math.js:26-38 | the sieve returns exactly the primes up to max(2, n), ascending |
| Primes.CrossOut | js/modules/math.js:32-34 | the inner loop clears exactly the multiples of p from p*p on |
| Primes.ModStep | js/modules/math.js:32 | stepping by p visits every multiple of p and nothing between |
| Primes.AliveStep | js/modules/math.js:30-36 | a number stays marked after p exactly when p does not strike it |
| Primes.CompositeStruck | js/modules/math.js:31 | multiples of an unmarked p are already struck |
| Primes.AliveAtEnd | js/modules/math.js:30-37 | when the sieve ends a number is still marked exactly when it is prime |
| Seqs.DedupElements | js/modules/math.js:139-147 | keeping first occurrences keeps every element and no duplicates |
| Seqs.DedupOfDistinct | js/modules/math.js:139-147 | a list without repeats passes through the seen-set filter unchanged |
| Seqs.DedupOrder | js/modules/math.js:139-147 | kept elements appear in the order of their first occurrences |
| Seqs.DedupSnoc | js/modules/math.js:141-146 | a further element is appended exactly when it has not been seen |
| Seqs.DedupSeenStep | js/modules/math.js:142-145 | one turn of the loop keeps the output and the seen set in step with the prefix read |
| Seqs.DedupBySeen | js/modules/math.js:139-147 | the seen-set loop returns the input without repeats, first occurrences in order |
| Seqs.Remove | js/modules/audio.js:209 | deleting a key keeps every other key and no duplicates |
| Seqs.RemoveHead | js/modules/audio.js:216 | deleting the first key of a duplicate-free list leaves its tail |
| Seqs.DistinctCount | js/modules/audio.js:230-232 | a duplicate-free list has as many elements as its set |
| Seqs.Added | js/index.js:322 | adding a key to a set puts it in, keeps the rest and adds no duplicate |
| GridSets.OddSet | js/modules/math.js:110-114 | the odd numbers from 1 to L, ascending, the k-th being 2k+1 |
| GridSets.OddLimit | js/modules/math.js:123-124 | the largest odd number up to max(1, L) |
| GridSets.LimitSet | js/modules/math.js:122-130 | the ascending odd numbers up to the limit; under a prime limit of 2 or more, only those whose prime factors stay within it |
| GridSets.FilterAllowed | js/modules/math.js:128-129 | the filter keeps exactly the odds whose prime factors are at most p, in order |
| GridSets.AscendingByElements | js/modules/math.js:122-130 | two ascending lists with the same elements are equal, so the limit set is determined |
| GridSets.LimitSetUnfiltered | js/modules/math.js:122-130 | odd limit 5 with no prime limit gives 1, 3, 5 |
| GridSets.LimitSetFiltered | js/modules/math.js:122-130 | odd limit 9 with prime limit 3 gives 1, 3, 9 |
| GridSets.PrimeLimit | js/modules/math.js:126-127 | the prime limit is the parsed integer when it is at least 2, otherwise there is none |
| GridSets.DecimalValue | js/modules/math.js:126 | the digits of n read back as n |
| GridSets.ParseIntDigits | js/modules/math.js:126 | parseInt reads a leading run of digits and stops at the first other character |
| GridSets.ParseIntMinus | js/modules/math.js:126 | a minus sign negates the number that follows |
| GridSets.ParseIntDecimal | js/modules/math.js:126 | parsing the decimal text of n, or of -n, gives it back |
| GridSets.ParseIntEmpty | js/modules/math.js:126 | an empty text or a bare minus sign is not a number |
| GridSets.DigitPrefix | js/modules/math.js:138 | the longest run of digits at the start of the text |
| GridSets.TrimStart | js/index.js:352 | trimming leaves no white space at the start |
| GridSets.TrimEnd | js/index.js:352 | trimming leaves no white space at the end |
| GridSets.DigitRuns | js/modules/math.js:138 | splitting at non-digits and dropping empty parts gives non-empty runs of digits |
| GridSets.RunValues | js/modules/math.js:138 | the runs read as numbers, keeping only the positive ones |
| GridSets.ParseCustom | js/modules/math.js:137-148 | the positive numbers in the text without repeats, first occurrences in order; nothing for an empty or missing text |
| GridSets.DigitRunsJoin | js/modules/math.js:138 | numbers joined by a non-digit split back into their numerals |
| GridSets.RunValuesNumerals | js/modules/math.js:138 | positive numerals read back as their numbers |
| GridSets.ParseCustomJoin | js/modules/math.js:137-148 | positive numbers written with any non-digit separator parse back to the same list |
| GridSets.ParseCustomJoinDistinct | js/modules/math.js:137-148 | parsing a joined list of distinct positive numbers returns that list |
| GridSets.BuildOddLimit | js/index.js:350 | build's odd limit: the parsed field (1 when it is not a number), made odd and at least 1 |
| GridSets.BuildOddLimitStable | js/index.js:350 | the limit build passes on is already normalised, so limitset does not change it |
| GridSets.Clamp | js/modules/math.js:157 | the result lies in [a, b] when a <= b, is x inside it, a below and b above |
| Diamond.ReducedCell | js/index.js:208-209 | the cell's pitch is b/a reduced: positive, coprime, same value, 1/1 on the diagonal |
| Diamond.ReduceCell | js/index.js:208-209 | dividing both values by their gcd computes the reduced cell |
| Diamond.GcdSelf | js/index.js:209 | a diagonal cell's gcd is its value |
| Diamond.CellValue | js/index.js:209-210 | the reduced cell's value is b/a |
| Diamond.ReducedCellUnique | js/index.js:209 | the reduced cell is the only coprime pair with the value b/a |
| Diamond.RatioFor | js/index.js:94 | the sounded ratio is positive, and in [1, 2) in normalised mode |
| Diamond.NoteKeyFor | js/index.js:95-102 | in normalised mode the key is the fold in lowest terms, in [1, 2); otherwise the reduced pair itself |
| Diamond.KeyMirrorsPitch | js/index.js:95-102 | two reduced cells share a key exactly when they sound the same ratio |
| Diamond.NormKeyOctaveClass | js/index.js:97-100 | in normalised mode two cells share a key exactly when their ratios are whole octaves apart |
| Diamond.DiagonalKey | js/index.js:413-418 | every diagonal cell has the key 1/1 in every mode |
| Diamond.MakeLabel | js/index.js:175-179 | rows mode shows column over row unreduced; otherwise the normalised fraction |
| Diamond.LabelMeaning | js/index.js:175-179 | a rows label has the cell's value; any other label is in lowest terms in [1, 2) with the value the cell sounds in normalised mode |
| Diamond.UnisonLabel | js/index.js:175-179 | diagonal cells are labelled 1/1 |
| Diamond.Hue | js/index.js:15 | the fallback hue lies in [0, 360) |
| Diamond.Pow085Decreasing | js/index.js:51 | the powers of 0.85 fall strictly and stay in (0, 1] |
| Diamond.Saturation | js/index.js:51 | saturation lies in [28, 75] and is 75 at distance 1 |
| Diamond.SaturationFalls | js/index.js:50-51 | saturation never rises with distance from the base prime, and falls strictly until the floor |
| Diamond.ColorByPrimeBase | js/index.js:46-54 | 1 gets the unison colour and nothing else does; otherwise the base prime's hue from the map (or the fallback), lightness 60, and the saturation of the family member k = n / p, which lies in [28, 75] |
| Diamond.FamilySharesHue | js/index.js:48-51 | multiplying by a prime no larger than the base keeps the hue and does not raise the saturation, and lowers it strictly while above the floor of 28 |
| Diamond.FamilyDistance | js/index.js:50 | multiplying by q multiplies the distance from the base prime by q, which makes it strictly larger |
| Diamond.SaturationOfThreeSixNine | js/index.js:438-445 | 3, 6 and 9 share a hue and their saturations strictly fall in that order, as the page's colour check expects |
| Diamond.HueAt | js/index.js:160 | the i-th of m evenly spaced hues lies in [0, 360) |
| Diamond.SpreadMonotone | js/index.js:160 | the spacing grows with the index |
| Diamond.HueAtDistinct | js/index.js:160 | different indices get different hues |
| Diamond.EvenlySpacedDistinct | js/index.js:152-163 | different base primes of one grid get different hues in [0, 360) |
| Diamond.GridHuesDistinct | js/index.js:46-54 | two grid values with different base primes are coloured with different hues |
| Diamond.InsertFacts | js/index.js:155 | inserting keeps the list ascending and adds exactly the new element |
| Diamond.SortAscending | js/index.js:155 | the sort returns the distinct bases ascending, as many and the same elements |
| Diamond.SortedRanks | js/index.js:155-161 | in the sorted list each prime sits at its rank among the bases |
| Diamond.CollectBases | js/index.js:153-154 | exactly the base primes of the grid values above 1, each once |
| Diamond.HuesEvenlySpaced | js/index.js:158-162 | the filled map gives each base prime the hue of its rank, evenly spaced |
| Diamond.GridState.constructor | js/index.js:149-151 | the grid starts with no values and an empty hue map |
| Diamond.GridState.ComputePrimeHueMap | js/index.js:152-163 | the map holds exactly the base primes of the values, evenly spaced by rank; the values are unchanged |
| Diamond.GridState.Build | js/index.js:347-357 | limit mode builds the limit set of the normalised odd limit; custom mode parses the trimmed text; the hue map fits the new values |
| Audio.Ensure | js/modules/audio.js:82-147 | the context is created once and never dropped; a failed construction leaves nothing; only a granted resume changes its state; the banner is hidden exactly when a running context is returned |
| Audio.GraphFaultIsSticky | js/modules/audio.js:89-125 | a graph failure at the master node leaves a context without a master, and later calls return that context without rebuilding |
| Audio.EnsureStable | js/modules/audio.js:133-146 | a running context is returned unchanged with the banner hidden |
| Audio.EnsureTimes | js/modules/audio.js:160-161 | after the first of several ensureAudio calls, whether a context and a master gain exist no longer changes |
| Audio.EnsureSettles | js/modules/audio.js:133-146 | repeated ensureAudio calls settle by the second: every later call leaves the engine as it is |
| Audio.EnsureTimesShift | js/modules/audio.js:160-161 | one call followed by n more is n + 1 calls |
| Audio.AttackSeconds | js/modules/audio.js:175 | the attack in seconds is the setting over 1000, never negative |
| Audio.ReleaseSeconds | js/modules/audio.js:176 | the stored release is the setting over 1000, at least 0.01 ms |
| Audio.NewVoice | js/modules/audio.js:165-184 | a new voice ramps from now to full gain over the attack and stores a release of at least the floor |
| Audio.FadeSeconds | js/modules/audio.js:193 | the fade lasts at least 50 ms and at least the stored release; 0.25 s when none is stored |
| Audio.FadeOfNewVoice | js/modules/audio.js:176-193 | a voice from noteOn fades over max(0.05, release/1000) |
| Audio.ReleaseBounds | js/modules/audio.js:188-201 | noteOff ramps from now towards the floor gain and stops no earlier than the fade allows |
| Audio.ReleasesOfAt | js/modules/audio.js:215-216 | stopAll's releases come one per key, in key order |
| Audio.AudioEngine.constructor | js/modules/audio.js:7-10 | no context, no master, no voices |
| Audio.AudioEngine.EnsureAudio | js/modules/audio.js:82-147 | the engine follows the lifecycle and the voices are untouched |
| Audio.AudioEngine.NoteOn | js/modules/audio.js:160-186 | with no context nothing starts; a sounding key is not retriggered; without a master it throws before registering; otherwise the key is added with its new voice, after the others, and the banner is hidden; in every other case ensureAudio's banner stays |
| Audio.AudioEngine.NoteOff | js/modules/audio.js:188-210 | a sounding key is released and forgotten and nothing else changes; an absent key is a no-op |
| Audio.AudioEngine.StopAll | js/modules/audio.js:215-218 | every voice is released in insertion order and the registry ends empty |
| Audio.AudioEngine.StopNext | js/modules/audio.js:216 | one turn of stopAll releases the oldest key and keeps the rest |
| Audio.AudioEngine.IsNoteActive | js/modules/audio.js:223-225 | true exactly when the key is registered |
| Audio.AudioEngine.ActiveNoteCount | js/modules/audio.js:230-232 | the number of registered keys, 0 exactly when none sounds |
| InlineAudio.TimeConstant | js/index.js:112-114 | the attack time constant is the setting in seconds, at least 1 ms |
| InlineAudio.NewInlineVoice | js/index.js:109-116 | an approach to full gain from now where supported, otherwise a jump to it at now |
| InlineAudio.InlineEngine.constructor | js/index.js:57 | no context, no master, no voices |
| InlineAudio.InlineEngine.EnsureAudio | js/index.js:65-82 | the inline engine follows the same lifecycle function as the module engine and the voices are untouched |
| InlineAudio.InlineEngine.NoteOn | js/index.js:105-118 | the same cases as the module engine, with the inline voice; a started voice hides the banner, otherwise ensureAudio's banner stays |
| InlineAudio.InlineEngine.NoteOff | js/index.js:119-132 | a sounding key is silenced now and forgotten; an absent key is a no-op |
| InlineAudio.InlineEngine.StopAll | js/index.js:133 | every key is silenced in insertion order and the registry ends empty |
| Gesture.TileKey | js/index.js:322 | a tile's key has positive terms |
| Gesture.KeyFreqMatchesTile | js/index.js:334-335 | reading the frequency back from a key gives the tile's frequency |
| Gesture.ReleaseDelay | js/index.js:322 | a note is released max(10, release) + 40 ms after it starts, at least 50 ms |
| Gesture.StepMs | js/index.js:336 | the time between the clicks, clamped to [40, 1200] ms |
| Gesture.ArpIntervalMs | js/index.js:335 | the arpeggio interval is the step clamped to [40, 1200], 120 for a zero step |
| Gesture.ArpeggioKeepsStep | js/index.js:335-336 | an arpeggio from a second click plays at exactly the clamped time between the clicks |
| Gesture.CellKeys | js/index.js:333 | one key per cell, in cell order |
| Gesture.TriggerSpec | js/index.js:322 | a tile already sounded in the gesture, or no tile, changes nothing; otherwise its key is marked and ensureAudio runs; if noteOn throws the key is neither sustained nor released; otherwise it is sustained under Shift or released after the delay; other voices are untouched, and a voice starts only for this key and only with audio up |
| Gesture.TriggerOncePerGesture | js/index.js:322 | triggering the same tile again in the same gesture is a Repeat that changes nothing |
| Gesture.GestureController.constructor | js/index.js:312-331 | no Shift, no sustained keys, no gesture, no armed axis |
| Gesture.GestureController.ShiftDown | js/index.js:313 | Shift is held and nothing else changes |
| Gesture.GestureController.ShiftUp | js/index.js:314 | Shift is released and exactly the sustained keys stop; the other voices, the gesture and the axes are unchanged |
| Gesture.GestureController.ReleaseSustained | js/index.js:317 | exactly the sustained keys stop, the other voices keep sounding, and the set empties |
| Gesture.GestureController.ReleaseFirst | js/index.js:317 | one turn of the loop stops the first sustained key and removes it, and nothing else changes |
| Gesture.GestureController.Panic | js/index.js:133-134 | the panic button, and the page becoming hidden, leave no voice sounding and no key sustained, and change neither the context nor the gesture nor the axes |
| Gesture.GestureController.TriggerTile | js/index.js:322 | the trigger changes the gesture, the sustained keys and the engine exactly as TriggerSpec says, and changes neither Shift nor the pointer nor the axes |
| Gesture.GestureController.ReleaseTimer | js/index.js:322 | the timer removes exactly its key from the voices; the context and master are unchanged |
| Gesture.GestureController.PointerDown | js/index.js:324 | off the axes a gesture starts for this pointer and its tile is triggered on an empty touched set; on an axis tile nothing changes |
| Gesture.GestureController.GestureResume | js/index.js:136-138 | the capture-phase listener leaves the engine exactly as one ensureAudio call would, skipping the call (and its banner) only for a running context |
| Gesture.GestureController.ViewportPointerDown | js/index.js:328 | a press leaving exactly one touch or pen pointer in the pinch tracker ends the gesture; otherwise nothing changes |
| Gesture.GestureController.Press | js/index.js:324-328 | a whole stage pointerdown: ensureAudio from the capture listener, then the trigger on an empty touched set as TriggerSpec says, then the gesture ends when the pinch tracker holds exactly one pointer, with touched emptied if a gesture was active; an axis press only runs ensureAudio and the same ending |
| Gesture.GestureController.PressIntended | js/index.js:328 | the same press, tile or axis, with the gesture ending only when a second touch pointer starts a pinch |
| Gesture.GestureController.KeyDown | js/index.js:136-138 | a keydown runs ensureAudio through the capture listener and holds Shift for the Shift key; nothing else changes |
| Gesture.GestureController.PointerMove | js/index.js:325 | the gesture's own pointer triggers its tile as TriggerSpec says; another pointer, or no gesture, changes nothing |
| Gesture.GestureController.PointerEnd | js/index.js:326-327 | lifting or cancelling the gesture's pointer ends it; another pointer changes nothing; Shift, sustained keys and axes stay |
| Gesture.GestureController.EndGesture | js/index.js:323 | the gesture ends and its touched set empties; sustained notes stay |
| Gesture.GestureController.UniqueKeys | js/index.js:333 | the line's keys without repeats, in first-seen order |
| Gesture.GestureController.SoundKeys | js/index.js:334 | each noteOn runs ensureAudio again; with audio up every key sounds with its new voice, with a context but no master every noteOn throws and nothing starts, and sounding voices are untouched |
| Gesture.GestureController.ReleaseKeys | js/index.js:334 | exactly these keys stop; the remaining voices and the context are unchanged |
| Gesture.GestureController.SustainAll | js/index.js:334 | the keys join the sustained set |
| Gesture.GestureController.PlayChord | js/index.js:334 | ensureAudio runs once and once per key; with audio up every distinct key sounds; if the noteOns throw nothing is sustained or scheduled; otherwise the keys are sustained or released together after the delay |
| Gesture.GestureController.AxisClick | js/index.js:336 | Shift-click plays a sustained chord with everything PlayChord states: the engine after one ensureAudio plus one per key, old voices kept, new voices exactly the line's keys, and the keys joining the sustained set unless their noteOns throw; a click on an idle axis arms it for 2000 ms, and so does one on an axis armed at time 0, which the source's truthiness test reads as unarmed; a click on an armed axis disarms it and starts an arpeggio at the clamped elapsed time; arming and arpeggio leave the voices and the sustained set alone |
| Gesture.GestureController.PlayArpeggio | js/index.js:335 | ensureAudio runs once and no voice starts; a fresh arpeggiator over the line's distinct keys, at the clamped interval |
| Gesture.GestureController.ArmTimeout | js/index.js:336 | the arming window's expiry disarms the axis and nothing else |
| Gesture.GestureController.Tick | js/index.js:335 | each tick plays the next key, which starts when audio is up, and returns its release delay unless its noteOn threw; after the last key the interval stops and nothing else changes |
| Gesture.Arpeggiator.constructor | js/index.js:335 | the arpeggio starts at its first key, running |
| Gesture.TouchDragStopsAtFirstTile | js/index.js:324-328 | a single-finger press on one tile followed by a move onto another sounds the first tile and leaves the second silent |
| Gesture.TouchDragContinues | js/index.js:328 | with the intended listener the same drag sounds the second tile when its key differs |

## Left out

- JavaScript's `n | 0` truncation to 32 bits, in `largestPrimeFactor`, `primesUpTo` and `limitset`. The model takes integers as given.
- Floating-point arithmetic. Ratios, gains and times are exact reals, and `Math.round` and `toFixed` in the colour text are not modelled. `NaN` and `Infinity` from `parseInt` and `parseFloat` are not modelled, including the `NaN` fallback of `stepMs || 120`.
- Web Audio node internals: oscillator types, the master gain value, the limiter settings and the dummy priming oscillator. The `onended` disconnect callback is also left out. A release is returned as a value with its start, end and target gain.
- Timers (`setTimeout`, `setInterval`, `clearTimeout`). A scheduled release is returned as a delay, and its firing is `ReleaseTimer`. An arpeggio step is `Tick`. The arming window is returned by `AxisClick`, and its expiry is `ArmTimeout`.
- The DOM:
  - the banner text (which banner `ensureAudio` leaves, and its hiding when `noteOn` starts a voice, are modelled);
  - the `play` and `armed` classes on tiles;
  - `tileFromPoint`, `collectLineCells` and rendering (a line's cells are passed in);
  - pinch zoom, apart from the pinch tracker's pointer count that the gesture layer reads;
  - the banner shown when the page becomes visible again without a running context.
- Asynchronous interleaving. `await` points run to completion in order, and `Promise.all` in `playChord` is modelled as its notes started one after another.
- `onstatechange`, which only toggles the banner.
- Gesture.GestureController.Panic: it does not state the order of the releases; `InlineAudio.InlineEngine.StopAll` states it.
- Audio.AudioEngine.StopAll: the `window._stopAllSustain` hook it calls afterwards belongs to the page (`js/index.js:318`) and acts on the page's own registry, so it is modelled there, as `Gesture.GestureController.Panic`.
- Rejected promises: a `noteOn` that throws ends the calling handler, which the model states for `triggerTile`, `playChord` and the arpeggio tick; the console error itself is not modelled.

## Findings

| source | as written | input that shows it | evidently intended | confidence | as-written member | corrected member |
|---|---|---|---|---|---|---|
| js/index.js:328 | the viewport's pointerdown listener ends the gesture when the pinch tracker holds exactly one pointer, which it does after any single touch or pen press, since the tracker's own listener has already recorded it | one finger pressed on tile A and dragged onto tile B: B stays silent, so drag-to-play sounds only the first tile on a touch screen | end the drag gesture when a second finger arrives and a pinch starts, so one finger keeps playing (proved as Gesture.TouchDragContinues) | medium, not executed | Gesture.TouchDragStopsAtFirstTile | Gesture.GestureController.PressIntended |
