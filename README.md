# Spelling practice panel and dev-server launcher, modelled in Dafny

This project models two parts of a small English-vocabulary web app.

**The practice panel** (`Practice`, `practice.dfy`). This is a click-to-spell mini-game over a fixed list of three words: focus, resilient, orbit.

- For the current word, the letters are dealt as tiles into a shuffled pool, with one empty answer slot per letter.
- Clicking a tile moves it into the lowest empty slot. Clicking a filled slot sends its tile back to the end of the pool.
- Checking compares the assembled answer with the word, ignoring case. The result is incomplete, correct, wrong, or completed on the last word.
- A wrong answer costs a life, with a floor of 0. A right answer grows the streak, and a wrong one resets it.
- "Next" advances only after a correct answer. A finished session, or one with no lives left, is locked: clicks, checks and board resets then change nothing.

The component's state hooks become the fields of the class `PracticePanel`, and each handler becomes a method on it. React replaces arrays rather than mutating them, so the pool and the slots are `seq` fields that the handlers reassign. `shuffle` keeps its array: it swaps elements in place on a fresh copy.

The class invariant `Valid` covers three things:
- the step indexes a word;
- lives stay within 0..3;
- the board is conserved: the pool together with the filled slots holds each tile of the current word exactly once.

Each handler keeps `Valid`, and from it follow the tile-level facts: distinct ids, an empty pool once the board is full, and an answer that is a rearrangement of the word.

The handlers also keep `SessionValid`: `Valid`, plus the fact that lives reach 0 only through a wrong answer. With it, "Next" also does nothing on a locked panel. A locked session therefore stays exactly as it is, whatever the user clicks.

**The launcher's two parsers** (`DevScript`, `devscript.dfy`):

- `resolvePort` picks the port from `DEV_SERVER_PORT`, `VITE_PORT` and `PORT`, in that order, or falls back to 5173. The process environment is a parameter: a map from variable name to value, where an absent key is an unset variable.
- `parsePidsFromOutput` reads process ids from the output of a port-lookup command:
  - it splits the output on `\r?\n` and trims each line;
  - it drops blank lines;
  - it parses the last whitespace-separated token of each remaining line;
  - it drops NaN and keeps each id at its first occurrence.
  Output that is `undefined` is `None`.

Both rest on a model of JavaScript's text primitives:
- ECMAScript's white-space and line-terminator characters, as `trim`, `\s` and `parseInt` see them;
- `String.prototype.trim`;
- `Number.parseInt(s, 10)`: skip leading white space, accept one sign, read the longest digit run; no digits is NaN, written `None`.

`Wrappers` (`wrappers.dfy`) holds the `Option` type both modules share.

## Model

| member | source | states |
|---|---|---|
| Practice.AllFilled | src/components/PracticePanel.tsx:174 | No contract of its own; the negation of `slots.some(slot => slot === null)`, deciding the incomplete branch. FirstEmptySpec states that no empty slot is found exactly when it holds; HandleCheck, CompleteBoard and CheckIsExact use it |
| Practice.CreateTiles | src/components/PracticePanel.tsx:44-48 | No contract of its own; characterised by CreateTilesSpec and CreateTilesCount |
| Practice.CreateTilesSpec | src/components/PracticePanel.tsx:44-48 | The created tiles spell the word, letter by letter, and carry pairwise distinct ids |
| Practice.CreateTilesCount | src/components/PracticePanel.tsx:44-48 | Each tile (i, word[i]) occurs exactly once among the created tiles, and no other tile occurs |
| Practice.EmptySlots | src/components/PracticePanel.tsx:98 | n slots, every one empty |
| Practice.Shuffle | src/components/PracticePanel.tsx:50-57 | The result has the input's length and is a rearrangement of it (same multiset), for every choice of swap index; the input sequence is not touched |
| Practice.FindTile | src/components/PracticePanel.tsx:138 | A tile found is in the pool and has the requested id |
| Practice.FindTileSpec | src/components/PracticePanel.tsx:138-139 | Nothing is found exactly when no pool tile has the id; otherwise the first tile with that id is found |
| Practice.RemoveTile | src/components/PracticePanel.tsx:146 | No contract of its own; characterised by RemoveTileCount and TakeTile |
| Practice.RemoveTileCount | src/components/PracticePanel.tsx:146 | Filtering by id removes every tile with that id and keeps every other tile as often as it was there |
| Practice.FirstEmpty | src/components/PracticePanel.tsx:140 | An index found is in range and names an empty slot |
| Practice.FirstEmptySpec | src/components/PracticePanel.tsx:140-141 | No index is found exactly when every slot is filled; the index found is the lowest empty one |
| Practice.PlacedUpdate | src/components/PracticePanel.tsx:143-144 | Replacing one slot changes the placed tiles by exactly the tile that left and the one that arrived |
| Practice.Assembled | src/components/PracticePanel.tsx:179 | No contract of its own; characterised by AssembledIsPlacedLetters |
| Practice.AssembledIsPlacedLetters | src/components/PracticePanel.tsx:179 | The assembled answer is the letters of the placed tiles in slot order; an empty slot contributes nothing |
| Practice.LowerChar | src/components/PracticePanel.tsx:179-180 | ASCII capitals map to the matching small letter; every other character is unchanged |
| Practice.LowerCase | src/components/PracticePanel.tsx:179-180 | The result has the input's length; beyond that it is characterised by LowerChar, which it applies to every character, and by CheckIsExact |
| Practice.InitialBoardConserved | src/components/PracticePanel.tsx:96-98 | A pool that rearranges the word's tiles, with all slots empty, satisfies the board invariant |
| Practice.TakeTile | src/components/PracticePanel.tsx:146 | On a conserved board, filtering out a pool tile's id removes that one tile and nothing else |
| Practice.FillConserves | src/components/PracticePanel.tsx:137-148 | Moving the found tile into the lowest empty slot and filtering it out of the pool keeps the board invariant |
| Practice.ClearConserves | src/components/PracticePanel.tsx:150-158 | Emptying a filled slot and appending its tile to the pool keeps the board invariant |
| Practice.ConservedLetters | src/components/PracticePanel.tsx:137-158 | Under the invariant, pool letters plus assembled letters are the word's letters as a multiset |
| Practice.ConservedDistinctIds | src/components/PracticePanel.tsx:46 | Under the invariant, no two tiles on the board (pool and slots) share an id |
| Practice.CompleteBoard | src/components/PracticePanel.tsx:174-180 | With every slot filled the pool is empty, and the assembled answer has the word's length and letters |
| Practice.CheckIsExact | src/components/PracticePanel.tsx:179-180 | For a lower-case word and a full board, the case-insensitive check succeeds exactly when the answer equals the word |
| Practice.PracticePanel.CurrentWord | src/components/PracticePanel.tsx:71 | No contract of its own; `demoWords[step]`, defined because `Valid` keeps the step inside the word list. HandleCheck compares against it, and FreshBoard and the board invariant are stated over it |
| Practice.PracticePanel.Locked | src/components/PracticePanel.tsx:72-74 | No contract of its own; it is the guard under which HandleTileClick, HandleSlotClick, HandleCheck, HandleResetBoard and HandleNext leave the panel unchanged |
| Practice.PracticePanel.CanGoNext | src/components/PracticePanel.tsx:194 | No contract of its own; HandleNext states that the step advances exactly when it holds |
| Practice.PracticePanel.constructor | src/components/PracticePanel.tsx:59-65 | A mounted active panel is at word 0 with 3 lives, no streak and a freshly dealt board |
| Practice.PracticePanel.InitializeBoard | src/components/PracticePanel.tsx:86-102 | The pool is a rearrangement of the current word's tiles, there is one empty slot per letter, the result is idle, and step, lives and streak are unchanged |
| Practice.PracticePanel.Activate | src/components/PracticePanel.tsx:104-126 | Activation resets to word 0, 3 lives and no streak, and deals that word's board |
| Practice.PracticePanel.FillNextSlot | src/components/PracticePanel.tsx:137-148 | An unknown tile id or a full row changes nothing. Otherwise the tile goes into the lowest empty slot, every other slot is kept, the tile leaves the pool and the result becomes idle. The invariant is kept |
| Practice.PracticePanel.ClearSlot | src/components/PracticePanel.tsx:150-158 | An out-of-range or empty slot changes nothing. Otherwise the slot empties, its tile is appended to the pool, other slots are kept and the result becomes idle. The invariant is kept |
| Practice.PracticePanel.HandleTileClick | src/components/PracticePanel.tsx:160-163 | A locked panel is unchanged; otherwise as FillNextSlot |
| Practice.PracticePanel.HandleSlotClick | src/components/PracticePanel.tsx:165-168 | A locked panel is unchanged; otherwise as ClearSlot |
| Practice.PracticePanel.HandleCheck | src/components/PracticePanel.tsx:170-192 | Locked: unchanged. A board with an empty slot: incomplete, nothing else changes. A full board matching the word ignoring case: completed on the last word, correct otherwise, and the streak grows by 1. Otherwise: wrong, lives become max(0, lives - 1) and the streak resets. The board is never touched |
| Practice.PracticePanel.HandleNext | src/components/PracticePanel.tsx:194-199 | It advances exactly one word, with a fresh board and lives and streak kept, only after a correct answer that was not on the last word; otherwise nothing changes. In particular a locked panel is unchanged |
| Practice.PracticePanel.HandleResetBoard | src/components/PracticePanel.tsx:201-204 | A locked panel is unchanged; otherwise the current word is dealt again, keeping step, lives and streak |
| DevScript.IsJsSpace | scripts/start-dev.js:29-34 | No contract of its own; ECMAScript's WhiteSpace plus LineTerminator characters, the set that `trim`, `split(/\s+/)` and `parseInt` skip. TrimStart, TrimEnd, LastToken and ParseIntSkipsSpace are stated over it |
| DevScript.TrimStart | scripts/start-dev.js:29 | The result is a suffix of the input, what was cut is all white space, and the result does not start with white space |
| DevScript.TrimEnd | scripts/start-dev.js:29 | The result is a prefix of the input, what was cut is all white space, and the result does not end with white space |
| DevScript.Trim | scripts/start-dev.js:29 | No contract of its own; characterised by TrimSpec, TrimEdges and TrimEmptyIffBlank |
| DevScript.TrimSpec | scripts/start-dev.js:29 | A trimmed line is a stretch of the line with only white space on either side |
| DevScript.TrimEdges | scripts/start-dev.js:29 | A non-empty trimmed line neither starts nor ends with white space |
| DevScript.TrimEmptyIffBlank | scripts/start-dev.js:29-30 | A line trims to nothing exactly when it is all white space |
| DevScript.DigitPrefix | scripts/start-dev.js:34 | The longest run of digits at the start: a prefix, all digits, and the next character is not a digit |
| DevScript.DigitsValue | scripts/start-dev.js:34 | No contract of its own; the value `parseInt` gives a run of decimal digits. DecimalString states that it reads back `String(n)`, and ParseIntStopsAtNonDigit and ParseIntSigned use it |
| DevScript.ParseInt | scripts/start-dev.js:34 | No contract of its own; characterised by ParseIntSkipsSpace, ParseIntStopsAtNonDigit, ParseIntSigned, ParseIntSignWithoutDigits, ParseIntNoDigits and ParseIntDecimal |
| DevScript.ParseSigned | scripts/start-dev.js:34 | No contract of its own; the sign-and-digits step of ParseInt, characterised by ParseIntSigned and ParseIntSignWithoutDigits |
| DevScript.DecimalString | scripts/start-dev.js:121-123 | `String(n)`: non-empty, all digits, no leading zero, and it denotes n |
| DevScript.ParseIntDecimal | scripts/start-dev.js:17 | parseInt reads back the decimal form of every natural number |
| DevScript.ParseIntSkipsSpace | scripts/start-dev.js:34 | Leading white space never changes what parseInt returns |
| DevScript.ParseIntStopsAtNonDigit | scripts/start-dev.js:34 | A digit run followed by anything that is not a digit parses to the value of the run |
| DevScript.ParseIntSigned | scripts/start-dev.js:34 | A `-` directly before a digit run negates its value and a `+` keeps it; parsing stops at the first non-digit after the run |
| DevScript.ParseIntSignWithoutDigits | scripts/start-dev.js:34-35 | A sign not followed by a digit (a lone sign, a doubled sign, a sign before a letter or white space) is NaN |
| DevScript.ParseIntNoDigits | scripts/start-dev.js:34-35 | Empty text, and text starting with anything but white space, a sign or a digit, is NaN |
| DevScript.IsPort | scripts/start-dev.js:18 | No contract of its own; the test `parsed > 0 && parsed < 65536`. FirstPort, ResolvePort and LauncherPort state their results against it |
| DevScript.DefaultPortIsPort | scripts/start-dev.js:13 | The default port 5173 lies in 1..65535; LauncherPort relies on it for its range |
| DevScript.PortFromKey | scripts/start-dev.js:15-18 | No contract of its own; the per-variable test, characterised by FirstPort, FirstPortIsFirstUsable and FirstPortNone |
| DevScript.FirstPort | scripts/start-dev.js:18-19 | Any port found lies in 1..65535 |
| DevScript.FirstPortIsFirstUsable | scripts/start-dev.js:14-20 | If variable i is usable and none before it is, variable i's port is chosen |
| DevScript.FirstPortNone | scripts/start-dev.js:13-22 | No port is found exactly when no variable is set, non-empty and a number in 1..65535 |
| DevScript.ResolvePort | scripts/start-dev.js:11-23 | It returns the first usable variable's port in the order DEV_SERVER_PORT, VITE_PORT, PORT, or else the default, which is 5173 when left out; the port is in 1..65535 whenever the default is |
| DevScript.LauncherPort | scripts/start-dev.js:152 | `main`'s call without a default: the first usable variable's port, or 5173, and so always a port in 1..65535 |
| DevScript.LaunchEnvResolvesToPort | scripts/start-dev.js:119-124 | The child environment with all three variables set to `String(port)` resolves to that same port |
| DevScript.SplitLines | scripts/start-dev.js:28 | Never empty; characterised by SplitLinesNoLineFeed, SplitLinesJoin and SplitLinesCrlf |
| DevScript.SplitLinesNoLineFeed | scripts/start-dev.js:28 | The split cuts at every line feed: no piece holds one |
| DevScript.SplitLinesJoin | scripts/start-dev.js:28 | For text without carriage returns, the pieces hold no line feed and, joined with line feeds, give the text back; so they are exactly the text's lines |
| DevScript.SplitLinesCrlf | scripts/start-dev.js:28 | Lines without line feeds, joined with carriage return and line feed, split back into exactly those lines: the carriage return belongs to the separator |
| DevScript.LastToken | scripts/start-dev.js:32-33 | The last token is a suffix of the line, contains no white space, and is preceded by white space unless it is the whole line |
| DevScript.LineEntry | scripts/start-dev.js:29-36 | No contract of its own; what one line adds, characterised by BlankLineContributesNothing and NonBlankLineContributesLastToken |
| DevScript.LinePids | scripts/start-dev.js:29-36 | No contract of its own; the entries of all lines in order, characterised by BlankLineContributesNothing and NonBlankLineContributesLastToken |
| DevScript.BlankLineContributesNothing | scripts/start-dev.js:29-30 | A white-space-only line adds no entry, wherever it stands |
| DevScript.NonBlankLineContributesLastToken | scripts/start-dev.js:31-36 | Any other line adds exactly the parse of its trimmed line's last token (None for NaN), in place |
| DevScript.IndexOf | scripts/start-dev.js:37 | `indexOf`: -1 exactly when the value is absent; otherwise an in-range position holding the value |
| DevScript.IndexOfIsFirst | scripts/start-dev.js:37 | No position before `indexOf`'s answer holds the value |
| DevScript.KeepFirstFrom | scripts/start-dev.js:37 | No contract of its own; characterised by KeepFirstMembers, KeepFirstOrder and KeepFirstSpec |
| DevScript.KeepFirstMembers | scripts/start-dev.js:37 | From position i on, the filter keeps exactly the numbers whose first occurrence is at or after i |
| DevScript.KeepFirstOrder | scripts/start-dev.js:37 | The numbers kept appear in the order of their first occurrence |
| DevScript.KeepFirstSpec | scripts/start-dev.js:37 | The dedup filter keeps every number of the list, drops NaN, keeps each number once, and keeps first-occurrence order |
| DevScript.ParsePidsFromOutput | scripts/start-dev.js:25-38 | No contract of its own; characterised by ParsePidsSpec |
| DevScript.ParsePidsSpec | scripts/start-dev.js:25-38 | Absent or empty output gives no ids. Otherwise the ids are exactly the numbers the lines yield, with no duplicates, in order of first appearance |

## Left out

- Rendering, CSS classes and the status messages of the panel: presentation only.
- Confetti pieces and the feedback-effect timer: they depend on random floating-point values, `Date.now` and `setTimeout`.
- When React runs its effects. `Activate` and `HandleNext` model the net result: the reset or the step change, then the board dealing that the changed word triggers.
- The deactivation branch of the activation effect. On deactivation the board is emptied and the panel renders nothing; the model describes the panel while it is shown.
- The branches for a missing current word in `initializeBoard`, `handleCheck` and `handleResetBoard`. The invariant keeps the step within the word list, so these cannot be reached.
- The `onClose` callback, and the ids, definitions and hints of the words: display only. Tile ids do not use the word id (see below).
- `Practice.Tile`: the random suffix of tile ids is not modelled. An id is the letter's index, which is already unique within a word.
- `Practice.Shuffle`: the random index is any index in [0, i]. Its uniform distribution is not modelled; only the permutation the component relies on is.
- `Practice.LowerChar`: `toLowerCase` is modelled for ASCII letters only. The three words are ASCII, and so is every letter that can reach a slot.
- `DevScript.ParseInt`: results are unbounded integers. `parseInt` returns a double, so digit runs beyond 2^53 lose precision there and not here. `-0` is read as 0, which `indexOf` and the port range treat the same way.
- `DevScript.ResolvePort`: the environment is a map parameter, not `process.env`.
- `getPidsOnPort`, `ensurePortFree`, `startDevServer` and `main`: they run shell commands, send signals and wait on timers. Only the environment handed to the dev server is modelled, by `LaunchEnvResolvesToPort`.
- The Cloudflare functions, the navigation helper, the Tailwind configuration and the static page components: I/O or markup with no logic to verify.
