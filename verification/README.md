# CommandProcessor undo engine in Dafny

CommandProcessor is a console program that keeps one shared `int` and applies
user-selected commands to it: Increment, Decrement, Double and RandomAdd. Each
command has an `exec` and an `undo`. Executed commands are pushed on a history
stack, and "undo" pops the most recent one and runs its `undo`.

This project models that core as pure functions over immutable values:

- `int32.dfy` (`Int32`): C#'s unchecked `int` arithmetic. Results wrap
  modulo 2^32 (`Wrap`), and `x / 2` truncates toward zero (`DivTwo`).
- `store.dfy` (`SharedStore`): the shared number of `ClassDecimalProcess`,
  with its property getter and setter.
- `commands.dfy` (`Commands`): the command datatype `Inc | Dec | Dbl | RandAdd(delta)`.
  It also holds `Exec`/`Undo`, the round-trip lemmas and `Random.Next(1, 10)`.
- `selector.dfy` (`Selector`): the console line is trimmed and lower-cased,
  then an if-else chain maps it to a command, to undo, or to invalid.
- `controller.dfy` (`Controller`): a session holds the store and the
  history. `Step` is one loop iteration and `Steps` runs a finite sequence
  of lines. The module ends with the history-length and undo-everything
  theorems.

Overflow policy: the source has no `checked` context, and C#'s default
build evaluates `int` arithmetic unchecked, so results wrap on overflow; the
model does the same. The only command whose undo can lose
information is Double whose product overflowed. `UndoReversesExec` states
exactly when an undo is lossy. `DoubleOverflowLosesSign` gives the value that
results in that case.

The word that selects RandomAdd follows the code, not the menu. The menu text
(`Program.cs:60`) and the file header advertise "randadd". The dispatcher
accepts only "4" or "random" (`Program.cs:94`), so "randadd" is an invalid
command. `Selector.RandaddIsInvalid` states this.

## Model

| member | source | states |
|---|---|---|
| Int32.Wrap | CommandProcessor/Classes/ClassDecimalProcess.cs:120 | the stored `int` has the same low 32 bits as the exact result, and equals it whenever the exact result fits |
| Int32.DivTwo | CommandProcessor/Classes/ClassDecimalProcess.cs:260 | halving rounds toward zero: the remainder is 0 or 1 for a non-negative value and 0 or -1 for a negative one |
| Int32.WrapAddSub | CommandProcessor/Classes/ClassDecimalProcess.cs:112-142 | adding k with wrap-around, then subtracting k with wrap-around, gives back every `int` |
| SharedStore.Store.Set | CommandProcessor/Classes/ClassDecimalProcess.cs:60-64 | reading the property after setting it returns the value set |
| SharedStore.Store.Get | CommandProcessor/Classes/ClassDecimalProcess.cs:55-62 | the store is determined by the number it returns; it holds nothing else |
| SharedStore.SetOverwrites | CommandProcessor/Classes/ClassDecimalProcess.cs:55-64 | a second write replaces the first completely, and writing back the value just read changes nothing |
| Commands.Exec | CommandProcessor/Classes/ClassDecimalProcess.cs:112-300 | each `exec` stores the exact result of +1, -1, *2 or +delta, wrapped to 32 bits, and that exact result when it fits |
| Commands.Undo | CommandProcessor/Classes/ClassDecimalProcess.cs:130-318 | each `undo` stores a value that its command's change maps back to the current value modulo 2^32; Double's undo stores the current value halved toward zero, whatever its parity |
| Commands.IncRoundTrip | CommandProcessor/Classes/ClassDecimalProcess.cs:112-142 | Increment's undo reverses its exec, and exec reverses undo, for every `int`, MaxValue included |
| Commands.DecRoundTrip | CommandProcessor/Classes/ClassDecimalProcess.cs:173-203 | Decrement's undo reverses its exec, and exec reverses undo, for every `int`, MinValue included |
| Commands.RandAddRoundTrip | CommandProcessor/Classes/ClassDecimalProcess.cs:283-318 | undo subtracts the recorded amount, so exec then undo (and undo then exec) restores every `int` for every amount 1 to 9 |
| Commands.DoubleExecEven | CommandProcessor/Classes/ClassDecimalProcess.cs:233-246 | Double's exec always stores an even number, overflow or not |
| Commands.DoubleRoundTrip | CommandProcessor/Classes/ClassDecimalProcess.cs:233-264 | Double's exec then undo restores the value if and only if twice the value fits in an `int` |
| Commands.DoubleOverflowLosesSign | CommandProcessor/Classes/ClassDecimalProcess.cs:248-264 | when the doubling overflows, the undo yields the value shifted by 2^31 into the other sign |
| Commands.DoubleUndoThenExec | CommandProcessor/Classes/ClassDecimalProcess.cs:206-264 | halving then doubling gives the value back if and only if it is even, as the "assumes an even number" note says |
| Commands.UndoReversesExec | CommandProcessor/Classes/ClassDecimalProcess.cs:79-82 | every command's undo restores the state before its exec, except a Double whose product overflowed, and only that one |
| Commands.Next | CommandProcessor/Classes/ClassDecimalProcess.cs:291-292 | `Random.Next(min, max)` returns at least min and less than max, and min when the two are equal |
| Commands.RandomAmount | CommandProcessor/Classes/ClassDecimalProcess.cs:292 | the amount RandomAdd draws lies in 1..9 |
| Commands.RandomAmountRange | CommandProcessor/Classes/ClassDecimalProcess.cs:18-20 | every amount from 1 to 9 can be drawn and no other, because the upper bound 10 is exclusive |
| Selector.IsWhiteSpace | CommandProcessor/Program.cs:76 | the characters `String.Trim()` strips: `Char.IsWhiteSpace`, that is Unicode categories Zs, Zl and Zp plus U+0009 to U+000D, U+0085 and U+00A0; `TrimStart`, `TrimEnd` and `TrimPadding` are stated against it |
| Selector.Trim | CommandProcessor/Program.cs:76 | leading white space removed, then trailing; `TrimPadding` shows padding disappears and `TrimEndsNonBlank` that the result neither starts nor ends with white space |
| Selector.Normalize | CommandProcessor/Program.cs:76 | the line trimmed, then lower-cased; `NormalizeIdempotent` shows a normalized line is a fixed point and `SelectIgnoresCaseAndPadding` that padding never matters |
| Selector.Classify | CommandProcessor/Program.cs:82-119 | the if-else chain on the normalized line; `ClassifyRun`, `ClassifyUndo` and `ClassifyInvalid` characterise it against the `Code`/`Word` tables and the ten `Accepted` texts |
| Selector.Select | CommandProcessor/Program.cs:76-119 | null input is invalid and a line is classified after normalization; `SelectRun`, `SelectUndo` and `SelectInvalid` give each outcome as an if-and-only-if |
| Selector.TrimEndsNonBlank | CommandProcessor/Program.cs:76 | a trimmed line that is not empty starts and ends with a character that is not white space |
| Selector.ClassifyInvalid | CommandProcessor/Program.cs:82-119 | a normalized text is invalid if and only if it is none of the ten accepted numbers and words |
| Selector.TrimStart | CommandProcessor/Program.cs:76 | removes exactly the leading white space, leaving a suffix that starts with a non-white character |
| Selector.TrimEnd | CommandProcessor/Program.cs:76 | removes exactly the trailing white space, leaving a prefix that ends with a non-white character |
| Selector.ToLower | CommandProcessor/Program.cs:76 | keeps the length and lower-cases every character independently |
| Selector.TrimPadding | CommandProcessor/Program.cs:76 | white space added around a line disappears under `Trim` |
| Selector.NormalizeIdempotent | CommandProcessor/Program.cs:76 | trimming and lower-casing an already normalized line changes nothing |
| Selector.SelectIgnoresCaseAndPadding | CommandProcessor/Program.cs:76-119 | the selection depends only on the trimmed, lower-cased line, so surrounding white space never changes it |
| Selector.ClassifyRun | CommandProcessor/Program.cs:82-97 | a normalized text selects a command kind if and only if it is that kind's number or word |
| Selector.SelectRun | CommandProcessor/Program.cs:76-97 | a line selects a command kind if and only if it is not null and normalizes to that kind's number or word |
| Selector.SelectUndo | CommandProcessor/Program.cs:98 | a line selects undo if and only if it normalizes to "5" or "undo" |
| Selector.ClassifyUndo | CommandProcessor/Program.cs:82-98 | a normalized text selects undo if and only if it is "5" or "undo", since no earlier branch accepts either |
| Selector.SelectInvalid | CommandProcessor/Program.cs:115-119 | a line is invalid if and only if it is null or normalizes to none of the ten accepted numbers and words |
| Selector.RandaddIsInvalid | CommandProcessor/Program.cs:56-61 | every line that lower-cases to the menu's word "randadd", "RandAdd" included, is an invalid command |
| Selector.RandomSelectsRandomAdd | CommandProcessor/Program.cs:94 | every line that lower-cases to "random" selects RandomAdd |
| Controller.Start | CommandProcessor/Program.cs:42-55 | a new session holds the initial number and an empty history |
| Controller.Instantiate | CommandProcessor/Program.cs:82-97 | each selection yields its own command, and a RandomAdd records its drawn amount |
| Controller.ExecAndPush | CommandProcessor/Program.cs:120-124 | executing a command grows the history by one, keeps every earlier entry, puts the command on top and applies its exec to the store |
| Controller.PopAndUndo | CommandProcessor/Program.cs:98-113 | on an empty history nothing changes and "nothing to undo" is reported; otherwise only the top entry is removed and its undo is applied |
| Controller.Step | CommandProcessor/Program.cs:82-127 | an invalid line leaves the session unchanged; undo pops; a command executes, is pushed, and the new value is reported |
| Controller.PushThenPop | CommandProcessor/Program.cs:101-124 | pushing then popping a command restores the session if and only if the command is not an overflowing Double |
| Controller.StepThenUndo | CommandProcessor/Program.cs:82-124 | a command line followed by an undo line restores the session if and only if the command is not an overflowing Double |
| Controller.Steps | CommandProcessor/Program.cs:68-128 | a run of N lines produces exactly N replies |
| Controller.StepsCons | CommandProcessor/Program.cs:68-128 | a run is its first iteration followed by the rest of the run from the session that iteration leaves |
| Controller.IncrementLineStep | CommandProcessor/Program.cs:82-127 | the line "1" executes Increment, pushes it and reports the new number, whatever the random draw |
| Controller.DoubleLineStep | CommandProcessor/Program.cs:90-127 | the line "3" executes Double, pushes it and reports the new number, whatever the random draw |
| Controller.UndoLineStep | CommandProcessor/Program.cs:98-113 | the line "5" does exactly what popping and undoing does |
| Controller.HistoryLength | CommandProcessor/Program.cs:101-124 | after N executed commands and M successful undos the history has grown by N - M, and N is the number of lines that selected a command |
| Controller.UndoAll | CommandProcessor/Program.cs:98-113 | repeating undo until nothing is left empties the history |
| Controller.UndoLinesUndoAll | CommandProcessor/Program.cs:98-113 | typing "5" once per history entry leaves the session `UndoAll` gives, and each of those lines reports an undone command |
| Controller.FaithfulStart | CommandProcessor/Program.cs:42-55 | a new session satisfies the undo invariant: its store is the replay of its empty history |
| Controller.ExecAndPushFaithful | CommandProcessor/Program.cs:120-124 | executing a non-overflowing command and pushing it keeps the store equal to the replay of the history |
| Controller.PopAndUndoFaithful | CommandProcessor/Program.cs:101-104 | popping and undoing keeps the store equal to the replay of the shorter history |
| Controller.StepFaithful | CommandProcessor/Program.cs:82-127 | every step keeps the undo invariant, provided a Double it runs does not overflow |
| Controller.StepsFaithful | CommandProcessor/Program.cs:68-128 | a whole run keeps the undo invariant when none of its Doubles overflow |
| Controller.UndoAllFaithful | CommandProcessor/Program.cs:101-104 | undoing everything from a session that satisfies the invariant returns the store to its initial value |
| Controller.UndoAllRestoresInitial | CommandProcessor/Program.cs:46-127 | after any run without an overflowing Double, undoing until the history is empty restores the initial number |
| Controller.ScenarioIncrementDoubleUndo | CommandProcessor/Program.cs:82-127 | from 5, the lines "1", "3", "5", "5", "5" take the number 5 to 6, 12, 6 and 5, with the history growing to two entries and shrinking to none, and the last undo finds nothing to undo |
| Controller.ScenarioOverflowedDouble | CommandProcessor/Classes/ClassDecimalProcess.cs:250-264 | from 2^30, Double stores -2^31 and its undo gives -2^30, so undoing everything does not restore the initial number |

## Left out

- Console output: the prompts, the menu text, `ForegroundColor`, and `WriteLine` of results. The message each iteration prints is modelled as a `Reply` value.
- Reading the initial number with `Convert.ToInt32(Console.ReadLine())`: `Start` takes the parsed `int`. Parse failures belong to the .NET library.
- `System.Random`: the number the generator produces is the parameter `draw`. Only the range `Next(1, 10)` promises is modelled, not its distribution.
- The `getInstance()` singletons and the `internalNumber` scratch fields. They have no observable effect. Increment, Decrement and Double carry no state that their undo reads, so sharing one instance across history entries changes nothing. RandomAdd gets a fresh instance per selection, and `RandAdd(delta)` is that instance.
- The endless `while (true)` loop. `Steps` runs any finite sequence of lines, and the properties are stated over such runs.
- Selector.ToLower: assumes a current culture in which ASCII `I` lower-cases to `i`, and maps only ASCII `A`-`Z`. `String.ToLower()` uses the current culture. Under a Turkish or Azerbaijani culture it maps `I` to dotless `ı`. There, "Increment" or "INCREMENT" reaches the invalid-command branch, while the model selects Increment. The culture-dependent mapping of other non-ASCII letters is not modelled either.
- A build with `checked` arithmetic, where overflow throws `OverflowException` instead of wrapping, is not modelled.
