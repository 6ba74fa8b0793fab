# hiruge completion engine in Dafny

hiruge is a small X11 command launcher. When it starts, it collects the name of every regular
file or symbolic link in the search-path directories (whether executable or not), plus every
alias name from its configuration. It sorts these names and drops
duplicates. Each key press then edits an input buffer, and the engine rebuilds its candidate
list for the new buffer. The window shows the top candidate. Return runs the top candidate
(or, when there is none, the typed text), after replacing an alias name with its expansion
once.

This project models that core and proves its properties:

- `order.dfy` (module `Order`): the byte-wise string order of `std::string::compare`, plus
  the two standard algorithms the engine applies to name lists. `std::sort` is modelled as an
  insertion sort, proved ascending and a permutation. `std::unique` followed by `erase` is
  the function `Squash` and the loop `Unique`.
- `complete.dfy` (module `Completion`): the static helpers `is_substr` and `split`, and the
  search-path part of `get_system_commands`. Also the class `Complete` with its two fields,
  `commands` and `candidates`, and its members: the constructor, `Update`, `Get` and `Exec`.
  Candidates are positions in `commands`, which model the source's pointers into that
  vector.
- `window.dfy` (module `Window`): `is_num_or_alph`, the KeyPress branch of
  `MainWindow::start` as a reaction to one key, the event loop as a method over the events
  received so far, proved to agree with the reference function `Replay`, and the two text lines of `redraw_window`.

Strings are Dafny strings, one `char` per byte. `Compare` orders characters by their codes.
For byte strings, this is the unsigned-char order that `std::string` uses.

The candidate scan in `update` breaks as soon as `input.compare(name) <= 0`, and this test
comes after the match test. A name that begins with the input never sorts below it, so the
scan passes only names that cannot match. It then stops at the first name that is not below
the input, and keeps that name if the input is a prefix of it. So the candidate list holds
at most one entry. On the sorted list, that entry is the least command beginning with the
input. The cap of 8 never binds. For the names `cat`, `cp`, `curl`, `ls` and the input `c`,
the only candidate is `cat`, although three names begin with `c`. `MatchesExample` and
`CandidatesExample` prove these two facts. Everything the program shows or runs goes through `get(0, …)`, which
sees only the first candidate, so a scan that collected every match up to the cap would
behave exactly the same.

## Model

| member | source | states |
|---|---|---|
| `Order.Compare` | src/complete.cxx:220 | the sign of `std::string::compare`: -1, 0 or 1, and 0 only for strings of equal length |
| `Order.PrefixPrecedes` | src/complete.cxx:218-221 | a string that begins with the input never sorts below the input |
| `Order.PrefixBetween` | src/complete.cxx:218-221 | a name between the input and a name that begins with the input also begins with the input, which is why the scan can stop early |
| `Order.Sort` | src/complete.cxx:152-153 | `std::sort` of the command list: the result is ascending and a permutation of its input |
| `Order.Squash` | src/complete.cxx:113-114 | what `erase(unique(…))` leaves: no two neighbours equal, the same set of elements, first and last element kept |
| `Order.Unique` | src/complete.cxx:155-156 | the in-place `unique` loop (keep an element unless it equals the last one kept) computes `Squash` |
| `Order.SquashKeepsDistinctNeighbours` | src/complete.cxx:113-114 | only adjacent repeats are removed: a list with no two equal neighbours comes out unchanged, in order |
| `Order.SquashIdempotent` | src/complete.cxx:113-114 | removing adjacent repeats twice is the same as once |
| `Order.SquashSorted` | src/complete.cxx:152-156 | sorting and then removing adjacent repeats gives a strictly ascending list, with no duplicates left |
| `Order.StrictlySortedUnique` | src/complete.cxx:152-156 | two strictly ascending lists with the same elements are equal |
| `Completion.IsSubstr` | src/complete.cxx:26-51 | true exactly when the first string is a prefix of the second (not a general substring test); the empty string always passes; true implies the first is no longer than the second |
| `Completion.Find` | src/complete.cxx:83 | `std::string::find(delim, offset)`: the leftmost occurrence at or after the offset, or none when no occurrence exists |
| `Completion.Fields` | src/complete.cxx:70-96 | split's result is never empty; with an empty delimiter it is the string itself |
| `Completion.FieldsProperties` | src/complete.cxx:78-96 | for a non-empty delimiter, joining the pieces with it gives back the string, and no piece contains the delimiter |
| `Completion.Split` | src/complete.cxx:53-97 | the find-and-cut loop returns exactly `Fields(str, delim)`: the whole string for an empty delimiter, otherwise the pieces between successive leftmost occurrences, the last piece running to the end |
| `Completion.PiecesJoin` | src/complete.cxx:78-96 | joining the pieces with the delimiter reproduces the string from the offset on |
| `Completion.PiecesAvoidDelimiter` | src/complete.cxx:78-96 | no piece contains the delimiter |
| `Completion.SplitEmptyPiece` | src/complete.cxx:78-96 | consecutive delimiters give an empty piece: `"a::b"` splits into `"a"`, `""`, `"b"` |
| `Completion.SearchDirs` | src/complete.cxx:110-114 | the directories searched: the pieces of the search path at `:` with adjacent repeats dropped; at least one entry, no two neighbours equal, and the same entries as the split |
| `Completion.Gather` | src/complete.cxx:116-133 | the names collected from the searched directories are exactly the names some existing directory among them lists |
| `Completion.SearchDirsKeepsDistantRepeat` | src/complete.cxx:110-114 | the search path `a:b:a` keeps all three entries, in order |
| `Completion.SearchDirsDropsAdjacentRepeat` | src/complete.cxx:110-114 | the search path `a:a:b` loses the adjacent repeat |
| `Completion.SystemCommands` | src/complete.cxx:99-135 | `get_system_commands` without the file system: split the path at `:`, drop adjacent repeats, then append the listing of each directory that exists, in path order |
| `Completion.Complete.Valid` | src/complete.hxx:71-76 | the object invariant: commands strictly ascending, at most 8 candidates, each a position in `commands` (the pointer vector's elements point into `commands`) |
| `Completion.Complete.constructor` | src/complete.cxx:141-158 | `commands` is strictly ascending, with no duplicates, and holds exactly the names found on the search path plus the alias names; candidates start empty |
| `Completion.UniverseDetermined` | src/complete.cxx:141-158 | the command list is fully determined by its set of names, so the order in which aliases are added does not matter |
| `Completion.Matches` | src/complete.cxx:207-213 | the positions of all names that begin with the input, ascending |
| `Completion.Candidates` | src/complete.cxx:196-224 | the list update leaves: empty for empty input; otherwise at most one position (bounded by 8), empty exactly when no name begins with the input; when present it refers into the names, its name begins with the input, and no earlier name does |
| `Completion.ScanStop` | src/complete.cxx:207-221 | where the scan breaks at the first name not below the input, the candidate list is that name if it begins with the input, and empty otherwise |
| `Completion.LeastCandidate` | src/complete.cxx:207-221 | on a strictly ascending list, the candidate's name is the least name that begins with the input |
| `Completion.Complete.Update` | src/complete.cxx:196-224 | clears and rebuilds only `candidates` and leaves `commands` unchanged; the result equals `Candidates(commands, input)`, is empty for empty input, and keeps the object invariant (positions are in range, strictly increasing and at most 8); every candidate begins with the input |
| `Completion.Complete.Get` | src/complete.hxx:44-55 | the candidate at `index` when `index` is in range, otherwise the default; it reads the object and changes nothing |
| `Completion.ResolveAlias` | src/complete.cxx:171-173 | an alias name becomes its expansion; any other name stays as it is |
| `Completion.Complete.Exec` | src/complete.cxx:164-176 | the command line is `get(0, input)` after one alias hop, followed by `" 1>/dev/null 2>/dev/null &"`; it changes nothing |
| `Completion.TopName` | src/complete.cxx:183-224 | the top candidate's text: when some name begins with the non-empty input, the least such name; otherwise the fallback |
| `Completion.GetAfterUpdate` | src/complete.cxx:183-224 | after `update(input)`, `get(0, d)` is the least command that begins with the input, or `d` |
| `Completion.ExecAfterUpdate` | src/complete.cxx:164-176 | after `update(input)`, exec runs the least command that begins with the input, or the raw input when there is none, after one alias hop |
| `Completion.AliasSingleHop` | src/complete.cxx:171-173 | when an alias expands to another alias name, that name runs literally; it is not expanded again |
| `Completion.MatchesExample` | src/complete.cxx:207-213 | for `cat`, `cp`, `curl`, `ls`, three names begin with `c`: positions 0, 1 and 2 |
| `Completion.CandidatesExample` | src/complete.cxx:207-221 | for the same names, update for `c` keeps only `cat` |
| `Completion.MatchesNarrowExample` | src/complete.cxx:207-213 | for the same names, only `curl` begins with `cu` |
| `Completion.CandidatesNarrowExample` | src/complete.cxx:207-221 | for the same names, update for `cu` keeps `curl` |
| `Window.IsNumOrAlph` | src/window.cxx:26-41 | the printable characters 32..126: letters and digits are among them, and Return, newline, Escape and Backspace are not |
| `Window.React` | src/window.cxx:185-215 | one key: Return or newline runs the buffer unchanged; a printable key (32..126) appends exactly that character; Escape closes; Backspace drops the last character of a non-empty buffer and leaves an empty one empty; any other key does nothing |
| `Window.ReactKeepsPrintable` | src/window.cxx:192-211 | a buffer of printable characters stays printable under every key |
| `Window.BackspaceUndoesKey` | src/window.cxx:192-211 | Backspace after a printable key restores the previous buffer |
| `Window.Redraw` | src/window.cxx:237-238 | the screen lines are `"Command  : " + input` and `"Candidate: " + get(0, "Command not found")` |
| `Window.View` | src/window.cxx:237-238 | the candidate line names the least command that begins with the buffer when one exists, and shows "Command not found" otherwise |
| `Window.RedrawShowsView` | src/window.cxx:231-243 | while the candidates belong to the current buffer, the window shows `View` of that buffer |
| `Window.Replay` | src/window.cxx:167-224 | the loop as a reference function over the events: each event handled in turn from an empty buffer until Return or Escape; the buffer and every redrawn buffer hold only printable characters |
| `Window.ReplayEnded` | src/window.cxx:186-202 | once Return or Escape has ended the loop, no later event changes anything |
| `Window.ReturnRunsBuffer` | src/window.cxx:186-190 | Return ends the loop with the buffer as it stands and redraws nothing more, whatever follows |
| `Window.EscapeCloses` | src/window.cxx:201-202 | Escape ends the loop with the buffer kept, whatever follows |
| `Window.IgnoredEvents` | src/window.cxx:214-221 | a key release, another event, or a key the loop does not handle leaves buffer, redraws and progress unchanged |
| `Window.TypingAppends` | src/window.cxx:193-198 | a printable key appends itself to the buffer, and the window is redrawn with the new buffer |
| `Window.ReplayRunExample` | src/window.cxx:186-198 | typing `l`, `s`, Return, `x` runs `ls` after redrawing `l` and `ls`; the `x` is never seen |
| `Window.ReplayEscapeExample` | src/window.cxx:193-202 | typing `a` and Escape closes the window with `a` in the buffer |
| `Window.Start` | src/window.cxx:147-225 | the event loop does what `Replay` says: same final buffer, same redrawn buffers; the outcome is `Executed(exec(buffer))` exactly when Replay stopped at Return, `Closed` exactly when it stopped at Escape, and `Waiting` when the events ran out; the candidates always equal `Candidates(commands, buffer)`; `commands` never changes; every redraw shows `View` of the buffer at that moment |

## Left out

- File system: `is_directory`, `directory_iterator`, `is_regular_file` and `is_symlink` are left out. The scan result enters as a map from directory path to the names of its regular files and symbolic links; no test for the executable bit exists in the program, and none is modelled. A path missing from the map is not a directory.
- `getenv("PATH")` is left out, including its null result when the variable is unset. The search path is an ordinary parameter.
- `system(cmd)` and its return status are left out, since they spawn a process. `Exec` stops at the command string and returns it in place of the status.
- The configuration loader (src/config.cxx, a wrapper over an external TOML parser) is not part of this model. The alias table is a `map` that the constructor receives and keeps as a constant field. The source reads a global that is loaded before the engine exists and never changes afterwards, so this is the same table.
- The iteration order of alias keys is not modelled: the constructor adds them in any order. The result does not depend on it, by `UniverseDetermined`.
- X11 and Xft are left out: window creation, fonts, colours, the title, `XNextEvent` and the drawing calls. Events enter as a finite sequence, and when it runs out the outcome is `Waiting`. The source would block for the next event at that point.
- The `KeySym` to `char` cast is left out. The key enters as an already-truncated character.
- Window.Start: `Expose` redraws, and the `KeyRelease` and other events do nothing. The model records screens as text and does not place or draw them.
- Completion.Complete.Get: requires the object invariant. This stands for the source's guarantee that every candidate pointer refers into `commands`.
- The cap of 8 candidates is checked in `Update` exactly as in the source. The model proves that the candidate list never holds more than one entry, so the cap is never what stops the scan.
